/** The persistent connection pool as a state machine: buckets and managers hold references to shared
    connections, and idle connections are destroyed at the end of a request. */
module PoolSpec {
  import opened Wrappers

  type Holder = nat

  datatype ConnType = TypeBucket | TypeCluster

  // ---- Pool keys ------------------------------------------------------------------------------------

  /** LCB_TYPE_BUCKET and LCB_TYPE_CLUSTER as decimal text. */
  function TypeText(t: ConnType): string {
    match t
    case TypeBucket => "0"
    case TypeCluster => "1"
  }

  function KeyOf(t: ConnType, connstr: string, authHash: string): string {
    TypeText(t) + ['|'] + connstr + ['|'] + authHash
  }

  lemma {:induction false} LastBar(a: string, b: string, x: string, y: string)
    requires '|' !in b && '|' !in y
    requires a + ['|'] + b == x + ['|'] + y
    ensures a == x && b == y
  {
    BarNotEarlier(a, b, x, y);
    BarNotEarlier(x, y, a, b);
    var s := a + ['|'] + b;
    assert a == s[..|a|] && x == s[..|x|];
    assert b == s[|a| + 1..] && y == s[|x| + 1..];
  }

  lemma BarNotEarlier(a: string, b: string, x: string, y: string)
    requires '|' !in b
    requires a + ['|'] + b == x + ['|'] + y
    ensures |a| >= |x|
  {
    var s := a + ['|'] + b;
    assert s[|x|] == '|';
    forall i | |a| < i < |s| ensures s[i] != '|' {
      assert s[i] == b[i - |a| - 1];
    }
  }

  /** Different parameters never share a key: the hash is hexadecimal, so the last bar ends the
      connection string even if that contains bars. */
  lemma KeyInjective(t: ConnType, connstr: string, hash: string, t': ConnType, connstr': string, hash': string)
    requires '|' !in hash && '|' !in hash'
    requires KeyOf(t, connstr, hash) == KeyOf(t', connstr', hash')
    ensures t == t' && connstr == connstr' && hash == hash'
  {
    var a, x := TypeText(t) + ['|'] + connstr, TypeText(t') + ['|'] + connstr';
    LastBar(a, hash, x, hash');
    assert a[0] == TypeText(t)[0] && x[0] == TypeText(t')[0];
    assert a[2..] == connstr && x[2..] == connstr';
  }

  // ---- Slots of the persistent list --------------------------------------------------------------------

  /** `Gone`: the entry is there but its connection has been destroyed.  `conn` is the connection itself. */
  datatype Slot<C> = Gone | Live(conn: C, refs: int, idleAt: int)

  type Slots<C> = map<string, Slot<C>>

  predicate Hit<C>(slots: Slots<C>, key: string) {
    key in slots && slots[key].Live?
  }

  function AddRef<C>(slot: Slot<C>): Slot<C>
    requires slot.Live?
  {
    Live(slot.conn, slot.refs + 1, 0)
  }

  function DelRef<C>(slot: Slot<C>, now: int): Slot<C>
    requires slot.Live?
  {
    Live(slot.conn, slot.refs - 1, if slot.refs - 1 == 0 then now else slot.idleAt)
  }

  /** pcbc_connection_get: share a live connection, or take the one newly made, if it could be established
      and cached. */
  function Got<C>(slots: Slots<C>, key: string, made: Option<C>): Slots<C> {
    if Hit(slots, key) then slots[key := AddRef(slots[key])]
    else if made.Some? then slots[key := Live(made.value, 1, 0)]
    else slots
  }

  predicate Expired<C>(slot: Slot<C>, now: int) {
    slot.Live? && slot.refs <= 0 && slot.idleAt != 0 && now - slot.idleAt > 60
  }

  function Swept<C>(slots: Slots<C>, now: int): Slots<C> {
    map k | k in slots :: if Expired(slots[k], now) then Gone else slots[k]
  }

  // ---- Runs ----------------------------------------------------------------------------------------------

  /** What a PHP object holds: a connection, found under a key. */
  datatype Handle<C> = Handle(key: string, conn: C)

  /** `holders`: the PHP objects alive.  `released`: when each key last lost a holder.  `made`: all the
      connections there have ever been. */
  datatype Pool<C(==)> = Pool(
    slots: Slots<C>,
    holders: map<Holder, Handle<C>>,
    now: int,
    released: map<string, int>,
    made: set<C>)

  datatype Step<C> =
    | Open(holder: Holder, key: string, made: Option<C>)
    | Manage(holder: Holder, bucket: Holder)
    | Free(holder: Holder)
    | Clock(now: int)
    | Cleanup

  predicate Enabled<C(==)>(p: Pool<C>, s: Step<C>) {
    match s
    case Open(h, _, made) => h !in p.holders && (made.Some? ==> made.value !in p.made)
    case Manage(h, b) => h !in p.holders && b in p.holders && Hit(p.slots, p.holders[b].key)
    case Free(h) => h in p.holders && Hit(p.slots, p.holders[h].key)
    case Clock(t) => t > 0
    case Cleanup => true
  }

  function Next<C(==)>(p: Pool<C>, s: Step<C>): Pool<C>
    requires Enabled(p, s)
  {
    match s
    case Open(h, key, made) =>
      var slots := Got(p.slots, key, made);
      p.(slots := slots,
         holders := if Hit(slots, key) then p.holders[h := Handle(key, slots[key].conn)] else p.holders,
         made := if made.Some? then p.made + {made.value} else p.made)
    case Manage(h, b) =>
      var key := p.holders[b].key;
      p.(slots := p.slots[key := AddRef(p.slots[key])], holders := p.holders[h := p.holders[b]])
    case Free(h) =>
      var key := p.holders[h].key;
      p.(slots := p.slots[key := DelRef(p.slots[key], p.now)], holders := p.holders - {h},
         released := p.released[key := p.now])
    case Clock(t) => p.(now := t)
    case Cleanup => p.(slots := Swept(p.slots, p.now))
  }

  function HoldersOf<C(==)>(p: Pool<C>, conn: C): set<Holder> {
    set h | h in p.holders && p.holders[h].conn == conn
  }

  predicate SlotRight<C(==)>(p: Pool<C>, key: string)
    requires key in p.slots
  {
    var slot := p.slots[key];
    slot.Live? ==>
      && slot.conn in p.made
      && slot.refs == |HoldersOf(p, slot.conn)|
      && (slot.idleAt == 0 <==> slot.refs > 0)
      && (slot.refs == 0 ==> key in p.released && slot.idleAt == p.released[key])
  }

  /** The holder's own connection is the live one under its key. */
  predicate Holds<C(==)>(p: Pool<C>, handle: Handle<C>) {
    Hit(p.slots, handle.key) && p.slots[handle.key].conn == handle.conn
  }

  /** No connection is under two keys. */
  predicate Apart<C(==)>(slots: Slots<C>) {
    forall k, l :: k in slots && l in slots && Hit(slots, k) && Hit(slots, l) && slots[k].conn == slots[l].conn ==> k == l
  }

  /** References count holders; a connection is idle exactly while nobody holds it, since its last
      release; no holder's connection is gone or replaced. */
  predicate Inv<C(==)>(p: Pool<C>) {
    && p.now > 0
    && (forall k :: k in p.slots ==> SlotRight(p, k))
    && (forall h :: h in p.holders ==> Holds(p, p.holders[h]))
    && Apart(p.slots)
  }

  lemma HolderAdded<C>(p: Pool<C>, p': Pool<C>, h: Holder, handle: Handle<C>, conn: C)
    requires h !in p.holders && p'.holders == p.holders[h := handle]
    ensures HoldersOf(p', conn) == (if conn == handle.conn then HoldersOf(p, conn) + {h} else HoldersOf(p, conn))
    ensures h !in HoldersOf(p, conn)
  {
  }

  lemma HolderGone<C>(p: Pool<C>, p': Pool<C>, h: Holder, conn: C)
    requires h in p.holders && p'.holders == p.holders - {h}
    ensures HoldersOf(p', conn)
         == (if conn == p.holders[h].conn then HoldersOf(p, conn) - {h} else HoldersOf(p, conn))
    ensures conn == p.holders[h].conn ==> h in HoldersOf(p, conn)
  {
  }

  lemma NoHolders<C>(p: Pool<C>, conn: C)
    requires Inv(p) && conn !in p.made
    ensures HoldersOf(p, conn) == {}
  {
    forall h | h in p.holders ensures p.holders[h].conn != conn {
      assert Holds(p, p.holders[h]) && SlotRight(p, p.holders[h].key);
    }
  }

  /** One more holder of the connection under `key`. */
  lemma Joined<C>(p: Pool<C>, p': Pool<C>, h: Holder, key: string)
    requires Inv(p) && h !in p.holders && Hit(p.slots, key)
    requires p'.slots == p.slots[key := AddRef(p.slots[key])]
    requires p'.holders == p.holders[h := Handle(key, p.slots[key].conn)]
    requires p'.now == p.now && p'.released == p.released && p.made <= p'.made
    ensures Inv(p')
  {
    StillApart(p.slots, p'.slots);
    hide SlotRight, Holds, Apart, AddRef;
    forall k | k in p'.slots ensures SlotRight(p', k) {
      JoinedSlot(p, p', h, key, k);
    }
    forall g | g in p'.holders ensures Holds(p', p'.holders[g]) {
      JoinedHolder(p, p', h, key, g);
    }
  }

  lemma JoinedHolder<C>(p: Pool<C>, p': Pool<C>, h: Holder, key: string, g: Holder)
    requires Hit(p.slots, key) && (g in p.holders ==> Holds(p, p.holders[g]))
    requires p'.slots == p.slots[key := AddRef(p.slots[key])]
    requires p'.holders == p.holders[h := Handle(key, p.slots[key].conn)] && g in p'.holders
    ensures Holds(p', p'.holders[g])
  {
  }

  lemma JoinedSlot<C>(p: Pool<C>, p': Pool<C>, h: Holder, key: string, k: string)
    requires Hit(p.slots, key) && SlotRight(p, key)
    requires k in p.slots && SlotRight(p, k) && Apart(p.slots) && h !in p.holders
    requires p'.slots == p.slots[key := AddRef(p.slots[key])]
    requires p'.holders == p.holders[h := Handle(key, p.slots[key].conn)]
    requires p'.released == p.released && p.made <= p'.made
    ensures SlotRight(p', k)
  {
    if Hit(p.slots, k) {
      HolderAdded(p, p', h, Handle(key, p.slots[key].conn), p.slots[k].conn);
    }
  }

  lemma StillApart<C>(slots: Slots<C>, slots': Slots<C>)
    requires Apart(slots)
    requires forall k :: Hit(slots', k) ==> Hit(slots, k) && slots'[k].conn == slots[k].conn
    ensures Apart(slots')
  {
  }

  lemma OpenKeepsInv<C>(p: Pool<C>, h: Holder, key: string, made: Option<C>)
    requires Inv(p) && Enabled(p, Open(h, key, made))
    ensures Inv(Next(p, Open(h, key, made)))
  {
    var p' := Next(p, Open(h, key, made));
    if Hit(p.slots, key) {
      Joined(p, p', h, key);
    } else if made.Some? {
      var conn := made.value;
      NoHolders(p, conn);
      forall k | k in p'.slots ensures SlotRight(p', k) {
        assert k in p.slots ==> SlotRight(p, k);
        if Hit(p'.slots, k) {
          HolderAdded(p, p', h, Handle(key, conn), p'.slots[k].conn);
        }
      }
      forall g | g in p'.holders ensures Holds(p', p'.holders[g]) {
        assert g != h ==> Holds(p, p.holders[g]);
      }
      NewApart(p, key, conn);
    }
  }

  lemma NewApart<C>(p: Pool<C>, key: string, conn: C)
    requires Inv(p) && conn !in p.made
    ensures Apart(p.slots[key := Live(conn, 1, 0)])
  {
    forall k | Hit(p.slots, k) ensures p.slots[k].conn != conn {
      assert SlotRight(p, k);
    }
  }

  lemma ManageKeepsInv<C>(p: Pool<C>, h: Holder, b: Holder)
    requires Inv(p) && Enabled(p, Manage(h, b))
    ensures Inv(Next(p, Manage(h, b)))
  {
    assert Holds(p, p.holders[b]);
    Joined(p, Next(p, Manage(h, b)), h, p.holders[b].key);
  }

  lemma FreeKeepsInv<C>(p: Pool<C>, h: Holder)
    requires Inv(p) && Enabled(p, Free(h))
    ensures Inv(Next(p, Free(h)))
  {
    var p', key := Next(p, Free(h)), p.holders[h].key;
    assert Holds(p, p.holders[h]);
    forall k | k in p'.slots ensures SlotRight(p', k) {
      assert SlotRight(p, k) && SlotRight(p, key);
      if Hit(p.slots, k) {
        HolderGone(p, p', h, p.slots[k].conn);
      }
    }
    forall g | g in p'.holders ensures Holds(p', p'.holders[g]) {
      assert Holds(p, p.holders[g]);
    }
    StillApart(p.slots, p'.slots);
  }

  lemma SweepKeepsInv<C>(p: Pool<C>)
    requires Inv(p)
    ensures Inv(Next(p, Cleanup))
  {
    var p' := Next(p, Cleanup);
    forall k | k in p'.slots ensures SlotRight(p', k) {
      assert SlotRight(p, k);
      if Hit(p.slots, k) {
        assert HoldersOf(p', p.slots[k].conn) == HoldersOf(p, p.slots[k].conn);
      }
    }
    forall h | h in p'.holders ensures Holds(p', p'.holders[h]) {
      assert Holds(p, p.holders[h]) && SlotRight(p, p.holders[h].key);
      assert h in HoldersOf(p, p.holders[h].conn);
    }
    StillApart(p.slots, p'.slots);
  }

  lemma ClockKeepsInv<C>(p: Pool<C>, now: int)
    requires Inv(p) && now > 0
    ensures Inv(p.(now := now))
  {
    var p' := p.(now := now);
    forall k | k in p'.slots ensures SlotRight(p', k) {
      assert SlotRight(p, k);
      if Hit(p.slots, k) {
        assert HoldersOf(p', p.slots[k].conn) == HoldersOf(p, p.slots[k].conn);
      }
    }
    assert forall h :: h in p.holders ==> Holds(p, p.holders[h]) && Holds(p', p.holders[h]);
  }

  /** Who holds what after each step: a manager its bucket's connection, a freed object nothing, and the time of
      the release is kept; time and cleanup change no holder, and no step another object's handle. */
  lemma HolderRule<C>(p: Pool<C>, s: Step<C>)
    requires Inv(p) && Enabled(p, s)
    ensures var p' := Next(p, s);
      && (s.Manage? ==> p'.holders.Keys == p.holders.Keys + {s.holder} && p'.holders[s.holder] == p.holders[s.bucket])
      && (s.Free? ==> p'.holders.Keys == p.holders.Keys - {s.holder}
                      && p'.released == p.released[p.holders[s.holder].key := p.now])
      && (s.Open? ==> p'.holders.Keys == p.holders.Keys
                        + (if Hit(p.slots, s.key) || s.made.Some? then {s.holder} else {}))
      && (s.Clock? ==> p'.now == s.now && p'.holders == p.holders && p'.slots == p.slots)
      && (s.Cleanup? ==> p'.holders == p.holders)
      && (!s.Clock? ==> p'.now == p.now)
      && (forall h :: h in p.holders && h in p'.holders ==> p'.holders[h] == p.holders[h])
  {
  }

  lemma KeyExample()
    ensures KeyOf(TypeBucket, "couchbase://a", "ff") == "0|couchbase://a|ff"
    ensures KeyOf(TypeCluster, "couchbase://a", "ff") == "1|couchbase://a|ff"
  {
  }

  lemma StepKeepsInv<C>(p: Pool<C>, s: Step<C>)
    requires Inv(p) && Enabled(p, s)
    ensures Inv(Next(p, s))
  {
    hide Inv;
    match s {
      case Open(h, key, made) => OpenKeepsInv(p, h, key, made);
      case Manage(h, b) => ManageKeepsInv(p, h, b);
      case Free(h) => FreeKeepsInv(p, h);
      case Clock(t) => ClockKeepsInv(p, t);
      case Cleanup => SweepKeepsInv(p);
    }
  }

  predicate Runs<C(==)>(p: Pool<C>, steps: seq<Step<C>>)
    decreases |steps|
  {
    steps != [] ==> Enabled(p, steps[0]) && Runs(Next(p, steps[0]), steps[1..])
  }

  function After<C(==)>(p: Pool<C>, steps: seq<Step<C>>): Pool<C>
    requires Runs(p, steps)
    decreases |steps|
  {
    if steps == [] then p else After(Next(p, steps[0]), steps[1..])
  }

  lemma {:induction false} RunKeepsInv<C>(p: Pool<C>, steps: seq<Step<C>>)
    requires Inv(p) && Runs(p, steps)
    ensures Inv(After(p, steps))
    decreases |steps|
  {
    hide Inv;
    if steps != [] {
      StepKeepsInv(p, steps[0]);
      RunKeepsInv(Next(p, steps[0]), steps[1..]);
    }
  }

  /** A fresh process: no entries, nobody holding anything. */
  function Start<C(==)>(now: int): Pool<C> {
    Pool(map[], map[], now, map[], {})
  }

  /** What the pool promises its users after any run of opening, managing, freeing, waiting and cleaning up
      from a fresh process: the connection an object was given is still the live one under its key; references
      count the objects that hold that very connection; it is idle exactly when there are none; and no
      connection serves two keys. */
  lemma PoolSafety<C>(now: int, steps: seq<Step<C>>)
    requires now > 0 && Runs(Start(now), steps)
    ensures var p := After(Start(now), steps);
      && (forall h :: h in p.holders ==>
            && Hit(p.slots, p.holders[h].key)
            && p.slots[p.holders[h].key].conn == p.holders[h].conn
            && p.slots[p.holders[h].key].refs >= 1)
      && (forall k :: Hit(p.slots, k) ==>
            && p.slots[k].refs == |HoldersOf(p, p.slots[k].conn)|
            && (p.slots[k].idleAt == 0 <==> p.slots[k].refs > 0))
      && (forall k, l :: Hit(p.slots, k) && Hit(p.slots, l) && p.slots[k].conn == p.slots[l].conn ==> k == l)
  {
    RunKeepsInv(Start(now), steps);
    var p := After(Start(now), steps);
    hide After, Runs;
    forall h | h in p.holders ensures Holds(p, p.holders[h]) && p.slots[p.holders[h].key].refs >= 1 {
      assert Holds(p, p.holders[h]) && SlotRight(p, p.holders[h].key);
      assert h in HoldersOf(p, p.holders[h].conn);
    }
    assert forall k :: k in p.slots ==> SlotRight(p, k);
  }

  /** Cleanup destroys a connection exactly when nobody holds it and it lost its last holder more than
      60 seconds ago. */
  lemma EvictionRule<C>(p: Pool<C>, key: string)
    requires Inv(p) && Hit(p.slots, key)
    ensures !Hit(Next(p, Cleanup).slots, key)
       <==> HoldersOf(p, p.slots[key].conn) == {} && key in p.released && p.now - p.released[key] > 60
  {
    assert SlotRight(p, key);
  }

  /** Two objects opened with the same parameters hold the same connection; with different ones never.  A
      destroyed entry is a miss: opening it again starts with one reference to a new connection. */
  lemma SharingRule<C>(p: Pool<C>, h: Holder, t: ConnType, connstr: string, hash: string, made: Option<C>,
                       h': Holder, t': ConnType, connstr': string, hash': string)
    requires Inv(p) && Enabled(p, Open(h, KeyOf(t, connstr, hash), made))
    requires Hit(p.slots, KeyOf(t, connstr, hash)) || made.Some?
    requires '|' !in hash && '|' !in hash'
    requires h' in p.holders && p.holders[h'].key == KeyOf(t', connstr', hash')
    ensures var key := KeyOf(t, connstr, hash); var p' := Next(p, Open(h, key, made));
      && h in p'.holders && h' in p'.holders && p'.holders[h'] == p.holders[h']
      && (p'.holders[h].conn == p'.holders[h'].conn <==> t == t' && connstr == connstr' && hash == hash')
      && Hit(p'.slots, key) && p'.slots[key].conn == p'.holders[h].conn
      && (if Hit(p.slots, key) then p'.slots[key].refs == |HoldersOf(p, p.slots[key].conn)| + 1
          else p'.slots[key].refs == 1 && p'.holders[h].conn !in p.made)
  {
    var key, key' := KeyOf(t, connstr, hash), KeyOf(t', connstr', hash');
    if key == key' {
      KeyInjective(t, connstr, hash, t', connstr', hash');
    }
    hide KeyOf;
    assert Holds(p, p.holders[h']) && SlotRight(p, key');
    if Hit(p.slots, key) {
      assert SlotRight(p, key);
    }
  }
}
