/** The pool on the heap: connections are shared objects, the persistent list maps keys to them. */
module PoolHeap {
  import opened Wrappers
  import opened PoolSpec

  class Connection {
    const key: string
    var refs: int
    var idleAt: int
    /** Whether the libcouchbase handle is still there. */
    var open: bool

    constructor (key: string)
      ensures this.key == key && refs == 1 && idleAt == 0 && open
    {
      this.key, refs, idleAt, open := key, 1, 0, true;
    }

    function Abs(): Slot<Connection>
      reads this
    {
      Live(this, refs, idleAt)
    }

    /** pcbc_connection_addref. */
    method TakeRef()
      modifies this`refs, this`idleAt
      ensures Abs() == AddRef(old(Abs()))
    {
      refs := refs + 1;
      idleAt := 0;
    }

    /** pcbc_connection_delref. */
    method DropRef(now: int)
      modifies this`refs, this`idleAt
      ensures Abs() == DelRef(old(Abs()), now)
    {
      refs := refs - 1;
      if refs == 0 {
        idleAt := now;
      }
    }

    /** pcbc_destroy_connection_resource. */
    method Destroy()
      modifies this`open
      ensures !open
    {
      if open {
        open := false;
      }
    }
  }

  /** How establishing a new connection and caching it turn out; one that cannot be cached is left behind. */
  datatype Attempt = Established | NotEstablished | NotCached

  class Pool {
    var persistent: map<string, Connection?>
    ghost var repr: set<Connection>

    ghost predicate Valid()
      reads this, repr
    {
      forall k :: k in persistent && persistent[k] != null ==>
        && persistent[k] in repr
        && persistent[k].key == k
        && persistent[k].open
    }

    /** The abstract slots this heap stands for. */
    ghost function Abs(): Slots<Connection>
      requires Valid()
      reads this, repr
    {
      map k | k in persistent :: if persistent[k] == null then Gone else persistent[k].Abs()
    }

    constructor ()
      ensures Valid() && Abs() == map[] && repr == {}
    {
      persistent, repr := map[], {};
    }

    /** pcbc_connection_lookup: a destroyed entry is a miss. */
    method Lookup(key: string) returns (conn: Connection?)
      requires Valid()
      ensures conn == null <==> !Hit(Abs(), key)
      ensures conn != null ==> key in persistent && persistent[key] == conn
    {
      conn := null;
      if key in persistent {
        conn := persistent[key];
      }
    }

    /** pcbc_connection_get, after normalisation; `attempt` is what making a new connection comes to. */
    method Get(t: ConnType, connstr: string, authHash: string, attempt: Attempt) returns (conn: Connection?)
      requires Valid()
      modifies this, repr
      ensures Valid() && fresh(repr - old(repr)) && old(repr) <= repr
      ensures conn == null <==> !Hit(old(Abs()), KeyOf(t, connstr, authHash)) && attempt != Established
      ensures conn == null ==> Abs() == old(Abs())
      ensures conn != null ==> Abs() == Got(old(Abs()), KeyOf(t, connstr, authHash), Some(conn))
                               && Abs()[KeyOf(t, connstr, authHash)].conn == conn
      ensures conn != null && !Hit(old(Abs()), KeyOf(t, connstr, authHash)) ==> fresh(conn)
      ensures forall c :: c in old(repr) ==> c.open == old(c.open)
    {
      hide KeyOf;
      var key := KeyOf(t, connstr, authHash);
      conn := Lookup(key);
      if conn != null {
        conn.TakeRef();
        return;
      }
      if attempt == NotEstablished {
        return;
      }
      var made := new Connection(key);
      if attempt == NotCached {
        return;
      }
      persistent, repr := persistent[key := made], repr + {made};
      conn := made;
    }

    /** A further reference to a connection in use: a bucket manager taking its bucket's. */
    method Share(conn: Connection)
      requires Valid() && conn.key in persistent && persistent[conn.key] == conn
      modifies repr
      ensures Valid() && persistent == old(persistent) && repr == old(repr)
      ensures Abs() == old(Abs())[conn.key := AddRef(old(conn.Abs()))]
    {
      conn.TakeRef();
    }

    /** An object dies and drops its reference. */
    method Release(conn: Connection, now: int)
      requires Valid() && conn.key in persistent && persistent[conn.key] == conn
      modifies repr
      ensures Valid() && persistent == old(persistent) && repr == old(repr)
      ensures Abs() == old(Abs())[conn.key := DelRef(old(conn.Abs()), now)]
    {
      conn.DropRef(now);
    }

    /** pcbc_destroy_idle_connections on one entry. */
    method SweepEntry(key: string, now: int)
      requires Valid() && key in persistent
      modifies this`persistent, repr
      ensures Valid() && repr == old(repr) && persistent.Keys == old(persistent.Keys)
      ensures Abs() == old(Abs())[key := if Expired(old(Abs())[key], now) then Gone else old(Abs())[key]]
      ensures forall c :: c in repr ==>
                c.open == (old(c.open) && !(c.key == key && ExpiredIn(old(Abs()), c, now)))
    {
      var conn := persistent[key];
      if conn == null {
        return;
      }
      if conn.refs > 0 {
        return;
      }
      if conn.idleAt == 0 {
        return;
      }
      if now - conn.idleAt > 60 {
        conn.Destroy();
        persistent := persistent[key := null];
      }
    }

    /** pcbc_connection_cleanup: the sweep visits every entry once, in any order.  Exactly the expired
        connections are closed; every other entry keeps its own. */
    method Cleanup(now: int)
      requires Valid()
      modifies this`persistent, repr
      ensures Valid()
      ensures Abs() == Swept(old(Abs()), now)
      ensures repr == old(repr)
      ensures forall c :: c in repr ==>
                c.open == (old(c.open) && !ExpiredIn(old(Abs()), c, now))
    {
      ghost var before := Abs();
      var todo := persistent.Keys;
      while todo != {}
        invariant Valid() && repr == old(repr)
        invariant todo <= persistent.Keys == before.Keys
        invariant Abs() == SweptBut(before, todo, now)
        invariant forall c :: c in repr ==>
                    c.open == (old(c.open) && !ClosedBut(before, todo, now, c))
        decreases todo
      {
        hide SweptBut, ExpiredIn, ClosedBut;
        var key :| key in todo;
        SweepEntry(key, now);
        SweptOneMore(before, todo, now, key);
        todo := todo - {key};
      }
    }
  }

  /** The connection is in the list, under its key, and due to be destroyed. */
  ghost predicate ExpiredIn(slots: Slots<Connection>, c: Connection, now: int) {
    Hit(slots, c.key) && slots[c.key].conn == c && Expired(slots[c.key], now)
  }

  /** The sweep when the entries `todo` are still to be visited. */
  ghost function SweptBut<C>(slots: Slots<C>, todo: set<string>, now: int): Slots<C> {
    map k | k in slots :: if k !in todo && Expired(slots[k], now) then Gone else slots[k]
  }

  /** The connection is expired and its entry no longer among those still to be visited. */
  ghost predicate ClosedBut(slots: Slots<Connection>, todo: set<string>, now: int, c: Connection) {
    c.key !in todo && ExpiredIn(slots, c, now)
  }

  lemma SweptOneMore(slots: Slots<Connection>, todo: set<string>, now: int, key: string)
    requires key in todo && key in slots
    ensures key in SweptBut(slots, todo, now)
    ensures var now' := SweptBut(slots, todo, now);
      SweptBut(slots, todo - {key}, now)
      == now'[key := if Expired(now'[key], now) then Gone else now'[key]]
    ensures forall c :: ClosedBut(slots, todo - {key}, now, c)
                   <==> ClosedBut(slots, todo, now, c)
                        || (c.key == key && ExpiredIn(SweptBut(slots, todo, now), c, now))
  {
  }
}
