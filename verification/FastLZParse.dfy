/** How the FastLZ compressor cuts its input into operations, as a function of the input alone, and the
    proof that nothing is lost: the operations are valid and expand to the input. */
module FastLZParse {
  import opened FastLZFormat

  /** The compressor looks only at candidates closer than this. */
  function DistanceLimit(level: Level): nat {
    if level == 1 then NEAR_DISTANCE else MAX_FARDISTANCE
  }

  const HASH_SIZE: nat := 8192

  /** A hash slot holds a position in the input. */
  type Table = t: seq<nat> | |t| == HASH_SIZE witness seq(HASH_SIZE, i => 0)

  predicate Earlier(table: seq<nat>, ip: nat) {
    forall i :: 0 <= i < |table| ==> table[i] < ip
  }

  function U16(lo: byte, hi: byte): bv16 {
    (lo as bv16) | ((hi as bv16) << 8)
  }

  function HashOf(b0: byte, b1: byte, b2: byte): (h: nat)
    ensures h < HASH_SIZE
  {
    var v := U16(b0, b1);
    ((v ^ U16(b1, b2) ^ (v >> 3)) & 8191) as bv13 as nat
  }

  function Hash(src: seq<byte>, p: nat): (h: nat)
    requires p + 2 < |src|
    ensures h < HASH_SIZE
  {
    HashOf(src[p], src[p + 1], src[p + 2])
  }

  /** src[lo..hi] equals the bytes `distance` before it (the two may overlap). */
  predicate Repeats(src: seq<byte>, distance: nat, lo: nat, hi: nat) {
    distance <= lo <= hi <= |src| && src[lo..hi] == src[lo - distance..hi - distance]
  }

  lemma RepeatsJoin(src: seq<byte>, distance: nat, lo: nat, mid: nat, hi: nat)
    requires Repeats(src, distance, lo, mid) && Repeats(src, distance, mid, hi)
    ensures Repeats(src, distance, lo, hi)
  {
    assert src[lo..hi] == src[lo..mid] + src[mid..hi];
    assert src[lo - distance..hi - distance] == src[lo - distance..mid - distance] + src[mid - distance..hi - distance];
  }

  /** The test for a run: the three bytes from ip repeat the byte before it. */
  predicate IsRun(src: seq<byte>, ip: nat)
    requires 1 <= ip && ip + 2 < |src|
  {
    src[ip] == src[ip - 1] && src[ip - 1] == src[ip + 1] && src[ip] == src[ip + 2]
  }

  /** How many bytes the first test of a candidate matches: none, three, or five if it is far away. */
  function Probe(level: Level, src: seq<byte>, ip: nat, ref: nat): (k: nat)
    requires ref < ip && ip + 4 < |src|
    ensures k == 0 || k == 3 || k == 5
    ensures k == 5 <==> k != 0 && level == 2 && ip - ref >= MAX_DISTANCE
    ensures k > 0 ==> ip - ref < DistanceLimit(level)
    ensures Repeats(src, ip - ref, ip, ip + k)
  {
    var distance := ip - ref;
    if distance >= DistanceLimit(level) then 0
    else if src[ref] != src[ip] || src[ref + 1] != src[ip + 1] || src[ref + 2] != src[ip + 2] then 0
    else if level == 2 && distance >= MAX_DISTANCE then
      if src[ref + 3] != src[ip + 3] || src[ref + 4] != src[ip + 4] then 0 else 5
    else 3
  }

  /** Where comparing src[ip..] with the bytes `distance` earlier stops: just past the first difference,
      or at `limit`. */
  function ScanEnd(src: seq<byte>, distance: nat, ip: nat, limit: nat): (end: nat)
    requires 1 <= distance <= ip <= limit <= |src|
    ensures ip <= end <= limit
    ensures ip < limit ==> ip < end
    ensures ip < end ==> Repeats(src, distance, ip, end - 1)
    decreases limit - ip
  {
    if ip == limit then ip
    else if src[ip - distance] != src[ip] then ip + 1
    else
      var end := ScanEnd(src, distance, ip + 1, limit);
      assert ip + 1 < end ==> Repeats(src, distance, ip, end - 1) by {
        if ip + 1 < end { RepeatsJoin(src, distance, ip, ip + 1, end - 1); }
      }
      end
  }

  lemma {:induction false} ScanStops(src: seq<byte>, distance: nat, ip: nat, limit: nat)
    requires 1 <= distance <= ip <= limit <= |src|
    ensures var end := ScanEnd(src, distance, ip, limit);
      end < limit ==> ip < end && src[end - 1] != src[end - 1 - distance]
    decreases limit - ip
  {
    hide Repeats;
    if ip < limit && src[ip - distance] == src[ip] {
      ScanStops(src, distance, ip + 1, limit);
    }
  }

  /** The scan goes on to the first byte that differs from the one `distance` before it, or to the limit; the
      bytes before the last one scanned are equal to those. */
  lemma ScanRule(src: seq<byte>, distance: nat, ip: nat, limit: nat)
    requires 1 <= distance <= ip <= limit <= |src|
    ensures var end := ScanEnd(src, distance, ip, limit);
      && ip <= end <= limit
      && (ip < end ==> src[ip..end - 1] == src[ip - distance..end - 1 - distance])
      && (end < limit ==> ip < end && src[end - 1] != src[end - 1 - distance])
  {
    hide ScanEnd;
    ScanStops(src, distance, ip, limit);
  }

  /** The first eight comparisons are made without looking at the bound (length - 2). */
  function ScanLimit(n: nat, start: nat): (limit: nat)
    requires n >= 2
  {
    if start + 8 > n - 2 then start + 8 else n - 2
  }

  /** One turn of the main loop: `distance` 0 means the byte at ip becomes a literal; otherwise the scan
      of the match ended at `end`. */
  datatype Turn = Turn(distance: nat, end: nat, table: Table)

  predicate Position(level: Level, src: seq<byte>, n: nat, ip: nat, table: seq<nat>) {
    && 4 <= n <= |src|
    && (level == 2 ==> n < |src|)
    && 2 <= ip <= n
    && |table| == HASH_SIZE
    && Earlier(table, ip)
  }

  predicate IsMatch(level: Level, src: seq<byte>, n: nat, ip: nat, distance: nat, end: nat)
    requires 2 <= n <= |src|
  {
    && 1 <= distance < DistanceLimit(level)
    && ip + 4 <= end <= (if level == 1 then n - 2 else n)
    && (level == 2 && distance >= MAX_DISTANCE ==> ip + 6 <= end)
    && Repeats(src, distance, ip, end - 1)
  }

  /** `k` bytes are known to match; where the whole match is found to end. */
  function MatchEnd(level: Level, src: seq<byte>, n: nat, ip: nat, distance: nat, k: nat): (end: nat)
    requires 4 <= n <= |src| && 2 <= ip < n - 12
    requires k == (if level == 2 && distance >= MAX_DISTANCE then 5 else 3)
    requires 1 <= distance < DistanceLimit(level)
    requires Repeats(src, distance, ip, ip + k)
    ensures IsMatch(level, src, n, ip, distance, end)
  {
    MatchScanned(level, src, n, ip, distance, k);
    ScanEnd(src, distance, ip + k, ScanLimit(n, ip + k))
  }

  lemma MatchScanned(level: Level, src: seq<byte>, n: nat, ip: nat, distance: nat, k: nat)
    requires 4 <= n <= |src| && 2 <= ip < n - 12
    requires k == (if level == 2 && distance >= MAX_DISTANCE then 5 else 3)
    requires 1 <= distance < DistanceLimit(level)
    requires Repeats(src, distance, ip, ip + k)
    ensures distance <= ip
    ensures IsMatch(level, src, n, ip, distance, ScanEnd(src, distance, ip + k, ScanLimit(n, ip + k)))
  {
    RepeatsJoin(src, distance, ip, ip + k, ScanEnd(src, distance, ip + k, ScanLimit(n, ip + k)) - 1);
  }

  /** The candidate is whatever position slot `h` remembers; the slot then takes the current one. */
  function HashedTurn(level: Level, src: seq<byte>, n: nat, ip: nat, table: Table, h: nat): (t: Turn)
    requires Position(level, src, n, ip, table) && ip < n - 12 && h < HASH_SIZE
    ensures t.distance > 0 ==> IsMatch(level, src, n, ip, t.distance, t.end)
    ensures t.table == table[h := ip]
  {
    var k := Probe(level, src, ip, table[h]);
    if k == 0 then Turn(0, ip, table[h := ip])
    else Turn(ip - table[h], MatchEnd(level, src, n, ip, ip - table[h], k), table[h := ip])
  }

  function TakeTurn(level: Level, src: seq<byte>, n: nat, ip: nat, table: Table): (t: Turn)
    requires Position(level, src, n, ip, table) && ip < n - 12
    ensures t.distance > 0 ==> IsMatch(level, src, n, ip, t.distance, t.end)
    ensures Earlier(t.table, ip + 1)
  {
    if level == 2 && IsRun(src, ip) then Turn(1, MatchEnd(level, src, n, ip, 1, 3), table)
    else HashedTurn(level, src, n, ip, table, Hash(src, ip))
  }

  /** After a match the two positions at its end are hashed; the second can read src[n]. */
  function HashBoundary(src: seq<byte>, end: nat, table: Table): (t: Table)
    requires 3 <= end < |src|
    requires Earlier(table, end - 1)
    ensures Earlier(t, end - 1)
  {
    table[Hash(src, end - 3) := end - 3][Hash(src, end - 2) := end - 2]
  }

  // ---- The operations of a whole input ----------------------------------------------------------

  /** Level 1 splits a match longer than 264 bytes into copies of 262. */
  function CopyOps(level: Level, distance: nat, length: nat): (ops: seq<Op>)
    requires length >= 3
    ensures ops != []
  {
    if level == 1 && length > MAX_LEN then
      [Copy(distance, MAX_LEN - 2)] + CopyOps(level, distance, length - (MAX_LEN - 2))
    else [Copy(distance, length)]
  }

  function Flush(pending: seq<byte>): (ops: seq<Op>) {
    if pending == [] then [] else [Literal(pending)]
  }

  /** Left-over bytes: literals of 32, then whatever remains. */
  function Chunk(bytes: seq<byte>): (ops: seq<Op>) {
    if |bytes| < MAX_COPY then Flush(bytes)
    else [Literal(bytes[..MAX_COPY])] + Chunk(bytes[MAX_COPY..])
  }

  /** The operations still to be emitted at input position ip, with `pending` literals not yet closed. */
  function ParseFrom(level: Level, src: seq<byte>, n: nat, ip: nat, table: Table, pending: seq<byte>): (ops: seq<Op>)
    requires Position(level, src, n, ip, table)
    decreases n - ip
  {
    if ip >= n - 12 then Chunk(pending + src[ip..n])
    else
      var t := TakeTurn(level, src, n, ip, table);
      if t.distance > 0 then
        Flush(pending) + CopyOps(level, t.distance, t.end - 1 - ip)
        + ParseFrom(level, src, n, t.end - 1, HashBoundary(src, t.end, t.table), [])
      else if |pending| + 1 == MAX_COPY then
        [Literal(pending + [src[ip]])] + ParseFrom(level, src, n, ip + 1, t.table, [])
      else ParseFrom(level, src, n, ip + 1, t.table, pending + [src[ip]])
  }

  function EmptyTable(): (table: Table)
    ensures forall i :: 0 <= i < HASH_SIZE ==> table[i] == 0
  {
    seq(HASH_SIZE, i => 0)
  }

  /** The compressor starts with two literals and every hash slot at the first byte. */
  function Parse(level: Level, src: seq<byte>, n: nat): (ops: seq<Op>)
    requires 4 <= n <= |src| && (level == 2 ==> n < |src|)
  {
    ParseFrom(level, src, n, 2, EmptyTable(), src[..2])
  }

  // ---- Nothing is lost --------------------------------------------------------------------------

  /** Copying a repeat onto the bytes before it extends them to the repeat's end. */
  lemma {:induction false} CopyBackOfRepeat(src: seq<byte>, distance: nat, lo: nat, hi: nat)
    requires 1 <= distance && Repeats(src, distance, lo, hi)
    ensures CopyBack(src[..lo], distance, hi - lo) == src[..hi]
    decreases hi - lo
  {
    if lo < hi {
      assert src[lo] == src[lo..hi][0] == src[lo - distance..hi - distance][0] == src[lo - distance];
      assert src[..lo] + [src[..lo][lo - distance]] == src[..lo + 1];
      assert src[lo + 1..hi] == src[lo..hi][1..];
      assert src[lo + 1 - distance..hi - distance] == src[lo - distance..hi - distance][1..];
      CopyBackOfRepeat(src, distance, lo + 1, hi);
    }
  }

  lemma RepeatsPart(src: seq<byte>, distance: nat, lo: nat, mid: nat, hi: nat)
    requires Repeats(src, distance, lo, hi) && lo <= mid <= hi
    ensures Repeats(src, distance, lo, mid) && Repeats(src, distance, mid, hi)
  {
    var a, b := src[lo..hi], src[lo - distance..hi - distance];
    assert a[..mid - lo] == src[lo..mid] && b[..mid - lo] == src[lo - distance..mid - distance];
    assert a[mid - lo..] == src[mid..hi] && b[mid - lo..] == src[mid - distance..hi - distance];
  }

  lemma {:induction false} CopyOpsLossless(level: Level, src: seq<byte>, distance: nat, lo: nat, hi: nat)
    requires 1 <= distance && lo + 3 <= hi && Repeats(src, distance, lo, hi)
    requires distance < DistanceLimit(level)
    requires hi < 0x8000_0000
    ensures Valid(level, src[..lo], CopyOps(level, distance, hi - lo))
    ensures Expand(level, src[..lo], CopyOps(level, distance, hi - lo)) == src[..hi]
    decreases hi - lo
  {
    hide CopyBack;
    if level == 1 && hi - lo > MAX_LEN {
      var mid := lo + MAX_LEN - 2;
      RepeatsPart(src, distance, lo, mid, hi);
      CopyBackOfRepeat(src, distance, lo, mid);
      CopyOpsLossless(level, src, distance, mid, hi);
      PrependOp(level, src[..lo], Copy(distance, mid - lo), CopyOps(level, distance, hi - mid));
    } else {
      CopyBackOfRepeat(src, distance, lo, hi);
      PrependOp(level, src[..lo], Copy(distance, hi - lo), []);
    }
  }

  lemma PrependOp(level: Level, out: seq<byte>, op: Op, ops: seq<Op>)
    requires Legal(level, op) && Applicable(out, op) && Valid(level, Apply(out, op), ops)
    ensures Valid(level, out, [op] + ops)
    ensures Expand(level, out, [op] + ops) == Expand(level, Apply(out, op), ops)
  {
    assert ([op] + ops)[1..] == ops;
  }

  lemma {:induction false} ChunkLossless(level: Level, out: seq<byte>, bytes: seq<byte>)
    ensures Valid(level, out, Chunk(bytes))
    ensures Expand(level, out, Chunk(bytes)) == out + bytes
    decreases |bytes|
  {
    if |bytes| >= MAX_COPY {
      var a, b := bytes[..MAX_COPY], bytes[MAX_COPY..];
      ChunkLossless(level, out + a, b);
      assert out + bytes == out + a + b;
    }
  }

  lemma FlushLossless(level: Level, src: seq<byte>, ip: nat, pending: seq<byte>)
    requires |pending| <= ip <= |src| && |pending| <= MAX_COPY
    requires pending == src[ip - |pending|..ip]
    ensures Valid(level, src[..ip - |pending|], Flush(pending))
    ensures Expand(level, src[..ip - |pending|], Flush(pending)) == src[..ip]
  {
    assert src[..ip - |pending|] + pending == src[..ip];
  }

  /** Closing the pending literals and emitting a match accounts for the input up to the match's end. */
  lemma MatchLossless(level: Level, src: seq<byte>, ip: nat, pending: seq<byte>, distance: nat, end: nat,
                      rest: seq<Op>, all: seq<byte>)
    requires |pending| < MAX_COPY && |pending| <= ip && ip + 3 <= end <= |src| && end < 0x8000_0000
    requires pending == src[ip - |pending|..ip]
    requires 1 <= distance < DistanceLimit(level)
    requires Repeats(src, distance, ip, end)
    requires Valid(level, src[..end], rest) && Expand(level, src[..end], rest) == all
    ensures Valid(level, src[..ip - |pending|], Flush(pending) + CopyOps(level, distance, end - ip) + rest)
    ensures Expand(level, src[..ip - |pending|], Flush(pending) + CopyOps(level, distance, end - ip) + rest) == all
  {
    hide Valid, Expand, Flush, CopyOps, Repeats;
    var out, copies := src[..ip - |pending|], CopyOps(level, distance, end - ip);
    FlushLossless(level, src, ip, pending);
    CopyOpsLossless(level, src, distance, ip, end);
    ExpandConcat(level, out, Flush(pending), copies);
    ExpandConcat(level, out, Flush(pending) + copies, rest);
  }

  /** Closing a full group accounts for the input up to its end. */
  lemma GroupLossless(level: Level, src: seq<byte>, ip: nat, group: seq<byte>, rest: seq<Op>, all: seq<byte>)
    requires |group| == MAX_COPY <= ip <= |src| && group == src[ip - |group|..ip]
    requires Valid(level, src[..ip], rest) && Expand(level, src[..ip], rest) == all
    ensures Valid(level, src[..ip - |group|], [Literal(group)] + rest)
    ensures Expand(level, src[..ip - |group|], [Literal(group)] + rest) == all
  {
    hide Valid, Expand;
    FlushLossless(level, src, ip, group);
    ExpandConcat(level, src[..ip - |group|], Flush(group), rest);
  }

  lemma ThreeParts(src: seq<byte>, a: nat, b: nat, n: nat)
    requires a <= b <= n <= |src|
    ensures src[..a] + (src[a..b] + src[b..n]) == src[..n]
  {
  }

  /** From any position, with any hash table: the remaining operations are valid and turn the bytes
      already accounted for into the whole input. */
  lemma {:induction false} ParseLossless(level: Level, src: seq<byte>, n: nat, ip: nat, table: Table, pending: seq<byte>)
    requires Position(level, src, n, ip, table) && n < 0x8000_0000
    requires |pending| < MAX_COPY && |pending| <= ip && pending == src[ip - |pending|..ip]
    ensures Valid(level, src[..ip - |pending|], ParseFrom(level, src, n, ip, table, pending))
    ensures Expand(level, src[..ip - |pending|], ParseFrom(level, src, n, ip, table, pending)) == src[..n]
    decreases n - ip
  {
    hide Valid, Expand, TakeTurn, HashBoundary, Chunk, CopyOps, Legal, Repeats;
    var out := src[..ip - |pending|];
    if ip >= n - 12 {
      ChunkLossless(level, out, pending + src[ip..n]);
      ThreeParts(src, ip - |pending|, ip, n);
    } else {
      var t := TakeTurn(level, src, n, ip, table);
      var next := pending + [src[ip]];
      if t.distance > 0 {
        var end := t.end - 1;
        var table' := HashBoundary(src, t.end, t.table);
        ParseLossless(level, src, n, end, table', []);
        MatchLossless(level, src, ip, pending, t.distance, end, ParseFrom(level, src, n, end, table', []), src[..n]);
      } else {
        assert next == src[ip - |pending|..ip + 1];
        if |next| == MAX_COPY {
          ParseLossless(level, src, n, ip + 1, t.table, []);
          GroupLossless(level, src, ip + 1, next, ParseFrom(level, src, n, ip + 1, t.table, []), src[..n]);
        } else {
          ParseLossless(level, src, n, ip + 1, t.table, next);
        }
      }
    }
  }
}
