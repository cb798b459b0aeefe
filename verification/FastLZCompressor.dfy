/** The FastLZ compressor in place: it moves through the input, remembers positions in a hash table,
    writes operations into the output buffer and goes back to patch the count of each literal group. */
module FastLZCompressor {
  import opened FastLZFormat
  import opened FastLZParse
  import opened FastLZ

  /** The run scan: only the run's byte is compared, and the match pointer trails by one. */
  method ScanRun(src: seq<byte>, start: nat, bound: nat) returns (ip: nat)
    requires 1 <= start <= bound <= |src|
    ensures ip == ScanEnd(src, 1, start, bound)
  {
    ip := start;
    var ref := start - 1;
    var x := src[ip - 1];
    while ip < bound
      invariant start <= ip <= bound && ref == ip - 1
      invariant start < ip ==> src[ip - 2] == x && ScanEnd(src, 1, start, bound) == ScanEnd(src, 1, ip - 1, bound)
    {
      if src[ref] != x {
        break;
      }
      ref, ip := ref + 1, ip + 1;
    }
  }

  /** Eight comparisons without a bound, then the rest up to the bound. */
  method ScanPair(src: seq<byte>, n: nat, candidate: nat, start: nat) returns (ip: nat)
    requires candidate < start && 2 <= n && start + 8 <= n <= |src|
    ensures ip == ScanEnd(src, start - candidate, start, ScanLimit(n, start))
  {
    hide Repeats;
    ghost var distance, limit := start - candidate, ScanLimit(n, start);
    ip := start;
    var ref := candidate;
    while ip < start + 8
      invariant start <= ip <= start + 8 && ref == ip - distance
      invariant ScanEnd(src, distance, start, limit) == ScanEnd(src, distance, ip, limit)
    {
      ref, ip := ref + 1, ip + 1;
      if src[ref - 1] != src[ip - 1] {
        return;
      }
    }
    while ip < n - 2
      invariant start + 8 <= ip <= limit && ref == ip - distance
      invariant ScanEnd(src, distance, start, limit) == ScanEnd(src, distance, ip, limit)
    {
      ref, ip := ref + 1, ip + 1;
      if src[ref - 1] != src[ip - 1] {
        return;
      }
    }
  }

  /** One look for a match at ip.  `distance` 0 sends the caller to the literal case. */
  method FindMatch(level: Level, src: seq<byte>, n: nat, ip: nat, htab: array<nat>) returns (distance: nat, end: nat)
    requires htab.Length == HASH_SIZE
    requires Position(level, src, n, ip, htab[..]) && ip < n - 12
    modifies htab
    ensures Turn(distance, end, htab[..]) == TakeTurn(level, src, n, ip, old(htab[..]))
  {
    hide HashOf, ScanEnd, Repeats;
    if level == 2 && src[ip] == src[ip - 1] && src[ip - 1] == src[ip + 1] && src[ip] == src[ip + 2] {
      distance := 1;
      end := ScanRun(src, ip + 3, n - 2);
      return;
    }
    var hval := Hash(src, ip);
    var ref := htab[hval];
    distance := ip - ref;
    htab[hval] := ip;
    if distance == 0
       || distance >= DistanceLimit(level)
       || src[ref] != src[ip] || src[ref + 1] != src[ip + 1] || src[ref + 2] != src[ip + 2] {
      return 0, ip;
    }
    var len := 3;
    if level == 2 && distance >= MAX_DISTANCE {
      if src[ip + 3] != src[ref + 3] || src[ip + 4] != src[ref + 4] {
        return 0, ip;
      }
      len := 5;
    }
    if distance == 1 {
      end := ScanRun(src, ip + len, n - 2);
    } else {
      end := ScanPair(src, n, ref + len, ip + len);
    }
  }

  method UpdateBoundary(src: seq<byte>, end: nat, htab: array<nat>)
    requires htab.Length == HASH_SIZE
    requires 3 <= end < |src| && Earlier(htab[..], end - 1)
    modifies htab
    ensures htab[..] == HashBoundary(src, end, old(htab[..]))
  {
    var ip := end - 3;
    var hval := Hash(src, ip);
    htab[hval] := ip;
    ip := ip + 1;
    hval := Hash(src, ip);
    htab[hval] := ip;
  }

  /** `after` is `before` with the bytes `w` written at `op`. */
  ghost predicate Written(before: seq<byte>, after: seq<byte>, op: nat, w: seq<byte>) {
    && op + |w| <= |before| == |after|
    && after[..op] == before[..op]
    && after[op..op + |w|] == w
    && after[op + |w|..] == before[op + |w|..]
  }

  lemma WrittenTwice(a: seq<byte>, b: seq<byte>, c: seq<byte>, op: nat, v: seq<byte>, w: seq<byte>)
    requires Written(a, b, op, v) && Written(b, c, op + |v|, w)
    ensures Written(a, c, op, v + w)
  {
    var m, e := op + |v|, op + |v| + |w|;
    assert c[..op] == c[..m][..op] == b[..m][..op] == b[..op];
    assert c[op..m] == c[..m][op..] == b[..m][op..] == b[op..m];
    assert c[op..e] == c[op..m] + c[m..e];
    assert b[e..] == b[m..][|w|..] == a[m..][|w|..] == a[e..];
  }

  method Put(output: array<byte>, op: nat, b: byte) returns (op': nat)
    requires op < output.Length
    modifies output
    ensures op' == op + 1
    ensures Written(old(output[..]), output[..], op, [b])
  {
    output[op] := b;
    op' := op + 1;
  }

  method EmitChain(output: array<byte>, start: nat, code: nat) returns (op: nat)
    requires start + |Chain(code)| <= output.Length
    modifies output
    ensures op == start + |Chain(code)|
    ensures Written(old(output[..]), output[..], start, Chain(code))
  {
    hide Written;
    op := start;
    var len := code;
    ghost var done: seq<byte> := [];
    WrittenNothing(output[..], start);
    while len >= 255
      invariant op == start + |done|
      invariant done + Chain(len) == Chain(code)
      invariant Written(old(output[..]), output[..], start, done)
      decreases len
    {
      ghost var before := output[..];
      op := Put(output, op, 255);
      WrittenTwice(old(output[..]), before, output[..], start, done, [255]);
      done := done + [255];
      len := len - 255;
    }
    ghost var before := output[..];
    op := Put(output, op, len);
    WrittenTwice(old(output[..]), before, output[..], start, done, [len]);
  }

  method EmitLength(level: Level, output: array<byte>, start: nat, len: nat) returns (op: nat)
    requires level == 1 ==> len <= MAX_LEN - 2
    requires start + |LengthBytes(level, len)| <= output.Length
    modifies output
    ensures op == start + |LengthBytes(level, len)|
    ensures Written(old(output[..]), output[..], start, LengthBytes(level, len))
  {
    op := start;
    if len >= 7 {
      if level == 1 {
        op := Put(output, op, len - 7);
      } else {
        op := EmitChain(output, op, len - 7);
      }
    }
  }

  /** Writes the distance: its low byte, or the escape byte and sixteen bits if it is far. */
  method EmitOffset(level: Level, output: array<byte>, start: nat, distance: nat) returns (op: nat)
    requires IsFar(level, distance) ==> distance - MAX_DISTANCE < 0x1_0000
    requires start + |OffsetBytes(level, distance)| <= output.Length
    modifies output
    ensures op == start + |OffsetBytes(level, distance)|
    ensures Written(old(output[..]), output[..], start, OffsetBytes(level, distance))
  {
    if level == 2 && distance >= MAX_DISTANCE {
      var far := distance - MAX_DISTANCE;
      output[start] := 255;
      output[start + 1] := far / 256;
      output[start + 2] := far % 256;
      op := start + 3;
    } else {
      op := Put(output, start, distance % 256);
    }
  }

  /** One copy operation; `distance` and `len` are biased as in the source. */
  method EmitCopy(level: Level, output: array<byte>, start: nat, distance: nat, len: nat) returns (op: nat)
    requires Legal(level, Copy(distance + 1, len + 2))
    requires start + |EncodeCopy(level, distance + 1, len + 2)| <= output.Length
    modifies output
    ensures op == start + |EncodeCopy(level, distance + 1, len + 2)|
    ensures Written(old(output[..]), output[..], start, EncodeCopy(level, distance + 1, len + 2))
  {
    hide Written, LengthBytes, OffsetBytes;
    var high := if level == 2 && distance >= MAX_DISTANCE then 31 else distance / 256;
    var ctrl := (if len < 7 then len else 7) * 32 + high;
    op := Put(output, start, ctrl);
    ghost var a := output[..];
    op := EmitLength(level, output, op, len);
    WrittenTwice(old(output[..]), a, output[..], start, [ctrl], LengthBytes(level, len));
    ghost var b := output[..];
    op := EmitOffset(level, output, op, distance);
    WrittenTwice(old(output[..]), b, output[..], start, [ctrl] + LengthBytes(level, len), OffsetBytes(level, distance));
  }

  /** A whole match: level 1 splits it while it is longer than 264 bytes. */
  method EmitMatch(level: Level, output: array<byte>, start: nat, distance: nat, length: nat) returns (op: nat)
    requires 1 <= distance && 3 <= length && AllLegal(level, CopyOps(level, distance, length))
    requires start + |Wire(level, CopyOps(level, distance, length))| <= output.Length
    modifies output
    ensures op == start + |Wire(level, CopyOps(level, distance, length))|
    ensures Written(old(output[..]), output[..], start, Wire(level, CopyOps(level, distance, length)))
  {
    hide Written, EncodeCopy, Wire, AllLegal, Legal, CopyOps;
    op := start;
    var len := length - 2;
    ghost var done: seq<byte> := [];
    WrittenNothing(output[..], start);
    while level == 1 && len > MAX_LEN - 2
      invariant 1 <= len && op == start + |done|
      invariant AllLegal(level, CopyOps(level, distance, len + 2))
      invariant done + Wire(level, CopyOps(level, distance, len + 2)) == Wire(level, CopyOps(level, distance, length))
      invariant Written(old(output[..]), output[..], start, done)
      decreases len
    {
      ghost var before := output[..];
      ghost var w := SplitCopies(level, distance, len + 2);
      op := EmitCopy(level, output, op, distance - 1, MAX_LEN - 4);
      WrittenTwice(old(output[..]), before, output[..], start, done, w);
      done := done + w;
      len := len - (MAX_LEN - 2);
    }
    ghost var before := output[..];
    ghost var w := LastCopy(level, distance, len + 2);
    op := EmitCopy(level, output, op, distance - 1, len);
    WrittenTwice(old(output[..]), before, output[..], start, done, w);
  }

  lemma WrittenNothing(a: seq<byte>, op: nat)
    requires op <= |a|
    ensures Written(a, a, op, [])
  {
  }

  lemma SplitCopies(level: Level, distance: nat, length: nat) returns (w: seq<byte>)
    requires level == 1 && length > MAX_LEN && 1 <= distance && AllLegal(level, CopyOps(level, distance, length))
    ensures Legal(level, Copy(distance, MAX_LEN - 2)) && w == EncodeCopy(level, distance, MAX_LEN - 2)
    ensures AllLegal(level, CopyOps(level, distance, length - (MAX_LEN - 2)))
    ensures Wire(level, CopyOps(level, distance, length))
         == w + Wire(level, CopyOps(level, distance, length - (MAX_LEN - 2)))
  {
    var ops := CopyOps(level, distance, length);
    var rest := CopyOps(level, distance, length - (MAX_LEN - 2));
    assert Legal(level, ops[0]) && ops[1..] == rest;
    assert forall i :: 0 <= i < |rest| ==> rest[i] == ops[i + 1];
    w := EncodeOp(level, ops[0]);
  }

  lemma LastCopy(level: Level, distance: nat, length: nat) returns (w: seq<byte>)
    requires level == 2 || length <= MAX_LEN
    requires 3 <= length && AllLegal(level, CopyOps(level, distance, length))
    ensures Legal(level, Copy(distance, length)) && w == EncodeCopy(level, distance, length)
    ensures Wire(level, CopyOps(level, distance, length)) == w
  {
    var ops := CopyOps(level, distance, length);
    assert Legal(level, ops[0]) && ops[1..] == [];
    w := EncodeOp(level, ops[0]);
  }

  // ---- The output buffer between two operations ---------------------------------------------------

  /** Since the call began (`pre`) the buffer has been filled with `w` from `base` on, and nothing
      outside [base, hi) has been touched. */
  ghost predicate Filled(pre: seq<byte>, buf: seq<byte>, base: nat, hi: nat, w: seq<byte>) {
    && base + |w| <= hi <= |pre| == |buf|
    && buf[..base] == pre[..base]
    && buf[base..base + |w|] == w
    && buf[hi..] == pre[hi..]
  }

  lemma FillMore(pre: seq<byte>, a: seq<byte>, b: seq<byte>, base: nat, hi: nat, v: seq<byte>, w: seq<byte>)
    requires Filled(pre, a, base, hi, v) && Written(a, b, base + |v|, w)
    requires base + |v| + |w| <= hi
    ensures Filled(pre, b, base, hi, v + w)
  {
    var m, e := base + |v|, base + |v| + |w|;
    assert b[..base] == b[..m][..base] == a[..m][..base] == a[..base];
    assert b[base..m] == b[..m][base..] == a[..m][base..] == v;
    assert b[base..e] == b[base..m] + b[m..e];
    assert b[hi..] == b[e..][hi - e..] == a[e..][hi - e..] == a[hi..];
  }

  /** The room the compressor may use, its transient count byte included. */
  function Room(n: nat): nat {
    if n == 0 then 0 else n + 1 + n / 32
  }

  /** Operations `ops` are complete; then come a count byte still holding 31 and `copy` literals. */
  ghost predicate Between(level: Level, src: seq<byte>, n: nat, pre: seq<byte>, buf: seq<byte>, base: nat,
                          op: nat, ip: nat, copy: nat, ops: seq<Op>) {
    && copy < MAX_COPY && copy <= ip <= n <= |src|
    && AllLegal(level, ops)
    && op == base + |Wire(level, ops)| + 1 + copy
    && Filled(pre, buf, base, base + Room(n), Wire(level, ops) + [31] + src[ip - copy..ip])
    && 32 * (op - base - ip - 1) <= ip - copy
  }

  /** What closing the literals leaves: their count patched in, or no group at all if there are none. */
  function Group(pending: seq<byte>): (r: seq<byte>)
    requires |pending| <= MAX_COPY
    ensures |r| == (if pending == [] then 0 else |pending| + 1)
  {
    if pending == [] then [] else [|pending| - 1] + pending
  }

  lemma WireFlush(level: Level, ops: seq<Op>, pending: seq<byte>)
    requires AllLegal(level, ops) && |pending| <= MAX_COPY
    ensures AllLegal(level, ops + Flush(pending))
    ensures Wire(level, ops + Flush(pending)) == Wire(level, ops) + Group(pending)
  {
    hide Wire, EncodeOp;
    WireConcat(level, ops, Flush(pending));
    LegalConcat(level, ops, Flush(pending));
    WireOfFlush(level, pending);
  }

  lemma WireOfFlush(level: Level, pending: seq<byte>)
    requires |pending| <= MAX_COPY
    ensures AllLegal(level, Flush(pending)) && Wire(level, Flush(pending)) == Group(pending)
  {
    if pending != [] {
      assert Flush(pending)[1..] == [];
    }
  }

  method CloseLiterals(output: array<byte>, start: nat, copy: nat, ghost pre: seq<byte>, ghost base: nat, ghost hi: nat,
                       ghost wire: seq<byte>, ghost pending: seq<byte>) returns (op: nat)
    requires copy == |pending| < MAX_COPY && start == base + |wire| + 1 + copy
    requires Filled(pre, output[..], base, hi, wire + [31] + pending)
    modifies output
    ensures op == base + |wire + Group(pending)|
    ensures Filled(pre, output[..], base, hi, wire + Group(pending))
  {
    hide Filled, Group;
    ghost var before := output[..];
    op := start;
    GroupCases(wire, pending);
    FilledRoom(pre, before, base, hi, wire + [31] + pending);
    if copy > 0 {
      output[op - copy - 1] := copy - 1;
      Patch(pre, before, output[..], base, hi, wire, 31, pending, copy - 1);
    } else {
      op := op - 1;
      FilledPrefix(pre, before, base, hi, wire, [31] + pending);
    }
  }

  lemma GroupCases(wire: seq<byte>, pending: seq<byte>)
    requires |pending| <= MAX_COPY
    ensures wire + [31] + pending == wire + ([31] + pending)
    ensures pending == [] ==> wire + Group(pending) == wire
    ensures pending != [] ==> wire + Group(pending) == wire + [|pending| - 1] + pending
  {
  }

  lemma FilledRoom(pre: seq<byte>, a: seq<byte>, base: nat, hi: nat, v: seq<byte>)
    requires Filled(pre, a, base, hi, v)
    ensures base + |v| <= hi <= |pre| == |a|
  {
  }

  lemma FilledPrefix(pre: seq<byte>, a: seq<byte>, base: nat, hi: nat, v: seq<byte>, w: seq<byte>)
    requires Filled(pre, a, base, hi, v + w)
    ensures Filled(pre, a, base, hi, v)
  {
    assert a[base..base + |v|] == a[base..base + |v + w|][..|v|];
  }

  lemma Patch(pre: seq<byte>, a: seq<byte>, b: seq<byte>, base: nat, hi: nat,
              v: seq<byte>, was: byte, w: seq<byte>, now: byte)
    requires Filled(pre, a, base, hi, v + [was] + w)
    requires b == a[base + |v| := now]
    ensures Filled(pre, b, base, hi, v + [now] + w)
  {
    var m, e := base + |v|, base + |v| + 1 + |w|;
    assert b[base..e] == a[base..e][|v| := now] == (v + [was] + w)[|v| := now];
  }

  method Append(output: array<byte>, start: nat, b: byte, ghost pre: seq<byte>, ghost base: nat, ghost hi: nat,
                ghost v: seq<byte>) returns (op: nat)
    requires Filled(pre, output[..], base, hi, v) && start == base + |v| < hi
    modifies output
    ensures op == start + 1
    ensures Filled(pre, output[..], base, hi, v + [b])
  {
    ghost var before := output[..];
    op := Put(output, start, b);
    FillMore(pre, before, output[..], base, hi, v, [b]);
  }

  method AppendMatch(level: Level, output: array<byte>, start: nat, distance: nat, length: nat,
                     ghost pre: seq<byte>, ghost base: nat, ghost hi: nat, ghost v: seq<byte>) returns (op: nat)
    requires 1 <= distance && 3 <= length && AllLegal(level, CopyOps(level, distance, length))
    requires Filled(pre, output[..], base, hi, v) && start == base + |v|
    requires start + |Wire(level, CopyOps(level, distance, length))| <= hi
    modifies output
    ensures op == start + |Wire(level, CopyOps(level, distance, length))|
    ensures Filled(pre, output[..], base, hi, v + Wire(level, CopyOps(level, distance, length)))
  {
    hide CopyOps, Legal;
    ghost var before := output[..];
    op := EmitMatch(level, output, start, distance, length);
    FillMore(pre, before, output[..], base, hi, v, Wire(level, CopyOps(level, distance, length)));
  }

  /** Appends the byte at ip to the open literal group; a full group is closed by opening the next. */
  method EmitLiteral(level: Level, src: seq<byte>, n: nat, output: array<byte>, start: nat, ip: nat, count: nat,
                     ghost pre: seq<byte>, ghost base: nat, ghost ops: seq<Op>)
    returns (op: nat, copy: nat, ghost ops': seq<Op>)
    requires Between(level, src, n, pre, output[..], base, start, ip, count, ops) && ip < n
    modifies output
    ensures ops' == ops + (if count + 1 == MAX_COPY then [Literal(src[ip - count..ip + 1])] else [])
    ensures copy == (if count + 1 == MAX_COPY then 0 else count + 1)
    ensures Between(level, src, n, pre, output[..], base, op, ip + 1, copy, ops')
  {
    hide Filled, AllLegal, Wire;
    ghost var wire, hi := Wire(level, ops), base + Room(n);
    ghost var pending, next := src[ip - count..ip], src[ip - count..ip + 1];
    op := Append(output, start, src[ip], pre, base, hi, wire + [31] + pending);
    copy := count + 1;
    assert wire + [31] + pending + [src[ip]] == wire + [31] + next;
    ops' := ops;
    if copy == MAX_COPY {
      copy := 0;
      op := Append(output, op, MAX_COPY - 1, pre, base, hi, wire + [31] + next);
      ops' := ops + [Literal(next)];
      WireFlush(level, ops, next);
      assert wire + [31] + next + [31] == Wire(level, ops') + [31] + src[ip + 1..ip + 1];
    }
  }

  /** Closes the literals, writes the match and opens the next literal group. */
  method EmitMatchAt(level: Level, src: seq<byte>, n: nat, output: array<byte>, start: nat, ip: nat, copy: nat,
                     distance: nat, end: nat, ghost pre: seq<byte>, ghost base: nat, ghost ops: seq<Op>)
    returns (op: nat)
    requires Between(level, src, n, pre, output[..], base, start, ip, copy, ops)
    requires 1 <= distance && ip + 3 <= end <= n && (IsFar(level, distance - 1) ==> ip + 5 <= end)
    requires AllLegal(level, CopyOps(level, distance, end - ip))
    modifies output
    ensures Between(level, src, n, pre, output[..], base, op, end, 0,
                    ops + Flush(src[ip - copy..ip]) + CopyOps(level, distance, end - ip))
  {
    hide Filled, AllLegal, CopyOps, Flush, Wire, Group;
    ghost var hi := base + Room(n);
    ghost var pending, copies := src[ip - copy..ip], CopyOps(level, distance, end - ip);
    op := CloseLiterals(output, start, copy, pre, base, hi, Wire(level, ops), pending);
    WireFlush(level, ops, pending);
    ghost var closed, w := Wire(level, ops + Flush(pending)), Wire(level, copies);
    CopyOpsSize(level, distance, end - ip);
    assert op <= start && op + |w| + 1 - base - end - 1 <= start - base - ip - 1;
    assert op + |w| + 1 <= hi;
    op := AppendMatch(level, output, op, distance, end - ip, pre, base, hi, closed);
    op := Append(output, op, MAX_COPY - 1, pre, base, hi, closed + w);
    WireConcat(level, ops + Flush(pending), copies);
    LegalConcat(level, ops + Flush(pending), copies);
    assert closed + w + [31] == Wire(level, ops + Flush(pending) + copies) + [31] + src[end..end];
  }

  lemma LegalConcat(level: Level, a: seq<Op>, b: seq<Op>)
    requires AllLegal(level, a) && AllLegal(level, b)
    ensures AllLegal(level, a + b)
  {
  }

  // ---- The compressor ---------------------------------------------------------------------------

  /** What one turn of the main loop adds to the operations still to be emitted. */
  lemma ParseUnfolds(level: Level, src: seq<byte>, n: nat, ip: nat, table: Table, copy: nat, t: Turn)
    requires Position(level, src, n, ip, table) && ip < n - 12 && copy < MAX_COPY && copy <= ip
    requires t == TakeTurn(level, src, n, ip, table)
    ensures ParseFrom(level, src, n, ip, table, src[ip - copy..ip]) == (
              if t.distance > 0 then
                Flush(src[ip - copy..ip]) + CopyOps(level, t.distance, t.end - 1 - ip)
                + ParseFrom(level, src, n, t.end - 1, HashBoundary(src, t.end, t.table), [])
              else if copy + 1 == MAX_COPY then
                [Literal(src[ip - copy..ip + 1])] + ParseFrom(level, src, n, ip + 1, t.table, [])
              else
                ParseFrom(level, src, n, ip + 1, t.table, src[ip - copy..ip + 1]))
  {
    hide TakeTurn, HashBoundary, CopyOps, Flush, Repeats;
    assert src[ip - copy..ip] + [src[ip]] == src[ip - copy..ip + 1];
  }

  lemma LegalParts(level: Level, a: seq<Op>, b: seq<Op>)
    requires AllLegal(level, a + b)
    ensures AllLegal(level, a) && AllLegal(level, b)
  {
    assert forall i :: 0 <= i < |a| ==> a[i] == (a + b)[i];
    assert forall i :: 0 <= i < |b| ==> b[i] == (a + b)[|a| + i];
  }

  lemma CopiesLegal(level: Level, a: seq<Op>, b: seq<Op>, copies: seq<Op>, rest: seq<Op>)
    requires AllLegal(level, a + (b + copies + rest))
    ensures AllLegal(level, copies)
  {
    hide AllLegal;
    LegalParts(level, a, b + copies + rest);
    LegalParts(level, b + copies, rest);
    LegalParts(level, b, copies);
  }

  /** The block starts with a literal group of two bytes. */
  method OpenBlock(level: Level, src: seq<byte>, length: nat, output: array<byte>, base: nat) returns (op: nat)
    requires 4 <= length <= |src| && base + Room(length) <= output.Length
    modifies output
    ensures Between(level, src, length, old(output[..]), output[..], base, op, 2, 2, [])
  {
    output[base], output[base + 1], output[base + 2] := MAX_COPY - 1, src[0], src[1];
    op := base + 3;
    assert output[base..op] == Wire(level, []) + [31] + src[0..2];
  }

  /** One turn: a match is written and hashed at its end, or the byte at ip becomes a literal. */
  method OneTurn(level: Level, src: seq<byte>, length: nat, output: array<byte>, htab: array<nat>,
                 start: nat, from: nat, count: nat, ghost pre: seq<byte>, ghost base: nat, ghost done: seq<Op>)
    returns (op: nat, ip: nat, copy: nat, ghost ops: seq<Op>)
    requires output as object != htab && htab.Length == HASH_SIZE
    requires Position(level, src, length, from, htab[..]) && from < length - 12
    requires Between(level, src, length, pre, output[..], base, start, from, count, done)
    requires AllLegal(level, done + ParseFrom(level, src, length, from, htab[..], src[from - count..from]))
    modifies output, htab
    ensures from < ip && Position(level, src, length, ip, htab[..])
    ensures Between(level, src, length, pre, output[..], base, op, ip, copy, ops)
    ensures ops + ParseFrom(level, src, length, ip, htab[..], src[ip - copy..ip])
         == done + ParseFrom(level, src, length, from, old(htab[..]), src[from - count..from])
  {
    hide Filled, TakeTurn, HashBoundary, CopyOps, Flush, Repeats, ParseFrom, AllLegal, Legal, Wire;
    ghost var table, pending := htab[..], src[from - count..from];
    var distance, end := FindMatch(level, src, length, from, htab);
    ghost var turn := Turn(distance, end, htab[..]);
    ParseUnfolds(level, src, length, from, table, count, turn);
    if distance > 0 {
      ghost var copies := CopyOps(level, distance, end - 1 - from);
      ghost var rest := ParseFrom(level, src, length, end - 1, HashBoundary(src, end, turn.table), []);
      CopiesLegal(level, done, Flush(pending), copies, rest);
      op := EmitMatchAt(level, src, length, output, start, from, count, distance, end - 1, pre, base, done);
      UpdateBoundary(src, end, htab);
      assert done + (Flush(pending) + copies + rest) == done + Flush(pending) + copies + rest;
      ip, copy, ops := end - 1, 0, done + Flush(pending) + copies;
      assert src[ip..ip] == [];
    } else {
      op, copy, ops := EmitLiteral(level, src, length, output, start, from, count, pre, base, done);
      ip := from + 1;
      ghost var closed := if copy == 0 then [Literal(src[from - count..ip])] else [];
      ghost var rest := ParseFrom(level, src, length, ip, turn.table, src[ip - copy..ip]);
      assert ops + rest == done + (closed + rest);
      assert copy == 0 ==> src[ip - copy..ip] == [];
      assert copy != 0 ==> closed + rest == rest;
    }
  }

  /** The main loop (length at least 4): operations up to `ip_limit`, hash table and all. */
  method MainLoop(level: Level, src: seq<byte>, length: nat, output: array<byte>, base: nat)
    returns (op: nat, ip: nat, copy: nat, ghost ops: seq<Op>)
    requires Readable(level, src, length) && length >= 4
    requires base + Room(length) <= output.Length
    modifies output
    ensures Between(level, src, length, old(output[..]), output[..], base, op, ip, copy, ops)
    ensures ops + Chunk(src[ip - copy..length]) == Parse(level, src, length)
  {
    hide Filled, ParseFrom, Chunk, AllLegal, Wire;
    ParseIsLegal(level, src, length);
    ghost var pre, all := output[..], Parse(level, src, length);
    var htab := new nat[HASH_SIZE](i => 0);
    op := OpenBlock(level, src, length, output, base);
    ip, copy, ops := 2, 2, [];
    assert htab[..] == EmptyTable() && src[..2] == src[0..2];
    while ip < length - 12
      invariant Position(level, src, length, ip, htab[..])
      invariant Between(level, src, length, pre, output[..], base, op, ip, copy, ops)
      invariant ops + ParseFrom(level, src, length, ip, htab[..], src[ip - copy..ip]) == all
      decreases length - ip
    {
      op, ip, copy, ops := OneTurn(level, src, length, output, htab, op, ip, copy, pre, base, ops);
    }
    ParseEnds(level, src, length, ip, htab[..], copy);
  }

  lemma ParseEnds(level: Level, src: seq<byte>, n: nat, ip: nat, table: Table, copy: nat)
    requires Position(level, src, n, ip, table) && n - 12 <= ip && copy <= ip
    ensures ParseFrom(level, src, n, ip, table, src[ip - copy..ip]) == Chunk(src[ip - copy..n])
  {
    assert src[ip - copy..ip] + src[ip..n] == src[ip - copy..n];
  }

  lemma FirstGroup(src: seq<byte>, ip: nat, length: nat)
    requires MAX_COPY <= ip <= length <= |src|
    ensures src[ip - MAX_COPY..length][..MAX_COPY] == src[ip - MAX_COPY..ip]
    ensures src[ip - MAX_COPY..length][MAX_COPY..] == src[ip..length]
  {
  }

  /** Left-over bytes become literals, and the last group is closed. */
  method Finish(level: Level, src: seq<byte>, length: nat, output: array<byte>, base: nat,
                start: nat, from: nat, count: nat, ghost pre: seq<byte>, ghost done: seq<Op>) returns (op: nat)
    requires Between(level, src, length, pre, output[..], base, start, from, count, done)
    requires AllLegal(level, done + Chunk(src[from - count..length]))
    modifies output
    ensures op == base + |Wire(level, done + Chunk(src[from - count..length]))|
    ensures Filled(pre, output[..], base, base + Room(length), Wire(level, done + Chunk(src[from - count..length])))
  {
    hide Filled, AllLegal, Wire;
    var ip, copy := from, count;
    ghost var ops := done;
    op := start;
    while ip < length
      invariant Between(level, src, length, pre, output[..], base, op, ip, copy, ops)
      invariant ops + Chunk(src[ip - copy..length]) == done + Chunk(src[from - count..length])
      decreases length - ip
    {
      ghost var before, bytes := ops, src[ip - copy..length];
      op, copy, ops := EmitLiteral(level, src, length, output, op, ip, copy, pre, base, ops);
      ip := ip + 1;
      if copy == 0 {
        FirstGroup(src, ip, length);
        assert before + ([Literal(bytes[..MAX_COPY])] + Chunk(src[ip..length])) == ops + Chunk(src[ip..length]);
      }
    }
    ghost var pending := src[ip - copy..ip];
    op := CloseLiterals(output, op, copy, pre, base, base + Room(length), Wire(level, ops), pending);
    WireFlush(level, ops, pending);
  }

  /** Inputs of one to three bytes: a single literal group, never marked. */
  method CompressShort(src: seq<byte>, length: nat, output: array<byte>, base: nat)
    requires 0 < length < 4 && length <= |src|
    requires base + Room(length) <= output.Length
    modifies output
    ensures Filled(old(output[..]), output[..], base, base + Room(length), [length - 1] + src[..length])
  {
    ghost var pre, hi := output[..], base + Room(length);
    FilledNothing(pre, base, hi);
    hide Filled;
    var op := Append(output, base, length - 1, pre, base, hi, []);
    var ip := 0;
    assert [] + [length - 1] == [length - 1] + src[..0];
    while ip < length
      invariant ip <= length && op == base + 1 + ip
      invariant Filled(pre, output[..], base, hi, [length - 1] + src[..ip])
    {
      op := Append(output, op, src[ip], pre, base, hi, [length - 1] + src[..ip]);
      assert [length - 1] + src[..ip] + [src[ip]] == [length - 1] + src[..ip + 1];
      ip := ip + 1;
    }
  }

  lemma FilledNothing(pre: seq<byte>, base: nat, hi: nat)
    requires base <= hi <= |pre|
    ensures Filled(pre, pre, base, hi, [])
  {
  }

  method MarkBlock(output: array<byte>, base: nat, ghost pre: seq<byte>, ghost hi: nat, ghost v: seq<byte>)
    requires Filled(pre, output[..], base, hi, v) && v != []
    modifies output
    ensures Filled(pre, output[..], base, hi, v[0 := Marked(v[0])])
  {
    hide Filled, Marked;
    ghost var before := output[..];
    FirstByte(pre, before, base, hi, v);
    output[base] := Marked(output[base]);
    Patch(pre, before, output[..], base, hi, [], v[0], v[1..], Marked(v[0]));
    assert [] + [Marked(v[0])] + v[1..] == v[0 := Marked(v[0])];
  }

  /** fastlz1_compress and fastlz2_compress, writing at output[base..].  The block is exactly `Compressed`;
      only the room up to length + 1 + length/32 is ever written, the transient count byte included. */
  method CompressLevel(level: Level, src: seq<byte>, length: nat, output: array<byte>, base: nat) returns (r: nat)
    requires Readable(level, src, length)
    requires base + Room(length) <= output.Length
    modifies output
    ensures r <= Room(length)
    ensures output[base..base + r] == Compressed(level, src, length)
    ensures output[..base] == old(output[..base])
    ensures output[base + Room(length)..] == old(output[base + Room(length)..])
  {
    hide Parse, Wire, Filled, Valid, Expand, AllLegal;
    ghost var pre, hi := output[..], base + Room(length);
    if length == 0 {
      FilledNothing(pre, base, hi);
      r := 0;
    } else if length < 4 {
      CompressShort(src, length, output, base);
      r := length + 1;
    } else {
      ParseIsLegal(level, src, length);
      r := CompressLong(level, src, length, output, base);
      if level == 2 {
        MarkBlock(output, base, pre, hi, Wire(level, Parse(level, src, length)));
      }
    }
    FilledMeans(pre, output[..], base, hi, Compressed(level, src, length));
  }

  lemma FirstByte(pre: seq<byte>, a: seq<byte>, base: nat, hi: nat, v: seq<byte>)
    requires Filled(pre, a, base, hi, v) && v != []
    ensures a[base] == v[0] && Filled(pre, a, base, hi, [] + [v[0]] + v[1..])
  {
    assert a[base] == a[base..base + |v|][0];
    assert [] + [v[0]] + v[1..] == v;
  }

  lemma FilledMeans(pre: seq<byte>, a: seq<byte>, base: nat, hi: nat, v: seq<byte>)
    requires Filled(pre, a, base, hi, v)
    ensures base + |v| <= hi <= |pre| == |a|
    ensures a[..base] == pre[..base] && a[base..base + |v|] == v && a[hi..] == pre[hi..]
  {
  }

  /** The block of an input of four bytes or more, before its mark. */
  method CompressLong(level: Level, src: seq<byte>, length: nat, output: array<byte>, base: nat) returns (r: nat)
    requires Readable(level, src, length) && length >= 4
    requires AllLegal(level, Parse(level, src, length))
    requires base + Room(length) <= output.Length
    modifies output
    ensures r == |Wire(level, Parse(level, src, length))|
    ensures Filled(old(output[..]), output[..], base, base + Room(length), Wire(level, Parse(level, src, length)))
  {
    hide Parse, Chunk, Wire, AllLegal, Filled;
    ghost var pre := output[..];
    var op, ip, copy;
    ghost var ops;
    op, ip, copy, ops := MainLoop(level, src, length, output, base);
    op := Finish(level, src, length, output, base, op, ip, copy, pre, ops);
    r := op - base;
  }
}
