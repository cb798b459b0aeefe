/** Which operations the FastLZ compressor chooses: when it finds a match, how far it follows one, how it
    splits and groups, what its hash slots remember, and what the bytes of an operation are. */
module FastLZChoices {
  import opened FastLZFormat
  import opened FastLZParse
  import opened FastLZ

  // ---- Matches ----------------------------------------------------------------------------------------------

  /** A turn takes a run if level 2 sees one, else the slot's candidate if that is close enough and agrees in
      its first three bytes (five if far); otherwise the byte becomes a literal. */
  lemma TurnRule(level: Level, src: seq<byte>, n: nat, ip: nat, table: Table)
    requires Position(level, src, n, ip, table) && ip < n - 12
    ensures var t, h := TakeTurn(level, src, n, ip, table), Hash(src, ip);
      var c := table[h];
      if level == 2 && src[ip - 1] == src[ip] == src[ip + 1] == src[ip + 2] then
        t.distance == 1 && t.table == table
      else
        && t.distance == (if && ip - c < (if level == 1 then 8192 else 73725)
                             && src[c..c + 3] == src[ip..ip + 3]
                             && (level == 2 && ip - c >= 8191 ==> src[c..c + 5] == src[ip..ip + 5])
                          then ip - c else 0)
        && t.table == table[h := ip]
  {
    hide HashOf, ScanEnd, MatchEnd;
    var c := table[Hash(src, ip)];
    SliceThree(src, c, ip);
    SliceFive(src, c, ip);
  }

  lemma SliceThree(src: seq<byte>, a: nat, b: nat)
    requires a + 3 <= |src| && b + 3 <= |src|
    ensures src[a..a + 3] == src[b..b + 3]
       <==> src[a] == src[b] && src[a + 1] == src[b + 1] && src[a + 2] == src[b + 2]
  {
    assert src[a..a + 3] == [src[a], src[a + 1], src[a + 2]];
    assert src[b..b + 3] == [src[b], src[b + 1], src[b + 2]];
  }

  lemma SliceFive(src: seq<byte>, a: nat, b: nat)
    requires a + 5 <= |src| && b + 5 <= |src|
    ensures src[a..a + 5] == src[b..b + 5]
       <==> src[a..a + 3] == src[b..b + 3] && src[a + 3] == src[b + 3] && src[a + 4] == src[b + 4]
  {
    assert src[a..a + 5] == [src[a], src[a + 1], src[a + 2], src[a + 3], src[a + 4]];
    assert src[b..b + 5] == [src[b], src[b + 1], src[b + 2], src[b + 3], src[b + 4]];
    SliceThree(src, a, b);
  }

  /** Where a match is followed to at most: two bytes before the end of the input, or through the first 13
      bytes of a far match close to it. */
  function LastStop(level: Level, n: nat, ip: nat, distance: nat): int {
    if level == 2 && distance >= MAX_DISTANCE && ip + 13 > n - 2 then ip + 13 else n - 2
  }

  /** The match was followed to the first byte that differs, or that far. */
  predicate IsFollowed(level: Level, src: seq<byte>, n: nat, ip: nat, distance: nat, end: nat)
  {
    && distance < end <= |src| && end <= LastStop(level, n, ip, distance)
    && (end < LastStop(level, n, ip, distance) ==> src[end - 1] != src[end - 1 - distance])
  }

  lemma EndIsFollowed(level: Level, src: seq<byte>, n: nat, ip: nat, distance: nat, k: nat)
    requires 4 <= n <= |src| && 2 <= ip < n - 12
    requires k == (if level == 2 && distance >= MAX_DISTANCE then 5 else 3)
    requires 1 <= distance < DistanceLimit(level)
    requires Repeats(src, distance, ip, ip + k)
    ensures IsFollowed(level, src, n, ip, distance, MatchEnd(level, src, n, ip, distance, k))
  {
    hide ScanEnd;
    ScanStops(src, distance, ip + k, ScanLimit(n, ip + k));
  }

  lemma HashedIsFollowed(level: Level, src: seq<byte>, n: nat, ip: nat, table: Table, h: nat)
    requires Position(level, src, n, ip, table) && ip < n - 12 && h < HASH_SIZE
    ensures var t := HashedTurn(level, src, n, ip, table, h);
      t.distance > 0 ==> IsFollowed(level, src, n, ip, t.distance, t.end)
  {
    hide Probe, MatchEnd, IsFollowed, Repeats;
    var k := Probe(level, src, ip, table[h]);
    if k > 0 {
      EndIsFollowed(level, src, n, ip, ip - table[h], k);
    }
  }

  lemma TurnIsFollowed(level: Level, src: seq<byte>, n: nat, ip: nat, table: Table)
    requires Position(level, src, n, ip, table) && ip < n - 12
    ensures var t := TakeTurn(level, src, n, ip, table);
      t.distance > 0 ==> IsFollowed(level, src, n, ip, t.distance, t.end)
  {
    hide HashedTurn, MatchEnd, Hash, IsFollowed;
    if level == 2 && IsRun(src, ip) {
      RunRepeats(src, ip);
      EndIsFollowed(level, src, n, ip, 1, 3);
    } else {
      HashedIsFollowed(level, src, n, ip, table, Hash(src, ip));
    }
  }

  /** A match is followed to the first byte that differs or to two bytes before the end of the input (a far
      match close to it through its first 13 bytes): it stops earlier for no other reason, and the byte it
      stopped at is not part of it. */
  lemma MatchIsMaximal(level: Level, src: seq<byte>, n: nat, ip: nat, table: Table)
    requires Position(level, src, n, ip, table) && ip < n - 12
    ensures var t := TakeTurn(level, src, n, ip, table);
      var stop := if level == 2 && t.distance >= 8191 && ip + 13 > n - 2 then ip + 13 else n - 2;
      t.distance > 0 ==>
        && t.distance <= ip && ip + 3 < t.end <= stop
        && src[ip..t.end - 1] == src[ip - t.distance..t.end - 1 - t.distance]
        && (t.end < stop ==> src[t.end - 1] != src[t.end - 1 - t.distance])
  {
    hide TakeTurn;
    TurnIsFollowed(level, src, n, ip, table);
  }

  /** Level 1 splits a match into copies of 262 bytes and a last one of 3 to 264; level 2 never splits. */
  lemma {:induction false} SplitRule(level: Level, distance: nat, length: nat)
    requires length >= 3
    ensures var ops := CopyOps(level, distance, length);
      && ops != []
      && (forall i :: 0 <= i < |ops| - 1 ==> ops[i] == Copy(distance, 262))
      && 262 * (|ops| - 1) <= length - 3
      && ops[|ops| - 1] == Copy(distance, length - 262 * (|ops| - 1))
      && (if level == 1 then length - 262 * (|ops| - 1) <= 264 else |ops| == 1)
    decreases length
  {
    if level == 1 && length > MAX_LEN {
      SplitRule(level, distance, length - 262);
      var rest := CopyOps(level, distance, length - 262);
      assert forall i :: 1 <= i < |rest| + 1 ==> ([Copy(distance, 262)] + rest)[i] == rest[i - 1];
    }
  }

  // ---- Groups of literals -------------------------------------------------------------------------------------

  /** Two groups of literals follow each other only if the first is full. */
  predicate GroupsFull(ops: seq<Op>) {
    forall i :: 0 <= i < |ops| - 1 && ops[i].Literal? && ops[i + 1].Literal? ==> |ops[i].bytes| == 32
  }

  lemma GroupsFullConcat(a: seq<Op>, b: seq<Op>)
    requires GroupsFull(a) && GroupsFull(b)
    requires a != [] && b != [] && a[|a| - 1].Literal? && b[0].Literal? ==> |a[|a| - 1].bytes| == 32
    ensures GroupsFull(a + b)
  {
    var all := a + b;
    forall i | 0 <= i < |all| - 1 && all[i].Literal? && all[i + 1].Literal? ensures |all[i].bytes| == 32 {
      if i >= |a| {
        assert all[i] == b[i - |a|] && all[i + 1] == b[i - |a| + 1];
      }
    }
  }

  lemma {:induction false} ChunkGroupsFull(bytes: seq<byte>)
    ensures GroupsFull(Chunk(bytes))
    decreases |bytes|
  {
    if |bytes| >= MAX_COPY {
      ChunkGroupsFull(bytes[MAX_COPY..]);
      GroupsFullConcat([Literal(bytes[..MAX_COPY])], Chunk(bytes[MAX_COPY..]));
    }
  }

  lemma CopiesBetween(pending: seq<byte>, level: Level, distance: nat, length: nat, rest: seq<Op>)
    requires length >= 3 && GroupsFull(rest)
    ensures GroupsFull(Flush(pending) + CopyOps(level, distance, length) + rest)
  {
    hide CopyOps;
    var copies := CopyOps(level, distance, length);
    SplitRule(level, distance, length);
    assert forall i :: 0 <= i < |copies| ==> copies[i].Copy?;
    GroupsFullConcat(Flush(pending), copies);
    GroupsFullConcat(Flush(pending) + copies, rest);
  }

  lemma {:induction false} RestGroupsFull(level: Level, src: seq<byte>, n: nat, ip: nat, table: Table,
                                          pending: seq<byte>)
    requires Position(level, src, n, ip, table) && |pending| < MAX_COPY
    ensures GroupsFull(ParseFrom(level, src, n, ip, table, pending))
    decreases n - ip
  {
    hide TakeTurn, HashBoundary, CopyOps, Chunk, GroupsFull;
    if ip >= n - 12 {
      ChunkGroupsFull(pending + src[ip..n]);
    } else {
      var t := TakeTurn(level, src, n, ip, table);
      if t.distance > 0 {
        var table' := HashBoundary(src, t.end, t.table);
        RestGroupsFull(level, src, n, t.end - 1, table', []);
        CopiesBetween(pending, level, t.distance, t.end - 1 - ip, ParseFrom(level, src, n, t.end - 1, table', []));
      } else if |pending| + 1 == MAX_COPY {
        var group := [Literal(pending + [src[ip]])];
        RestGroupsFull(level, src, n, ip + 1, t.table, []);
        assert GroupsFull(group) by { OneGroup(group[0]); }
        GroupsFullConcat(group, ParseFrom(level, src, n, ip + 1, t.table, []));
      } else {
        RestGroupsFull(level, src, n, ip + 1, t.table, pending + [src[ip]]);
      }
    }
  }

  lemma OneGroup(op: Op)
    ensures GroupsFull([op])
  {
  }

  /** In every block, a group of literals is closed early only by a copy or by the end of the input. */
  lemma LiteralsAreGrouped(level: Level, src: seq<byte>, n: nat)
    requires Readable(level, src, n) && n >= 4
    ensures GroupsFull(Parse(level, src, n))
  {
    RestGroupsFull(level, src, n, 2, EmptyTable(), src[..2]);
  }

  // ---- Hash slots -----------------------------------------------------------------------------------------------

  /** The hash of some strings: each byte enters it, the first and second twice. */
  lemma HashExamples()
    ensures HashOf(255, 0, 0) == 224 && HashOf(0, 255, 0) == 31 && HashOf(0, 0, 255) == 7936
    ensures HashOf(8, 0, 0) == 9 && HashOf(0, 1, 0) == 289 && HashOf(97, 98, 99) == 3407
  {
  }

  /** A slot remembers the first byte or an earlier position of its own hash. */
  predicate Indexed(src: seq<byte>, table: seq<nat>) {
    forall h :: 0 <= h < |table| ==> table[h] == 0 || (table[h] + 2 < |src| && Hash(src, table[h]) == h)
  }

  lemma TurnKeepsIndexed(level: Level, src: seq<byte>, n: nat, ip: nat, table: Table)
    requires Position(level, src, n, ip, table) && ip < n - 12 && Indexed(src, table)
    ensures Indexed(src, TakeTurn(level, src, n, ip, table).table)
  {
    hide HashOf, Probe, MatchEnd;
  }

  /** At the end of a match its last two positions are remembered, the later one if they share a slot, and
      nothing else changes. */
  lemma BoundaryRule(src: seq<byte>, end: nat, table: Table)
    requires 3 <= end < |src| && Earlier(table, end - 1)
    ensures var a, b, t := Hash(src, end - 3), Hash(src, end - 2), HashBoundary(src, end, table);
      && t[b] == end - 2
      && (a != b ==> t[a] == end - 3)
      && (forall h :: 0 <= h < |table| && h != a && h != b ==> t[h] == table[h])
      && (Indexed(src, table) ==> Indexed(src, t))
  {
    hide HashOf;
  }

  // ---- Bytes --------------------------------------------------------------------------------------------------------

  lemma {:induction false} ChainRule(k: nat)
    ensures |Chain(k)| == k / 255 + 1
    ensures forall i :: 0 <= i < k / 255 ==> Chain(k)[i] == 255
    ensures Chain(k)[k / 255] == k % 255
  {
    if k >= 255 {
      ChainRule(k - 255);
      assert k / 255 == (k - 255) / 255 + 1 && k % 255 == (k - 255) % 255;
      assert forall i :: 1 <= i < |Chain(k)| ==> Chain(k)[i] == Chain(k - 255)[i - 1];
    }
  }

  /** The bytes of a copy, apart from a level 2 length chain: lengths up to 8 and the high bits of the distance
      in the first byte, longer ones as 7 and what is left; the distance's low byte last, or, from 8192 on at
      level 2, the escape 31, 255 and sixteen bits, high byte first. */
  lemma CopyBytesRule(level: Level, distance: nat, length: nat)
    requires Legal(level, Copy(distance, length))
    ensures var w, d := EncodeCopy(level, distance, length), distance - 1;
      var code := if length < 9 then length - 2 else 7;
      && (level == 1 || d < 8191 ==>
            w[0] == code * 32 + d / 256 && w[|w| - 1] == d % 256)
      && (level == 2 && d >= 8191 ==>
            && w[0] == code * 32 + 31
            && w[|w| - 3..] == [255, (d - 8191) / 256, (d - 8191) % 256])
      && (length < 9 && (level == 1 || d < 8191) ==> |w| == 2)
      && (length < 9 && level == 2 && d >= 8191 ==> |w| == 4)
      && (length >= 9 && level == 1 ==> |w| == 3 && w[1] == length - 9)
      && (length >= 9 && level == 2 ==>
            w[1..|w| - (if d < 8191 then 1 else 3)] == Chain(length - 9))
  {
    hide Chain;
  }

  /** A group's bytes: its count less one, then the literals themselves. */
  lemma LiteralBytesRule(level: Level, bytes: seq<byte>)
    requires 1 <= |bytes| <= 32
    ensures EncodeOp(level, Literal(bytes))[0] == |bytes| - 1 && EncodeOp(level, Literal(bytes))[1..] == bytes
  {
  }

  // ---- Runs of one byte -------------------------------------------------------------------------------------------

  predicate AllEqual(src: seq<byte>, n: nat, b: byte) {
    n <= |src| && forall i :: 0 <= i < n ==> src[i] == b
  }

  lemma RunTurn(level: Level, src: seq<byte>, n: nat, b: byte, table: Table)
    requires Position(level, src, n, 2, table) && n >= 15 && AllEqual(src, n, b)
    requires forall h :: 0 <= h < |table| ==> table[h] == 0
    ensures TakeTurn(level, src, n, 2, table).distance == (if level == 1 then 2 else 1)
    ensures TakeTurn(level, src, n, 2, table).end == n - 2
  {
    hide TakeTurn, Hash;
    TurnRule(level, src, n, 2, table);
    EqualSlices(src, n, b);
    hide AllEqual;
    RunEnd(level, src, n, b, TakeTurn(level, src, n, 2, table), table);
  }

  lemma EqualSlices(src: seq<byte>, n: nat, b: byte)
    requires AllEqual(src, n, b) && n >= 5
    ensures src[0..3] == src[2..5] && src[..2] == [b, b] && [] + src[n - 3..n] == [b, b, b]
    ensures src[1] == src[2] == src[3] == src[4]
  {
  }

  /** Nothing in the run differs, so the match goes on to where the compressor stops looking. */
  lemma RunEnd(level: Level, src: seq<byte>, n: nat, b: byte, t: Turn, table: Table)
    requires Position(level, src, n, 2, table) && n >= 15 && AllEqual(src, n, b)
    requires t == TakeTurn(level, src, n, 2, table) && 1 <= t.distance <= 2
    ensures t.end == n - 2
  {
    hide TakeTurn;
    MatchIsMaximal(level, src, n, 2, table);
  }

  /** Fifteen or more equal bytes become two literals, one match of all but the last three, and those. */
  lemma RunParse(level: Level, src: seq<byte>, n: nat, b: byte)
    requires Readable(level, src, n) && n >= 15 && AllEqual(src, n, b)
    ensures Parse(level, src, n)
         == [Literal([b, b])] + CopyOps(level, if level == 1 then 2 else 1, n - 5) + [Literal([b, b, b])]
  {
    hide TakeTurn, HashBoundary, CopyOps;
    RunTurn(level, src, n, b, EmptyTable());
    EqualSlices(src, n, b);
    hide AllEqual;
    var t := TakeTurn(level, src, n, 2, EmptyTable());
    var table := HashBoundary(src, n - 2, t.table);
    assert ParseFrom(level, src, n, n - 3, table, []) == [Literal([b, b, b])];
  }

  lemma {:induction false} CopiesSize(level: Level, distance: nat, length: nat)
    requires 1 <= distance <= 2 && 3 <= length && AllLegal(level, CopyOps(level, distance, length))
    ensures |Wire(level, CopyOps(level, distance, length))|
         <= (if level == 1 then 3 + 3 * (length / 262) else 3 + length / 255)
    decreases length
  {
    hide EncodeCopy;
    var ops := CopyOps(level, distance, length);
    assert Legal(level, ops[0]);
    CopyBytesRule(level, distance, ops[0].length);
    if level == 1 && length > MAX_LEN {
      assert ops[1..] == CopyOps(level, distance, length - 262);
      CopiesSize(level, distance, length - 262);
    } else {
      assert ops[1..] == [];
    }
  }

  /** Repetition is compressed away: n equal bytes take 3 bytes per 262 at level 1 and one per 255 at level 2,
      and ten more. */
  lemma RunSize(level: Level, src: seq<byte>, n: nat, b: byte)
    requires Readable(level, src, n) && n >= 15 && AllEqual(src, n, b)
    ensures |Compressed(level, src, n)| <= (if level == 1 then 10 + 3 * ((n - 5) / 262) else 10 + (n - 5) / 255)
  {
    hide Parse, CopyOps;
    RunParse(level, src, n, b);
    ParseIsLegal(level, src, n);
    var distance := if level == 1 then 2 else 1;
    var first, copies, last := [Literal([b, b])], CopyOps(level, distance, n - 5), [Literal([b, b, b])];
    var ops := first + copies + last;
    assert forall i :: 0 <= i < |copies| ==> copies[i] == ops[i + 1];
    WireConcat(level, first + copies, last);
    WireConcat(level, first, copies);
    CopiesSize(level, distance, n - 5);
    assert first[1..] == [] && last[1..] == [];
  }

  /** Short runs byte for byte: a hundred 'a' at level 1 are 01 61 61 E0 56 01 02 61 61 61. */
  lemma RunBytes(level: Level, src: seq<byte>, n: nat, b: byte)
    requires Readable(level, src, n) && 15 <= n <= 268 && AllEqual(src, n, b)
    ensures Compressed(level, src, n)
         == [if level == 1 then 1 else 33, b, b, 224, n - 14, if level == 1 then 1 else 0, 2, b, b, b]
  {
    hide Parse, EncodeCopy, CopyOps, AllEqual, Legal, Wire;
    RunParse(level, src, n, b);
    ParseIsLegal(level, src, n);
    RunOps(level, n, b);
  }

  lemma RunOps(level: Level, n: nat, b: byte)
    requires 15 <= n <= 268
    ensures var distance := if level == 1 then 2 else 1;
      var ops := [Literal([b, b])] + CopyOps(level, distance, n - 5) + [Literal([b, b, b])];
      && AllLegal(level, ops)
      && Wire(level, ops) == [1, b, b, 224, n - 14, distance - 1, 2, b, b, b]
  {
    var distance := if level == 1 then 2 else 1;
    var first, copy, last := Literal([b, b]), Copy(distance, n - 5), Literal([b, b, b]);
    assert CopyOps(level, distance, n - 5) == [copy];
    assert [first] + [copy] + [last] == [first, copy, last];
    assert EncodeOp(level, first) == [1, b, b] && EncodeOp(level, last) == [2, b, b, b];
    assert EncodeOp(level, copy) == [224, n - 14, distance - 1];
    hide EncodeOp, Wire;
    WireOfThree(level, first, copy, last);
  }

  lemma WireOfThree(level: Level, x: Op, y: Op, z: Op)
    requires Legal(level, x) && Legal(level, y) && Legal(level, z)
    ensures Wire(level, [x, y, z]) == EncodeOp(level, x) + EncodeOp(level, y) + EncodeOp(level, z)
  {
    hide EncodeOp;
    assert [x, y, z][1..] == [y, z] && [y, z][1..] == [z] && [z][1..] == [];
    assert Wire(level, [z]) == EncodeOp(level, z);
    assert Wire(level, [y, z]) == EncodeOp(level, y) + EncodeOp(level, z);
  }
}
