/** The FastLZ library as functions of its input: what a compressed block is, what decompressing any
    bytes gives, and the promises that tie the two together. */
module FastLZ {
  import opened FastLZFormat
  import opened FastLZParse

  const MAX_INT: nat := 0x7fff_ffff

  /** `*output |= 1 << 5`, the mark of a level 2 block. */
  function Marked(b: byte): (r: byte)
    ensures r / 32 % 2 == 1 && r % 32 == b % 32
  {
    if b / 32 % 2 == 1 then b else b + 32
  }

  /** The input buffer as the compressor may read it: level 2 can look at one byte after the input. */
  predicate Readable(level: Level, src: seq<byte>, n: nat) {
    n <= |src| && n <= MAX_INT && (level == 2 && n >= 4 ==> n < |src|)
  }

  lemma ParseIsLegal(level: Level, src: seq<byte>, n: nat)
    requires Readable(level, src, n) && n >= 4
    ensures Valid(level, [], Parse(level, src, n)) && AllLegal(level, Parse(level, src, n))
    ensures Expand(level, [], Parse(level, src, n)) == src[..n]
    ensures Parse(level, src, n) != [] && Parse(level, src, n)[0].Literal?
  {
    hide Valid, Expand;
    assert src[..0] == [];
    ParseLossless(level, src, n, 2, EmptyTable(), src[..2]);
    ValidIsLegal(level, [], Parse(level, src, n));
    StartsLiteral(level, src, n);
  }

  lemma StartsLiteral(level: Level, src: seq<byte>, n: nat)
    requires Readable(level, src, n) && n >= 4
    ensures Parse(level, src, n) != [] && Parse(level, src, n)[0].Literal?
  {
    FirstIsLiteral(level, src, n, 2, EmptyTable(), src[..2]);
  }

  lemma {:induction false} FirstIsLiteral(level: Level, src: seq<byte>, n: nat, ip: nat, table: Table, pending: seq<byte>)
    requires Position(level, src, n, ip, table) && pending != []
    ensures ParseFrom(level, src, n, ip, table, pending) != []
    ensures ParseFrom(level, src, n, ip, table, pending)[0].Literal?
    decreases n - ip
  {
    hide TakeTurn, HashBoundary, CopyOps;
    if ip < n - 12 {
      var t := TakeTurn(level, src, n, ip, table);
      if t.distance == 0 && |pending| + 1 != MAX_COPY {
        FirstIsLiteral(level, src, n, ip + 1, t.table, pending + [src[ip]]);
      }
    }
  }

  /** The bytes fastlz_compress_level writes. */
  function Compressed(level: Level, src: seq<byte>, n: nat): (r: seq<byte>)
    requires Readable(level, src, n)
    ensures r == [] <==> n == 0
    ensures n > 0 ==> r[0] / 32 == (if level == 2 && n >= 4 then 1 else 0)
  {
    if n == 0 then []
    else if n < 4 then [n - 1] + src[..n]
    else
      WireStartsWithLiteral(level, src, n);
      var wire := Wire(level, Parse(level, src, n));
      if level == 2 then wire[0 := Marked(wire[0])] else wire
  }

  lemma WireStartsWithLiteral(level: Level, src: seq<byte>, n: nat)
    requires Readable(level, src, n) && n >= 4
    ensures AllLegal(level, Parse(level, src, n))
    ensures Wire(level, Parse(level, src, n)) != [] && Wire(level, Parse(level, src, n))[0] < 32
  {
    hide Parse;
    ParseIsLegal(level, src, n);
  }

  /** fastlz_decompress on a block of `length` bytes at the start of the readable memory `mem`. */
  function Decompressed(mem: seq<byte>, length: int, maxout: int): (r: Outcome)
    requires length <= |mem|
    ensures r.Decoded? ==> |r.bytes| <= maxout
  {
    if mem == [] then OverRead
    else
      var level := mem[0] / 32 + 1;
      if level == 1 || level == 2 then DecodeFrom(level, mem, length, maxout, mem[0] % 32, 1, [])
      else Refused
  }

  /** Lossless: for every non-empty input of C int length, at either level, decompressing the block gives
      back the input if there is room for it and is refused if there is not, whatever bytes lie after the
      block in memory. */
  lemma Lossless(level: Level, src: seq<byte>, n: nat, mem: seq<byte>, maxout: int)
    requires Readable(level, src, n) && 0 < n
    requires Compressed(level, src, n) <= mem
    ensures Decompressed(mem, |Compressed(level, src, n)|, maxout) == (
              if n <= maxout then Decoded(src[..n]) else Refused)
  {
    var block := Compressed(level, src, n);
    assert mem[0] == block[0];
    if n < 4 {
      assert mem[1..n + 1] == block[1..] == src[..n];
      DecodeOneLiteral(1, src[..n], mem, n + 1, maxout, 1, []);
      assert [] + src[..n] == src[..n];
    } else {
      LosslessBlock(level, src, n, mem, maxout);
    }
  }

  lemma LosslessBlock(level: Level, src: seq<byte>, n: nat, mem: seq<byte>, maxout: int)
    requires Readable(level, src, n) && 4 <= n
    requires Compressed(level, src, n) <= mem
    ensures Decompressed(mem, |Compressed(level, src, n)|, maxout) == (
              if n <= maxout then Decoded(src[..n]) else Refused)
  {
    hide DecodeFrom, Valid, Expand, Parse;
    ParseIsLegal(level, src, n);
    var ops := Parse(level, src, n);
    var wire, block := Wire(level, ops), Compressed(level, src, n);
    assert [wire[0]] + mem[1..|block|] == wire by {
      assert mem[1..|block|] == block[1..] == wire[1..];
    }
    DecodeWire(level, ops, mem, |block|, maxout, wire[0], 1, []);
    assert mem[0] == block[0];
  }

  // ---- Size -------------------------------------------------------------------------------------

  function Bound(m: nat): nat {
    m + (m + 31) / 32
  }

  lemma CopySize(level: Level, distance: nat, length: nat)
    requires Legal(level, Copy(distance, length))
    requires IsFar(level, distance - 1) ==> length >= 5
    ensures |EncodeCopy(level, distance, length)| <= length - 1
  {
  }

  lemma {:induction false} CopyOpsSize(level: Level, distance: nat, length: nat)
    requires 1 <= distance && 3 <= length && AllLegal(level, CopyOps(level, distance, length))
    requires IsFar(level, distance - 1) ==> length >= 5
    ensures |Wire(level, CopyOps(level, distance, length))| <= length - 1
    decreases length
  {
    hide EncodeCopy;
    var ops := CopyOps(level, distance, length);
    assert Legal(level, ops[0]);
    if level == 1 && length > MAX_LEN {
      var rest := CopyOps(level, distance, length - (MAX_LEN - 2));
      assert ops[1..] == rest;
      CopySize(level, distance, MAX_LEN - 2);
      CopyOpsSize(level, distance, length - (MAX_LEN - 2));
    } else {
      assert ops[1..] == [];
      CopySize(level, distance, length);
    }
  }

  lemma {:induction false} ChunkSize(level: Level, bytes: seq<byte>)
    requires AllLegal(level, Chunk(bytes))
    ensures |Wire(level, Chunk(bytes))| <= Bound(|bytes|)
    decreases |bytes|
  {
    if |bytes| >= MAX_COPY {
      var rest := Chunk(bytes[MAX_COPY..]);
      assert Chunk(bytes)[1..] == rest;
      ChunkSize(level, bytes[MAX_COPY..]);
    } else if bytes != [] {
      assert Chunk(bytes)[1..] == [];
    }
  }

  lemma SizeOfParts(level: Level, pending: seq<byte>, distance: nat, length: nat, rest: seq<Op>)
    requires 1 <= distance && 3 <= length && |pending| <= MAX_COPY && (IsFar(level, distance - 1) ==> length >= 5)
    requires AllLegal(level, Flush(pending) + CopyOps(level, distance, length) + rest)
    ensures AllLegal(level, rest)
    ensures |Wire(level, Flush(pending) + CopyOps(level, distance, length) + rest)|
         <= (if pending == [] then 0 else |pending| + 1) + length - 1 + |Wire(level, rest)|
  {
    hide Legal, CopyOps;
    var copies := CopyOps(level, distance, length);
    var all := Flush(pending) + copies + rest;
    assert forall i :: 0 <= i < |Flush(pending)| ==> Flush(pending)[i] == all[i];
    assert forall i :: 0 <= i < |copies| ==> copies[i] == all[|Flush(pending)| + i];
    assert forall i :: 0 <= i < |rest| ==> rest[i] == all[|Flush(pending)| + |copies| + i];
    WireConcat(level, Flush(pending) + copies, rest);
    WireConcat(level, Flush(pending), copies);
    CopyOpsSize(level, distance, length);
    if pending != [] {
      assert Flush(pending)[1..] == [];
    }
  }

  /** Every operation pays for itself but the one control byte per 32 literals. */
  lemma {:induction false} ParseSize(level: Level, src: seq<byte>, n: nat, ip: nat, table: Table, pending: seq<byte>)
    requires Position(level, src, n, ip, table) && |pending| < MAX_COPY
    requires AllLegal(level, ParseFrom(level, src, n, ip, table, pending))
    ensures |Wire(level, ParseFrom(level, src, n, ip, table, pending))| <= Bound(n - ip + |pending|)
    decreases n - ip
  {
    hide TakeTurn, HashBoundary, Chunk, CopyOps, Legal, Repeats;
    if ip >= n - 12 {
      ChunkSize(level, pending + src[ip..n]);
    } else {
      var t := TakeTurn(level, src, n, ip, table);
      if t.distance > 0 {
        var end := t.end - 1;
        var table' := HashBoundary(src, t.end, t.table);
        var rest := ParseFrom(level, src, n, end, table', []);
        SizeOfParts(level, pending, t.distance, end - ip, rest);
        ParseSize(level, src, n, end, table', []);
      } else if |pending| + 1 == MAX_COPY {
        var next := [Literal(pending + [src[ip]])];
        var rest := ParseFrom(level, src, n, ip + 1, t.table, []);
        assert (next + rest)[1..] == rest;
        ParseSize(level, src, n, ip + 1, t.table, []);
      } else {
        ParseSize(level, src, n, ip + 1, t.table, pending + [src[ip]]);
      }
    }
  }

  /** The tight bound: at most one control byte per 32 bytes of input, the last group counting in full. */
  lemma SizeBound(level: Level, src: seq<byte>, n: nat)
    requires Readable(level, src, n)
    ensures |Compressed(level, src, n)| <= n + (n + 31) / 32
  {
    if n >= 4 {
      ParseIsLegal(level, src, n);
      ParseSize(level, src, n, 2, EmptyTable(), src[..2]);
    }
  }

  // ---- The byte after the input -----------------------------------------------------------------

  lemma Agree(a: seq<byte>, b: seq<byte>, n: nat, i: nat)
    requires i < n <= |a| && n <= |b| && a[..n] == b[..n]
    ensures a[i] == b[i]
  {
    assert a[i] == a[..n][i] && b[i] == b[..n][i];
  }

  lemma AgreePrefix(a: seq<byte>, b: seq<byte>, n: nat, m: nat)
    requires m <= n <= |a| && n <= |b| && a[..n] == b[..n]
    ensures a[..m] == b[..m]
  {
    assert a[..m] == a[..n][..m] && b[..m] == b[..n][..m];
  }

  lemma {:induction false} ScanEndSame(a: seq<byte>, b: seq<byte>, distance: nat, ip: nat, limit: nat)
    requires 1 <= distance <= ip <= limit <= |a| && limit <= |b|
    requires a[..limit] == b[..limit]
    ensures ScanEnd(a, distance, ip, limit) == ScanEnd(b, distance, ip, limit)
    decreases limit - ip
  {
    if ip < limit {
      Agree(a, b, limit, ip);
      Agree(a, b, limit, ip - distance);
      ScanEndSame(a, b, distance, ip + 1, limit);
    }
  }

  lemma HashSame(a: seq<byte>, b: seq<byte>, n: nat, p: nat)
    requires p + 2 < n <= |a| && n <= |b| && a[..n] == b[..n]
    ensures Hash(a, p) == Hash(b, p)
  {
    hide HashOf;
    Agree(a, b, n, p);
    Agree(a, b, n, p + 1);
    Agree(a, b, n, p + 2);
  }

  lemma ProbeSame(level: Level, a: seq<byte>, b: seq<byte>, n: nat, ip: nat, ref: nat)
    requires ref < ip && ip + 4 < n <= |a| && n <= |b| && a[..n] == b[..n]
    ensures Probe(level, a, ip, ref) == Probe(level, b, ip, ref)
  {
    hide Repeats;
    forall i | 0 <= i < n ensures a[i] == b[i] {
      Agree(a, b, n, i);
    }
  }

  lemma MatchEndSame(level: Level, a: seq<byte>, b: seq<byte>, n: nat, ip: nat, distance: nat, k: nat)
    requires 4 <= n <= |a| && n <= |b| && a[..n] == b[..n] && 2 <= ip < n - 12
    requires k == (if level == 2 && distance >= MAX_DISTANCE then 5 else 3)
    requires 1 <= distance < DistanceLimit(level)
    requires Repeats(a, distance, ip, ip + k) && Repeats(b, distance, ip, ip + k)
    ensures MatchEnd(level, a, n, ip, distance, k) == MatchEnd(level, b, n, ip, distance, k)
  {
    hide ScanEnd;
    var limit := ScanLimit(n, ip + k);
    AgreePrefix(a, b, n, limit);
    ScanEndSame(a, b, distance, ip + k, limit);
  }

  lemma TakeTurnSame(level: Level, a: seq<byte>, b: seq<byte>, n: nat, ip: nat, table: Table)
    requires Position(level, a, n, ip, table) && Position(level, b, n, ip, table) && ip < n - 12
    requires a[..n] == b[..n]
    ensures TakeTurn(level, a, n, ip, table) == TakeTurn(level, b, n, ip, table)
  {
    hide Hash, Probe, MatchEnd, Repeats;
    Agree(a, b, n, ip - 1);
    Agree(a, b, n, ip);
    Agree(a, b, n, ip + 1);
    Agree(a, b, n, ip + 2);
    HashSame(a, b, n, ip);
    var ref := table[Hash(a, ip)];
    ProbeSame(level, a, b, n, ip, ref);
    var k := Probe(level, a, ip, ref);
    if level == 2 && IsRun(a, ip) {
      RunRepeats(a, ip);
      RunRepeats(b, ip);
      MatchEndSame(level, a, b, n, ip, 1, 3);
    } else if k > 0 {
      MatchEndSame(level, a, b, n, ip, ip - ref, k);
    }
  }

  lemma RunRepeats(src: seq<byte>, ip: nat)
    requires 1 <= ip && ip + 2 < |src| && IsRun(src, ip)
    ensures Repeats(src, 1, ip, ip + 3)
  {
  }

  lemma HashBoundarySame(a: seq<byte>, b: seq<byte>, n: nat, end: nat, table: Table)
    requires 3 <= end < n <= |a| && n <= |b| && a[..n] == b[..n] && Earlier(table, end - 1)
    ensures HashBoundary(a, end, table) == HashBoundary(b, end, table)
  {
    hide Hash;
    HashSame(a, b, n, end - 3);
    HashSame(a, b, n, end - 2);
  }

  lemma {:induction false} ParseSame(level: Level, a: seq<byte>, b: seq<byte>, n: nat, ip: nat,
                                     ta: Table, tb: Table, pending: seq<byte>)
    requires Position(level, a, n, ip, ta) && Position(level, b, n, ip, tb)
    requires a[..n] == b[..n] && (ta == tb || ip >= n - 12)
    ensures ParseFrom(level, a, n, ip, ta, pending) == ParseFrom(level, b, n, ip, tb, pending)
    decreases n - ip
  {
    hide TakeTurn, HashBoundary, CopyOps, Chunk, Repeats;
    assert a[ip..n] == a[..n][ip..] == b[..n][ip..] == b[ip..n];
    if ip < n - 12 {
      Agree(a, b, n, ip);
      TakeTurnSame(level, a, b, n, ip, ta);
      var t := TakeTurn(level, a, n, ip, ta);
      if t.distance > 0 {
        var xa, xb := HashBoundary(a, t.end, t.table), HashBoundary(b, t.end, t.table);
        if t.end < n {
          HashBoundarySame(a, b, n, t.end, t.table);
        }
        ParseSame(level, a, b, n, t.end - 1, xa, xb, []);
      } else {
        var next := pending + [a[ip]];
        ParseSame(level, a, b, n, ip + 1, t.table, t.table, if |next| == MAX_COPY then [] else next);
      }
    }
  }

  /** Level 2 may hash one byte past the input after a far match, but that never reaches the output:
      the block depends on the input alone. */
  lemma GuardByteIrrelevant(level: Level, a: seq<byte>, b: seq<byte>, n: nat)
    requires Readable(level, a, n) && Readable(level, b, n)
    requires a[..n] == b[..n]
    ensures Compressed(level, a, n) == Compressed(level, b, n)
  {
    if n >= 4 {
      assert a[..2] == a[..n][..2] == b[..n][..2] == b[..2];
      ParseSame(level, a, b, n, 2, EmptyTable(), EmptyTable(), a[..2]);
    }
  }
}
