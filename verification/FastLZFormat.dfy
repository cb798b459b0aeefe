/** The two FastLZ wire formats.
    A compressed block is a list of operations: literal bytes to append, or a copy of bytes already
    produced.  `Wire` lays the operations out as bytes, `DecodeFrom` says what the decompressor makes of
    any bytes whatever, and `DecodeWire` connects the two. */
module FastLZFormat {
  import opened Wrappers

  type byte = x: int | 0 <= x < 0x100

  type Level = l: int | l == 1 || l == 2 witness 1

  const MAX_COPY: nat := 32
  const MAX_LEN: nat := 264
  /** MAX_DISTANCE of level 1. */
  const NEAR_DISTANCE: nat := 8192
  /** MAX_DISTANCE of level 2. */
  const MAX_DISTANCE: nat := 8191
  const MAX_FARDISTANCE: nat := 65535 + MAX_DISTANCE - 1
  const UINT32: nat := 0x1_0000_0000

  datatype Op =
    | Literal(bytes: seq<byte>)
    | Copy(distance: nat, length: nat)

  // ---- What operations mean -------------------------------------------------------------------

  /** One byte at a time, so a copy may overlap the bytes it produces. */
  function CopyBack(out: seq<byte>, distance: nat, length: nat): (r: seq<byte>)
    requires 1 <= distance <= |out|
    ensures |r| == |out| + length
    ensures out <= r
    decreases length
  {
    if length == 0 then out
    else CopyBack(out + [out[|out| - distance]], distance, length - 1)
  }

  predicate Applicable(out: seq<byte>, op: Op) {
    op.Copy? ==> 1 <= op.distance <= |out|
  }

  function Apply(out: seq<byte>, op: Op): (r: seq<byte>)
    requires Applicable(out, op)
    ensures out <= r
  {
    match op
    case Literal(bytes) => out + bytes
    case Copy(distance, length) => CopyBack(out, distance, length)
  }

  /** The ranges the two formats can express. */
  predicate Legal(level: Level, op: Op) {
    match op
    case Literal(bytes) => 1 <= |bytes| <= MAX_COPY
    case Copy(distance, length) =>
      if level == 1 then
        1 <= distance <= NEAR_DISTANCE && 3 <= length <= MAX_LEN
      else
        1 <= distance <= MAX_DISTANCE + 0x1_0000 && 3 <= length && length - 3 < UINT32
  }

  /** Every operation is expressible and refers back only to bytes that exist when it is applied. */
  predicate Valid(level: Level, out: seq<byte>, ops: seq<Op>)
    decreases |ops|
  {
    ops != [] ==>
      && Legal(level, ops[0])
      && Applicable(out, ops[0])
      && Valid(level, Apply(out, ops[0]), ops[1..])
  }

  function Expand(level: Level, out: seq<byte>, ops: seq<Op>): (r: seq<byte>)
    requires Valid(level, out, ops)
    ensures out <= r
    decreases |ops|
  {
    if ops == [] then out else Expand(level, Apply(out, ops[0]), ops[1..])
  }

  // ---- Layout ---------------------------------------------------------------------------------

  /** A level 2 length: as many 255s as fit, then the rest. */
  function Chain(k: nat): (r: seq<byte>)
    ensures |r| == k / 255 + 1
  {
    if k < 255 then [k] else [255] + Chain(k - 255)
  }

  predicate IsFar(level: Level, biased: nat) {
    level == 2 && biased >= MAX_DISTANCE
  }

  /** First byte: the length code up to 7, and the high bits of a near distance or 31 for a far one. */
  function CopyControl(level: Level, biased: nat, code: nat): (r: byte)
    requires Legal(level, Copy(biased + 1, code + 2))
    ensures r >= 32 && r / 32 == (if code < 7 then code else 7)
    ensures r % 32 == (if IsFar(level, biased) then 31 else biased / 256)
  {
    (if code < 7 then code else 7) * 32 + (if IsFar(level, biased) then 31 else biased / 256)
  }

  function LengthBytes(level: Level, code: nat): (r: seq<byte>)
    requires level == 1 ==> code <= MAX_LEN - 2
  {
    if code < 7 then [] else if level == 1 then [code - 7] else Chain(code - 7)
  }

  function OffsetBytes(level: Level, biased: nat): (r: seq<byte>)
    requires IsFar(level, biased) ==> biased - MAX_DISTANCE < 0x1_0000
  {
    if IsFar(level, biased) then [255, (biased - MAX_DISTANCE) / 256, (biased - MAX_DISTANCE) % 256]
    else [biased % 256]
  }

  function EncodeCopy(level: Level, distance: nat, length: nat): (r: seq<byte>)
    requires Legal(level, Copy(distance, length))
  {
    [CopyControl(level, distance - 1, length - 2)]
    + LengthBytes(level, length - 2) + OffsetBytes(level, distance - 1)
  }

  function EncodeOp(level: Level, op: Op): (r: seq<byte>)
    requires Legal(level, op)
    ensures |r| >= 2
    ensures op.Literal? <==> r[0] < 32
  {
    match op
    case Literal(bytes) => [|bytes| - 1] + bytes
    case Copy(distance, length) => EncodeCopy(level, distance, length)
  }

  predicate AllLegal(level: Level, ops: seq<Op>) {
    forall i :: 0 <= i < |ops| ==> Legal(level, ops[i])
  }

  function Wire(level: Level, ops: seq<Op>): (r: seq<byte>)
    requires AllLegal(level, ops)
    ensures ops != [] ==> |r| >= 2
    ensures ops != [] && ops[0].Literal? ==> r[0] < 32
  {
    if ops == [] then [] else EncodeOp(level, ops[0]) + Wire(level, ops[1..])
  }

  lemma {:induction false} WireConcat(level: Level, a: seq<Op>, b: seq<Op>)
    requires AllLegal(level, a) && AllLegal(level, b)
    ensures Wire(level, a + b) == Wire(level, a) + Wire(level, b)
  {
    if a == [] {
      assert a + b == b;
    } else {
      assert (a + b)[0] == a[0] && (a + b)[1..] == a[1..] + b;
      WireConcat(level, a[1..], b);
    }
  }

  lemma {:induction false} ValidIsLegal(level: Level, out: seq<byte>, ops: seq<Op>)
    requires Valid(level, out, ops)
    ensures AllLegal(level, ops)
    decreases |ops|
  {
    if ops != [] {
      ValidIsLegal(level, Apply(out, ops[0]), ops[1..]);
      assert ops == [ops[0]] + ops[1..];
    }
  }

  lemma {:induction false} ExpandConcat(level: Level, out: seq<byte>, a: seq<Op>, b: seq<Op>)
    requires Valid(level, out, a)
    requires Valid(level, Expand(level, out, a), b)
    ensures Valid(level, out, a + b)
    ensures Expand(level, out, a + b) == Expand(level, Expand(level, out, a), b)
    decreases |a|
  {
    if a == [] {
      assert a + b == b;
    } else {
      assert (a + b)[0] == a[0] && (a + b)[1..] == a[1..] + b;
      ExpandConcat(level, Apply(out, a[0]), a[1..], b);
    }
  }

  // ---- What the decompressor does with any bytes ------------------------------------------------

  /** `OverRead`: an operand lies outside the readable memory.  `Refused`: the C function returns 0. */
  datatype Outcome = OverRead | Refused | Decoded(bytes: seq<byte>)

  /** `len` is the C variable (the copy takes len + 3 bytes), `back` is op - ref, `next` the new ip. */
  datatype Header = Header(len: nat, back: nat, next: nat)

  /** The level 2 length bytes; the 32-bit sum wraps. */
  function ReadChain(mem: seq<byte>, ip: nat, len: nat): (r: Option<(nat, nat)>)
    requires ip <= |mem| && len < UINT32
    ensures r.Some? ==> r.value.0 < UINT32 && ip < r.value.1 <= |mem|
    decreases |mem| - ip
  {
    if ip == |mem| then None
    else
      var sum := (len + mem[ip]) % UINT32;
      if mem[ip] == 255 then ReadChain(mem, ip + 1, sum) else Some((sum, ip + 1))
  }

  function ReadLength(level: Level, mem: seq<byte>, ctrl: byte, ip: nat): (r: Option<(nat, nat)>)
    requires ip <= |mem| && ctrl >= 32
    ensures r.Some? ==> r.value.0 < UINT32 && ip <= r.value.1 <= |mem|
  {
    var len := ctrl / 32 - 1;
    if len < 6 then Some((len, ip))
    else if level == 2 then ReadChain(mem, ip, len)
    else if ip == |mem| then None
    else Some((len + mem[ip], ip + 1))
  }

  /** How far back the copy starts (op - ref) and the new ip; the far form is the escape (31, 255). */
  function ReadOffset(level: Level, mem: seq<byte>, ctrl: byte, ip: nat): (r: Option<(nat, nat)>)
    requires ip <= |mem|
    ensures r.Some? ==> ip < r.value.1 <= |mem|
  {
    var ofs := (ctrl % 32) * 256;
    if ip == |mem| then None
    else if level == 2 && mem[ip] == 255 && ofs == 31 * 256 then
      if ip + 2 >= |mem| then None
      else Some((mem[ip + 1] * 256 + mem[ip + 2] + MAX_DISTANCE, ip + 3))
    else Some((ofs + mem[ip], ip + 1))
  }

  /** `mem` is all the memory the decompressor may read; operands are not checked against the block's end. */
  function ReadHeader(level: Level, mem: seq<byte>, ctrl: byte, ip: nat): (r: Option<Header>)
    requires ip <= |mem| && ctrl >= 32
    ensures r.Some? ==> r.value.len < UINT32 && ip < r.value.next <= |mem|
  {
    match ReadLength(level, mem, ctrl, ip)
    case None => None
    case Some((len, p)) =>
      match ReadOffset(level, mem, ctrl, p)
      case None => None
      case Some((back, q)) => Some(Header(len, back, q))
  }

  /** The decompressor's loop, from the point where `ctrl` has been read and `out` written.
      `limit` is where the block ends, `maxout` the room in the output buffer. */
  function DecodeFrom(level: Level, mem: seq<byte>, limit: int, maxout: int,
                      ctrl: byte, ip: nat, out: seq<byte>): (r: Outcome)
    requires limit <= |mem| && ip <= |mem|
    ensures r.Decoded? ==> |out| < |r.bytes| <= maxout
    decreases |mem| - ip
  {
    if ctrl >= 32 then
      match ReadHeader(level, mem, ctrl, ip)
      case None => OverRead
      case Some(h) =>
        if |out| + h.len + 3 > maxout then Refused
        else if |out| - h.back - 1 < 0 then Refused
        else Continue(level, mem, limit, maxout, h.next, CopyBack(out, h.back + 1, h.len + 3))
    else if |out| + ctrl + 1 > maxout then Refused
    else if ip + ctrl + 1 > limit then Refused
    else Continue(level, mem, limit, maxout, ip + ctrl + 1, out + mem[ip..ip + ctrl + 1])
  }

  function Continue(level: Level, mem: seq<byte>, limit: int, maxout: int, ip: nat, out: seq<byte>): (r: Outcome)
    requires limit <= |mem| && ip <= |mem|
    ensures r.Decoded? && |out| <= maxout ==> |out| <= |r.bytes| <= maxout
    decreases |mem| - ip, 0
  {
    if ip < limit then DecodeFrom(level, mem, limit, maxout, mem[ip], ip + 1, out) else Decoded(out)
  }

  // ---- Headers come back ------------------------------------------------------------------------

  lemma {:induction false} ReadChainOfChain(mem: seq<byte>, ip: nat, len: nat, k: nat)
    requires len + k < UINT32
    requires ip + |Chain(k)| <= |mem|
    requires mem[ip..ip + |Chain(k)|] == Chain(k)
    ensures ReadChain(mem, ip, len) == Some((len + k, ip + |Chain(k)|))
    decreases k
  {
    if k >= 255 {
      var rest := Chain(k - 255);
      assert Chain(k) == [255] + rest;
      hide Chain;
      SplitAt(mem, ip, [255], rest);
      ReadChainOfChain(mem, ip + 1, len + 255, k - 255);
      assert mem[ip] == mem[ip..ip + 1][0];
    } else {
      assert mem[ip] == mem[ip..ip + 1][0];
    }
  }

  lemma LengthRoundTrip(level: Level, biased: nat, code: nat, mem: seq<byte>, ip: nat)
    requires Legal(level, Copy(biased + 1, code + 2))
    requires ip + |LengthBytes(level, code)| <= |mem|
    requires mem[ip..ip + |LengthBytes(level, code)|] == LengthBytes(level, code)
    ensures ReadLength(level, mem, CopyControl(level, biased, code), ip)
         == Some((code - 1, ip + |LengthBytes(level, code)|))
  {
    if code >= 7 {
      if level == 2 {
        ReadChainOfChain(mem, ip, 6, code - 7);
      } else {
        assert mem[ip] == mem[ip..ip + 1][0];
      }
    }
  }

  lemma OffsetRoundTrip(level: Level, biased: nat, code: nat, mem: seq<byte>, ip: nat)
    requires Legal(level, Copy(biased + 1, code + 2))
    requires ip + |OffsetBytes(level, biased)| <= |mem|
    requires mem[ip..ip + |OffsetBytes(level, biased)|] == OffsetBytes(level, biased)
    ensures ReadOffset(level, mem, CopyControl(level, biased, code), ip)
         == Some((biased, ip + |OffsetBytes(level, biased)|))
  {
    var b := OffsetBytes(level, biased);
    assert mem[ip] == b[0] by { assert mem[ip..ip + |b|][0] == b[0]; }
    if IsFar(level, biased) {
      assert mem[ip + 1] == b[1] && mem[ip + 2] == b[2] by {
        assert mem[ip..ip + |b|][1] == b[1] && mem[ip..ip + |b|][2] == b[2];
      }
    } else {
      // a near distance whose high bits are 31 is at most 8190, so its low byte is not 255
      assert level == 2 ==> !(biased / 256 == 31 && biased % 256 == 255);
    }
  }

  /** The decoder recovers length and distance and stops exactly after the bytes written, whatever
      follows them: no copy's encoding is a prefix of another's. */
  lemma HeaderRoundTrip(level: Level, distance: nat, length: nat, mem: seq<byte>, ip: nat)
    requires Legal(level, Copy(distance, length))
    requires ip + |EncodeCopy(level, distance, length)| - 1 <= |mem|
    requires mem[ip..ip + |EncodeCopy(level, distance, length)| - 1] == EncodeCopy(level, distance, length)[1..]
    ensures ReadHeader(level, mem, EncodeCopy(level, distance, length)[0], ip)
         == Some(Header(length - 3, distance - 1, ip + |EncodeCopy(level, distance, length)| - 1))
  {
    hide LengthBytes, OffsetBytes, CopyControl, ReadLength, ReadOffset, Chain, ReadChain;
    var biased, code := distance - 1, length - 2;
    var a, b := LengthBytes(level, code), OffsetBytes(level, biased);
    assert EncodeCopy(level, distance, length)[1..] == a + b;
    SplitAt(mem, ip, a, b);
    LengthRoundTrip(level, biased, code, mem, ip);
    OffsetRoundTrip(level, biased, code, mem, ip + |a|);
  }

  lemma SplitAt(mem: seq<byte>, ip: nat, a: seq<byte>, b: seq<byte>)
    requires ip + |a| + |b| <= |mem|
    requires mem[ip..ip + |a| + |b|] == a + b
    ensures mem[ip..ip + |a|] == a
    ensures mem[ip + |a|..ip + |a| + |b|] == b
  {
    var bytes := mem[ip..ip + |a| + |b|];
    assert mem[ip..ip + |a|] == bytes[..|a|] == a;
    assert mem[ip + |a|..ip + |a| + |b|] == bytes[|a|..] == b;
  }

  // ---- Whole blocks come back -------------------------------------------------------------------

  lemma DecodeOneCopy(level: Level, distance: nat, length: nat, mem: seq<byte>, limit: nat, maxout: int,
                      ctrl: byte, ip: nat, next: nat, out: seq<byte>)
    requires 3 <= length && 1 <= distance <= |out|
    requires ip <= |mem| && limit <= |mem| && ctrl >= 32
    requires ReadHeader(level, mem, ctrl, ip) == Some(Header(length - 3, distance - 1, next))
    ensures DecodeFrom(level, mem, limit, maxout, ctrl, ip, out) == (
              if |out| + length > maxout then Refused
              else Continue(level, mem, limit, maxout, next, CopyBack(out, distance, length)))
  {
  }

  lemma DecodeEncodedCopy(level: Level, distance: nat, length: nat, w: seq<byte>,
                          mem: seq<byte>, limit: nat, maxout: int, ip: nat, out: seq<byte>)
    requires Legal(level, Copy(distance, length)) && w == EncodeCopy(level, distance, length)
    requires distance <= |out| && ip + |w| - 1 <= limit <= |mem|
    requires mem[ip..ip + |w| - 1] == w[1..]
    ensures DecodeFrom(level, mem, limit, maxout, w[0], ip, out) == (
              if |out| + length > maxout then Refused
              else Continue(level, mem, limit, maxout, ip + |w| - 1, CopyBack(out, distance, length)))
  {
    hide DecodeFrom, Continue, ReadHeader, LengthBytes, OffsetBytes;
    HeaderRoundTrip(level, distance, length, mem, ip);
    DecodeOneCopy(level, distance, length, mem, limit, maxout, w[0], ip, ip + |w| - 1, out);
  }

  lemma DecodeOneLiteral(level: Level, bytes: seq<byte>, mem: seq<byte>, limit: nat, maxout: int,
                         ip: nat, out: seq<byte>)
    requires 1 <= |bytes| <= MAX_COPY
    requires ip + |bytes| <= limit <= |mem| && mem[ip..ip + |bytes|] == bytes
    ensures DecodeFrom(level, mem, limit, maxout, |bytes| - 1, ip, out) == (
              if |out| + |bytes| > maxout then Refused
              else Continue(level, mem, limit, maxout, ip + |bytes|, out + bytes))
  {
  }

  lemma DecodeOneOp(level: Level, op: Op, w: seq<byte>, mem: seq<byte>, limit: nat, maxout: int,
                    ip: nat, out: seq<byte>, out': seq<byte>)
    requires Legal(level, op) && w == EncodeOp(level, op)
    requires Applicable(out, op) && out' == Apply(out, op)
    requires ip + |w| - 1 <= limit <= |mem|
    requires mem[ip..ip + |w| - 1] == w[1..]
    ensures DecodeFrom(level, mem, limit, maxout, w[0], ip, out) == (
              if |out'| > maxout then Refused
              else Continue(level, mem, limit, maxout, ip + |w| - 1, out'))
  {
    hide DecodeFrom, Continue, EncodeCopy;
    match op {
      case Literal(bytes) =>
        assert w[1..] == bytes;
        DecodeOneLiteral(level, bytes, mem, limit, maxout, ip, out);
      case Copy(distance, length) =>
        DecodeEncodedCopy(level, distance, length, w, mem, limit, maxout, ip, out);
    }
  }

  /** Decoding the layout of valid operations yields their expansion, or is refused if that does not fit:
      nothing is read beyond the block, and the bytes after it (`mem[limit..]`) play no part. */
  lemma {:induction false} DecodeWire(level: Level, ops: seq<Op>, mem: seq<byte>, limit: nat, maxout: int,
                                      ctrl: byte, ip: nat, out: seq<byte>)
    requires Valid(level, out, ops) && ops != []
    requires AllLegal(level, ops)
    requires ip <= limit <= |mem| && (|out| <= maxout || out == [])
    requires [ctrl] + mem[ip..limit] == Wire(level, ops)
    ensures DecodeFrom(level, mem, limit, maxout, ctrl, ip, out) == (
              if |Expand(level, out, ops)| <= maxout then Decoded(Expand(level, out, ops)) else Refused)
    decreases |ops|
  {
    hide DecodeFrom, EncodeOp, Apply, Legal;
    var w, tail := EncodeOp(level, ops[0]), Wire(level, ops[1..]);
    var out' := Apply(out, ops[0]);
    var next := ip + |w| - 1;
    assert out' <= Expand(level, out', ops[1..]);
    FirstAndRest(mem, ip, limit, ctrl, w, tail);
    DecodeOneOp(level, ops[0], w, mem, limit, maxout, ip, out, out');
    if ops[1..] != [] && |out'| <= maxout {
      DecodeWire(level, ops[1..], mem, limit, maxout, mem[next], next + 1, out');
    }
  }

  lemma FirstAndRest(mem: seq<byte>, ip: nat, limit: nat, ctrl: byte, w: seq<byte>, tail: seq<byte>)
    requires ip <= limit <= |mem| && w != []
    requires [ctrl] + mem[ip..limit] == w + tail
    ensures ctrl == w[0]
    ensures ip + |w| - 1 + |tail| == limit
    ensures mem[ip..ip + |w| - 1] == w[1..]
    ensures mem[ip + |w| - 1..limit] == tail
    ensures tail != [] ==> [mem[ip + |w| - 1]] + mem[ip + |w|..limit] == tail
  {
    assert ctrl == (w + tail)[0];
    assert mem[ip..limit] == w[1..] + tail by {
      assert ([ctrl] + mem[ip..limit])[1..] == (w + tail)[1..];
    }
    SplitAt(mem, ip, w[1..], tail);
  }

  /** The layout loses nothing: different operation lists have different bytes. */
  lemma {:induction false} WireInjective(level: Level, a: seq<Op>, b: seq<Op>)
    requires AllLegal(level, a) && AllLegal(level, b)
    requires Wire(level, a) == Wire(level, b)
    ensures a == b
  {
    if a == [] || b == [] {
      assert a == [] && b == [];
    } else {
      SameFirst(level, a, b);
      assert a == [a[0]] + a[1..] && b == [b[0]] + b[1..];
      var n := |EncodeOp(level, a[0])|;
      assert Wire(level, a)[n..] == Wire(level, a[1..]) && Wire(level, b)[n..] == Wire(level, b[1..]);
      WireInjective(level, a[1..], b[1..]);
    }
  }

  lemma SameFirst(level: Level, a: seq<Op>, b: seq<Op>)
    requires a != [] && b != []
    requires AllLegal(level, a) && AllLegal(level, b)
    requires Wire(level, a) == Wire(level, b)
    ensures a[0] == b[0]
  {
    var mem := Wire(level, a);
    var x, y := EncodeOp(level, a[0]), EncodeOp(level, b[0]);
    assert mem[0] == x[0] == y[0];
    assert mem[..|x|] == x && mem[..|y|] == y;
    match a[0] {
      case Literal(s) =>
        assert s == x[1..] && b[0].bytes == y[1..];
      case Copy(d, l) =>
        assert mem[1..|x|] == mem[..|x|][1..] == x[1..];
        assert mem[1..|y|] == mem[..|y|][1..] == y[1..];
        HeaderRoundTrip(level, d, l, mem, 1);
        HeaderRoundTrip(level, b[0].distance, b[0].length, mem, 1);
    }
  }
}
