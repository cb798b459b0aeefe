/** The FastLZ decompressor in place, with its fast copies, proved against `DecodeFrom`. */
module FastLZDecompressor {
  import opened Wrappers
  import opened FastLZFormat
  import opened FastLZ

  // ---- Copies ---------------------------------------------------------------------------------

  /** One byte of a back reference; the source's `*op++ = *ref++`. */
  method CopyByte(output: array<byte>, op: nat, ref: nat)
    requires ref < op < output.Length
    modifies output
    ensures output[..op + 1] == old(output[..op]) + [old(output[ref])]
    ensures output[op + 1..] == old(output[op + 1..])
  {
    output[op] := output[ref];
  }

  /** Sixteen bits at once: both bytes are read before either is written. */
  method CopyWord(output: array<byte>, op: nat, ref: nat)
    requires ref + 2 <= op && op + 2 <= output.Length
    modifies output
    ensures output[..op + 2] == old(output[..op]) + [old(output[ref]), old(output[ref + 1])]
    ensures output[op + 2..] == old(output[op + 2..])
  {
    output[op], output[op + 1] := output[ref], output[ref + 1];
  }

  lemma CopyBackTwo(out: seq<byte>, distance: nat, length: nat)
    requires 2 <= distance <= |out| && 2 <= length
    ensures CopyBack(out, distance, length)
         == CopyBack(out + [out[|out| - distance], out[|out| - distance + 1]], distance, length - 2)
  {
    var x, y := out[|out| - distance], out[|out| - distance + 1];
    assert out + [x] + [y] == out + [x, y];
    assert CopyBack(out, distance, length) == CopyBack(out + [x], distance, length - 1);
  }

  /** The run fill: distance one, one byte repeated. */
  method FillRun(output: array<byte>, start: nat, count: nat) returns (op: nat)
    requires 1 <= start && start + count + 3 <= output.Length
    modifies output
    ensures op == start + count + 3
    ensures output[..op] == CopyBack(old(output[..start]), 1, count + 3)
    ensures output[op..] == old(output[op..])
  {
    op := start;
    var b := output[op - 1];
    var len: nat := count + 3;
    while len > 0
      invariant start <= op && op + len == start + count + 3 && output[op - 1] == b
      invariant CopyBack(output[..op], 1, len) == CopyBack(old(output[..start]), 1, count + 3)
      invariant output[op..] == old(output[op..])
      decreases len
    {
      ghost var before := output[..op];
      output[op] := b;
      assert output[..op + 1] == before + [before[|before| - 1]];
      op, len := op + 1, len - 1;
    }
  }

  method CopyBytes(output: array<byte>, start: nat, from: nat, count: nat) returns (op: nat, ref: nat)
    requires from < start && start + count <= output.Length
    modifies output
    ensures op == start + count && ref == from + count
    ensures output[..op] == CopyBack(old(output[..start]), start - from, count)
    ensures output[op..] == old(output[op..])
  {
    op, ref := start, from;
    ghost var distance, s0 := start - from, output[..];
    var len: nat := count;
    while len > 0
      invariant op + len == start + count && ref == op - distance && start <= op
      invariant CopyBack(output[..op], distance, len) == CopyBack(s0[..start], distance, count)
      invariant output[op..] == s0[op..]
      decreases len
    {
      ghost var s1 := output[..];
      op, ref := OneByte(output, op, ref, len);
      SameTail(s0, s1, op - 1, op);
      len := len - 1;
    }
  }

  /** The copy for machines that allow unaligned access: one odd byte, then words. */
  method CopyWords(output: array<byte>, start: nat, from: nat, count: nat) returns (op: nat)
    requires from + 2 <= start && start + count <= output.Length
    modifies output
    ensures op == start + count
    ensures output[..op] == CopyBack(old(output[..start]), start - from, count)
    ensures output[op..] == old(output[op..])
  {
    hide CopyBack;
    op := start;
    var ref := from;
    ghost var s0 := output[..];
    var len: nat := count;
    if len % 2 == 1 {
      op, ref := OneByte(output, op, ref, len);
      len := len - 1;
    }
    ghost var s1, at := output[..], op;
    op := CopyPairs(output, op, ref, len / 2);
    SameTail(s0, s1, at, op);
  }

  /** `words` 16-bit words, four at a time while more than four are left. */
  method CopyPairs(output: array<byte>, start: nat, from: nat, words: nat) returns (op: nat)
    requires from + 2 <= start && start + 2 * words <= output.Length
    modifies output
    ensures op == start + 2 * words
    ensures output[..op] == CopyBack(old(output[..start]), start - from, 2 * words)
    ensures output[op..] == old(output[op..])
  {
    hide CopyBack;
    op := start;
    var ref := from;
    ghost var distance, s0 := start - from, output[..];
    var len: nat := words;
    while len > 4
      invariant start <= op && op + 2 * len == start + 2 * words && ref == op - distance
      invariant CopyBack(output[..op], distance, 2 * len) == CopyBack(s0[..start], distance, 2 * words)
      invariant output[op..] == s0[op..]
      decreases len
    {
      ghost var s1 := output[..];
      op, ref := FourWords(output, op, ref, 2 * len);
      SameTail(s0, s1, op - 8, op);
      len := len - 4;
    }
    while len > 0
      invariant start <= op && op + 2 * len == start + 2 * words && ref == op - distance
      invariant CopyBack(output[..op], distance, 2 * len) == CopyBack(s0[..start], distance, 2 * words)
      invariant output[op..] == s0[op..]
      decreases len
    {
      ghost var s1 := output[..];
      op, ref := OneWord(output, op, ref, 2 * len);
      SameTail(s0, s1, op - 2, op);
      len := len - 1;
    }
    CopyBackNone(output[..op], distance);
  }

  lemma CopyBackNone(out: seq<byte>, distance: nat)
    requires 1 <= distance <= |out|
    ensures CopyBack(out, distance, 0) == out
  {
  }

  method OneByte(output: array<byte>, start: nat, from: nat, ghost left: nat) returns (op: nat, ref: nat)
    requires from < start && 1 <= left && start + 1 <= output.Length
    modifies output
    ensures op == start + 1 && ref == from + 1
    ensures CopyBack(output[..op], start - from, left - 1) == CopyBack(old(output[..start]), start - from, left)
    ensures output[op..] == old(output[op..])
  {
    ghost var before := output[..start];
    CopyByte(output, start, from);
    assert output[..start + 1] == before + [before[|before| - (start - from)]];
    op, ref := start + 1, from + 1;
  }

  method OneWord(output: array<byte>, start: nat, from: nat, ghost left: nat) returns (op: nat, ref: nat)
    requires from + 2 <= start && 2 <= left && start + 2 <= output.Length
    modifies output
    ensures op == start + 2 && ref == from + 2
    ensures CopyBack(output[..op], start - from, left - 2) == CopyBack(old(output[..start]), start - from, left)
    ensures output[op..] == old(output[op..])
  {
    CopyBackTwo(output[..start], start - from, left);
    CopyWord(output, start, from);
    op, ref := start + 2, from + 2;
  }

  method FourWords(output: array<byte>, start: nat, from: nat, ghost left: nat) returns (op: nat, ref: nat)
    requires from + 2 <= start && 8 <= left && start + 8 <= output.Length
    modifies output
    ensures op == start + 8 && ref == from + 8
    ensures CopyBack(output[..op], start - from, left - 8) == CopyBack(old(output[..start]), start - from, left)
    ensures output[op..] == old(output[op..])
  {
    hide CopyBack;
    ghost var s0 := output[..];
    op, ref := OneWord(output, start, from, left);
    ghost var s1 := output[..];
    op, ref := OneWord(output, op, ref, left - 2);
    ghost var s2 := output[..];
    op, ref := OneWord(output, op, ref, left - 4);
    ghost var s3 := output[..];
    op, ref := OneWord(output, op, ref, left - 6);
    SameTail(s0, s1, start + 2, op);
    SameTail(s1, s2, start + 4, op);
    SameTail(s2, s3, start + 6, op);
  }

  lemma SameTail(a: seq<byte>, b: seq<byte>, m: nat, e: nat)
    requires m <= e <= |a| == |b| && a[m..] == b[m..]
    ensures a[e..] == b[e..]
  {
    assert a[e..] == a[m..][e - m..] && b[e..] == b[m..][e - m..];
  }

  /** A back reference to `back` + 1 bytes before op, by the copy the source would choose. */
  method CopyMatch(output: array<byte>, start: nat, back: nat, len: nat, strictAlign: bool) returns (op: nat)
    requires back < start && start + len + 3 <= output.Length
    modifies output
    ensures op == start + len + 3
    ensures output[..op] == CopyBack(old(output[..start]), back + 1, len + 3)
    ensures output[op..] == old(output[op..])
  {
    hide CopyBack;
    if back == 0 {
      op := FillRun(output, start, len);
    } else if strictAlign {
      var ref;
      op, ref := CopyBytes(output, start, start - back - 1, len + 3);
    } else {
      var ref;
      ghost var s0 := output[..];
      op, ref := CopyBytes(output, start, start - back - 1, 3);
      ghost var s1 := output[..];
      CopyBackInTwo(s0[..start], back + 1, 3, len);
      assert s0[..start] == old(output[..start]) && s1[..op] == output[..op];
      op := CopyWords(output, op, ref, len);
      SameTail(s0, s1, start + 3, op);
    }
  }

  lemma {:induction false} CopyBackInTwo(out: seq<byte>, distance: nat, a: nat, b: nat)
    requires 1 <= distance <= |out|
    ensures CopyBack(out, distance, a + b) == CopyBack(CopyBack(out, distance, a), distance, b)
    decreases a
  {
    if a > 0 {
      CopyBackInTwo(out + [out[|out| - distance]], distance, a - 1, b);
    }
  }

  // ---- The decompressor -------------------------------------------------------------------------

  /** Level 2 length bytes, summed in 32 bits until one is not 255; `ok` is false on an over-read. */
  method ReadChainLoop(mem: seq<byte>, start: nat, first: nat) returns (ok: bool, len: nat, ip: nat)
    requires start <= |mem| && first < UINT32
    ensures ReadChain(mem, start, first) == (if ok then Some((len, ip)) else None)
  {
    ip, len := start, first;
    ok := true;
    while true
      invariant start <= ip <= |mem| && len < UINT32
      invariant ReadChain(mem, start, first) == ReadChain(mem, ip, len)
      decreases |mem| - ip
    {
      if ip == |mem| {
        return false, len, ip;
      }
      var code := mem[ip];
      ip, len := ip + 1, (len + code) % UINT32;
      if code != 255 {
        return;
      }
    }
  }

  method ReadOperands(level: Level, mem: seq<byte>, ctrl: byte, start: nat)
    returns (ok: bool, len: nat, back: nat, ip: nat)
    requires start <= |mem| && ctrl >= 32
    ensures ReadHeader(level, mem, ctrl, start) == (if ok then Some(Header(len, back, ip)) else None)
  {
    hide ReadChain;
    ok, len, ip := true, ctrl / 32 - 1, start;
    var ofs := (ctrl % 32) * 256;
    back := 0;
    if len == 6 {
      if level == 2 {
        ok, len, ip := ReadChainLoop(mem, ip, len);
      } else {
        ok := ip < |mem|;
        if ok {
          len, ip := len + mem[ip], ip + 1;
        }
      }
    }
    ok := ok && ip < |mem|;
    if !ok {
      return;
    }
    var code := mem[ip];
    back, ip := ofs + code, ip + 1;
    if level == 2 && code == 255 && ofs == 31 * 256 {
      ok := ip + 1 < |mem|;
      if ok {
        back, ip := mem[ip] * 256 + mem[ip + 1] + MAX_DISTANCE, ip + 2;
      }
    }
  }

  /** A literal group: count bytes from the input. */
  method CopyLiteral(mem: seq<byte>, from: nat, count: nat, output: array<byte>, start: nat)
    requires from + count <= |mem| && start + count <= output.Length
    modifies output
    ensures output[..start + count] == old(output[..start]) + mem[from..from + count]
    ensures output[start + count..] == old(output[start + count..])
  {
    var k := 0;
    while k < count
      invariant k <= count
      invariant output[..start + k] == old(output[..start]) + mem[from..from + k]
      invariant output[start + k..] == old(output[start + k..])
    {
      ghost var s1 := output[..];
      output[start + k] := mem[from + k];
      assert mem[from..from + k + 1] == mem[from..from + k] + [mem[from + k]];
      assert output[..start + k + 1] == s1[..start + k] + [mem[from + k]];
      k := k + 1;
    }
  }

  /** The bytes of the output buffer that may be written: none if maxout, a C int, is negative. */
  function Writable(maxout: int): (n: nat) {
    if maxout < 0 then 0 else maxout
  }

  datatype Status = More | Finished | Stopped(outcome: Outcome)

  /** One operation and, if the block goes on, the next control byte. */
  method OneOp(level: Level, mem: seq<byte>, limit: int, output: array<byte>, maxout: int, strictAlign: bool,
               control: byte, start: nat, at: nat)
    returns (status: Status, ctrl: byte, ip: nat, op: nat)
    requires limit <= |mem| && start <= |mem| && at <= Writable(maxout) <= output.Length
    modifies output
    ensures op <= Writable(maxout) && ip <= |mem|
    ensures output[Writable(maxout)..] == old(output[Writable(maxout)..])
    ensures status.More? ==> start < ip
    ensures status.Stopped? ==> !status.outcome.Decoded?
    ensures DecodeFrom(level, mem, limit, maxout, control, start, old(output[..at])) == (
              match status
              case More => DecodeFrom(level, mem, limit, maxout, ctrl, ip, output[..op])
              case Finished => Decoded(output[..op])
              case Stopped(outcome) => outcome)
  {
    hide CopyBack, ReadHeader;
    ghost var s0 := output[..];
    ctrl, ip, op := control, start, at;
    if ctrl >= 32 {
      var ok, len, back, next := ReadOperands(level, mem, ctrl, ip);
      if !ok {
        status := Stopped(OverRead);
        return;
      }
      if op + len + 3 > maxout {
        status := Stopped(Refused);
        return;
      }
      if op - back - 1 < 0 {
        status := Stopped(Refused);
        return;
      }
      ip := next;
      op := CopyMatch(output, op, back, len, strictAlign);
    } else {
      var count := ctrl + 1;
      if op + count > maxout {
        status := Stopped(Refused);
        return;
      }
      if ip + count > limit {
        status := Stopped(Refused);
        return;
      }
      CopyLiteral(mem, ip, count, output, op);
      ip, op := ip + count, op + count;
    }
    SameTail(s0, output[..], op, Writable(maxout));
    status := Finished;
    if ip < limit {
      status, ctrl, ip := More, mem[ip], ip + 1;
    }
  }

  /** fastlz1_decompress and fastlz2_decompress.  Whatever the input bytes, and whatever the operands
      read beyond its end turn out to be, only output[0..maxout) is written and the result is the
      specified one; 0 means refused.  `strictAlign` selects the portable copy. */
  method DecompressLevel(level: Level, mem: seq<byte>, length: int, output: array<byte>, maxout: int,
                         strictAlign: bool) returns (overRead: bool, r: nat)
    requires mem != [] && length <= |mem| && maxout <= output.Length
    modifies output
    ensures output[Writable(maxout)..] == old(output[Writable(maxout)..])
    ensures r <= Writable(maxout)
    ensures DecodeFrom(level, mem, length, maxout, mem[0] % 32, 1, []) == (
              if overRead then OverRead else if r == 0 then Refused else Decoded(output[..r]))
  {
    ghost var s0 := output[..];
    var ctrl: byte, ip: nat, op: nat := mem[0] % 32, 1, 0;
    var status := More;
    assert output[..0] == [];
    ghost var goal := DecodeFrom(level, mem, length, maxout, ctrl, ip, []);
    hide DecodeFrom;
    while status == More
      invariant op <= Writable(maxout) && ip <= |mem|
      invariant output[Writable(maxout)..] == s0[Writable(maxout)..]
      invariant !status.Stopped?
      invariant goal == (if status == More then DecodeFrom(level, mem, length, maxout, ctrl, ip, output[..op])
                         else Decoded(output[..op]))
      decreases if status == More then |mem| - ip + 1 else 0
    {
      status, ctrl, ip, op := OneOp(level, mem, length, output, maxout, strictAlign, ctrl, ip, op);
      if status.Stopped? {
        return status.outcome == OverRead, 0;
      }
    }
    return false, op;
  }
}
