/** When the decompressor stays inside its block.  Writes and back references are checked, but the operands
    of a match are read without looking at the block's end; here is exactly when one lies beyond it. */
module FastLZReads {
  import opened Wrappers
  import opened FastLZFormat
  import opened FastLZ

  // ---- A block cut into operations by its control bytes and lengths alone --------------------------------

  /** A group of literals, or a match: `len` + 3 bytes from `back` + 1 before. */
  datatype Item = Group(count: nat) | Match(len: nat, back: nat)

  /** How the block ends: after a whole operation, inside a match header, or inside a group of literals. */
  datatype Ending = Whole | InHeader | InLiterals

  datatype Cut = Cut(items: seq<Item>, ending: Ending)

  function Then(item: Item, rest: Cut): Cut {
    Cut([item] + rest.items, rest.ending)
  }

  /** The operations from a control byte on; `ip` is the byte after it. */
  function CutFrom(level: Level, block: seq<byte>, ctrl: byte, ip: nat): Cut
    requires ip <= |block|
    decreases |block| - ip
  {
    if ctrl >= 32 then
      match ReadHeader(level, block, ctrl, ip)
      case None => Cut([], InHeader)
      case Some(h) => Then(Match(h.len, h.back), CutRest(level, block, h.next))
    else if ip + ctrl + 1 > |block| then Cut([], InLiterals)
    else Then(Group(ctrl + 1), CutRest(level, block, ip + ctrl + 1))
  }

  function CutRest(level: Level, block: seq<byte>, ip: nat): Cut
    requires ip <= |block|
    decreases |block| - ip, 0
  {
    if ip < |block| then CutFrom(level, block, block[ip], ip + 1) else Cut([], Whole)
  }

  // ---- Where a header is cut short -----------------------------------------------------------------------

  function LeadingFull(mem: seq<byte>, ip: nat): (n: nat)
    requires ip <= |mem|
    ensures ip + n <= |mem|
    decreases |mem| - ip
  {
    if ip < |mem| && mem[ip] == 255 then 1 + LeadingFull(mem, ip + 1) else 0
  }

  /** How many bytes the length takes after the control byte: none, one, or the 255s and one more. */
  function LengthSize(level: Level, mem: seq<byte>, ctrl: byte, ip: nat): nat
    requires ip <= |mem| && ctrl >= 32
  {
    if ctrl < 224 then 0 else if level == 1 then 1 else LeadingFull(mem, ip) + 1
  }

  lemma {:induction false} ReadChainEnds(mem: seq<byte>, ip: nat, len: nat)
    requires ip <= |mem| && len < UINT32
    ensures ReadChain(mem, ip, len).Some? <==> ip + LeadingFull(mem, ip) < |mem|
    ensures ReadChain(mem, ip, len).Some? ==> ReadChain(mem, ip, len).value.1 == ip + LeadingFull(mem, ip) + 1
    decreases |mem| - ip
  {
    if ip < |mem| && mem[ip] == 255 {
      ReadChainEnds(mem, ip + 1, (len + 255) % UINT32);
    }
  }

  /** A header is cut short exactly when the memory ends within its length bytes, before its offset byte, or
      within the two bytes after the far escape. */
  lemma HeaderCutShort(level: Level, mem: seq<byte>, ctrl: byte, ip: nat)
    requires ip <= |mem| && ctrl >= 32
    ensures ReadHeader(level, mem, ctrl, ip).None?
       <==> var p := ip + LengthSize(level, mem, ctrl, ip);
            || p >= |mem|
            || (level == 2 && ctrl % 32 == 31 && mem[p] == 255 && p + 2 >= |mem|)
  {
    hide ReadChain, LeadingFull;
    if ctrl >= 224 && level == 2 {
      ReadChainEnds(mem, ip, ctrl / 32 - 1);
    }
  }

  // ---- Which operations are refused ------------------------------------------------------------------------

  function SizeOf(item: Item): nat {
    match item
    case Group(count) => count
    case Match(len, _) => len + 3
  }

  function Produced(items: seq<Item>): nat {
    if items == [] then 0 else Produced(items[..|items| - 1]) + SizeOf(items[|items| - 1])
  }

  /** No operation is refused: together they fit, and each match refers back into what is there before it. */
  predicate NoneRefused(items: seq<Item>, there: nat, maxout: int) {
    && (items != [] ==> there + Produced(items) <= maxout)
    && (forall k :: 0 <= k < |items| && items[k].Match? ==> items[k].back < there + Produced(items[..k]))
  }

  lemma {:induction false} ProducedCons(item: Item, items: seq<Item>)
    ensures Produced([item] + items) == SizeOf(item) + Produced(items)
  {
    var all := [item] + items;
    if items == [] {
      assert all[..0] == [];
    } else {
      assert all[..|all| - 1] == [item] + items[..|items| - 1];
      ProducedCons(item, items[..|items| - 1]);
    }
  }

  /** The first operation is tried on its own, the others after it. */
  lemma NoneRefusedCons(item: Item, items: seq<Item>, there: nat, maxout: int)
    ensures NoneRefused([item] + items, there, maxout)
       <==> && there + SizeOf(item) <= maxout
            && (item.Match? ==> item.back < there)
            && NoneRefused(items, there + SizeOf(item), maxout)
  {
    hide SizeOf;
    var all := [item] + items;
    ProducedCons(item, items);
    assert all[..0] == [];
    forall k | 0 <= k < |items| ensures all[k + 1] == items[k]
        && there + Produced(all[..k + 1]) == there + SizeOf(item) + Produced(items[..k]) {
      assert all[..k + 1] == [item] + items[..k];
      ProducedCons(item, items[..k]);
    }
    if NoneRefused(all, there, maxout) {
      forall k | 0 <= k < |items| && items[k].Match?
        ensures items[k].back < there + SizeOf(item) + Produced(items[..k]) {
        assert all[k + 1].Match?;
      }
    }
    assert forall k :: 1 <= k < |all| ==> all[k] == items[k - 1];
  }

  // ---- The outcome on a block with nothing behind it ---------------------------------------------------------

  /** The decompressor's three outcomes on a block, told from its cut: an operation refused or literals cut
      short refuse it, a header cut short is read beyond the end, and the rest decode to their full size. */
  predicate Foretold(cut: Cut, there: nat, maxout: int, r: Outcome) {
    if !NoneRefused(cut.items, there, maxout) then r == Refused
    else
      match cut.ending
      case Whole => r.Decoded? && |r.bytes| == there + Produced(cut.items)
      case InHeader => r == OverRead
      case InLiterals => r == Refused
  }

  lemma {:induction false} OutcomeForetold(level: Level, block: seq<byte>, maxout: int, ctrl: byte, ip: nat,
                                           out: seq<byte>)
    requires ip <= |block|
    ensures Foretold(CutFrom(level, block, ctrl, ip), |out|, maxout,
                     DecodeFrom(level, block, |block|, maxout, ctrl, ip, out))
    decreases |block| - ip
  {
    hide ReadHeader, NoneRefused, CopyBack;
    if ctrl >= 32 {
      var header := ReadHeader(level, block, ctrl, ip);
      if header.Some? {
        var h := header.value;
        NoneRefusedCons(Match(h.len, h.back), CutRest(level, block, h.next).items, |out|, maxout);
        ProducedCons(Match(h.len, h.back), CutRest(level, block, h.next).items);
        if |out| + h.len + 3 <= maxout && h.back < |out| {
          RestForetold(level, block, maxout, h.next, CopyBack(out, h.back + 1, h.len + 3));
        }
      } else {
        NothingRefused(|out|, maxout);
      }
    } else if ip + ctrl + 1 > |block| {
      NothingRefused(|out|, maxout);
    } else {
      NoneRefusedCons(Group(ctrl + 1), CutRest(level, block, ip + ctrl + 1).items, |out|, maxout);
      ProducedCons(Group(ctrl + 1), CutRest(level, block, ip + ctrl + 1).items);
      if |out| + ctrl + 1 <= maxout {
        RestForetold(level, block, maxout, ip + ctrl + 1, out + block[ip..ip + ctrl + 1]);
      }
    }
  }

  lemma {:induction false} RestForetold(level: Level, block: seq<byte>, maxout: int, ip: nat, out: seq<byte>)
    requires ip <= |block|
    ensures Foretold(CutRest(level, block, ip), |out|, maxout, Continue(level, block, |block|, maxout, ip, out))
    decreases |block| - ip, 0
  {
    if ip < |block| {
      OutcomeForetold(level, block, maxout, block[ip], ip + 1, out);
    } else {
      NothingRefused(|out|, maxout);
    }
  }

  lemma NothingRefused(there: nat, maxout: int)
    ensures NoneRefused([], there, maxout) && Produced([]) == 0
  {
  }

  // ---- What lies behind the block ------------------------------------------------------------------------------

  lemma {:induction false} ChainInside(mem: seq<byte>, limit: nat, ip: nat, len: nat)
    requires ip <= limit <= |mem| && len < UINT32
    ensures var r := ReadChain(mem[..limit], ip, len); r.Some? ==> ReadChain(mem, ip, len) == r
    decreases limit - ip
  {
    if ip < limit {
      assert mem[..limit][ip] == mem[ip];
      ChainInside(mem, limit, ip + 1, (len + mem[ip]) % UINT32);
    }
  }

  lemma HeaderInside(level: Level, mem: seq<byte>, limit: nat, ctrl: byte, ip: nat)
    requires ip <= limit <= |mem| && ctrl >= 32
    ensures var r := ReadHeader(level, mem[..limit], ctrl, ip); r.Some? ==> ReadHeader(level, mem, ctrl, ip) == r
  {
    hide ReadChain;
    if ctrl >= 224 && level == 2 {
      ChainInside(mem, limit, ip, ctrl / 32 - 1);
    }
  }

  /** If the block alone is not read beyond its end, whatever lies behind it makes no difference. */
  lemma {:induction false} SameInside(level: Level, mem: seq<byte>, limit: nat, maxout: int, ctrl: byte, ip: nat,
                                      out: seq<byte>)
    requires ip <= limit <= |mem|
    requires DecodeFrom(level, mem[..limit], limit, maxout, ctrl, ip, out) != OverRead
    ensures DecodeFrom(level, mem, limit, maxout, ctrl, ip, out)
         == DecodeFrom(level, mem[..limit], limit, maxout, ctrl, ip, out)
    decreases limit - ip
  {
    hide ReadHeader, CopyBack, Continue;
    if ctrl >= 32 {
      HeaderInside(level, mem, limit, ctrl, ip);
      var h := ReadHeader(level, mem[..limit], ctrl, ip).value;
      if |out| + h.len + 3 <= maxout && h.back < |out| {
        RestInside(level, mem, limit, maxout, h.next, CopyBack(out, h.back + 1, h.len + 3));
      }
    } else if |out| + ctrl + 1 <= maxout && ip + ctrl + 1 <= limit {
      SliceInside(mem, limit, ip, ip + ctrl + 1);
      RestInside(level, mem, limit, maxout, ip + ctrl + 1, out + mem[ip..ip + ctrl + 1]);
    }
  }

  lemma {:induction false} RestInside(level: Level, mem: seq<byte>, limit: nat, maxout: int, ip: nat, out: seq<byte>)
    requires ip <= limit <= |mem|
    requires Continue(level, mem[..limit], limit, maxout, ip, out) != OverRead
    ensures Continue(level, mem, limit, maxout, ip, out) == Continue(level, mem[..limit], limit, maxout, ip, out)
    decreases limit - ip, 0
  {
    hide DecodeFrom;
    if ip < limit {
      assert mem[..limit][ip] == mem[ip];
      SameInside(level, mem, limit, maxout, mem[ip], ip + 1, out);
    }
  }

  lemma SliceInside(mem: seq<byte>, limit: nat, lo: nat, hi: nat)
    requires lo <= hi <= limit <= |mem|
    ensures mem[..limit][lo..hi] == mem[lo..hi]
  {
  }

  // ---- fastlz_decompress ------------------------------------------------------------------------------------------

  predicate KnownLevel(block: seq<byte>)
    requires block != []
  {
    block[0] < 64
  }

  /** The cut of a whole block of a known level. */
  function CutBlock(block: seq<byte>): Cut
    requires block != [] && KnownLevel(block)
  {
    CutFrom(block[0] / 32 + 1, block, block[0] % 32, 1)
  }

  /** The block is empty, or, with none of its operations refused, it ends inside a match header. */
  predicate LeavesBlock(block: seq<byte>, maxout: int) {
    block == []
    || (KnownLevel(block)
        && CutBlock(block).ending == InHeader
        && NoneRefused(CutBlock(block).items, 0, maxout))
  }

  /** For every block and room, whatever follows in memory: the decompressor reads beyond the block exactly
      when it is empty or ends inside a match header with nothing refused before; otherwise what follows makes
      no difference. */
  lemma ReadsBeyond(mem: seq<byte>, length: nat, maxout: int)
    requires length <= |mem|
    ensures Decompressed(mem[..length], length, maxout) == OverRead <==> LeavesBlock(mem[..length], maxout)
    ensures !LeavesBlock(mem[..length], maxout) ==>
              Decompressed(mem, length, maxout) == Decompressed(mem[..length], length, maxout)
  {
    var block := mem[..length];
    if block != [] && KnownLevel(block) {
      hide DecodeFrom, NoneRefused;
      assert block[0] == mem[0];
      var level := block[0] / 32 + 1;
      OutcomeForetold(level, block, maxout, block[0] % 32, 1, []);
      if !LeavesBlock(block, maxout) {
        SameInside(level, mem, length, maxout, block[0] % 32, 1, []);
      }
    }
  }

  /** A block decodes exactly when it is cut whole with nothing refused, and then to the size of its cut. */
  lemma Decodes(block: seq<byte>, maxout: int)
    ensures Decompressed(block, |block|, maxout).Decoded?
       <==> block != [] && KnownLevel(block) && CutBlock(block).ending == Whole
            && NoneRefused(CutBlock(block).items, 0, maxout)
    ensures Decompressed(block, |block|, maxout).Decoded? ==>
              |Decompressed(block, |block|, maxout).bytes| == Produced(CutBlock(block).items)
  {
    if block != [] && KnownLevel(block) {
      hide DecodeFrom, NoneRefused;
      OutcomeForetold(block[0] / 32 + 1, block, maxout, block[0] % 32, 1, []);
    }
  }

  /** One such block: a literal and the control byte of a match whose operand is missing.  The byte behind the
      block decides whether it decodes. */
  lemma OperandBehindBlock()
    ensures Decompressed([0, 97, 32], 3, 10) == OverRead
    ensures Decompressed([0, 97, 32, 0], 3, 10) == Decoded([97, 97, 97, 97])
    ensures Decompressed([0, 97, 32, 1], 3, 10) == Refused
  {
    hide ReadHeader, CopyBack, Decompressed;
    var a, b, c := [0, 97, 32], [0, 97, 32, 0], [0, 97, 32, 1];
    AfterLiteral(a);
    AfterLiteral(b);
    AfterLiteral(c);
    NearOperand(a);
    NearOperand(b);
    NearOperand(c);
    CopyOfThree();
  }

  lemma NearOperand(mem: seq<byte>)
    requires 3 <= |mem| <= 4
    ensures ReadHeader(1, mem, 32, 3) == (if |mem| == 3 then None else Some(Header(0, mem[3], 4)))
  {
  }

  lemma AfterLiteral(mem: seq<byte>)
    requires |mem| >= 3 && mem[0] == 0 && mem[1] == 97 && mem[2] == 32
    ensures Decompressed(mem, 3, 10) == (
              match ReadHeader(1, mem, 32, 3)
              case None => OverRead
              case Some(h) =>
                if h.len + 4 > 10 || h.back >= 1 then Refused
                else Continue(1, mem, 3, 10, h.next, CopyBack([97], 1, h.len + 3)))
  {
    hide ReadHeader, CopyBack;
    assert [] + mem[1..2] == [97];
    assert DecodeFrom(1, mem, 3, 10, 0, 1, []) == Continue(1, mem, 3, 10, 2, [97]);
  }

  lemma CopyOfThree()
    ensures CopyBack([97], 1, 3) == [97, 97, 97, 97]
  {
    assert [97] + [97] == [97, 97] && [97, 97] + [97] == [97, 97, 97] && [97, 97, 97] + [97] == [97, 97, 97, 97];
    assert CopyBack([97, 97, 97], 1, 1) == CopyBack([97, 97, 97, 97], 1, 0);
    assert CopyBack([97, 97], 1, 2) == CopyBack([97, 97, 97], 1, 1);
  }
}
