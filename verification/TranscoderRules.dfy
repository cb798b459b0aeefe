/** What the transcoder emits and what it makes of any flags, case by case and in numbers: the bytes and flags
    of every kind of value, when they are compressed, and the decoding table. */
module TranscoderRules {
  import opened Wrappers
  import opened FastLZFormat
  import opened FastLZ
  import opened Transcoder

  // ---- Encoding -------------------------------------------------------------------------------------------

  /** The bytes and flags of each kind of value when left uncompressed. */
  lemma PreparedRule(c: Codecs, sertype: Sertype, value: Value)
    ensures match value
      case Str(bytes) => Prepare(c, sertype, value) == Some(Prepared(bytes, 0x04000000))
      case Long(n) => Prepare(c, sertype, value) == Some(Prepared(c.printLong(n), 0x02000001))
      case Double(x) => Prepare(c, sertype, value) == Some(Prepared(c.printDouble(x), 0x02000002))
      case Bool(b) =>
        Prepare(c, sertype, value)
        == Some(Prepared(if b then [116, 114, 117, 101] else [102, 97, 108, 115, 101], 0x02000003))
      case Composite(_) =>
        var text := if sertype.SertypePhp? then c.phpSerialize(value)
                    else if sertype.SertypeIgbinary? && c.haveIgbinary then c.igSerialize(value)
                    else c.jsonEncode(value);
        var flags: bv32 := if sertype.SertypePhp? then 0x01000004
                           else if sertype.SertypeIgbinary? && c.haveIgbinary then 0x01000005
                           else 0x02000006;
        Prepare(c, sertype, value) == (if text.None? then None else Some(Prepared(text.value, flags)))
  {
    assert Ascii("true") == [116, 114, 117, 101];
    assert Ascii("false") == [102, 97, 108, 115, 101];
  }

  /** zlib is asked for, there, and succeeds, and the data is longer than the factor times the result. */
  predicate ZlibPays(c: Codecs, o: Options, data: seq<byte>) {
    && o.cmprtype == 1 && c.haveZlib && c.zlibCompress(data).Some?
    && |data| as real > (4 + |c.zlibCompress(data).value|) as real * o.cmprfactor
  }

  function FastLZBlock(data: seq<byte>): seq<byte>
    requires |data| <= MAX_INT
  {
    Compressed(if |data| < 65536 then 1 else 2, data + [0], |data|)
  }

  /** FastLZ is asked for, and the data is longer than the factor times its block with the preamble. */
  predicate FastLZPays(o: Options, data: seq<byte>)
    requires o.cmprtype == 2 ==> |data| <= MAX_INT
  {
    o.cmprtype == 2 && |data| as real > (4 + |FastLZBlock(data)|) as real * o.cmprfactor
  }

  /** The threshold is compared as an unsigned number. */
  predicate Reaches(o: Options, data: seq<byte>) {
    |data| >= o.cmprthresh && (o.cmprthresh < 0 ==> |data| >= o.cmprthresh + 0x1_0000_0000_0000_0000)
  }

  function SizeBytes(n: nat): seq<byte> {
    [n % 256, n / 0x100 % 256, n / 0x1_0000 % 256, n / 0x100_0000 % 256]
  }

  /** A value goes out compressed exactly when its data reaches the threshold and the compressor asked for is
      there, succeeds and pays: then as its size, low byte first, and the compressed data, with flags that keep
      the type, name the compressor and say private.  Otherwise it goes out as it was prepared. */
  lemma CompressionRule(c: Codecs, o: Options, value: Value)
    requires Prepare(c, o.sertype, value).Some?
    requires o.cmprtype == 2 ==> |Prepare(c, o.sertype, value).value.bytes| <= MAX_INT
    ensures Encode(c, o, value).Some?
    ensures var p, e := Prepare(c, o.sertype, value).value, Encode(c, o, value).value;
      && (e.flags & 0x10 != 0 <==> Reaches(o, p.bytes) && (ZlibPays(c, o, p.bytes) || FastLZPays(o, p.bytes)))
      && (if e.flags & 0x10 == 0 then e == p
          else if o.cmprtype == 1 then
            && e.flags == 0x01000030 | (p.flags & 0x0F)
            && e.bytes == SizeBytes(|p.bytes|) + c.zlibCompress(p.bytes).value
          else
            && e.flags == 0x01000050 | (p.flags & 0x0F)
            && e.bytes == SizeBytes(|p.bytes|) + FastLZBlock(p.bytes))
  {
    hide Compressed, Prepare, Replacement, CompressedFlags, Reaches, ZlibPays, FastLZPays;
    var p := Prepare(c, o.sertype, value).value;
    PreparedFormat(c, o.sertype, value);
    CompressedWord(p.flags);
    ReplacementRule(c, o, p.bytes);
  }

  lemma ReplacementRule(c: Codecs, o: Options, data: seq<byte>)
    requires o.cmprtype == 2 ==> |data| <= MAX_INT
    ensures Replacement(c, o, data) == (
              if !Reaches(o, data) then None
              else if ZlibPays(c, o, data) then
                Some(Packed(SizeBytes(|data|) + c.zlibCompress(data).value, COMPRESSION_ZLIB))
              else if FastLZPays(o, data) then
                Some(Packed(SizeBytes(|data|) + FastLZBlock(data), COMPRESSION_FASTLZ))
              else None)
    ensures ZlibPays(c, o, data) ==> o.cmprtype == 1 && c.zlibCompress(data).Some?
    ensures FastLZPays(o, data) ==> o.cmprtype == 2
  {
    hide Pack, FastLZBlock, SizeBytes;
    PackRule(c, o.cmprtype, data);
  }

  lemma PackRule(c: Codecs, cmprtype: int, data: seq<byte>)
    requires cmprtype == 2 ==> |data| <= MAX_INT
    ensures Pack(c, cmprtype, data) == (
              if cmprtype == 1 && c.haveZlib && c.zlibCompress(data).Some? then
                Some(Packed(SizeBytes(|data|) + c.zlibCompress(data).value, COMPRESSION_ZLIB))
              else if cmprtype == 2 then Some(Packed(SizeBytes(|data|) + FastLZBlock(data), COMPRESSION_FASTLZ))
              else None)
    ensures |SizeBytes(|data|)| == 4
  {
    hide Compressed;
  }

  lemma PreparedFormat(c: Codecs, sertype: Sertype, value: Value)
    requires Prepare(c, sertype, value).Some?
    ensures Prepare(c, sertype, value).value.flags & 0x00FFFFF0 == 0
    ensures Prepare(c, sertype, value).value.flags & 0x10 == 0
  {
  }

  lemma CompressedWord(flags: bv32)
    requires flags & 0x00FFFFF0 == 0
    ensures CompressedFlags(flags, COMPRESSION_ZLIB) == 0x01000030 | (flags & 0x0F)
    ensures CompressedFlags(flags, COMPRESSION_FASTLZ) == 0x01000050 | (flags & 0x0F)
    ensures CompressedFlags(flags, COMPRESSION_ZLIB) & 0x10 != 0
    ensures CompressedFlags(flags, COMPRESSION_FASTLZ) & 0x10 != 0
  {
  }

  /** With a factor of 1 or more, compression only ever makes a value shorter. */
  lemma NeverLonger(c: Codecs, o: Options, value: Value)
    requires Prepare(c, o.sertype, value).Some? && o.cmprfactor >= 1.0
    requires o.cmprtype == 2 ==> |Prepare(c, o.sertype, value).value.bytes| <= MAX_INT
    ensures var p := Prepare(c, o.sertype, value).value;
      && Encode(c, o, value).Some?
      && (Encode(c, o, value).value == p || |Encode(c, o, value).value.bytes| < |p.bytes|)
  {
    hide Encode, Prepare, Reaches, FastLZBlock, ZlibPays, FastLZPays;
    CompressionRule(c, o, value);
    var p, e := Prepare(c, o.sertype, value).value, Encode(c, o, value).value;
    if e.flags & 0x10 != 0 {
      if o.cmprtype == 1 {
        ZlibShortens(c, o, p.bytes);
      } else {
        FastLZShortens(c, o, p.bytes);
      }
    }
  }

  lemma ZlibShortens(c: Codecs, o: Options, data: seq<byte>)
    requires o.cmprfactor >= 1.0 && o.cmprtype == 1
    ensures ZlibPays(c, o, data) ==>
              c.zlibCompress(data).Some? && |SizeBytes(|data|) + c.zlibCompress(data).value| < |data|
    ensures !FastLZPays(o, data)
  {
    if ZlibPays(c, o, data) {
      Shorter(|data|, 4 + |c.zlibCompress(data).value|, o.cmprfactor);
    }
  }

  lemma FastLZShortens(c: Codecs, o: Options, data: seq<byte>)
    requires o.cmprfactor >= 1.0 && o.cmprtype != 1 && (o.cmprtype == 2 ==> |data| <= MAX_INT)
    ensures FastLZPays(o, data) ==> o.cmprtype == 2 && |SizeBytes(|data|) + FastLZBlock(data)| < |data|
    ensures !ZlibPays(c, o, data)
  {
    hide FastLZBlock;
    if FastLZPays(o, data) {
      Shorter(|data|, 4 + |FastLZBlock(data)|, o.cmprfactor);
    }
  }

  lemma Shorter(n: nat, m: nat, factor: real)
    requires factor >= 1.0 && n as real > m as real * factor
    ensures m < n
  {
    assert m as real * factor >= m as real;
  }

  // ---- Decoding -------------------------------------------------------------------------------------------

  /** The decoding table, but for compressed data in the empty or private format.  Flags 0, as other tools write them, may stand
      for JSON or for anything else; the empty and the private format go by type; JSON, string and raw by the
      format alone; all others give null. */
  lemma DecodingTable(c: Codecs, bytes: seq<byte>, flags: bv32, jsonassoc: bool)
    requires flags & 0x10 == 0 || flags & 0xFE000000 != 0
    ensures var r, format, kind := Decode(c, bytes, flags, jsonassoc), flags & 0xFF000000, flags & 0x0F;
      var json := c.jsonDecode(bytes, jsonassoc);
      if flags == 0 then r == (if json.Some? then Value(json.value) else Value(Str(bytes)))
      else if format == 0 || format == 0x01000000 then
        && (kind == 0 ==> r == Value(Str(bytes)))
        && (kind == 1 ==> r == Value(Long(c.parseLong(bytes))))
        && (kind == 2 ==> r == Value(Double(c.parseDouble(bytes))))
        && (kind == 3 ==> r == Value(Bool(|bytes| > 0)))
        && (kind == 4 ==> r == (var v := c.phpUnserialize(bytes); if v.Some? then Value(v.value) else Null))
        && (kind == 5 ==> r == (var v := c.igUnserialize(bytes);
                                if c.haveIgbinary && v.Some? then Value(v.value) else Null))
        && (kind == 6 ==> r == (if json.Some? then Value(json.value) else Null))
        && (kind > 6 ==> r == Null)
      else if format == 0x02000000 then r == (if json.Some? then Value(json.value) else Null)
      else if format == 0x03000000 || format == 0x04000000 then r == Value(Str(bytes))
      else r == Null
  {
    hide Decode, DecodePrivate, DecodeTyped;
    FormatBits(flags);
    FormatRule(c, bytes, flags, jsonassoc);
    if flags & 0x10 == 0 {
      PrivateRule(c, bytes, flags, jsonassoc);
    }
    TypedRule(c, bytes, flags, flags & 0x0F, jsonassoc);
  }

  lemma FormatRule(c: Codecs, bytes: seq<byte>, flags: bv32, jsonassoc: bool)
    ensures var r, format, json := Decode(c, bytes, flags, jsonassoc), flags & 0xFF000000, c.jsonDecode(bytes, jsonassoc);
      r == (if format == 0 || format == 0x01000000 then DecodePrivate(c, bytes, flags, jsonassoc)
            else if format == 0x02000000 then (if json.Some? then Value(json.value) else Null)
            else if format == 0x03000000 || format == 0x04000000 then Value(Str(bytes))
            else Null)
  {
    hide DecodePrivate;
  }

  lemma FormatBits(flags: bv32)
    ensures flags & 0xFE000000 != 0 ==> flags & 0xFF000000 != 0 && flags & 0xFF000000 != 0x01000000
    ensures flags == 0 ==> flags & 0xFF000000 == 0 && flags & 0x0F == 0
  {
  }

  lemma PrivateRule(c: Codecs, bytes: seq<byte>, flags: bv32, jsonassoc: bool)
    requires flags & 0x10 == 0
    ensures DecodePrivate(c, bytes, flags, jsonassoc) == DecodeTyped(c, bytes, flags, flags & 0x0F, jsonassoc)
  {
    hide DecodeTyped, Unpack;
    KindBits(flags);
  }

  lemma KindBits(flags: bv32)
    requires flags & 0x10 == 0
    ensures flags & 0x1F == flags & 0x0F
    ensures (flags & 0x1F) & 0x10 == 0
  {
  }

  lemma TypedRule(c: Codecs, bytes: seq<byte>, flags: bv32, kind: bv32, jsonassoc: bool)
    ensures var r, json := DecodeTyped(c, bytes, flags, kind, jsonassoc), c.jsonDecode(bytes, jsonassoc);
      && (kind == 0 && flags != 0 ==> r == Value(Str(bytes)))
      && (kind == 0 && flags == 0 ==> r == (if json.Some? then Value(json.value) else Value(Str(bytes))))
      && (kind == 1 ==> r == Value(Long(c.parseLong(bytes))))
      && (kind == 2 ==> r == Value(Double(c.parseDouble(bytes))))
      && (kind == 3 ==> r == Value(Bool(|bytes| > 0)))
      && (kind == 4 ==> r == (var v := c.phpUnserialize(bytes); if v.Some? then Value(v.value) else Null))
      && (kind == 5 ==> r == (var v := c.igUnserialize(bytes);
                              if c.haveIgbinary && v.Some? then Value(v.value) else Null))
      && (kind == 6 ==> r == (if json.Some? then Value(json.value) else Null))
      && (kind > 6 ==> r == Null)
  {
  }

  /** With the compressed bit, the empty and the private format decode as the uncompressed data does under the
      private format and the type, which is never guessed; a compressor that fails or is missing leaves the
      result unset, and an unknown one gives null. */
  lemma DecodingCompressed(c: Codecs, bytes: seq<byte>, flags: bv32, jsonassoc: bool)
    requires flags & 0x10 != 0 && flags & 0xFE000000 == 0
    ensures var r, compressor, typed := Decode(c, bytes, flags, jsonassoc), flags & 0xE0, 0x01000000 | (flags & 0x0F);
      if compressor == 0 then r == Decode(c, bytes, typed, jsonassoc)
      else if compressor != 0x20 && compressor != 0x40 then r == Null
      else if compressor == 0x20 && !c.haveZlib then r == Unset
      else if |bytes| < 4 then r == Faulted
      else
        var size: nat := (bytes[0] as int) + 0x100 * (bytes[1] as int)
                         + 0x1_0000 * (bytes[2] as int) + 0x100_0000 * (bytes[3] as int);
        if compressor == 0x20 then
          var plain := c.zlibUncompress(bytes[4..], size);
          r == if plain.None? then Unset else Decode(c, plain.value, typed, jsonassoc)
        else
          var room := if size < 0x8000_0000 then size else size - 0x1_0000_0000;
          match Decompressed(bytes[4..] + [0], |bytes| - 4, room)
          case OverRead => r == Faulted
          case Refused => r == Unset
          case Decoded(plain) => r == Decode(c, plain, typed, jsonassoc)
  {
    hide Decompressed, DecodeTyped;
    TypedWord(flags);
    match Unpack(c, bytes, flags & 0xE0) {
      case Bytes(plain) => DecodesByType(c, plain, flags, jsonassoc);
      case _ =>
    }
  }

  lemma DecodesByType(c: Codecs, plain: seq<byte>, flags: bv32, jsonassoc: bool)
    requires flags & 0x10 != 0 && flags & 0xFE000000 == 0
    ensures Decode(c, plain, 0x01000000 | (flags & 0x0F), jsonassoc)
         == DecodeTyped(c, plain, flags, flags & 0x0F, jsonassoc)
  {
    TypedWord(flags);
    TypeOnly(c, plain, flags, 0x01000000 | (flags & 0x0F), flags & 0x0F, jsonassoc);
    hide DecodeTyped;
  }

  lemma TypedWord(flags: bv32)
    requires flags & 0x10 != 0 && flags & 0xFE000000 == 0
    ensures var typed := 0x01000000 | (flags & 0x0F);
      && typed & 0xFF000000 == 0x01000000
      && typed & 0x1F == flags & 0x0F
      && (flags & 0x0F) & 0x10 == 0
      && (flags & 0xFF000000 == 0 || flags & 0xFF000000 == 0x01000000)
      && (flags & 0x1F) & 0x10 != 0
      && (flags & 0x1F) & !0x10 == flags & 0x0F
      && flags != 0 && typed != 0
  {
  }

  /** Only flags 0 make a difference beyond the type. */
  lemma TypeOnly(c: Codecs, bytes: seq<byte>, a: bv32, b: bv32, kind: bv32, jsonassoc: bool)
    requires a != 0 && b != 0
    ensures DecodeTyped(c, bytes, a, kind, jsonassoc) == DecodeTyped(c, bytes, b, kind, jsonassoc)
  {
  }
}
