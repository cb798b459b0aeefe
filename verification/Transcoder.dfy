/** The version 1 value transcoder (RFC-20 "Common Flags" of the Couchbase SDK RFCs): a PHP value becomes
    bytes plus a flags word that packs its type, its compression and its format. */
module Transcoder {
  import opened Wrappers
  import opened FastLZFormat
  import opened FastLZ
  import opened FastLZLibrary

  /** `Composite` stands for null, arrays and objects, known only by identity. */
  datatype Value =
    | Str(bytes: seq<byte>)
    | Long(n: int)
    | Double(x: real)
    | Bool(b: bool)
    | Composite(id: int)

  /** Foreign code and build switches.  `None` is the foreign function's error return. */
  datatype Codecs = Codecs(
    printLong: int -> seq<byte>,
    printDouble: real -> seq<byte>,
    parseLong: seq<byte> -> int,
    parseDouble: seq<byte> -> real,
    jsonEncode: Value -> Option<seq<byte>>,
    jsonDecode: (seq<byte>, bool) -> Option<Value>,
    phpSerialize: Value -> Option<seq<byte>>,
    phpUnserialize: seq<byte> -> Option<Value>,
    igSerialize: Value -> Option<seq<byte>>,
    igUnserialize: seq<byte> -> Option<Value>,
    zlibCompress: seq<byte> -> Option<seq<byte>>,
    zlibUncompress: (seq<byte>, nat) -> Option<seq<byte>>,
    haveZlib: bool,
    haveIgbinary: bool)

  datatype Sertype = SertypeJson | SertypeIgbinary | SertypePhp

  const CMPRTYPE_NONE: int := 0
  const CMPRTYPE_ZLIB: int := 1
  const CMPRTYPE_FASTLZ: int := 2

  datatype Options = Options(sertype: Sertype, cmprtype: int, cmprthresh: int, cmprfactor: real)

  const VAL_MASK: bv32 := 0x1F
  const VAL_IS_STRING: bv32 := 0x00
  const VAL_IS_LONG: bv32 := 0x01
  const VAL_IS_DOUBLE: bv32 := 0x02
  const VAL_IS_BOOL: bv32 := 0x03
  const VAL_IS_SERIALIZED: bv32 := 0x04
  const VAL_IS_IGBINARY: bv32 := 0x05
  const VAL_IS_JSON: bv32 := 0x06

  const COMPRESSION_MASK: bv32 := 0xE0
  const COMPRESSION_NONE: bv32 := 0x00
  const COMPRESSION_ZLIB: bv32 := 0x20
  const COMPRESSION_FASTLZ: bv32 := 0x40
  const COMPRESSION_MCISCOMPRESSED: bv32 := 0x10

  const CFFMT_MASK: bv32 := 0xFF000000
  const CFFMT_EMPTY: bv32 := 0x00000000
  const CFFMT_PRIVATE: bv32 := 0x01000000
  const CFFMT_JSON: bv32 := 0x02000000
  const CFFMT_RAW: bv32 := 0x03000000
  const CFFMT_STRING: bv32 := 0x04000000

  // ---- The size preamble --------------------------------------------------------------------------

  /** The four-byte size before compressed data, low byte first; sizes wrap at 32 bits. */
  function Le32(n: nat): (r: seq<byte>)
    ensures |r| == 4
  {
    [n % 256, n / 256 % 256, n / 0x1_0000 % 256, n / 0x100_0000 % 256]
  }

  function ReadLe32(bytes: seq<byte>): (n: nat)
    requires |bytes| >= 4
  {
    (bytes[0] as int) + 256 * (bytes[1] as int) + 0x1_0000 * (bytes[2] as int) + 0x100_0000 * (bytes[3] as int)
  }

  lemma PreambleRoundTrip(n: nat, rest: seq<byte>)
    requires n < UINT32
    ensures ReadLe32(Le32(n) + rest) == n
  {
    var b := Le32(n) + rest;
    assert b[0] == n % 256 && b[1] == n / 256 % 256 && b[2] == n / 0x1_0000 % 256 && b[3] == n / 0x100_0000 % 256;
    assert n / 0x100_0000 < 256;
    assert n / 0x1_0000 == n / 256 / 256 && n / 0x100_0000 == n / 256 / 256 / 256;
  }

  /** The size as the C int that fastlz_decompress takes: 2^31 and above are negative. */
  function AsInt(n: nat): (i: int)
    ensures 0 <= n <= MAX_INT ==> i == n
    ensures MAX_INT < n < UINT32 ==> i < 0
  {
    if n % UINT32 <= MAX_INT then n % UINT32 else n % UINT32 - UINT32
  }

  // ---- Encoding -----------------------------------------------------------------------------------

  datatype Prepared = Prepared(bytes: seq<byte>, flags: bv32)

  function Ascii(s: string): seq<byte>
    requires forall i :: 0 <= i < |s| ==> s[i] < 128 as char
  {
    seq(|s|, i requires 0 <= i < |s| => s[i] as int)
  }

  function EffectiveSertype(c: Codecs, sertype: Sertype): Sertype {
    if !c.haveIgbinary && sertype.SertypeIgbinary? then SertypeJson else sertype
  }

  function Serialized(flags: bv32, bytes: Option<seq<byte>>): Option<Prepared> {
    if bytes.None? then None else Some(Prepared(bytes.value, flags))
  }

  /** The value as bytes before compression; `None` if its serialiser fails. */
  function Prepare(c: Codecs, sertype: Sertype, value: Value): Option<Prepared> {
    match value
    case Str(bytes) => Some(Prepared(bytes, VAL_IS_STRING | CFFMT_STRING))
    case Long(n) => Some(Prepared(c.printLong(n), VAL_IS_LONG | CFFMT_JSON))
    case Double(x) => Some(Prepared(c.printDouble(x), VAL_IS_DOUBLE | CFFMT_JSON))
    case Bool(b) => Some(Prepared(if b then Ascii("true") else Ascii("false"), VAL_IS_BOOL | CFFMT_JSON))
    case Composite(_) =>
      match EffectiveSertype(c, sertype)
      case SertypeJson => Serialized(VAL_IS_JSON | CFFMT_JSON, c.jsonEncode(value))
      case SertypePhp => Serialized(VAL_IS_SERIALIZED | CFFMT_PRIVATE, c.phpSerialize(value))
      case SertypeIgbinary => Serialized(VAL_IS_IGBINARY | CFFMT_PRIVATE, c.igSerialize(value))
  }

  /** A PHP string's buffer ends with a zero byte that is not part of its length. */
  function Terminated(bytes: seq<byte>): (r: seq<byte>)
    ensures |r| == |bytes| + 1 && r[..|bytes|] == bytes
  {
    bytes + [0]
  }

  /** The size FastLZ is handed is a C int; longer data is outside this model. */
  predicate Sized(cmprtype: int, data: seq<byte>) {
    cmprtype == CMPRTYPE_FASTLZ ==> |data| <= MAX_INT
  }

  datatype Packed = Packed(bytes: seq<byte>, flags: bv32)

  /** The compressor's attempt: `None` if it is missing, unknown, or fails. */
  function Pack(c: Codecs, cmprtype: int, data: seq<byte>): (r: Option<Packed>)
    requires Sized(cmprtype, data)
    ensures r.Some? ==> |r.value.bytes| >= 4
    ensures r.Some? ==> r.value.flags == COMPRESSION_ZLIB || r.value.flags == COMPRESSION_FASTLZ
  {
    if cmprtype == CMPRTYPE_ZLIB then
      if !c.haveZlib || c.zlibCompress(data).None? then None
      else Some(Packed(Le32(|data|) + c.zlibCompress(data).value, COMPRESSION_ZLIB))
    else if cmprtype == CMPRTYPE_FASTLZ then
      var block := Compressed(ChosenLevel(|data|), Terminated(data), |data|);
      Some(Packed(Le32(|data|) + block, COMPRESSION_FASTLZ))
    else None
  }

  /** `datalen < cmprthresh` compares as unsigned 64-bit numbers, so a negative threshold is huge. */
  predicate BelowThreshold(length: nat, cmprthresh: int) {
    length < (if cmprthresh < 0 then cmprthresh + 0x1_0000_0000_0000_0000 else cmprthresh)
  }

  /** The bytes and compression flags that replace the data, if compressing is tried, works and pays. */
  function Replacement(c: Codecs, o: Options, data: seq<byte>): (r: Option<Packed>)
    requires Sized(o.cmprtype, data)
  {
    if BelowThreshold(|data|, o.cmprthresh) || o.cmprtype == CMPRTYPE_NONE then None
    else
      match Pack(c, o.cmprtype, data)
      case None => None
      case Some(p) => if |data| as real > |p.bytes| as real * o.cmprfactor then Some(p) else None
  }

  function CompressedFlags(flags: bv32, compression: bv32): bv32 {
    ((flags | compression | COMPRESSION_MCISCOMPRESSED) & !CFFMT_MASK) | CFFMT_PRIVATE
  }

  function Encode(c: Codecs, o: Options, value: Value): (r: Option<Prepared>)
    requires Prepare(c, o.sertype, value).Some? ==> Sized(o.cmprtype, Prepare(c, o.sertype, value).value.bytes)
  {
    match Prepare(c, o.sertype, value)
    case None => None
    case Some(p) =>
      match Replacement(c, o, p.bytes)
      case None => Some(p)
      case Some(q) => Some(Prepared(q.bytes, CompressedFlags(p.flags, q.flags)))
  }

  // ---- Decoding -----------------------------------------------------------------------------------

  /** `Null`: PHP null.  `Unset`: the C code returns a value it never set.  `Faulted`: it reads memory
      that is not its own. */
  datatype Result = Value(value: Value) | Null | Unset | Faulted

  datatype Unpacked = Bytes(bytes: seq<byte>) | Failed | Unsupported | Outside

  function Unpack(c: Codecs, bytes: seq<byte>, compression: bv32): Unpacked {
    if compression == COMPRESSION_ZLIB then
      if !c.haveZlib then Failed
      else if |bytes| < 4 then Outside
      else
        var plain := c.zlibUncompress(bytes[4..], ReadLe32(bytes));
        if plain.None? then Failed else Bytes(plain.value)
    else if compression == COMPRESSION_FASTLZ then
      if |bytes| < 4 then Outside
      else
        match Decompressed(Terminated(bytes[4..]), |bytes| - 4, AsInt(ReadLe32(bytes)))
        case OverRead => Outside
        case Refused => Failed
        case Decoded(plain) => Bytes(plain)
    else if compression != 0 then Unsupported
    else Bytes(bytes)
  }

  function OrNull(v: Option<Value>): Result {
    if v.None? then Null else Value(v.value)
  }

  function DecodeTyped(c: Codecs, bytes: seq<byte>, flags: bv32, sertype: bv32, jsonassoc: bool): Result {
    if sertype == VAL_IS_STRING then
      if flags == 0 && c.jsonDecode(bytes, jsonassoc).Some? then Value(c.jsonDecode(bytes, jsonassoc).value)
      else Value(Str(bytes))
    else if sertype == VAL_IS_LONG then Value(Long(c.parseLong(bytes)))
    else if sertype == VAL_IS_DOUBLE then Value(Double(c.parseDouble(bytes)))
    else if sertype == VAL_IS_BOOL then Value(Bool(bytes != []))
    else if sertype == VAL_IS_JSON then OrNull(c.jsonDecode(bytes, jsonassoc))
    else if sertype == VAL_IS_SERIALIZED then OrNull(c.phpUnserialize(bytes))
    else if sertype == VAL_IS_IGBINARY then
      if c.haveIgbinary then OrNull(c.igUnserialize(bytes)) else Null
    else Null
  }

  function DecodePrivate(c: Codecs, bytes: seq<byte>, flags: bv32, jsonassoc: bool): Result {
    var sertype := flags & VAL_MASK;
    if sertype & COMPRESSION_MCISCOMPRESSED != 0 then
      match Unpack(c, bytes, flags & COMPRESSION_MASK)
      case Bytes(plain) => DecodeTyped(c, plain, flags, sertype & !COMPRESSION_MCISCOMPRESSED, jsonassoc)
      case Failed => Unset
      case Unsupported => Null
      case Outside => Faulted
    else DecodeTyped(c, bytes, flags, sertype, jsonassoc)
  }

  function Decode(c: Codecs, bytes: seq<byte>, flags: bv32, jsonassoc: bool): Result {
    var cffmt := flags & CFFMT_MASK;
    if cffmt == CFFMT_PRIVATE || cffmt == CFFMT_EMPTY then DecodePrivate(c, bytes, flags, jsonassoc)
    else if cffmt == CFFMT_JSON then OrNull(c.jsonDecode(bytes, jsonassoc))
    else if cffmt == CFFMT_STRING || cffmt == CFFMT_RAW then Value(Str(bytes))
    else Null
  }

  // ---- The three fields of the flags word ---------------------------------------------------------

  /** Compressing rewrites the compression field and the format byte and leaves the type readable. */
  lemma FieldsAreDisjoint(flags: bv32, compression: bv32)
    requires flags & (COMPRESSION_MASK | COMPRESSION_MCISCOMPRESSED) == 0
    requires compression & !COMPRESSION_MASK == 0
    ensures var f := CompressedFlags(flags, compression);
      && f != 0
      && f & CFFMT_MASK == CFFMT_PRIVATE
      && f & COMPRESSION_MASK == compression
      && (f & VAL_MASK) & COMPRESSION_MCISCOMPRESSED != 0
      && (f & VAL_MASK) & !COMPRESSION_MCISCOMPRESSED == flags & VAL_MASK
  {
  }

  lemma PreparedFlags(c: Codecs, sertype: Sertype, value: Value)
    requires Prepare(c, sertype, value).Some?
    ensures var f := Prepare(c, sertype, value).value.flags;
      && f != 0
      && f & (COMPRESSION_MASK | COMPRESSION_MCISCOMPRESSED) == 0
      && (f & VAL_MASK) & COMPRESSION_MCISCOMPRESSED == 0
  {
  }

  /** The encoder never emits flags 0, so the decoder's guess at JSON is for foreign values only. */
  lemma FlagsNeverZero(c: Codecs, o: Options, value: Value)
    requires Prepare(c, o.sertype, value).Some?
    requires Sized(o.cmprtype, Prepare(c, o.sertype, value).value.bytes)
    ensures Encode(c, o, value).Some? && Encode(c, o, value).value.flags != 0
  {
    PreparedFlags(c, o.sertype, value);
    var p := Prepare(c, o.sertype, value).value;
    var q := Replacement(c, o, p.bytes);
    if q.Some? {
      FieldsAreDisjoint(p.flags, q.value.flags);
    }
  }

  // ---- What was encoded comes back ----------------------------------------------------------------

  /** The foreign code that reads this value back restores it: the serialiser used for it, or JSON for a
      number's printed form. */
  predicate Restores(c: Codecs, sertype: Sertype, value: Value, jsonassoc: bool, data: seq<byte>) {
    match value
    case Str(_) => true
    case Bool(_) => true
    case Long(_) => c.jsonDecode(data, jsonassoc) == Some(value)
    case Double(_) => c.jsonDecode(data, jsonassoc) == Some(value)
    case Composite(_) =>
      match EffectiveSertype(c, sertype)
      case SertypeJson => c.jsonDecode(data, jsonassoc) == Some(value)
      case SertypePhp => c.phpUnserialize(data) == Some(value)
      case SertypeIgbinary => c.igUnserialize(data) == Some(value)
  }

  /** zlib restores this data, given its size, which must fit the preamble. */
  predicate ZlibRestores(c: Codecs, data: seq<byte>) {
    c.zlibCompress(data).Some? ==>
      |data| < UINT32 && c.zlibUncompress(c.zlibCompress(data).value, |data|) == Some(data)
  }

  lemma PackRoundTrip(c: Codecs, cmprtype: int, data: seq<byte>)
    requires Sized(cmprtype, data) && Pack(c, cmprtype, data).Some?
    requires cmprtype == CMPRTYPE_ZLIB ==> ZlibRestores(c, data)
    ensures Unpack(c, Pack(c, cmprtype, data).value.bytes, Pack(c, cmprtype, data).value.flags)
         == (if cmprtype == CMPRTYPE_FASTLZ && data == [] then Failed else Bytes(data))
  {
    hide Compressed, Decompressed, Le32, ReadLe32;
    var p := Pack(c, cmprtype, data).value;
    var rest := p.bytes[4..];
    assert p.bytes == Le32(|data|) + rest;
    PreambleRoundTrip(|data|, rest);
    if cmprtype == CMPRTYPE_FASTLZ {
      FastLZRoundTrip(data, rest);
    }
  }

  lemma FastLZRoundTrip(data: seq<byte>, block: seq<byte>)
    requires |data| <= MAX_INT
    requires block == Compressed(ChosenLevel(|data|), Terminated(data), |data|)
    ensures Decompressed(Terminated(block), |block|, |data|) == (if data == [] then Refused else Decoded(data))
  {
    if data != [] {
      hide Compressed, Decompressed;
      Lossless(ChosenLevel(|data|), Terminated(data), |data|, Terminated(block), |data|);
    }
  }

  /** FastLZ replaces empty data only under a negative factor: its four-byte preamble is longer. */
  lemma ReplacementOfEmpty(c: Codecs, o: Options)
    requires o.cmprtype == CMPRTYPE_FASTLZ
    ensures Replacement(c, o, []).Some? <==> !BelowThreshold(0, o.cmprthresh) && o.cmprfactor < 0.0
  {
    assert |Pack(c, o.cmprtype, []).value.bytes| == 4;
  }

  /** A compressed value of any type is typed back from its own data. */
  lemma DecodeCompressed(c: Codecs, o: Options, value: Value, jsonassoc: bool)
    requires Prepare(c, o.sertype, value).Some?
    requires Sized(o.cmprtype, Prepare(c, o.sertype, value).value.bytes)
    requires Replacement(c, o, Prepare(c, o.sertype, value).value.bytes).Some?
    requires o.cmprtype == CMPRTYPE_ZLIB ==> ZlibRestores(c, Prepare(c, o.sertype, value).value.bytes)
    ensures var p, e := Prepare(c, o.sertype, value).value, Encode(c, o, value).value;
      Decode(c, e.bytes, e.flags, jsonassoc)
      == (if o.cmprtype == CMPRTYPE_FASTLZ && p.bytes == [] then Unset
          else DecodeTyped(c, p.bytes, e.flags, p.flags & VAL_MASK, jsonassoc))
  {
    hide Pack, Unpack, Prepare, CompressedFlags, DecodeTyped;
    var p := Prepare(c, o.sertype, value).value;
    var q := Replacement(c, o, p.bytes).value;
    PreparedFlags(c, o.sertype, value);
    PackRoundTrip(c, o.cmprtype, p.bytes);
    FieldsAreDisjoint(p.flags, q.flags);
  }

  /** Strings, null, arrays, objects and uncompressed numbers come back under every serialiser, compressor,
      threshold and factor exactly when the foreign code restores them, with one exception: empty data,
      FastLZ, a zero threshold and a negative factor. */
  lemma RoundTrip(c: Codecs, o: Options, value: Value, jsonassoc: bool)
    requires !value.Bool? && Prepare(c, o.sertype, value).Some?
    requires Sized(o.cmprtype, Prepare(c, o.sertype, value).value.bytes)
    requires value.Long? || value.Double? ==> Replacement(c, o, Prepare(c, o.sertype, value).value.bytes).None?
    requires o.cmprtype == CMPRTYPE_ZLIB ==> ZlibRestores(c, Prepare(c, o.sertype, value).value.bytes)
    ensures Encode(c, o, value).Some?
    ensures var e, data := Encode(c, o, value).value, Prepare(c, o.sertype, value).value.bytes;
      Decode(c, e.bytes, e.flags, jsonassoc) == Value(value)
      <==> && Restores(c, o.sertype, value, jsonassoc, data)
           && !(o.cmprtype == CMPRTYPE_FASTLZ && data == []
                && !BelowThreshold(0, o.cmprthresh) && o.cmprfactor < 0.0)
  {
    hide Pack;
    var p := Prepare(c, o.sertype, value).value;
    FlagsNeverZero(c, o, value);
    if o.cmprtype == CMPRTYPE_FASTLZ {
      ReplacementOfEmpty(c, o);
    }
    if Replacement(c, o, p.bytes).Some? {
      DecodeCompressed(c, o, value, jsonassoc);
    }
  }

  /** A boolean comes back exactly when it is true or was left uncompressed: once compressed it is
      decoded by length only, and "false" is not empty. */
  lemma BoolRoundTrip(c: Codecs, o: Options, b: bool, jsonassoc: bool)
    requires c.jsonDecode(Ascii("true"), jsonassoc) == Some(Bool(true))
    requires c.jsonDecode(Ascii("false"), jsonassoc) == Some(Bool(false))
    requires o.cmprtype == CMPRTYPE_ZLIB ==> ZlibRestores(c, Ascii(if b then "true" else "false"))
    ensures Encode(c, o, Bool(b)).Some?
    ensures var e := Encode(c, o, Bool(b)).value;
      Decode(c, e.bytes, e.flags, jsonassoc) == Value(Bool(b))
      <==> b || Replacement(c, o, Ascii("false")).None?
  {
    hide Pack;
    FlagsNeverZero(c, o, Bool(b));
    var data := Ascii(if b then "true" else "false");
    if Replacement(c, o, data).Some? {
      DecodeCompressed(c, o, Bool(b), jsonassoc);
      assert |data| >= 4;
    }
  }

  /** One such value: false, compressed with FastLZ at threshold and factor 0, decodes to true. */
  lemma CompressedFalseIsTrue(c: Codecs, jsonassoc: bool)
    ensures var o := Options(SertypeJson, CMPRTYPE_FASTLZ, 0, 0.0);
      && Encode(c, o, Bool(false)).Some?
      && var e := Encode(c, o, Bool(false)).value;
         Decode(c, e.bytes, e.flags, jsonassoc) == Value(Bool(true))
  {
    hide Pack;
    var o := Options(SertypeJson, CMPRTYPE_FASTLZ, 0, 0.0);
    FlagsNeverZero(c, o, Bool(false));
    assert Pack(c, CMPRTYPE_FASTLZ, Ascii("false")).Some? by { PackFastLZ(c, Ascii("false")); }
    DecodeCompressed(c, o, Bool(false), jsonassoc);
  }

  lemma PackFastLZ(c: Codecs, data: seq<byte>)
    requires |data| <= MAX_INT
    ensures Pack(c, CMPRTYPE_FASTLZ, data).Some?
  {
  }
}
