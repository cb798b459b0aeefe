/** The transcoder as the C code runs it: flags and buffers reassigned on the way, FastLZ working in a
    buffer sized by the encoder's own formula. */
module TranscoderMethods {
  import opened Wrappers
  import opened FastLZFormat
  import opened FastLZ
  import opened FastLZLibrary
  import opened Transcoder
  import Compressor = FastLZCompressor

  /** `input_size + input_size / 20`, but at least 66. */
  function FastLZBuffer(n: nat): nat {
    if n + n / 20 > 66 then n + n / 20 else 66
  }

  /** The encoder's buffer always has the room the compressor uses. */
  lemma BufferSuffices(n: nat)
    ensures Compressor.Room(n) <= FastLZBuffer(n)
  {
    if n >= 64 {
      assert n >= 20 * (n / 32 + 1);
    }
  }

  /** Stores the preamble at the front of the buffer. */
  method StorePreamble(output: array<byte>, n: nat)
    requires output.Length >= 4
    modifies output
    ensures output[..4] == Le32(n)
    ensures output[4..] == old(output[4..])
  {
    output[0], output[1], output[2], output[3] := n % 256, n / 256 % 256, n / 0x1_0000 % 256, n / 0x100_0000 % 256;
  }

  method PackFastLZ(c: Codecs, data: seq<byte>) returns (packed: seq<byte>)
    requires |data| <= MAX_INT
    ensures Pack(c, CMPRTYPE_FASTLZ, data) == Some(Packed(packed, COMPRESSION_FASTLZ))
  {
    hide Compressed, Le32, FastLZBuffer, Compressor.Room;
    var inputSize := |data|;
    var outputSize := 4 + FastLZBuffer(inputSize) + 1;
    var output := new byte[outputSize](i => 0);
    BufferSuffices(inputSize);
    var r := FastLZLibrary.Compress(Terminated(data), inputSize, output, 4);
    ghost var block := output[4..4 + r];
    StorePreamble(output, inputSize);
    assert output[4..4 + r] == output[4..][..r] == block;
    output[4 + r] := 0;
    packed := output[..4 + r];
    assert packed == Le32(inputSize) + block;
  }

  /** The first half of the encoder: type and serialiser choose the flags and the text. */
  method PrepareValue(c: Codecs, chosen: Sertype, value: Value) returns (flags: bv32, text: Option<seq<byte>>)
    ensures Prepare(c, chosen, value) == Serialized(flags, text)
  {
    var sertype := chosen;
    if !c.haveIgbinary && sertype == SertypeIgbinary {
      sertype := SertypeJson;
    }
    match value {
      case Str(bytes) =>
        flags, text := VAL_IS_STRING | CFFMT_STRING, Some(bytes);
      case Long(n) =>
        flags, text := VAL_IS_LONG | CFFMT_JSON, Some(c.printLong(n));
      case Double(x) =>
        flags, text := VAL_IS_DOUBLE | CFFMT_JSON, Some(c.printDouble(x));
      case Bool(b) =>
        flags := VAL_IS_BOOL | CFFMT_JSON;
        if b {
          text := Some(Ascii("true"));
        } else {
          text := Some(Ascii("false"));
        }
      case Composite(_) =>
        match sertype {
          case SertypeJson =>
            flags, text := VAL_IS_JSON | CFFMT_JSON, c.jsonEncode(value);
          case SertypePhp =>
            flags, text := VAL_IS_SERIALIZED | CFFMT_PRIVATE, c.phpSerialize(value);
          case SertypeIgbinary =>
            flags, text := VAL_IS_IGBINARY | CFFMT_PRIVATE, c.igSerialize(value);
        }
    }
  }

  method MarkCompressed(was: bv32, cmprflags: bv32) returns (flags: bv32)
    ensures flags == CompressedFlags(was, cmprflags)
  {
    flags := was | cmprflags;
    flags := flags | COMPRESSION_MCISCOMPRESSED;
    // compression is considered a private format
    flags := flags & !CFFMT_MASK;
    flags := flags | CFFMT_PRIVATE;
  }

  /** basic_encoder_v1. */
  method BasicEncoder(c: Codecs, o: Options, value: Value) returns (r: Option<Prepared>)
    requires Prepare(c, o.sertype, value).Some? ==> Sized(o.cmprtype, Prepare(c, o.sertype, value).value.bytes)
    ensures r == Encode(c, o, value)
  {
    hide Pack, Prepare, CompressedFlags;
    var flags, text := PrepareValue(c, o.sertype, value);
    if text.None? {
      return None;
    }
    var res, cmprtype := text.value, o.cmprtype;
    if BelowThreshold(|res|, o.cmprthresh) {
      cmprtype := CMPRTYPE_NONE;
    }
    if cmprtype != CMPRTYPE_NONE {
      var cmprflags, compressed := TryPack(c, cmprtype, res);
      if cmprflags != COMPRESSION_NONE {
        if |res| as real > |compressed| as real * o.cmprfactor {
          res := compressed;
          flags := MarkCompressed(flags, cmprflags);
        }
      }
    }
    r := Some(Prepared(res, flags));
  }

  /** `cmprflags` stays at none when the compressor is missing, unknown or fails. */
  method TryPack(c: Codecs, cmprtype: int, data: seq<byte>) returns (cmprflags: bv32, compressed: seq<byte>)
    requires Sized(cmprtype, data)
    ensures Pack(c, cmprtype, data)
         == (if cmprflags == COMPRESSION_NONE then None else Some(Packed(compressed, cmprflags)))
  {
    cmprflags, compressed := COMPRESSION_NONE, [];
    if cmprtype == CMPRTYPE_ZLIB {
      if !c.haveZlib {
        return;
      }
      var z := c.zlibCompress(data);
      if z.None? {
        return;
      }
      cmprflags, compressed := COMPRESSION_ZLIB, Le32(|data|) + z.value;
    } else if cmprtype == CMPRTYPE_FASTLZ {
      compressed := PackFastLZ(c, data);
      cmprflags := COMPRESSION_FASTLZ;
    }
  }

  method UnpackFastLZ(bytes: seq<byte>, strictAlign: bool) returns (overRead: bool, plain: seq<byte>)
    requires |bytes| >= 4
    ensures Decompressed(Terminated(bytes[4..]), |bytes| - 4, AsInt(ReadLe32(bytes)))
         == (if overRead then OverRead else if plain == [] then Refused else Decoded(plain))
  {
    var outputSize := ReadLe32(bytes);
    var output := new byte[outputSize](i => 0);
    var r;
    overRead, r := FastLZLibrary.Decompress(Terminated(bytes[4..]), |bytes| - 4, output, AsInt(outputSize), strictAlign);
    plain := output[..r];
  }

  /** basic_decoder_v1. */
  method BasicDecoder(c: Codecs, input: seq<byte>, flags: bv32, jsonassoc: bool, strictAlign: bool) returns (r: Result)
    ensures r == Decode(c, input, flags, jsonassoc)
  {
    hide Decompressed;
    var bytes := input;
    var cffmt, sertype, cmprtype := flags & CFFMT_MASK, flags & VAL_MASK, flags & COMPRESSION_MASK;
    if cffmt == CFFMT_PRIVATE || cffmt == CFFMT_EMPTY {
      if sertype & COMPRESSION_MCISCOMPRESSED != 0 {
        sertype := sertype & !COMPRESSION_MCISCOMPRESSED;
        if cmprtype == COMPRESSION_ZLIB {
          if !c.haveZlib {
            return Unset;
          }
          if |bytes| < 4 {
            return Faulted;
          }
          var plain := c.zlibUncompress(bytes[4..], ReadLe32(bytes));
          if plain.None? {
            return Unset;
          }
          bytes := plain.value;
        } else if cmprtype == COMPRESSION_FASTLZ {
          if |bytes| < 4 {
            return Faulted;
          }
          var overRead, plain := UnpackFastLZ(bytes, strictAlign);
          if overRead {
            return Faulted;
          }
          if plain == [] {
            return Unset;
          }
          bytes := plain;
        } else if cmprtype != 0 {
          return Null;
        }
      }
      r := DecodeTyped(c, bytes, flags, sertype, jsonassoc);
    } else if cffmt == CFFMT_JSON {
      r := OrNull(c.jsonDecode(bytes, jsonassoc));
    } else if cffmt == CFFMT_STRING || cffmt == CFFMT_RAW {
      r := Value(Str(bytes));
    } else {
      r := Null;
    }
  }
}
