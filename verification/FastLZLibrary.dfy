/** The three functions of the FastLZ library. */
module FastLZLibrary {
  import opened FastLZFormat
  import opened FastLZ
  import Compressor = FastLZCompressor
  import Decompressor = FastLZDecompressor

  /** fastlz_compress uses level 1 for short blocks. */
  function ChosenLevel(length: nat): Level {
    if length < 65536 then 1 else 2
  }

  method Compress(src: seq<byte>, length: nat, output: array<byte>, base: nat) returns (r: nat)
    requires Readable(ChosenLevel(length), src, length)
    requires base + Compressor.Room(length) <= output.Length
    modifies output
    ensures r <= Compressor.Room(length)
    ensures output[base..base + r] == Compressed(ChosenLevel(length), src, length)
    ensures length >= 4 ==> r > 0 && output[base] / 32 == (if length < 65536 then 0 else 1)
    ensures output[..base] == old(output[..base])
    ensures output[base + Compressor.Room(length)..] == old(output[base + Compressor.Room(length)..])
  {
    if length < 65536 {
      r := Compressor.CompressLevel(1, src, length, output, base);
    } else {
      r := Compressor.CompressLevel(2, src, length, output, base);
    }
  }

  /** fastlz_compress_level: any level but 1 and 2 writes nothing and returns 0. */
  method CompressLevel(level: int, src: seq<byte>, length: nat, output: array<byte>) returns (r: nat)
    requires Readable(if level == 2 then 2 else 1, src, length)
    requires Compressor.Room(length) <= output.Length
    modifies output
    ensures r <= Compressor.Room(length)
    ensures output[..r] == (if level == 1 || level == 2 then Compressed(level, src, length) else [])
    ensures level != 1 && level != 2 ==> output[..] == old(output[..])
    ensures output[Compressor.Room(length)..] == old(output[Compressor.Room(length)..])
  {
    if level == 1 || level == 2 {
      r := Compressor.CompressLevel(level, src, length, output, 0);
    } else {
      r := 0;
    }
  }

  /** fastlz_decompress: the level is in the top bits of the first byte. */
  method Decompress(mem: seq<byte>, length: int, output: array<byte>, maxout: int, strictAlign: bool)
    returns (overRead: bool, r: nat)
    requires length <= |mem| && maxout <= output.Length
    modifies output
    ensures output[Decompressor.Writable(maxout)..] == old(output[Decompressor.Writable(maxout)..])
    ensures r <= Decompressor.Writable(maxout)
    ensures Decompressed(mem, length, maxout) == (
              if overRead then OverRead else if r == 0 then Refused else Decoded(output[..r]))
  {
    if mem == [] {
      return true, 0;
    }
    var level := mem[0] / 32 + 1;
    if level == 1 || level == 2 {
      overRead, r := Decompressor.DecompressLevel(level, mem, length, output, maxout, strictAlign);
    } else {
      overRead, r := false, 0;
    }
  }
}
