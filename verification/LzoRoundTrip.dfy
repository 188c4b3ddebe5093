/** Compression followed by decompression. */
module LzoRoundTrip {
  import opened Bytes
  import opened Lz77
  import opened LzoFormat
  import opened LzoParse
  import LzoLaws
  import LzoCompress
  import LzoDecompress

  /** For every input: the compressor stays inside the buffer its caller sizes, and the decompressor
      uses up the stream, reports success and returns the input. Equal bytes shrink. */
  method CompressThenDecompress(src: seq<byte>, packed: array<byte>, wrkmem: array<nat>, out: array<byte>)
    returns (packedLen: nat, status: LzoDecompress.Status, outLen: nat)
    requires |src| + |src| / 16 + 67 <= packed.Length && wrkmem.Length == DICT_SIZE
    requires |src| <= out.Length
    modifies packed, wrkmem, out
    ensures packedLen <= |src| + |src| / 16 + 67
    ensures AllSame(src) ==> packedLen <= |src| / 200 + 100
    ensures status == LzoDecompress.Ok && outLen == |src| && out[..outLen] == src
  {
    ghost var ts, tail, bs;
    packedLen, ts, tail, bs := LzoCompress.Compress(src, packed, wrkmem);
    if AllSame(src) {
      LzoLaws.RepeatSize(src, bs);
    }
    status, outLen := LzoDecompress.Decompress(packed[..packedLen], out, ts, tail);
  }
}
