/** Compression followed by decompression. */
module QlzRoundTrip {
  import opened Bytes
  import opened QlzFormat
  import opened QlzChoice
  import QlzLaws
  import QlzCompress
  import QlzDecompress

  /** For every input whose size the header can carry, in the compressed and in the stored form: the
      packet fits the buffer of `size + 400` bytes and gives the input back. Equal bytes shrink. */
  method CompressThenDecompress(src: seq<byte>, packed: array<byte>, state: QlzCompress.State, out: array<byte>)
    returns (packedLen: nat, dsiz: nat)
    requires 1 <= |src| <= MAX_SIZE
    requires |src| + 400 <= packed.Length && |src| <= out.Length
    requires state.offset.Length0 == HASH_VALUES && state.offset.Length1 == POINTERS
    requires state.counter.Length == HASH_VALUES
    modifies packed, state.offset, state.counter, out
    ensures 9 <= packedLen <= |src| + 155
    ensures AllSame(src) ==> packedLen <= |src| / 31 + 79
    ensures dsiz == |src| && out[..dsiz] == src
  {
    ghost var xs;
    packedLen, xs := QlzCompress.Compress(src, packed, state);
    if AllSame(src) {
      QlzLaws.SameNotHopeless(src);
      QlzLaws.SameSize(src, xs);
    }
    dsiz := QlzDecompress.Decompress(packed[..packedLen], out, xs, src);
  }
}
