/** The meaning of a match: a copy, one byte at a time, from `off` bytes back. */
module Lz77 {
  import opened Bytes

  ghost function CopyMatch(out: seq<byte>, off: nat, len: nat): (r: seq<byte>)
    requires 1 <= off <= |out|
    ensures |r| == |out| + len
    ensures out <= r
  {
    if len == 0 then out
    else
      var r := CopyMatch(out, off, len - 1);
      r + [r[|r| - off]]
  }

  /** A shorter copy is a prefix of a longer one. */
  lemma {:induction false} CopyMatchPrefix(out: seq<byte>, off: nat, n: nat, m: nat)
    requires 1 <= off <= |out| && n <= m
    ensures CopyMatch(out, off, n) == CopyMatch(out, off, m)[..|out| + n]
  {
    if n < m {
      CopyMatchPrefix(out, off, n, m - 1);
    }
  }

  /** A store of `w` bytes at once does what `w` single byte copies do, as long as the distance is
      at least `w`. */
  lemma {:induction false} CopyMatchBlock(out: seq<byte>, off: nat, k: nat, w: nat)
    requires 1 <= off <= |out| && w <= off
    ensures var r := CopyMatch(out, off, k);
            CopyMatch(out, off, k + w) == r + r[|r| - off..|r| - off + w]
  {
    hide CopyMatch;
    var r := CopyMatch(out, off, k);
    if w > 0 {
      CopyMatchBlock(out, off, k, w - 1);
      CopyMatchNext(out, off, k + (w - 1));
      BlockNext(r, CopyMatch(out, off, k + (w - 1)), |r| - off, w);
    }
  }

  lemma CopyMatchNext(out: seq<byte>, off: nat, n: nat)
    requires 1 <= off <= |out|
    ensures var q := CopyMatch(out, off, n); CopyMatch(out, off, n + 1) == q + [q[|q| - off]]
  {
  }

  lemma CopyMatchNone(out: seq<byte>, off: nat)
    requires 1 <= off <= |out|
    ensures CopyMatch(out, off, 0) == out
  {
  }

  /** One byte more of a block that starts at `i`. */
  lemma BlockNext(r: seq<byte>, q: seq<byte>, i: nat, w: nat)
    requires 1 <= w && i + w <= |r| && q == r + r[i..i + (w - 1)]
    ensures q[i + (w - 1)] == r[i + (w - 1)]
    ensures q + [r[i + (w - 1)]] == r + r[i..i + w]
  {
    var x := r[i + (w - 1)];
    assert r[i..i + w] == r[i..i + (w - 1)] + [x];
    Assoc(r, r[i..i + (w - 1)], [x]);
  }

  /** If the source repeats itself at distance `off`, the match reproduces it. */
  lemma {:induction false} CopyMatchReproduces(src: seq<byte>, p: nat, off: nat, len: nat)
    requires 1 <= off <= p && p + len <= |src|
    requires src[p..p + len] == src[p - off..p - off + len]
    ensures CopyMatch(src[..p], off, len) == src[..p + len]
  {
    if len == 0 {
    } else {
      ShorterSlices(src, p, p - off, len);
      CopyMatchReproduces(src, p, off, len - 1);
      var r := src[..p + (len - 1)];
      assert src[..p + len] == r + [src[p + (len - 1)]];
      assert r[|r| - off] == src[p - off + (len - 1)];
    }
  }
}
