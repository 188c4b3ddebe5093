/** Bytes, byte strings, and the "store and advance" writes the codecs are made of. */
module Bytes {

  type byte = x: int | 0 <= x < 256

  datatype Option<T> = None | Some(value: T)

  ghost predicate AllSame(s: seq<byte>) {
    forall i, j :: 0 <= i < |s| && 0 <= j < |s| ==> s[i] == s[j]
  }

  /** No `n` bytes in a row occur twice. */
  ghost predicate NoRepeat(s: seq<byte>, n: nat) {
    forall i, j :: 0 <= i < j && j + n <= |s| ==> !SameAt(s, i, j, n)
  }

  predicate SameAt(s: seq<byte>, i: nat, j: nat, n: nat)
    requires i + n <= |s| && j + n <= |s|
  {
    s[i..i + n] == s[j..j + n]
  }

  /** `*op++ = b` */
  method Put(out: array<byte>, op: nat, b: byte) returns (next: nat)
    requires op < out.Length
    modifies out
    ensures next == op + 1
    ensures out[..next] == old(out[..op]) + [b]
  {
    out[op] := b;
    next := op + 1;
  }

  /** One unaligned store of `n` bytes at `op`; the cursor stays where it is. */
  method CopyWord(out: array<byte>, op: nat, src: seq<byte>, ii: nat, n: nat)
    requires op + n <= out.Length && ii + n <= |src|
    modifies out
    ensures out[..op + n] == old(out[..op]) + src[ii..ii + n]
  {
    forall j | 0 <= j < n {
      out[op + j] := src[ii + j];
    }
  }

  /** The same store when the bytes before it are the part of `src` before it, behind `front`. */
  method CopyNextWord(out: array<byte>, op: nat, src: seq<byte>, ii: nat, n: nat,
                      ghost front: seq<byte>, ghost from: nat)
    requires op + n <= out.Length && from <= ii && ii + n <= |src| && out[..op] == front + src[from..ii]
    modifies out
    ensures out[..op + n] == front + src[from..ii + n]
  {
    CopyWord(out, op, src, ii, n);
    JoinSlices(src, from, ii, ii + n);
    Assoc(front, src[from..ii], src[ii..ii + n]);
  }

  /** Copy byte by byte. */
  method WriteBytes(out: array<byte>, op0: nat, src: seq<byte>, ii0: nat, end: nat) returns (op: nat)
    requires ii0 <= end <= |src| && op0 + (end - ii0) <= out.Length
    modifies out
    ensures op == op0 + (end - ii0)
    ensures out[..op] == old(out[..op0]) + src[ii0..end]
  {
    op := op0;
    var ii := ii0;
    while ii < end
      invariant ii0 <= ii <= end && op - op0 == ii - ii0
      invariant out[..op] == old(out[..op0]) + src[ii0..ii]
    {
      op := Put(out, op, src[ii]);
      ii := ii + 1;
    }
  }

  lemma Assoc<T>(a: seq<T>, b: seq<T>, c: seq<T>)
    ensures a + b + c == a + (b + c)
  {
  }

  lemma HeadTail<T>(s: seq<T>)
    requires s != []
    ensures s == [s[0]] + s[1..]
  {
  }

  lemma SplitSeq<T>(s: seq<T>, k: nat)
    requires k <= |s|
    ensures s == s[..k] + s[k..]
  {
  }

  /** What appending does to the two sides of a gap between `a` and `b`. */
  lemma AppendSlices<T>(s: seq<T>, c: seq<T>, lo: nat, a: nat, b: nat)
    requires lo <= a <= b <= |s|
    ensures (s + c)[lo..a] == s[lo..a]
    ensures (s + c)[b..|s| + |c|] == s[b..] + c
  {
  }

  lemma SliceOfPrefix<T>(s: seq<T>, lo: nat, a: nat, hi: nat)
    requires lo <= a <= hi <= |s|
    ensures s[..hi][lo..a] == s[lo..a]
  {
  }

  lemma ShorterSlices<T>(s: seq<T>, x: nat, y: nat, n: nat)
    requires 1 <= n && x + n <= |s| && y + n <= |s| && s[x..x + n] == s[y..y + n]
    ensures s[x..x + (n - 1)] == s[y..y + (n - 1)] && s[x + (n - 1)] == s[y + (n - 1)]
  {
    var a, b := s[x..x + n], s[y..y + n];
    assert a[..n - 1] == s[x..x + (n - 1)] && b[..n - 1] == s[y..y + (n - 1)];
    assert a[n - 1] == s[x + (n - 1)] && b[n - 1] == s[y + (n - 1)];
  }

  lemma JoinSlices<T>(s: seq<T>, lo: nat, mid: nat, hi: nat)
    requires lo <= mid <= hi <= |s|
    ensures s[lo..hi] == s[lo..mid] + s[mid..hi]
  {
  }
}
