/** The byte buffer an output stream grows: what was there before `begin` belongs to somebody else. */
module GrowingBuffer {
  import opened Bytes
  import opened Words

  /** `after` is `before`, longer perhaps, with `s` written at `at`. */
  ghost predicate Wrote(before: seq<byte>, after: seq<byte>, at: nat, s: seq<byte>) {
    && |before| <= |after| && at + |s| <= |after| && after[at..at + |s|] == s
    && forall i :: 0 <= i < |before| && !(at <= i < at + |s|) ==> after[i] == before[i]
  }

  lemma WroteMore(a: seq<byte>, b: seq<byte>, c: seq<byte>, at: nat, x: seq<byte>, y: seq<byte>)
    requires Wrote(a, b, at, x) && Wrote(b, c, at + |x|, y)
    ensures Wrote(a, c, at, x + y)
  {
    assert c[at..at + |x|] == b[at..at + |x|];
    assert c[at..at + |x + y|] == c[at..at + |x|] + c[at + |x|..at + |x| + |y|];
  }

  /** Writing over the first part of what was written. */
  lemma WroteOver(a: seq<byte>, b: seq<byte>, c: seq<byte>, at: nat, x: seq<byte>, y: seq<byte>, z: seq<byte>)
    requires Wrote(a, b, at, x + y) && Wrote(b, c, at, z) && |z| == |x|
    ensures Wrote(a, c, at, z + y)
  {
    assert b[at + |x|..at + |x| + |y|] == b[at..at + |x + y|][|x|..] == y;
    assert c[at + |x|..at + |x| + |y|] == b[at + |x|..at + |x| + |y|];
    assert c[at..at + |z + y|] == c[at..at + |z|] + c[at + |x|..at + |x| + |y|];
  }

  lemma WroteNothing(a: seq<byte>, b: seq<byte>, at: nat)
    requires a <= b && at <= |b|
    ensures Wrote(a, b, at, [])
  {
  }

  lemma WroteGrown(a: seq<byte>, b: seq<byte>, c: seq<byte>, at: nat, s: seq<byte>)
    requires a <= b && Wrote(b, c, at, s)
    ensures Wrote(a, c, at, s)
  {
  }

  /** Nothing before `at` is any different. */
  ghost predicate Kept(before: seq<byte>, after: seq<byte>, at: nat) {
    at <= |before| <= |after| && after[..at] == before[..at]
  }

  lemma WroteKept(a: seq<byte>, b: seq<byte>, c: seq<byte>, at: nat, s: seq<byte>)
    requires Wrote(a, b, at, s) && Kept(b, c, at + |s|) && at <= |a|
    ensures Kept(a, c, at)
  {
    assert c[..at] == c[..at + |s|][..at] == b[..at];
  }

  /** The size a buffer of `length` bytes gets, in 64 bits, when room for `size` more is asked for. */
  function Resized(begin: nat, cur: nat, length: nat, size: nat): nat {
    if (begin + cur + size) % TOP > length then (length + length / 2 + size) % TOP else length
  }

  /** There is room afterwards exactly when there was room before or no sum leaves 64 bits. */
  lemma ResizedExactly(begin: nat, cur: nat, length: nat, size: nat)
    requires begin + cur <= length < TOP / 2 && size < TOP
    ensures begin + cur + size <= Resized(begin, cur, length, size)
       <==> begin + cur + size <= length || length + length / 2 + size < TOP
  {
  }

  /** Asking for all but one byte of the address space makes a buffer of 1024 bytes only half as long again. */
  lemma ResizedWraps()
    ensures Resized(0, 0, 1024, TOP - 1) == 1535
  {
  }

  /** Moving the tail and then copying `s` into the gap. */
  lemma InsertSlices(b: seq<byte>, d: seq<byte>, begin: nat, from: nat, s: seq<byte>, c: nat)
    requires begin <= from && from + |s| + c <= |b|
    requires
      var to := from + |s|;
      var moved := if c > 0 then b[..to] + b[from..from + c] + b[to + c..] else b;
      d == moved[..from] + s + moved[to..]
    ensures |d| == |b| && d[..begin] == b[..begin]
    ensures
      var text := b[begin..from + c];
      d[begin..from + |s| + c] == text[..from - begin] + s + text[from - begin..]
  {
    var to := from + |s|;
    var moved := if c > 0 then b[..to] + b[from..from + c] + b[to + c..] else b;
    assert |moved| == |b| && moved[..from] == b[..from] && moved[to..to + c] == b[from..from + c];
    assert d[..from] == moved[..from] && d[from..to] == s && d[to..to + c] == moved[to..to + c];
    SliceOfPrefix(d, 0, begin, from);
    SliceOfPrefix(b, 0, begin, from);
    SliceOfPrefix(d, begin, from, from);
    SliceOfPrefix(b, begin, from, from);
    var text := b[begin..from + c];
    assert text[..from - begin] == b[begin..from] && text[from - begin..] == b[from..from + c];
    JoinSlices(d, begin, from, to);
    JoinSlices(d, begin, to, to + c);
  }

  class GrowingBuffer {
    var buf: seq<byte>
    var begin: nat
    var cur: nat

    ghost predicate Valid()
      reads this
    {
      begin + cur <= |buf|
    }

    /** What the stream has written. */
    ghost function Text(): seq<byte>
      requires Valid()
      reads this
    {
      buf[begin..begin + cur]
    }

    constructor Reference(buf: seq<byte>)
      ensures Valid() && this.buf == buf && begin == |buf| && cur == 0
    {
      this.buf, begin, cur := buf, |buf|, 0;
    }

    constructor Reserve(size: nat)
      ensures Valid() && |buf| == size && begin == cur == 0
    {
      buf, begin, cur := seq(size, _ => 0), 0, 0;
    }

    /** The sizes are those of `ResizedExactly` as long as they stay below 2^64. */
    method Ensure(size: nat)
      requires Valid()
      modifies this`buf
      ensures Valid() && old(buf) <= buf && begin + cur + size <= |buf|
      ensures begin + cur + size <= old(|buf|) ==> buf == old(buf)
      ensures begin + cur + size < TOP && old(|buf| + |buf| / 2) + size < TOP ==>
        |buf| == Resized(begin, cur, old(|buf|), size)
    {
      if begin + cur + size > |buf| {
        var more: nat := |buf| / 2 + size;
        buf := buf + seq(more, _ => 0);
      }
    }

    method Seek(pos: nat)
      requires Valid()
      modifies this`buf, this`cur
      ensures Valid() && old(buf) <= buf && cur == pos
      ensures begin + pos <= old(|buf|) ==> buf == old(buf)
    {
      if pos > cur {
        Ensure(pos - cur);
      }
      cur := pos;
    }

    method AppendByte(b: byte)
      requires Valid() && begin + cur + 1 <= |buf|
      modifies this`buf, this`cur
      ensures Valid() && cur == old(cur) + 1 && |buf| == old(|buf|)
      ensures Wrote(old(buf), buf, begin + old(cur), [b])
    {
      buf := buf[begin + cur := b];
      cur := cur + 1;
    }

    method Append(s: seq<byte>)
      requires Valid() && s != [] && begin + cur + |s| <= |buf|
      modifies this`buf, this`cur
      ensures Valid() && cur == old(cur) + |s| && |buf| == old(|buf|)
      ensures Wrote(old(buf), buf, begin + old(cur), s)
    {
      var at := begin + cur;
      buf := buf[..at] + s + buf[at + |s|..];
      cur := cur + |s|;
    }

    /** What is after `off` makes room. */
    method Insert(off: nat, s: seq<byte>)
      requires Valid() && off <= cur && s != [] && begin + cur + |s| <= |buf|
      modifies this`buf, this`cur
      ensures Valid() && cur == old(cur) + |s| && |buf| == old(|buf|)
      ensures Text() == old(Text())[..off] + s + old(Text())[off..]
      ensures buf[..begin] == old(buf)[..begin]
    {
      var c := cur - off;
      var from, to := begin + off, begin + off + |s|;
      if c > 0 {
        buf := buf[..to] + buf[from..from + c] + buf[to + c..];
      }
      buf := buf[..from] + s + buf[to..];
      cur := cur + |s|;
      InsertSlices(old(buf), buf, begin, from, s, c);
    }

    /** The buffer is cut to what was written; from now on all of it is the owner's. */
    method ExportData()
      requires Valid()
      modifies this
      ensures Valid() && buf == old(buf[..begin + cur]) && begin == cur == 0
    {
      buf := buf[..begin + cur];
      begin, cur := 0, 0;
    }
  }
}
