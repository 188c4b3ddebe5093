/** lzo1x_decompress: the decoder as a machine of labels, run on the streams the compressor writes. */
module LzoDecompress {
  import opened Bytes
  import opened Words
  import opened Lz77
  import opened LzoFormat

  datatype Status = Ok | InputNotConsumed | InputOverrun

  datatype Label = Top | FirstLiteralRun | Match | MatchDone | MatchNext | EofFound

  // ----- the stream, read from the front

  ghost function LitsAt(ts: seq<Token>, tail: seq<byte>, k: nat): seq<byte>
    requires k <= |ts|
  {
    if k < |ts| then ts[k].lits else tail
  }

  /** What is left of the stream when the literals of token `k` come next. */
  ghost function Rest(ts: seq<Token>, tail: seq<byte>, k: nat): seq<byte>
    requires Coded(ts) && k <= |ts|
    decreases |ts| - k, 1
  {
    Run(LitsAt(ts, tail, k)) + CodeRest(ts, tail, k)
  }

  /** What is left when the code of match `k`, or the end marker, comes next. */
  ghost function CodeRest(ts: seq<Token>, tail: seq<byte>, k: nat): seq<byte>
    requires Coded(ts) && k <= |ts|
    decreases |ts| - k, 0
  {
    if k == |ts| then END_MARKER
    else Code(ts[k].off, ts[k].len, State(|LitsAt(ts, tail, k + 1)|)) + Rest(ts, tail, k + 1)
  }

  ghost predicate Coded(ts: seq<Token>) {
    forall i :: 0 <= i < |ts| ==> 1 <= ts[i].off <= M4_MAX_OFFSET && 4 <= ts[i].len
  }

  lemma {:induction false} ValidIsCoded(ts: seq<Token>)
    requires Valid(ts)
    ensures Coded(ts)
  {
    if ts != [] {
      ValidIsCoded(ts[..|ts| - 1]);
    }
  }

  /** Reading from the front and writing at the back meet at every token. */
  lemma {:induction false} SplitAt(ts: seq<Token>, tail: seq<byte>, k: nat)
    requires Valid(ts) && Coded(ts) && k <= |ts|
    ensures Valid(ts[..k])
    ensures Encode(ts[..k], State(|LitsAt(ts, tail, k)|)) + Rest(ts, tail, k)
         == Encode(ts, State(|tail|)) + Run(tail) + END_MARKER
    decreases |ts| - k
  {
    ValidPrefix(ts, k);
    if k == |ts| {
      assert ts[..k] == ts;
    } else {
      SplitAt(ts, tail, k + 1);
      SplitStep(ts, tail, k);
    }
  }

  lemma SplitStep(ts: seq<Token>, tail: seq<byte>, k: nat)
    requires Valid(ts) && Coded(ts) && k < |ts| && Valid(ts[..k]) && Valid(ts[..k + 1])
    ensures Encode(ts[..k], State(|ts[k].lits|)) + Rest(ts, tail, k)
         == Encode(ts[..k + 1], State(|LitsAt(ts, tail, k + 1)|)) + Rest(ts, tail, k + 1)
  {
    var t, s := ts[k], State(|LitsAt(ts, tail, k + 1)|);
    assert ts[..k + 1][..k] == ts[..k];
    Regroup(Encode(ts[..k], State(|t.lits|)), Run(t.lits), Code(t.off, t.len, s), Rest(ts, tail, k + 1));
  }

  lemma Regroup(a: seq<byte>, b: seq<byte>, c: seq<byte>, d: seq<byte>)
    ensures a + (b + (c + d)) == a + b + c + d
  {
  }

  /** How the stream starts, with and without its special first run. */
  lemma StreamStart(ts: seq<Token>, tail: seq<byte>)
    requires Valid(ts)
    ensures Coded(ts)
    ensures if ts == [] && 1 <= |tail| <= 238 then Stream(ts, tail) == [17 + |tail|] + (tail + CodeRest(ts, tail, 0))
            else Stream(ts, tail) == Rest(ts, tail, 0)
  {
    ValidIsCoded(ts);
    SplitAt(ts, tail, 0);
    assert ts[..0] == [];
    if ts == [] && 1 <= |tail| <= 238 {
      assert [17 + |tail|] + tail + END_MARKER == [17 + |tail|] + (tail + END_MARKER);
    } else {
      assert [] + Rest(ts, tail, 0) == Rest(ts, tail, 0);
    }
  }

  /** The text after `k` tokens, one step on, and never longer than the whole. */
  lemma {:induction false} TextGrows(ts: seq<Token>, k: nat)
    requires Valid(ts) && k <= |ts|
    ensures Valid(ts[..k]) && |Expand(ts[..k])| <= |Expand(ts)|
    ensures k < |ts| ==> |Expand(ts[..k])| + |ts[k].lits| + ts[k].len <= |Expand(ts)|
    decreases |ts| - k
  {
    ValidPrefix(ts, k);
    if k == |ts| {
      assert ts[..k] == ts;
    } else {
      TextStep(ts, k);
      TextGrows(ts, k + 1);
    }
  }

  lemma TextStep(ts: seq<Token>, k: nat)
    requires Valid(ts) && k < |ts|
    ensures Valid(ts[..k]) && Valid(ts[..k + 1])
    ensures 1 <= ts[k].off <= |Expand(ts[..k])| + |ts[k].lits|
    ensures Expand(ts[..k + 1]) == CopyMatch(Expand(ts[..k]) + ts[k].lits, ts[k].off, ts[k].len)
  {
    ValidPrefix(ts, k);
    ValidPrefix(ts, k + 1);
    assert ts[..k + 1][..k] == ts[..k];
  }

  // ----- copying

  /** A literal run, by words of eight and four bytes and then single bytes. Nothing is written past
      the run. */
  method CopyLiterals(input: seq<byte>, ip: nat, n: nat, out: array<byte>, op: nat)
    requires ip + n <= |input| && op + n <= out.Length
    modifies out
    ensures out[..op + n] == old(out[..op]) + input[ip..ip + n]
  {
    ghost var front := out[..op];
    var p, i, end := op, ip, ip + n;
    while end - i >= 8
      invariant ip <= i <= end && p - op == i - ip
      invariant out[..p] == front + input[ip..i]
    {
      CopyNextWord(out, p, input, i, 8, front, ip);
      p := p + 8;
      i := i + 8;
    }
    if end - i >= 4 {
      CopyNextWord(out, p, input, i, 4, front, ip);
      p := p + 4;
      i := i + 4;
    }
    p := WriteBytes(out, p, input, i, end);
    JoinSlices(input, ip, i, end);
    Assoc(front, input[ip..i], input[i..end]);
  }

  /** One unaligned word inside the output: read, then stored. */
  method MoveWord(out: array<byte>, op: nat, mPos: nat, w: nat, ghost base: seq<byte>, ghost k: nat)
    requires 1 <= op - mPos <= |base| && w <= op - mPos
    requires op == |base| + k && op + w <= out.Length
    requires out[..op] == CopyMatch(base, op - mPos, k)
    modifies out
    ensures out[..op + w] == CopyMatch(base, op - mPos, k + w)
  {
    hide CopyMatch;
    CopyMatchBlock(base, op - mPos, k, w);
    ghost var r := out[..op];
    forall j | 0 <= j < w {
      out[op + j] := out[mPos + j];
    }
    assert out[..op + w] == r + r[mPos..mPos + w];
  }

  /** A match at least eight bytes back is copied by words. */
  method CopyFar(out: array<byte>, op: nat, mPos: nat, n: nat)
    requires mPos + 8 <= op && op + n <= out.Length
    modifies out
    ensures out[..op + n] == CopyMatch(old(out[..op]), op - mPos, n)
  {
    hide CopyMatch;
    ghost var base := out[..op];
    CopyMatchNone(base, op - mPos);
    var k, t := 0, n;
    while t >= 8
      invariant 0 <= k && 0 <= t && k + t == n
      invariant out[..op + k] == CopyMatch(base, op - mPos, k)
    {
      MoveWord(out, op + k, mPos + k, 8, base, k);
      k := k + 8;
      t := t - 8;
    }
    if t >= 4 {
      MoveWord(out, op + k, mPos + k, 4, base, k);
      k := k + 4;
      t := t - 4;
    }
    CopyBytes(out, op, mPos, k, n, base);
  }

  /** The copy_match loop. */
  method CopyBytes(out: array<byte>, op: nat, mPos: nat, k0: nat, n: nat, ghost base: seq<byte>)
    requires mPos < op == |base| && op + n <= out.Length && k0 <= n
    requires out[..op + k0] == CopyMatch(base, op - mPos, k0)
    modifies out
    ensures out[..op + n] == CopyMatch(base, op - mPos, n)
  {
    hide CopyMatch;
    var k := k0;
    while k < n
      invariant k0 <= k <= n
      invariant out[..op + k] == CopyMatch(base, op - mPos, k)
    {
      MoveWord(out, op + k, mPos + k, 1, base, k);
      k := k + 1;
    }
  }

  method CopyBack(out: array<byte>, op: nat, mPos: nat, n: nat)
    requires mPos < op && op + n <= out.Length
    modifies out
    ensures out[..op + n] == CopyMatch(old(out[..op]), op - mPos, n)
  {
    if op - mPos >= 8 {
      CopyFar(out, op, mPos, n);
    } else {
      CopyMatchNone(out[..op], op - mPos);
      CopyBytes(out, op, mPos, 0, n, out[..op]);
    }
  }

  // ----- reading codes

  /** A count in its extended form. */
  method ReadCount(input: seq<byte>, ip0: nat, base: nat, ghost n: nat, ghost rest: seq<byte>)
    returns (t: nat, ip: nat)
    requires 1 <= n && ip0 <= |input| && input[ip0..] == Ext(n) + rest
    ensures t == base + n
    ensures ip0 < ip <= |input| && input[ip..] == rest
  {
    t, ip := 0, ip0;
    ghost var m := n;
    while input[ip] == 0
      invariant 1 <= m <= n && t == n - m && ip0 <= ip < |input|
      invariant input[ip..] == Ext(m) + rest
      decreases m
    {
      assert input[ip] == Ext(m)[0];
      ip := ip + 1;
      t := t + 255;
      m := m - 255;
    }
    assert input[ip] == Ext(m)[0];
    t := t + base + input[ip];
    ip := ip + 1;
  }

  /** Two bytes, the lower one first. */
  function Pair16(low: nat, high: nat): nat {
    low + 256 * high
  }

  function Get16(input: seq<byte>, ip: nat): nat
    requires ip + 2 <= |input|
  {
    Pair16(input[ip], input[ip + 1])
  }

  /** Fourteen bits of a distance, stored with the spare bits below them. */
  lemma OffsetBytes(m: nat, s: nat)
    requires s <= 3
    ensures (m % 64 * 4 + s + 256 * (m / 64 % 256)) / 4 == m % 0x4000
  {
    assert m % 64 + 64 * (m / 64 % 256) == m % 0x4000;
  }

  lemma NearOffset(off: nat, s: nat, o0: nat, o1: nat)
    requires 1 <= off <= M3_MAX_OFFSET && s <= 3 && o0 == (off - 1) % 64 * 4 + s && o1 == (off - 1) / 64
    ensures Pair16(o0, o1) / 4 == off - 1 && o0 % 4 == s
  {
    DivMod(o1, 256, 0, o1);
    OffsetBytes(off - 1, s);
    DivMod(off - 1, 0x4000, 0, off - 1);
  }

  lemma FarOffset(m: nat, s: nat, o0: nat, o1: nat)
    requires m < 0x8000 && s <= 3 && o0 == m % 64 * 4 + s && o1 == m / 64 % 256
    ensures Pair16(o0, o1) / 4 + m / 0x4000 * 0x4000 == m && o0 % 4 == s
  {
    OffsetBytes(m, s);
  }

  /** What a match code says: how many bytes from where, where the input goes on, and how many
      literals follow. */
  ghost predicate Decoded(input: seq<byte>, op: nat, len: nat, mPos: int, ip: nat,
                          off: nat, wanted: nat, s: nat, rest: seq<byte>)
  {
    && len == wanted && mPos == op - off
    && 2 <= ip <= |input| && input[ip..] == rest && input[ip - 2] % 4 == s
  }

  /** Codes of 64 and above: two bytes. */
  method DecodeM2(input: seq<byte>, ip0: nat, t0: byte, op: nat, ghost off: nat, ghost wanted: nat, ghost s: nat,
                  ghost rest: seq<byte>)
    returns (len: nat, mPos: int, ip: nat)
    requires 1 <= off <= M2_MAX_OFFSET && 4 <= wanted <= M2_MAX_LEN && s <= 3
    requires 1 <= ip0 <= |input| && t0 == input[ip0 - 1]
    requires input[ip0 - 1..] == Code(off, wanted, s) + rest
    ensures Decoded(input, op, len, mPos, ip, off, wanted, s, rest)
  {
    ghost var o := off - 1;
    TakeTwo(input, ip0, (wanted - 1) * 32 + o % 8 * 4 + s, o / 8, rest);
    DivMod(t0, 32, wanted - 1, o % 8 * 4 + s);
    DivMod(t0, 4, (wanted - 1) * 8 + o % 8, s);
    DivMod(t0 / 4, 8, wanted - 1, o % 8);
    var high: int := input[ip0];
    mPos := op - 1 - t0 / 4 % 8 - high * 8;
    ip := ip0 + 1;
    len := t0 / 32 - 1 + 2;
  }

  lemma TakeTwo(input: seq<byte>, ip0: nat, a: byte, b: byte, rest: seq<byte>)
    requires 1 <= ip0 <= |input| && input[ip0 - 1..] == [a, b] + rest
    ensures ip0 < |input| && input[ip0 - 1] == a && input[ip0] == b && input[ip0 + 1..] == rest
  {
    var t := input[ip0 - 1..];
    assert t[0] == a && t[1] == b && t[2..] == rest;
  }

  /** The length of a long code: in the marker byte, or extended. */
  method DecodeLength(input: seq<byte>, ip0: nat, t0: nat, ghost max: nat, base: nat, ghost wanted: nat,
                      ghost rest: seq<byte>)
    returns (len: nat, ip: nat)
    requires 3 <= wanted && base + 2 == max && ip0 <= |input|
    requires if wanted <= max then t0 == wanted - 2 && input[ip0..] == rest
             else t0 == 0 && input[ip0..] == Ext(wanted - max) + rest
    ensures len == wanted && ip0 <= ip <= |input| && input[ip..] == rest
  {
    var t := t0;
    ip := ip0;
    if t == 0 {
      t, ip := ReadCount(input, ip, base, wanted - max, rest);
    }
    len := t + 2;
  }

  /** What the long codes have in common: the length `bits` of the first byte or what extends them, and two
      bytes with a distance. */
  method DecodeWide(input: seq<byte>, ip0: nat, bits: nat, ghost marker: nat, ghost max: nat, base: nat,
                    ghost wanted: nat, ghost o0: byte, ghost o1: byte, ghost rest: seq<byte>)
    returns (len: nat, dist: nat, ip: nat)
    requires 3 <= wanted && base + 2 == max && max <= M3_MAX_LEN && marker <= M3_MARKER
    requires bits == if wanted <= max then wanted - 2 else 0
    requires 1 <= ip0 <= |input| && input[ip0 - 1..] == Length(marker, max, wanted) + [o0, o1] + rest
    ensures len == wanted && dist == Pair16(o0, o1) / 4
    ensures 2 <= ip <= |input| && input[ip..] == rest && input[ip - 2] == o0
  {
    hide Length, Ext;
    ghost var l, o: seq<byte> := Length(marker, max, wanted), [o0, o1];
    LengthFront(marker, max, wanted);
    LongCode(input, ip0, l, o, rest);
    assert [] + (o + rest) == o + rest;
    len, ip := DecodeLength(input, ip0, bits, max, base, wanted, o + rest);
    TakeTwo(input, ip + 1, o0, o1, rest);
    dist := Get16(input, ip) / 4;
    ip := ip + 2;
  }

  /** Codes from 32 to 63. */
  method DecodeM3(input: seq<byte>, ip0: nat, t0: byte, op: nat, ghost off: nat, ghost wanted: nat, ghost s: nat,
                  ghost rest: seq<byte>)
    returns (len: nat, mPos: int, ip: nat)
    requires 1 <= off <= M3_MAX_OFFSET && 4 <= wanted && s <= 3
    requires wanted > M2_MAX_LEN || off > M2_MAX_OFFSET
    requires 1 <= ip0 <= |input| && t0 == input[ip0 - 1]
    requires input[ip0 - 1..] == Code(off, wanted, s) + rest
    ensures Decoded(input, op, len, mPos, ip, off, wanted, s, rest)
  {
    hide Length, Code, Pair16;
    ghost var o0: byte, o1: byte := (off - 1) % 64 * 4 + s, (off - 1) / 64;
    CodeM3(off, wanted, s);
    LengthFront(M3_MARKER, M3_MAX_LEN, wanted);
    LongCode(input, ip0, Length(M3_MARKER, M3_MAX_LEN, wanted), [o0, o1], rest);
    NearOffset(off, s, o0, o1);
    var dist;
    len, dist, ip := DecodeWide(input, ip0, t0 % 32, M3_MARKER, M3_MAX_LEN, 31, wanted, o0, o1, rest);
    mPos := op - 1 - dist;
  }

  lemma CodeM3(off: nat, wanted: nat, s: nat)
    requires 1 <= off <= M3_MAX_OFFSET && 4 <= wanted && s <= 3
    requires wanted > M2_MAX_LEN || off > M2_MAX_OFFSET
    ensures Code(off, wanted, s) == Length(M3_MARKER, M3_MAX_LEN, wanted) + [(off - 1) % 64 * 4 + s, (off - 1) / 64]
  {
  }

  /** Marker and length: in one byte, or with the rest of the length behind it. */
  lemma LengthFront(marker: nat, max: nat, wanted: nat)
    requires 3 <= wanted && max <= M3_MAX_LEN && marker <= M3_MARKER
    ensures
      var l := Length(marker, max, wanted);
      && l != [] && l[0] == marker + (if wanted <= max then wanted - 2 else 0)
      && l[1..] == if wanted <= max then [] else Ext(wanted - max)
  {
  }

  /** The first byte of a long code, and what comes after it. */
  lemma LongCode(input: seq<byte>, ip0: nat, l: seq<byte>, o: seq<byte>, rest: seq<byte>)
    requires 1 <= ip0 <= |input| && l != []
    requires input[ip0 - 1..] == l + o + rest
    ensures input[ip0 - 1] == l[0] && input[ip0..] == l[1..] + (o + rest)
  {
    assert input[ip0..] == input[ip0 - 1..][1..];
    assert input[ip0 - 1] == input[ip0 - 1..][0];
  }

  lemma MarkerBits(h: nat, x: nat, t: nat)
    requires h <= 1 && x < 8 && t == 16 + h * 8 + x
    ensures t % 8 == x && t / 8 % 2 == h
  {
  }

  /** Codes from 16 to 31, before 0x4000 is added to the distance `m`. */
  method DecodeM4(input: seq<byte>, ip0: nat, t0: byte, op: nat, ghost m: nat, ghost wanted: nat, ghost s: nat,
                  ghost rest: seq<byte>)
    returns (len: nat, mPos: int, ip: nat)
    requires m < 0x8000 && 3 <= wanted && s <= 3
    requires 1 <= ip0 <= |input| && t0 == input[ip0 - 1]
    requires input[ip0 - 1..] == Length(M4_MARKER + m / 0x4000 * 8, M4_MAX_LEN, wanted)
                               + [m % 64 * 4 + s, m / 64 % 256] + rest
    ensures Decoded(input, op, len, mPos, ip, m, wanted, s, rest)
  {
    hide Length, Pair16;
    ghost var marker := M4_MARKER + m / 0x4000 * 8;
    ghost var o0: byte, o1: byte := m % 64 * 4 + s, m / 64 % 256;
    LengthFront(marker, M4_MAX_LEN, wanted);
    LongCode(input, ip0, Length(marker, M4_MAX_LEN, wanted), [o0, o1], rest);
    MarkerBits(m / 0x4000, if wanted <= M4_MAX_LEN then wanted - 2 else 0, t0);
    FarOffset(m, s, o0, o1);
    mPos := op - t0 / 8 % 2 * 0x4000;
    var dist;
    len, dist, ip := DecodeWide(input, ip0, t0 % 8, marker, M4_MAX_LEN, 7, wanted, o0, o1, rest);
    mPos := mPos - dist;
  }

  // ----- the machine

  /** Text out after `k` whole tokens, with or without the literals of the next one. */
  ghost function Text(ts: seq<Token>, tail: seq<byte>, k: nat, withLits: bool): seq<byte>
    requires k <= |ts| && Valid(ts[..k])
  {
    Expand(ts[..k]) + (if withLits then LitsAt(ts, tail, k) else [])
  }

  ghost predicate Room(ts: seq<Token>, tail: seq<byte>, out: array<byte>) {
    Valid(ts) && Coded(ts) && |Expand(ts)| + |tail| <= out.Length
  }

  /** What every label may rely on. */
  ghost predicate At(pc: Label, t: nat, input: seq<byte>, ip: nat, out: array<byte>, op: nat,
                     ts: seq<Token>, tail: seq<byte>, k: nat)
    reads out
  {
    && Coded(ts) && k <= |ts| && Valid(ts[..k]) && ip <= |input| && op <= out.Length
    && out[..op] == Text(ts, tail, k, pc == FirstLiteralRun || pc == Match || pc == EofFound)
    && var n := |LitsAt(ts, tail, k)|;
       match pc
       case Top => input[ip..] == Rest(ts, tail, k) && State(n) == 0
       case MatchNext => input[ip..] == Rest(ts, tail, k) && State(n) == n == t > 0
       case MatchDone => input[ip..] == Rest(ts, tail, k) && 2 <= ip && input[ip - 2] % 4 == State(n)
       case FirstLiteralRun => input[ip..] == CodeRest(ts, tail, k)
       case Match => 1 <= ip && input[ip - 1..] == CodeRest(ts, tail, k) && t == input[ip - 1]
       case EofFound => k == |ts| && ip == |input| && t == 1
  }

  lemma TextRoom(ts: seq<Token>, tail: seq<byte>, out: array<byte>, k: nat)
    requires Room(ts, tail, out) && k <= |ts|
    ensures Valid(ts[..k])
    ensures |Expand(ts[..k])| + |LitsAt(ts, tail, k)| + (if k < |ts| then ts[k].len else 0) <= out.Length
  {
    TextGrows(ts, k);
  }

  /** A code starts with a byte above 15, and so does the end marker. */
  lemma CodeStarts(ts: seq<Token>, tail: seq<byte>, k: nat)
    requires Coded(ts) && k <= |ts|
    ensures |CodeRest(ts, tail, k)| >= 2 && CodeRest(ts, tail, k)[0] >= 16
  {
    if k < |ts| {
      var c := Code(ts[k].off, ts[k].len, State(|LitsAt(ts, tail, k + 1)|));
      assert |c| >= 2 && c[0] >= 16;
      assert CodeRest(ts, tail, k)[0] == c[0];
    }
  }

  lemma TakeLiterals(input: seq<byte>, ip: nat, lits: seq<byte>, rest: seq<byte>)
    requires ip <= |input| && input[ip..] == lits + rest
    ensures ip + |lits| <= |input| && input[ip..ip + |lits|] == lits && input[ip + |lits|..] == rest
  {
    assert input[ip..ip + |lits|] == input[ip..][..|lits|];
    assert input[ip + |lits|..] == input[ip..][|lits|..];
  }

  lemma TakeByte(input: seq<byte>, ip: nat, b: byte, rest: seq<byte>)
    requires ip <= |input| && input[ip..] == [b] + rest
    ensures ip < |input| && input[ip] == b && input[ip + 1..] == rest
  {
    TakeLiterals(input, ip, [b], rest);
  }

  /** The length of a run of four or more literals. */
  method ReadRunLength(t0: byte, input: seq<byte>, ip0: nat, ghost n: nat, ghost rest: seq<byte>)
    returns (t: nat, ip: nat)
    requires 4 <= n && ip0 <= |input|
    requires if n <= 18 then t0 == n - 3 && input[ip0..] == rest
             else t0 == 0 && input[ip0..] == Ext(n - 18) + rest
    ensures t == n && ip0 <= ip <= |input| && input[ip..] == rest
  {
    t := t0;
    ip := ip0;
    if t == 0 {
      t, ip := ReadCount(input, ip, 15, n - 18, rest);
    }
    t := t + 3;
  }

  lemma RunFront(input: seq<byte>, ip: nat, lits: seq<byte>, rest: seq<byte>)
    requires ip <= |input| && input[ip..] == Run(lits) + rest && 4 <= |lits|
    ensures ip < |input| && input[ip] < 16
    ensures if |lits| <= 18 then input[ip] == |lits| - 3 && input[ip + 1..] == lits + rest
            else input[ip] == 0 && input[ip + 1..] == Ext(|lits| - 18) + (lits + rest)
  {
    hide Ext, Run;
    if |lits| <= 18 {
      ShortRun(lits, rest);
      TakeByte(input, ip, |lits| - 3, lits + rest);
    } else {
      LongRun(lits, rest);
      TakeByte(input, ip, 0, Ext(|lits| - 18) + (lits + rest));
    }
  }

  lemma ShortRun(lits: seq<byte>, rest: seq<byte>)
    requires 4 <= |lits| <= 18
    ensures Run(lits) + rest == [|lits| - 3] + (lits + rest)
  {
    Assoc([|lits| - 3], lits, rest);
  }

  lemma LongRun(lits: seq<byte>, rest: seq<byte>)
    requires 18 < |lits|
    ensures Run(lits) + rest == [0] + (Ext(|lits| - 18) + (lits + rest))
  {
    hide Ext;
    var e := Ext(|lits| - 18);
    Assoc([0], e, lits);
    Assoc([0], e + lits, rest);
    Assoc(e, lits, rest);
  }

  /** The bytes of a run of four or more. */
  method TakeRun(input: seq<byte>, ip0: nat, t: nat, out: array<byte>, op0: nat,
                 ghost lits: seq<byte>, ghost rest: seq<byte>)
    returns (ip: nat, op: nat)
    requires ip0 <= |input| && input[ip0..] == lits + rest && t == |lits| >= 4
    requires op0 + t <= out.Length
    modifies out
    ensures op == op0 + t && out[..op] == old(out[..op0]) + lits
    ensures ip == ip0 + t <= |input| && input[ip..] == rest
  {
    TakeLiterals(input, ip0, lits, rest);
    CopyLiterals(input, ip0, t, out, op0);
    op := op0 + t;
    ip := ip0 + t;
  }

  /** The top of the outer loop: a literal run of four or more, or no literals at all. */
  method ReadTop(input: seq<byte>, ip0: nat, out: array<byte>, op0: nat,
                 ghost lits: seq<byte>, ghost rest: seq<byte>)
    returns (next: Label, t: nat, ip: nat, op: nat)
    requires ip0 <= |input| && input[ip0..] == Run(lits) + rest
    requires State(|lits|) == 0 && |rest| >= 1 && rest[0] >= 16
    requires op0 + |lits| <= out.Length
    modifies out
    ensures op == op0 + |lits| && out[..op] == old(out[..op0]) + lits
    ensures ip0 < ip <= |input|
    ensures (next == FirstLiteralRun && input[ip..] == rest)
         || (next == Match && t == input[ip - 1] && input[ip - 1..] == rest)
  {
    hide Ext;
    if |lits| == 0 {
      assert Run(lits) + rest == rest;
      assert input[ip0] == input[ip0..][0];
    } else {
      RunFront(input, ip0, lits, rest);
    }
    t := input[ip0];
    ip := ip0 + 1;
    op := op0;
    if t >= 16 {
      next := Match;
    } else {
      t, ip := ReadRunLength(t, input, ip, |lits|, lits + rest);
      ip, op := TakeRun(input, ip, t, out, op, lits, rest);
      next := FirstLiteralRun;
    }
  }

  /** match_next: one to three literals, then the first byte of a code. */
  method ReadMatchNext(t0: nat, input: seq<byte>, ip0: nat, out: array<byte>, op0: nat,
                       ghost lits: seq<byte>, ghost rest: seq<byte>)
    returns (t: nat, ip: nat, op: nat)
    requires 1 <= t0 == |lits| <= 3 && ip0 <= |input| && input[ip0..] == lits + rest && |rest| >= 1
    requires op0 + t0 <= out.Length
    modifies out
    ensures op == op0 + |lits| && out[..op] == old(out[..op0]) + lits
    ensures ip0 < ip <= |input| && t == input[ip - 1] && input[ip - 1..] == rest
  {
    TakeLiterals(input, ip0, lits, rest);
    op := Put(out, op0, input[ip0]);
    ip := ip0 + 1;
    if t0 > 1 {
      op := Put(out, op, input[ip]);
      ip := ip + 1;
      if t0 > 2 {
        op := Put(out, op, input[ip]);
        ip := ip + 1;
      }
    }
    assert lits == input[ip0..ip];
    t := input[ip];
    ip := ip + 1;
  }

  method DoTop(input: seq<byte>, ip0: nat, out: array<byte>, op0: nat,
               ghost ts: seq<Token>, ghost tail: seq<byte>, ghost k: nat)
    returns (next: Label, t: nat, ip: nat, op: nat)
    requires Room(ts, tail, out) && At(Top, 0, input, ip0, out, op0, ts, tail, k)
    modifies out
    ensures ip0 < ip && next != MatchDone && At(next, t, input, ip, out, op, ts, tail, k)
  {
    CodeStarts(ts, tail, k);
    TextRoom(ts, tail, out, k);
    assert out[..op0] == Expand(ts[..k]);
    next, t, ip, op := ReadTop(input, ip0, out, op0, LitsAt(ts, tail, k), CodeRest(ts, tail, k));
  }

  method DoMatchNext(t0: nat, input: seq<byte>, ip0: nat, out: array<byte>, op0: nat,
                     ghost ts: seq<Token>, ghost tail: seq<byte>, ghost k: nat)
    returns (t: nat, ip: nat, op: nat)
    requires Room(ts, tail, out) && At(MatchNext, t0, input, ip0, out, op0, ts, tail, k)
    modifies out
    ensures ip0 < ip && At(Match, t, input, ip, out, op, ts, tail, k)
  {
    CodeStarts(ts, tail, k);
    TextRoom(ts, tail, out, k);
    assert out[..op0] == Expand(ts[..k]);
    t, ip, op := ReadMatchNext(t0, input, ip0, out, op0, LitsAt(ts, tail, k), CodeRest(ts, tail, k));
  }

  /** The first byte tells the three kinds of code apart, and none of them is the end marker. */
  lemma CodeKind(off: nat, wanted: nat, s: nat)
    requires 1 <= off <= M4_MAX_OFFSET && 4 <= wanted && s <= 3
    ensures var c := Code(off, wanted, s);
            && (c[0] >= 64 <==> wanted <= M2_MAX_LEN && off <= M2_MAX_OFFSET)
            && (c[0] < 32 <==> (wanted > M2_MAX_LEN || off > M2_MAX_OFFSET) && off > M3_MAX_OFFSET)
            && (c[0] < 32 ==>
                var m := off - 0x4000;
                0 < m && c == Length(M4_MARKER + m / 0x4000 * 8, M4_MAX_LEN, wanted) + [m % 64 * 4 + s, m / 64 % 256])
  {
  }

  lemma EndMarkerCode()
    ensures END_MARKER == Length(M4_MARKER + 0 / 0x4000 * 8, M4_MAX_LEN, 3) + [0 % 64 * 4 + 0, 0 / 64 % 256] + []
  {
  }

  /** The code of one match, or the end marker when `off` is zero. */
  ghost predicate CodeAt(bytes: seq<byte>, off: nat, wanted: nat, s: nat, rest: seq<byte>) {
    s <= 3 &&
    if off == 0 then wanted == 3 && s == 0 && rest == [] && bytes == END_MARKER
    else off <= M4_MAX_OFFSET && 4 <= wanted && bytes == Code(off, wanted, s) + rest
  }

  /** The `match` label: decode the code. */
  method ReadCode(t: byte, input: seq<byte>, ip0: nat, op0: nat,
                  ghost off: nat, ghost wanted: nat, ghost s: nat, ghost rest: seq<byte>)
    returns (len: nat, mPos: int, ip: nat, eof: bool)
    requires 1 <= ip0 <= |input| && t == input[ip0 - 1]
    requires CodeAt(input[ip0 - 1..], off, wanted, s, rest)
    ensures eof <==> off == 0
    ensures Decoded(input, op0, len, mPos, ip, off, wanted, s, rest)
  {
    eof := false;
    if off == 0 {
      EndMarkerCode();
    } else {
      CodeKind(off, wanted, s);
    }
    assert t == input[ip0 - 1..][0];
    if t >= 64 {
      len, mPos, ip := DecodeM2(input, ip0, t, op0, off, wanted, s, rest);
    } else if t >= 32 {
      len, mPos, ip := DecodeM3(input, ip0, t, op0, off, wanted, s, rest);
    } else if t >= 16 {
      len, mPos, ip := DecodeM4(input, ip0, t, op0, if off == 0 then 0 else off - 0x4000, wanted, s, rest);
      if mPos == op0 {
        eof := true;
      } else {
        mPos := mPos - 0x4000;
      }
    } else {
      assert false;
    }
  }

  /** The `match` label: decode the code and copy. */
  method ReadMatch(t0: byte, input: seq<byte>, ip0: nat, out: array<byte>, op0: nat,
                   ghost off: nat, ghost wanted: nat, ghost s: nat, ghost rest: seq<byte>)
    returns (t: nat, ip: nat, op: nat, eof: bool)
    requires 1 <= ip0 <= |input| && t0 == input[ip0 - 1]
    requires CodeAt(input[ip0 - 1..], off, wanted, s, rest)
    requires op0 <= out.Length
    requires off > 0 ==> off <= op0 && op0 + wanted <= out.Length
    modifies out
    ensures eof <==> off == 0
    ensures eof ==> t == 1 && ip == |input| && op == op0 && out[..op] == old(out[..op0])
    ensures !eof ==> op == op0 + wanted && out[..op] == CopyMatch(old(out[..op0]), off, wanted)
    ensures !eof ==> 2 <= ip <= |input| && input[ip..] == rest && input[ip - 2] % 4 == s
  {
    hide Code, CopyMatch;
    var len, mPos;
    len, mPos, ip, eof := ReadCode(t0, input, ip0, op0, off, wanted, s, rest);
    op := op0;
    t := len - 2;
    if !eof {
      if t0 >= 64 {
        CopyBytes(out, op, mPos, 0, len, out[..op]);
      } else {
        CopyBack(out, op, mPos, len);
      }
      op := op + len;
    }
  }

  /** The code after the literals of token `k`, and how the text goes on. */
  lemma CodeNext(ts: seq<Token>, tail: seq<byte>, k: nat)
    requires Valid(ts) && Coded(ts) && k <= |ts|
    ensures k == |ts| ==> CodeAt(CodeRest(ts, tail, k), 0, 3, 0, []) && |CodeRest(ts, tail, k)| == 3
    ensures k < |ts| ==>
              && CodeAt(CodeRest(ts, tail, k), ts[k].off, ts[k].len, State(|LitsAt(ts, tail, k + 1)|),
                        Rest(ts, tail, k + 1))
              && |CodeRest(ts, tail, k)| >= 2 + |Rest(ts, tail, k + 1)|
  {
  }

  method DoMatch(t0: nat, input: seq<byte>, ip0: nat, out: array<byte>, op0: nat,
                 ghost ts: seq<Token>, ghost tail: seq<byte>, ghost k: nat)
    returns (next: Label, t: nat, ip: nat, op: nat, ghost k': nat)
    requires Room(ts, tail, out) && At(Match, t0, input, ip0, out, op0, ts, tail, k)
    modifies out
    ensures At(next, t, input, ip, out, op, ts, tail, k')
    ensures ip0 < ip && (next == EofFound || next == MatchDone)
  {
    hide Rest, CodeRest, Expand, CodeAt, CopyMatch;
    CodeNext(ts, tail, k);
    TextRoom(ts, tail, out, k);
    ghost var off, wanted, s, rest := 0, 3, 0, [];
    if k < |ts| {
      TextStep(ts, k);
      off, wanted, s, rest := ts[k].off, ts[k].len, State(|LitsAt(ts, tail, k + 1)|), Rest(ts, tail, k + 1);
    }
    var eof;
    t, ip, op, eof := ReadMatch(t0, input, ip0, out, op0, off, wanted, s, rest);
    k' := if eof then k else k + 1;
    next := if eof then EofFound else MatchDone;
  }

  /** first_literal_run: after a run of its own a code has to follow. */
  method DoFirstLiteralRun(input: seq<byte>, ip0: nat, out: array<byte>, op: nat,
                           ghost ts: seq<Token>, ghost tail: seq<byte>, ghost k: nat)
    returns (t: nat, ip: nat)
    requires At(FirstLiteralRun, 0, input, ip0, out, op, ts, tail, k)
    ensures ip0 < ip && At(Match, t, input, ip, out, op, ts, tail, k)
  {
    CodeStarts(ts, tail, k);
    assert input[ip0] == input[ip0..][0];
    t := input[ip0];
    ip := ip0 + 1;
    if t < 16 {
      assert false;
    }
  }

  /** match_done: the spare bits say whether literals follow at once. */
  method DoMatchDone(input: seq<byte>, ip: nat, out: array<byte>, op: nat,
                     ghost ts: seq<Token>, ghost tail: seq<byte>, ghost k: nat)
    returns (next: Label, t: nat)
    requires At(MatchDone, 0, input, ip, out, op, ts, tail, k)
    ensures (next == Top || next == MatchNext) && At(next, t, input, ip, out, op, ts, tail, k)
  {
    t := input[ip - 2] % 4;
    next := if t == 0 then Top else MatchNext;
  }

  /** A stream that opens with a count above 17 starts in the middle of the machine. */
  method Start(input: seq<byte>, out: array<byte>, ghost ts: seq<Token>, ghost tail: seq<byte>)
    returns (next: Label, t: nat, ip: nat, op: nat)
    requires Valid(ts) && input == Stream(ts, tail) && Room(ts, tail, out)
    modifies out
    ensures At(next, t, input, ip, out, op, ts, tail, 0)
  {
    hide Stream, Run, Code, Encode, Rest, CodeRest;
    StartFits(ts, tail);
    StartByte(input, ts, tail);
    next, t, ip, op := Top, 0, 0, 0;
    if input[0] > 17 {
      t := input[0] - 17;
      ip := 1;
      if t < 4 {
        next := MatchNext;
      } else {
        TakeLiterals(input, 1, tail, CodeRest(ts, tail, 0));
        op := WriteBytes(out, op, input, ip, ip + t);
        ip := ip + t;
        next := FirstLiteralRun;
      }
    }
  }

  lemma StartFits(ts: seq<Token>, tail: seq<byte>)
    requires Valid(ts) && Coded(ts)
    ensures Valid(ts[..0]) && Expand(ts[..0]) == []
    ensures ts == [] ==> LitsAt(ts, tail, 0) == tail
    ensures ts == [] && |tail| <= 3 ==> Rest(ts, tail, 0) == tail + CodeRest(ts, tail, 0)
  {
  }

  lemma StartByte(input: seq<byte>, ts: seq<Token>, tail: seq<byte>)
    requires Valid(ts) && Coded(ts) && input == Stream(ts, tail)
    ensures |input| >= 1
    ensures if ts == [] && 1 <= |tail| <= 238
            then input[0] == 17 + |tail| && input[1..] == tail + CodeRest(ts, tail, 0)
            else input[0] <= 17 && input[0..] == Rest(ts, tail, 0) && State(|LitsAt(ts, tail, 0)|) == 0
  {
    StreamStart(ts, tail);
    FirstRun(ts);
    CodeStarts(ts, tail, 0);
    var lits := LitsAt(ts, tail, 0);
    if ts == [] && 1 <= |tail| <= 238 {
    } else if lits == [] {
      assert input == Run([]) + CodeRest(ts, tail, 0) == END_MARKER;
    } else {
      RunFront(input, 0, lits, CodeRest(ts, tail, 0));
    }
  }

  lemma {:induction false} FirstRun(ts: seq<Token>)
    requires Valid(ts)
    ensures ts != [] ==> 4 <= |ts[0].lits|
  {
    if |ts| > 1 {
      FirstRun(ts[..|ts| - 1]);
    }
  }

  /** The labels that get literals out of the way. */
  method ReadLiterals(pc: Label, t0: nat, input: seq<byte>, ip0: nat, out: array<byte>, op0: nat,
                      ghost ts: seq<Token>, ghost tail: seq<byte>, ghost k: nat)
    returns (next: Label, t: nat, ip: nat, op: nat)
    requires pc == Top || pc == MatchNext || pc == FirstLiteralRun
    requires Room(ts, tail, out) && At(pc, t0, input, ip0, out, op0, ts, tail, k)
    modifies out
    ensures ip0 < ip && next != MatchDone && At(next, t, input, ip, out, op, ts, tail, k)
  {
    if pc == Top {
      next, t, ip, op := DoTop(input, ip0, out, op0, ts, tail, k);
    } else {
      next := Match;
      if pc == MatchNext {
        t, ip, op := DoMatchNext(t0, input, ip0, out, op0, ts, tail, k);
      } else {
        op := op0;
        t, ip := DoFirstLiteralRun(input, ip0, out, op0, ts, tail, k);
      }
    }
  }

  function Fuel(input: seq<byte>, ip: nat, pc: Label): int {
    2 * (|input| - ip) + (if pc == MatchDone then 1 else 0)
  }

  /** One label. The input shrinks, or a finished match moves on to what follows it. */
  method Step(pc: Label, t0: nat, input: seq<byte>, ip0: nat, out: array<byte>, op0: nat,
              ghost ts: seq<Token>, ghost tail: seq<byte>, ghost k0: nat)
    returns (next: Label, t: nat, ip: nat, op: nat, ghost k: nat)
    requires pc != EofFound
    requires Room(ts, tail, out) && At(pc, t0, input, ip0, out, op0, ts, tail, k0)
    modifies out
    ensures At(next, t, input, ip, out, op, ts, tail, k)
    ensures Fuel(input, ip, next) < Fuel(input, ip0, pc)
  {
    if pc == Match {
      next, t, ip, op, k := DoMatch(t0, input, ip0, out, op0, ts, tail, k0);
    } else if pc == MatchDone {
      ip, op, k := ip0, op0, k0;
      next, t := DoMatchDone(input, ip0, out, op0, ts, tail, k0);
    } else {
      k := k0;
      next, t, ip, op := ReadLiterals(pc, t0, input, ip0, out, op0, ts, tail, k0);
    }
  }

  /** lzo1x_decompress on a stream the compressor may write: the whole stream is used up, and what
      comes out is what the stream stands for. */
  method Decompress(input: seq<byte>, out: array<byte>, ghost ts: seq<Token>, ghost tail: seq<byte>)
    returns (status: Status, outLen: nat)
    requires Valid(ts) && input == Stream(ts, tail)
    requires |Expand(ts)| + |tail| <= out.Length
    modifies out
    ensures status == Ok && outLen <= out.Length && out[..outLen] == Expand(ts) + tail
  {
    ValidIsCoded(ts);
    var next, t: nat, ip: nat, op: nat := Start(input, out, ts, tail);
    ghost var k: nat := 0;
    while next != EofFound
      invariant At(next, t, input, ip, out, op, ts, tail, k)
      decreases Fuel(input, ip, next)
    {
      next, t, ip, op, k := Step(next, t, input, ip, out, op, ts, tail, k);
    }
    assert ts[..k] == ts;
    outLen := op;
    status := if ip == |input| then Ok else if ip < |input| then InputNotConsumed else InputOverrun;
  }
}
