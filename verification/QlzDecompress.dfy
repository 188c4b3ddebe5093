/** qlz_decompress, level 3 without streaming. */
module QlzDecompress {
  import opened Bytes
  import opened Words
  import opened Lz77
  import opened QlzFormat

  // ----- what the decompressor knows

  /** `bytes` give the items `xs`, with `m` slots left in control word `w`; playing them after `out`
      completes `text`. */
  ghost predicate Ready(bytes: seq<byte>, m: nat, w: nat, xs: seq<Item>, out: seq<byte>, text: seq<byte>) {
    && Reads(bytes, m, w, xs) && Pow2(m) <= w < 2 * Pow2(m)
    && Plays(out, xs, text) && Placed(xs, |out|, |text|, |text|)
  }

  /** A used-up control word is one; the next four bytes are the new one. */
  lemma WordStep(bytes: seq<byte>, m: nat, w: nat, xs: seq<Item>, out: seq<byte>, text: seq<byte>)
    requires Ready(bytes, m, w, xs, out, text) && xs != []
    ensures w == 1 <==> m == 0
    ensures m == 0 ==> 4 <= |bytes| && Ready(bytes[4..], GROUP, Get(bytes[..4]), xs, out, text)
  {
    Pow2Top();
  }

  lemma LiteralStep(bytes: seq<byte>, m: nat, w: nat, xs: seq<Item>, out: seq<byte>, text: seq<byte>)
    requires Ready(bytes, m, w, xs, out, text) && |out| < |text| && m > 0 && w % 2 == 0
    ensures xs != [] && xs[0].Lit? && bytes != [] && bytes[0] == xs[0].b
    ensures Ready(bytes[1..], m - 1, w / 2, xs[1..], out + [bytes[0]], text)
  {
    assert Code(xs[0]) == [xs[0].b];
    assert Code(xs[0])[0] == bytes[0];
  }

  lemma MatchStep(bytes: seq<byte>, m: nat, w: nat, xs: seq<Item>, out: seq<byte>, text: seq<byte>)
    requires Ready(bytes, m, w, xs, out, text) && |out| < |text| && m > 0 && w % 2 == 1
    ensures xs != [] && xs[0].Match? && Fits(out, xs[0]) && Code(xs[0]) <= bytes
    ensures |out| + 11 <= |text| && |out| + xs[0].len + 4 <= |text|
    ensures Ready(bytes[|Code(xs[0])|..], m - 1, w / 2, xs[1..], CopyMatch(out, xs[0].off, xs[0].len), text)
  {
    assert xs != [] && w % 2 == Bit(xs[0]);
    MatchPlays(xs, out, text);
    assert Reads(bytes[|Code(xs[0])|..], m - 1, w / 2, xs[1..]);
  }

  lemma MatchPlays(xs: seq<Item>, out: seq<byte>, text: seq<byte>)
    requires xs != [] && xs[0].Match?
    requires Plays(out, xs, text) && Placed(xs, |out|, |text|, |text|)
    ensures Fits(out, xs[0]) && |out| + 11 <= |text| && |out| + xs[0].len + 4 <= |text|
    ensures var r := CopyMatch(out, xs[0].off, xs[0].len);
            Plays(r, xs[1..], text) && Placed(xs[1..], |r|, |text|, |text|)
  {
    assert |CopyMatch(out, xs[0].off, xs[0].len)| == |out| + TextLen(xs[0]);
  }

  /** In the last bytes there are only literals. */
  lemma LateLiteral(bytes: seq<byte>, m: nat, w: nat, xs: seq<Item>, out: seq<byte>, text: seq<byte>)
    requires Ready(bytes, m, w, xs, out, text) && m > 0 && |out| < |text| < |out| + 11
    ensures xs != [] && w % 2 == 0
  {
  }

  lemma Finished(bytes: seq<byte>, m: nat, w: nat, xs: seq<Item>, out: seq<byte>, text: seq<byte>)
    requires Ready(bytes, m, w, xs, out, text) && |out| == |text|
    ensures out == text
  {
  }

  lemma {:induction false} EnoughBytes(bytes: seq<byte>, m: nat, w: nat, xs: seq<Item>)
    requires Reads(bytes, m, w, xs)
    ensures |bytes| >= |xs|
    decreases |xs|, if m == 0 then 1 else 0
  {
    if xs != [] {
      if m == 0 {
        EnoughBytes(bytes[4..], GROUP, Get(bytes[..4]), xs);
      } else {
        EnoughBytes(bytes[|Code(xs[0])|..], m - 1, w / 2, xs[1..]);
      }
    }
  }

  // ----- codes

  lemma {:induction false} GetAppend(a: seq<byte>, b: seq<byte>)
    ensures Get(a + b) == Get(a) + Pow256(|a|) * Get(b)
  {
    if a == [] {
      assert a + b == b;
    } else {
      GetAppend(a[1..], b);
      assert (a + b)[1..] == a[1..] + b;
      assert 256 * (Pow256(|a| - 1) * Get(b)) == Pow256(|a|) * Get(b);
    }
  }

  /** Masking a fetched word to the length of a code gives the number the code is. */
  lemma FetchIs(bytes: seq<byte>, f: nat, n: nat)
    requires 4 <= |bytes| && n <= 4 && f < Pow256(n) && Little(f, n) <= bytes
    ensures Get(bytes[..4]) % Pow256(n) == f
  {
    GetLittle(f, n, Pow256(n));
    var b := bytes[n..4];
    assert bytes[..4] == Little(f, n) + b;
    GetAppend(Little(f, n), b);
    DivMod(Get(bytes[..4]), Pow256(n), Get(b), f);
  }

  /** The five ways to read a fetched word. */
  function DecodeMatch(fetch: nat): (r: (nat, nat, nat))
  {
    if fetch % 4 == 0 then (fetch % 0x100 / 4, 3, 1)
    else if fetch / 2 % 2 == 0 then (fetch % 0x1_0000 / 4, 3, 2)
    else if fetch % 2 == 0 then (fetch % 0x1_0000 / 64, fetch / 4 % 16 + 3, 2)
    else if fetch % 128 != 3 then (fetch / 128 % 0x2_0000, fetch / 4 % 32 + 2, 3)
    else (fetch / 32768, fetch / 128 % 256 + 3, 4)
  }

  /** No code can be mistaken for another: what is decoded is what was encoded, and its length. */
  lemma DecodeEncode(bytes: seq<byte>, off: nat, len: nat)
    requires MIN_OFFSET <= off <= MAX_OFFSET && 3 <= len <= MAX_LEN
    requires 4 <= |bytes| && Code(Match(off, len)) <= bytes
    ensures DecodeMatch(Get(bytes[..4])) == (off, len, |Code(Match(off, len))|)
  {
    if len == 3 && off <= 16383 {
      DecodeShort(bytes, off);
    } else if len <= 18 && off <= 1023 {
      DecodeMiddle(bytes, off, len);
    } else {
      DecodeLong(bytes, off, len);
    }
  }

  lemma DecodeMiddle(bytes: seq<byte>, off: nat, len: nat)
    requires MIN_OFFSET <= off <= 1023 && 4 <= len <= 18
    requires 4 <= |bytes| && Code(Match(off, len)) <= bytes
    ensures DecodeMatch(Get(bytes[..4])) == (off, len, |Code(Match(off, len))|)
  {
    Powers256();
    FetchIs(bytes, (len - 3) * 4 + off * 64 + 2, 2);
    Decode3(Get(bytes[..4]), off, len);
  }

  lemma DecodeLong(bytes: seq<byte>, off: nat, len: nat)
    requires MIN_OFFSET <= off <= MAX_OFFSET && 3 <= len <= MAX_LEN
    requires !(len == 3 && off <= 16383) && !(len <= 18 && off <= 1023)
    requires 4 <= |bytes| && Code(Match(off, len)) <= bytes
    ensures DecodeMatch(Get(bytes[..4])) == (off, len, |Code(Match(off, len))|)
  {
    hide Get, Little, DecodeMatch, Pow256;
    Powers256();
    if len <= 33 {
      FetchIs(bytes, (len - 2) * 4 + off * 128 + 3, 3);
      Decode4(Get(bytes[..4]), off, len);
    } else {
      FetchIs(bytes, (len - 3) * 128 + off * 32768 + 3, 4);
      GetBound(bytes[..4]);
      Decode5(Get(bytes[..4]), off, len);
    }
  }

  lemma DecodeShort(bytes: seq<byte>, off: nat)
    requires MIN_OFFSET <= off <= 16383
    requires 4 <= |bytes| && Code(Match(off, 3)) <= bytes
    ensures DecodeMatch(Get(bytes[..4])) == (off, 3, |Code(Match(off, 3))|)
  {
    Powers256();
    if off <= 63 {
      FetchIs(bytes, off * 4, 1);
      Decode1(Get(bytes[..4]), off);
    } else {
      FetchIs(bytes, off * 4 + 1, 2);
      Decode2(Get(bytes[..4]), off);
    }
  }

  lemma Powers256()
    ensures Pow256(1) == 0x100 && Pow256(2) == 0x1_0000 && Pow256(3) == 0x100_0000 && Pow256(4) == 0x1_0000_0000
  {
    assert Pow256(1) == 256 * Pow256(0);
    assert Pow256(2) == 256 * Pow256(1);
    assert Pow256(3) == 256 * Pow256(2);
  }

  lemma {:induction false} GetBound(w: seq<byte>)
    ensures Get(w) < Pow256(|w|)
  {
    if w != [] {
      GetBound(w[1..]);
    }
  }

  lemma Decode1(fetch: nat, off: nat)
    requires off <= 63 && fetch % 0x100 == off * 4
    ensures DecodeMatch(fetch) == (off, 3, 1)
  {
    DivMod(fetch, 4, 0x40 * (fetch / 0x100) + off, 0);
  }

  lemma Decode2(fetch: nat, off: nat)
    requires off <= 16383 && fetch % 0x1_0000 == off * 4 + 1
    ensures DecodeMatch(fetch) == (off, 3, 2)
  {
    var q := fetch / 0x1_0000;
    DivMod(fetch, 4, 0x4000 * q + off, 1);
    DivMod(fetch / 2, 2, 0x4000 * q + off, 0);
  }

  lemma Decode3(fetch: nat, off: nat, len: nat)
    requires off <= 1023 && 3 <= len <= 18 && fetch % 0x1_0000 == (len - 3) * 4 + off * 64 + 2
    ensures DecodeMatch(fetch) == (off, len, 2)
  {
    var q, a := fetch / 0x1_0000, len - 3;
    var x := 0x4000 * q + 16 * off + a;
    DivMod(fetch, 4, x, 2);
    DivMod(fetch, 2, 2 * x + 1, 0);
    DivMod(fetch / 2, 2, x, 1);
    DivMod(fetch / 4, 16, 0x400 * q + off, a);
    DivMod(fetch % 0x1_0000, 64, off, 4 * a + 2);
  }

  lemma Decode4(fetch: nat, off: nat, len: nat)
    requires off <= MAX_OFFSET && 3 <= len <= 33 && fetch % 0x100_0000 == (len - 2) * 4 + off * 128 + 3
    ensures DecodeMatch(fetch) == (off, len, 3)
  {
    var q, a := fetch / 0x100_0000, len - 2;
    var x := 0x40_0000 * q + 32 * off + a;
    DivMod(fetch, 4, x, 3);
    DivMod(fetch, 2, 2 * x + 1, 1);
    DivMod(fetch / 2, 2, x, 1);
    DivMod(fetch, 128, 0x2_0000 * q + off, 4 * a + 3);
    DivMod(fetch / 128, 0x2_0000, q, off);
    DivMod(fetch / 4, 32, 0x2_0000 * q + off, a);
  }

  lemma Decode5(fetch: nat, off: nat, len: nat)
    requires off <= MAX_OFFSET && 34 <= len <= MAX_LEN && fetch == (len - 3) * 128 + off * 32768 + 3
    ensures DecodeMatch(fetch) == (off, len, 4)
  {
    var a := len - 3;
    var x := 32 * a + 8192 * off;
    DivMod(fetch, 4, x, 3);
    DivMod(fetch, 2, 2 * x + 1, 1);
    DivMod(fetch / 2, 2, x, 1);
    DivMod(fetch, 128, a + 256 * off, 3);
    DivMod(fetch / 128, 256, off, a);
    DivMod(fetch, 32768, off, 128 * a + 3);
  }

  // ----- copying

  /** memcpy_up: words of four bytes, three apart. The fourth byte of a word may still be wrong when it
      is stored, and is stored again by the next; the first `n` bytes are the byte by byte copy. Up to
      three more bytes are overwritten. */
  method MemcpyUp(out: array<byte>, d: nat, p: nat, n: nat)
    requires p + MIN_OFFSET <= d && 1 <= n && d + n + 3 <= out.Length
    modifies out
    ensures out[..d + n] == CopyMatch(old(out[..d]), d - p, n)
  {
    hide CopyMatch;
    ghost var base := out[..d];
    CopyMatchNone(base, d - p);
    var f := 0;
    while f < n
      invariant 0 <= f < n + 3
      invariant out[..d + f] == CopyMatch(base, d - p, f)
    {
      StoreFour(out, d, p, f, base);
      f := f + 3;
    }
    CopyMatchPrefix(base, d - p, n, f);
    SliceOfPrefix(out[..], 0, d + n, d + f);
  }

  method StoreFour(out: array<byte>, d: nat, p: nat, f: nat, ghost base: seq<byte>)
    requires p + MIN_OFFSET <= d == |base| && d + f + 4 <= out.Length
    requires out[..d + f] == CopyMatch(base, d - p, f)
    modifies out
    ensures out[..d + (f + 3)] == CopyMatch(base, d - p, f + 3)
  {
    hide CopyMatch;
    CopyMatchBlock(base, d - p, f, 3);
    ghost var r := out[..d + f];
    var at := p + f;
    assert at == |r| - (d - p);
    var word := out[at..at + 4];
    assert word[..3] == out[at..at + 3];
    SliceOfPrefix(out[..], at, at + 3, d + f);
    CopyWord(out, d + f, word, 0, 4);
    ThreeOfFour(out[..d + f + 4], r, word, at);
    SliceOfPrefix(out[..], 0, d + (f + 3), d + f + 4);
  }

  lemma ThreeOfFour(now: seq<byte>, r: seq<byte>, word: seq<byte>, at: nat)
    requires |word| == 4 && now == r + word[0..4]
    requires at + 3 <= |r| && word[..3] == r[at..at + 3]
    ensures now[..|r| + 3] == r + r[at..at + 3]
  {
  }

  // ----- the core

  /** How many literals the four lowest bits of a control word announce. */
  const BITLUT: seq<nat> := [4, 0, 1, 0, 2, 0, 1, 0, 3, 0, 1, 0, 2, 0, 1, 0]

  lemma Bitlut(w: nat)
    ensures var n := BITLUT[w % 16];
            && n <= 4 && w % Pow2(n) == 0 && (w % 2 == 0 ==> 1 <= n)
            && (n < 4 ==> w / Pow2(n) % 2 == 1)
  {
    LowZeros(w % 16);
    ZerosDivide(w, BITLUT[w % 16]);
  }

  lemma ZerosDivide(w: nat, n: nat)
    requires n <= 4 && (n == 1 ==> w % 16 % 2 == 0) && (n == 2 ==> w % 16 % 4 == 0)
    requires (n == 3 ==> w % 16 % 8 == 0) && (n == 4 ==> w % 16 == 0)
    requires (n == 0 ==> w % 16 % 2 == 1) && (n == 1 ==> w % 16 / 2 % 2 == 1)
    requires (n == 2 ==> w % 16 / 4 % 2 == 1) && (n == 3 ==> w % 16 / 8 % 2 == 1)
    ensures w % Pow2(n) == 0 && (n < 4 ==> w / Pow2(n) % 2 == 1)
  {
    hide Pow2;
    SmallPowers();
    var q, v := w / 16, w % 16;
    match n
    case 0 => PartOf(w, q, v, 1, 16);
    case 1 => PartOf(w, q, v, 2, 8);
    case 2 => PartOf(w, q, v, 4, 4);
    case 3 => PartOf(w, q, v, 8, 2);
    case 4 =>
  }

  /** Four bits of a word are its lowest bits. */
  lemma PartOf(w: nat, q: nat, v: nat, p: nat, h: nat)
    requires w == 16 * q + v && p * h == 16 && h % 2 == 0
    ensures w % p == v % p && w / p % 2 == v / p % 2
  {
    var j := h / 2;
    assert w == p * (2 * (j * q) + v / p) + v % p by {
      assert p * (h * q) == p * h * q;
      assert h * q == 2 * (j * q);
      assert p * (h * q + v / p) == p * (h * q) + p * (v / p);
    }
    DivMod(w, p, 2 * (j * q) + v / p, v % p);
    DivMod(2 * (j * q) + v / p, 2, j * q + v / p / 2, v / p % 2);
  }

  lemma LowZeros(v: nat)
    requires v < 16
    ensures var n := BITLUT[v];
            && n <= 4 && (n == 0 ==> v % 2 == 1) && (n == 1 ==> v % 2 == 0 && v / 2 % 2 == 1)
            && (n == 2 ==> v % 4 == 0 && v / 4 % 2 == 1) && (n == 3 ==> v % 8 == 0 && v / 8 % 2 == 1)
            && (n == 4 ==> v == 0)
  {
  }

  lemma SmallPowers()
    ensures Pow2(0) == 1 && Pow2(1) == 2 && Pow2(2) == 4 && Pow2(3) == 8 && Pow2(4) == 16
  {
    assert Pow2(3) == 2 * Pow2(2);
    assert Pow2(4) == 2 * Pow2(3);
  }

  /** Several zero bits away from the end of the text are as many literals. */
  lemma {:induction false} LiteralRun(bytes: seq<byte>, m: nat, w: nat, xs: seq<Item>, out: seq<byte>, text: seq<byte>,
                                      n: nat)
    requires Ready(bytes, m, w, xs, out, text) && |out| + n <= |text| && w % Pow2(n) == 0
    ensures n <= m && n <= |xs| && n <= |bytes|
    ensures Ready(bytes[n..], m - n, w / Pow2(n), xs[n..], out + bytes[..n], text)
  {
    hide Code, Reads, Plays, Placed;
    if n == 0 {
      assert bytes[0..] == bytes && xs[0..] == xs && out + bytes[..0] == out;
    } else {
      EvenPart(w, Pow2(n - 1));
      LiteralStep(bytes, m, w, xs, out, text);
      LiteralRun(bytes[1..], m - 1, w / 2, xs[1..], out + [bytes[0]], text, n - 1);
      ReadyShift(bytes, m, w, xs, out, text, n);
    }
  }

  lemma ReadyShift(bytes: seq<byte>, m: nat, w: nat, xs: seq<Item>, out: seq<byte>, text: seq<byte>, n: nat)
    requires 1 <= n <= m && n <= |xs| && n <= |bytes| && w / Pow2(n) == w / 2 / Pow2(n - 1)
    requires Ready(bytes[1..][n - 1..], m - 1 - (n - 1), w / 2 / Pow2(n - 1), xs[1..][n - 1..],
                   out + [bytes[0]] + bytes[1..][..n - 1], text)
    ensures Ready(bytes[n..], m - n, w / Pow2(n), xs[n..], out + bytes[..n], text)
  {
    hide *;
    DropMore(bytes, n);
    DropMore(xs, n);
    assert out + [bytes[0]] + bytes[1..][..n - 1] == out + bytes[..n];
  }

  lemma DropMore<T>(s: seq<T>, n: nat)
    requires 1 <= n <= |s|
    ensures s[1..][n - 1..] == s[n..]
  {
  }

  lemma EvenPart(w: nat, p: nat)
    requires p >= 1 && w % (2 * p) == 0
    ensures w % 2 == 0 && w / 2 % p == 0 && w / (2 * p) == w / 2 / p
  {
    var q := w / (2 * p);
    assert w == 2 * p * q;
    assert 2 * p * q == 2 * (p * q);
    DivMod(w, 2, p * q, 0);
    DivMod(w / 2, p, q, 0);
  }

  /** The state between two items. */
  ghost predicate Here(source: seq<byte>, s: nat, m: nat, cword: nat, xs: seq<Item>,
                       out: array<byte>, d: nat, text: seq<byte>)
    reads out
  {
    s <= |source| && d <= |text| <= out.Length && Ready(source[s..], m, cword, xs, out[..d], text)
  }

  /** Fetch a control word when the last one is used up. */
  method LoadWord(source: seq<byte>, s0: nat, cword0: nat, out: array<byte>, d: nat,
                  ghost m0: nat, ghost xs: seq<Item>, ghost text: seq<byte>)
    returns (s: nat, cword: nat, ghost m: nat)
    requires Here(source, s0, m0, cword0, xs, out, d, text) && d < |text|
    ensures Here(source, s, m, cword, xs, out, d, text) && m > 0
    ensures s0 <= s <= s0 + 4
  {
    s, cword, m := s0, cword0, m0;
    assert xs != [];
    WordStep(source[s..], m, cword, xs, out[..d], text);
    if cword == 1 {
      assert source[s..][..4] == source[s..s + 4] && source[s..][4..] == source[s + 4..];
      cword := Get(source[s..s + 4]);
      s := s + 4;
      m := GROUP;
    }
  }

  /** Decode a match and copy. */
  method CopyOut(source: seq<byte>, s0: nat, out: array<byte>, d0: nat, ghost x: Item) returns (s: nat, d: nat)
    requires x.Match? && d0 + x.len + 3 <= out.Length && Fits(out[..d0], x)
    requires s0 + 4 <= |source| && Code(x) <= source[s0..]
    modifies out
    ensures s == s0 + |Code(x)| && d == d0 + x.len
    ensures out[..d] == CopyMatch(old(out[..d0]), x.off, x.len)
  {
    var fetch := Get(source[s0..s0 + 4]);
    assert source[s0..][..4] == source[s0..s0 + 4];
    DecodeEncode(source[s0..], x.off, x.len);
    var (offset, matchlen, n) := DecodeMatch(fetch);
    MemcpyUp(out, d0, d0 - offset, matchlen);
    s := s0 + n;
    d := d0 + matchlen;
  }

  /** One match. */
  method DoMatch(source: seq<byte>, s0: nat, cword0: nat, out: array<byte>, d0: nat,
                 ghost m0: nat, ghost xs0: seq<Item>, ghost text: seq<byte>)
    returns (s: nat, cword: nat, d: nat, ghost m: nat, ghost xs: seq<Item>)
    requires Here(source, s0, m0, cword0, xs0, out, d0, text) && d0 < |text| && m0 > 0 && cword0 % 2 == 1
    requires s0 + 4 <= |source|
    modifies out
    ensures Here(source, s, m, cword, xs, out, d, text) && d0 < d && d + 4 <= |text|
  {
    hide Code, Reads, Plays, Placed, CopyMatch;
    MatchStep(source[s0..], m0, cword0, xs0, out[..d0], text);
    m, xs := m0 - 1, xs0[1..];
    cword := cword0 / 2;
    DropDrop(source, s0, |Code(xs0[0])|);
    s, d := CopyOut(source, s0, out, d0, xs0[0]);
  }

  lemma DropDrop<T>(s: seq<T>, a: nat, b: nat)
    requires a + b <= |s|
    ensures s[a..][b..] == s[a + b..]
  {
  }

  /** Up to four literals at once, with a store of four bytes. */
  method DoLiterals(source: seq<byte>, s0: nat, cword0: nat, out: array<byte>, d0: nat,
                    ghost m0: nat, ghost xs0: seq<Item>, ghost text: seq<byte>)
    returns (s: nat, cword: nat, d: nat, ghost m: nat, ghost xs: seq<Item>)
    requires Here(source, s0, m0, cword0, xs0, out, d0, text) && cword0 % 2 == 0
    requires d0 + 11 < |text| && s0 + 4 <= |source|
    modifies out
    ensures Here(source, s, m, cword, xs, out, d, text) && d0 < d <= d0 + 4 && s0 < s
  {
    hide Code, Reads, Plays, Placed;
    var n := BITLUT[cword0 % 16];
    Bitlut(cword0);
    LiteralRun(source[s0..], m0, cword0, xs0, out[..d0], text, n);
    m, xs := m0 - n, xs0[n..];
    ghost var was := out[..d0];
    CopyWord(out, d0, source, s0, 4);
    cword := cword0 / Pow2(n);
    d := d0 + n;
    s := s0 + n;
    assert source[s0..][n..] == source[s..];
    assert out[..d] == out[..d0 + 4][..d] == was + source[s0..][..n];
  }

  /** Step over a control word without reading it. The real one, `w`, only matters for how many slots
      it has left. */
  method SkipWord(source: seq<byte>, s0: nat, cword0: nat, out: array<byte>, d: nat,
                  ghost m0: nat, ghost w0: nat, ghost xs: seq<Item>, ghost text: seq<byte>)
    returns (s: nat, cword: nat, ghost m: nat, ghost w: nat)
    requires Here(source, s0, m0, w0, xs, out, d, text) && d < |text|
    requires Pow2(m0) <= cword0 < 2 * Pow2(m0)
    ensures Here(source, s, m, w, xs, out, d, text) && m > 0
    ensures Pow2(m) <= cword < 2 * Pow2(m)
    ensures m0 > 0 ==> w == w0
    ensures if cword0 == 1 then s == s0 + 4 && cword == TOP_BIT else s == s0 && cword == cword0
  {
    hide Code, Reads, Plays;
    s, cword, m, w := s0, cword0, m0, w0;
    assert xs != [];
    WordStep(source[s..], m, w, xs, out[..d], text);
    if cword == 1 {
      assert source[s..][..4] == source[s..s + 4] && source[s..][4..] == source[s + 4..];
      w := Get(source[s..s + 4]);
      s := s + 4;
      cword := TOP_BIT;
      m := GROUP;
      Pow2Top();
    }
  }

  /** The last bytes: literals only. */
  method DoTail(source: seq<byte>, s0: nat, cword0: nat, out: array<byte>, d0: nat, size: nat,
                ghost m0: nat, ghost xs0: seq<Item>, ghost text: seq<byte>)
    requires Here(source, s0, m0, cword0, xs0, out, d0, text) && cword0 % 2 == 0 && m0 > 0
    requires size == |text| && d0 < size <= d0 + 11
    modifies out
    ensures |text| <= out.Length && out[..|text|] == text
  {
    hide Code, Reads, Plays, Placed;
    var s: nat, cword: nat, d: nat := s0, cword0, d0;
    ghost var m: nat, w: nat, xs := m0, cword0, xs0;
    while d < size
      invariant d0 <= d && Here(source, s, m, w, xs, out, d, text)
      invariant Pow2(m) <= cword < 2 * Pow2(m)
      invariant d == d0 ==> m > 0 && w % 2 == 0
    {
      s, cword, m, w := SkipWord(source, s, cword, out, d, m, w, xs, text);
      if d > d0 {
        LateLiteral(source[s..], m, w, xs, out[..d], text);
      }
      LiteralStep(source[s..], m, w, xs, out[..d], text);
      assert source[s..][1..] == source[s + 1..];
      d := Put(out, d, source[s]);
      s := s + 1;
      cword := cword / 2;
      m, w, xs := m - 1, w / 2, xs[1..];
    }
    Finished(source[s..], m, w, xs, out[..d], text);
  }

  /** There is always a word to fetch: the last four bytes of the text have items of their own, and a
      body is never shorter than nine bytes. */
  lemma CanFetch(source: seq<byte>, s: nat, m: nat, cword: nat, xs: seq<Item>, out: array<byte>, d: nat,
                 text: seq<byte>)
    requires Here(source, s, m, cword, xs, out, d, text)
    requires d + 4 <= |text| || s + 5 <= |source|
    ensures s + 4 <= |source|
  {
    if d + 4 <= |text| {
      PlacedCount(xs, d, |text|);
      EnoughBytes(source[s..], m, cword, xs);
    }
  }

  /** qlz_decompress_core on the body behind the header. */
  method Core(source: seq<byte>, s0: nat, out: array<byte>, size: nat, ghost xs0: seq<Item>, ghost text: seq<byte>)
    requires s0 + 9 <= |source| && Encodes(source[s0..], xs0, text)
    requires 1 <= size == |text| <= out.Length
    modifies out
    ensures |text| <= out.Length && out[..|text|] == text
  {
    var s: nat, d: nat, cword: nat := s0, 0, 1;
    ghost var m: nat, xs := 0, xs0;
    assert out[..0] == [];
    while true
      invariant Here(source, s, m, cword, xs, out, d, text)
      invariant d + 4 <= |text| || (d == 0 && s == s0)
      decreases |text| - d
    {
      s, cword, m := LoadWord(source, s, cword, out, d, m, xs, text);
      CanFetch(source, s, m, cword, xs, out, d, text);
      if cword % 2 == 1 {
        s, cword, d, m, xs := DoMatch(source, s, cword, out, d, m, xs, text);
      } else if d + 11 < size {
        s, cword, d, m, xs := DoLiterals(source, s, cword, out, d, m, xs, text);
      } else {
        DoTail(source, s, cword, out, d, size, m, xs, text);
        return;
      }
    }
  }

  /** qlz_decompress: the size from the header, and the text. */
  method Decompress(source: seq<byte>, out: array<byte>, ghost xs: seq<Item>, ghost text: seq<byte>)
    returns (dsiz: nat)
    requires Packet(source, xs, text) && |text| <= out.Length
    modifies out
    ensures dsiz == |text| <= out.Length && out[..dsiz] == text
  {
    dsiz := SizeDecompressed(source);
    var s := SizeHeader(source);
    if source[0] % 2 == 1 {
      Core(source, s, out, dsiz, xs, text);
    } else {
      forall i | 0 <= i < dsiz {
        out[i] := source[s + i];
      }
      assert source[s..] == text;
      forall i | 0 <= i < dsiz
        ensures out[i] == text[i]
      {
        assert text[i] == source[s..][i];
      }
    }
  }
}
