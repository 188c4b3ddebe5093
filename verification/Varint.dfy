/** Base 128 varints and ZigZag (the 'Base 128 Varints' and ZigZag forms of the Protocol Buffers encoding). */
module Varint {
  import opened Bytes
  import opened Words

  // ----- groups of seven bits

  /** Seven bits a byte, lowest first; the top bit says that more follow. */
  function VarBytes(n: nat): (s: seq<byte>)
    ensures s != []
  {
    if n < 128 then [n] else [n % 128 + 128] + VarBytes(n / 128)
  }

  function Pow128(k: nat): (r: nat)
    ensures r >= 1
  {
    if k == 0 then 1 else 128 * Pow128(k - 1)
  }

  /** No number takes more groups than it needs. */
  lemma {:induction false} VarMinimal(n: nat, k: nat)
    requires k >= 1
    ensures |VarBytes(n)| <= k <==> n < Pow128(k)
  {
    if n >= 128 && k >= 2 {
      VarMinimal(n / 128, k - 1);
      LessMultiple(n, Pow128(k - 1));
    } else if k >= 2 {
      assert Pow128(k - 1) >= 1;
    }
  }

  /** The i-th byte holds the i-th group of seven bits from below, and its top bit is set exactly if it is not
      the last. */
  lemma {:induction false} VarGroup(n: nat, i: nat)
    requires i < |VarBytes(n)|
    ensures VarBytes(n)[i] % 128 == n / Pow128(i) % 128
    ensures VarBytes(n)[i] >= 128 <==> i + 1 < |VarBytes(n)|
  {
    if i > 0 {
      VarGroup(n / 128, i - 1);
      DivDiv(n, 128, Pow128(i - 1));
    }
  }

  lemma LessMultiple(n: nat, m: nat)
    ensures n / 128 < m <==> n < 128 * m
  {
  }

  /** What the groups from `at` on say, and where they end; None if they run into `limit`. */
  function Groups(data: seq<byte>, at: nat, limit: nat): (r: Option<(nat, nat)>)
    requires limit <= |data|
    ensures r.Some? ==> at < r.value.1 <= limit
    decreases limit - at
  {
    if at >= limit then None
    else if data[at] < 128 then Some((data[at], at + 1))
    else
      match Groups(data, at + 1, limit)
      case None => None
      case Some((m, next)) => Some((data[at] - 128 + 128 * m, next))
  }

  /** What `readVarint` gets for a type of `w` bytes. The overload for one byte reads two groups at most and
      keeps the top bit of the first; the others drop what is too high for the type. */
  function ParseVar(w: nat, data: seq<byte>, at: nat, limit: nat): (r: Option<(nat, nat)>)
    requires limit <= |data|
    ensures r.Some? ==> at < r.value.1 <= limit
    ensures r.Some? && w >= 1 ==> r.value.0 < Pow256(w)
  {
    assert w >= 1 ==> Pow256(w) == 256 * Pow256(w - 1);
    if at >= limit then None
    else if data[at] < 128 then Some((data[at], at + 1))
    else if w == 1 then if at + 1 < limit then Some((data[at], at + 2)) else None
    else
      match Groups(data, at, limit)
      case None => None
      case Some((n, next)) => Some((n % Pow256(w), next))
  }

  lemma {:induction false} GroupsOfBytes(n: nat, data: seq<byte>, at: nat, limit: nat)
    requires at + |VarBytes(n)| <= limit <= |data| && data[at..at + |VarBytes(n)|] == VarBytes(n)
    ensures Groups(data, at, limit) == Some((n, at + |VarBytes(n)|))
    decreases n
  {
    var s := VarBytes(n);
    assert data[at] == s[0];
    if n >= 128 {
      assert data[at + 1..at + |s|] == s[1..];
      GroupsOfBytes(n / 128, data, at + 1, limit);
    }
  }

  /** Reading what was written gives the number back and takes exactly the bytes written. */
  lemma VarRoundTrip(w: nat, n: nat, data: seq<byte>, at: nat, limit: nat)
    requires w >= 1 && n < Pow256(w)
    requires at + |VarBytes(n)| <= limit <= |data| && data[at..at + |VarBytes(n)|] == VarBytes(n)
    ensures ParseVar(w, data, at, limit) == Some((n, at + |VarBytes(n)|))
  {
    hide Groups;
    GroupsOfBytes(n, data, at, limit);
    assert data[at] == VarBytes(n)[0];
    if w == 1 {
      assert Pow256(1) == 256 * Pow256(0);
      assert n >= 128 ==> VarBytes(n / 128) == [1];
    } else {
      DivMod(n, Pow256(w), 0, n);
    }
  }

  /** A cut-off number is not read. */
  lemma {:induction false} GroupsCut(n: nat, data: seq<byte>, at: nat, limit: nat)
    requires limit <= |data| && at <= limit < at + |VarBytes(n)|
    requires data[at..limit] == VarBytes(n)[..limit - at]
    ensures Groups(data, at, limit) == None
    decreases n
  {
    var s := VarBytes(n);
    if at < limit {
      assert data[at] == s[0];
      assert n >= 128;
      assert data[at + 1..limit] == data[at..limit][1..] == s[1..][..limit - (at + 1)];
      GroupsCut(n / 128, data, at + 1, limit);
    }
  }

  // ----- zigzag

  /** A word of `w` bytes read with a sign. */
  function Signed(n: nat, w: nat): int
    requires n < Pow256(w)
  {
    if n < Pow256(w) / 2 then n else n - Pow256(w)
  }

  /** The word of `w` bytes that holds `v`. */
  function Word(v: int, w: nat): (n: nat)
    ensures n < Pow256(w)
  {
    v % Pow256(w)
  }

  /** `(v << 1) ^ (v >> (kMaxBits - 1))` */
  function ToUnsigned(v: int, w: nat): (n: nat)
    requires w >= 1 && InRange(v, w)
    ensures n < Pow256(w)
  {
    var ones := if v < 0 then Pow256(w) - 1 else 0;
    Widths(w);
    XorBound(Word(2 * v, w), ones, 8 * w);
    Xor(Word(2 * v, w), ones)
  }

  /** `(v >> 1) ^ (-(v & 1))`, stored in a signed word. */
  function FromUnsigned(n: nat, w: nat): int
    requires w >= 1 && n < Pow256(w)
  {
    var ones := if n % 2 == 1 then Pow256(w) - 1 else 0;
    Widths(w);
    XorBound(n / 2, ones, 8 * w);
    Signed(Xor(n / 2, ones), w)
  }

  predicate InRange(v: int, w: nat)
    requires w >= 1
  {
    0 - Pow256(w) / 2 <= v < Pow256(w) / 2
  }

  lemma Widths(w: nat)
    ensures Pow2(8 * w) == Pow256(w)
    ensures w >= 1 ==> Pow256(w) % 2 == 0
  {
    SameWord(w);
    if w >= 1 {
      EvenWord(w);
    }
  }

  lemma {:induction false} SameWord(w: nat)
    ensures Pow2(8 * w) == Pow256(w)
  {
    if w > 0 {
      hide Pow2;
      var k := 8 * w - 8;
      SameWord(w - 1);
      Pow2Four(k);
      Pow2Four(k + 4);
    }
  }

  lemma EvenWord(w: nat)
    requires w >= 1
    ensures Pow256(w) % 2 == 0
  {
    var h := 128 * Pow256(w - 1);
    assert Pow256(w) == 2 * h;
  }

  lemma {:induction false} XorOnes(a: nat, k: nat)
    requires a < Pow2(k)
    ensures Xor(a, Pow2(k) - 1) == Pow2(k) - 1 - a
  {
    if k > 0 {
      hide Xor;
      var ones, half := Pow2(k) - 1, Pow2(k - 1) - 1;
      XorOnes(a / 2, k - 1);
      XorUnfold(a, ones);
      OnesStep(a, half, Xor(a, ones));
    } else {
      XorZero(a, 0);
    }
  }

  lemma OnesStep(a: nat, half: nat, x: nat)
    requires a <= 2 * half + 1 && x % 2 == (a + (2 * half + 1)) % 2 && x / 2 == half - a / 2
    ensures x == 2 * half + 1 - a
  {
    var q, r := a / 2, a % 2;
    assert a == 2 * q + r;
    assert x == 2 * (half - q) + x % 2;
    assert x % 2 == 1 - r;
  }

  /** What the bit operations amount to: 0, -1, 1, -2, ... become 0, 1, 2, 3, ... */
  lemma ZigZag(v: int, w: nat)
    requires w >= 1 && InRange(v, w)
    ensures ToUnsigned(v, w) == if v >= 0 then 2 * v else -2 * v - 1
  {
    hide Xor, Pow256, Pow2;
    var m: nat := Pow256(w);
    Widths(w);
    if v >= 0 {
      DivMod(2 * v, m, 0, 2 * v);
      XorNone(2 * v);
    } else {
      Around(2 * v, m);
      XorOnes(m + 2 * v, 8 * w);
    }
  }

  lemma Around(v: int, m: nat)
    requires m > 0 && 0 <= v + m < m
    ensures v % m == v + m
  {
    var q := v / m;
    assert v == m * q + v % m;
    MultipleSize(m, q + 1);
    assert m * (q + 1) == m * q + m;
  }

  lemma ZigZagBack(n: nat, w: nat)
    requires w >= 1 && n < Pow256(w)
    ensures FromUnsigned(n, w) == if n % 2 == 0 then n / 2 else -(n / 2) - 1
  {
    hide Xor;
    Widths(w);
    if n % 2 == 0 {
      XorNone(n / 2);
    } else {
      XorOnes(n / 2, 8 * w);
    }
  }

  /** Every signed number has one word and every word one signed number. */
  lemma ZigZagRoundTrip(v: int, n: nat, w: nat)
    requires w >= 1 && InRange(v, w) && n < Pow256(w)
    ensures FromUnsigned(ToUnsigned(v, w), w) == v
    ensures InRange(FromUnsigned(n, w), w) && ToUnsigned(FromUnsigned(n, w), w) == n
  {
    hide ToUnsigned, FromUnsigned;
    Widths(w);
    ZigZag(v, w);
    ZigZagBack(ToUnsigned(v, w), w);
    ZigZagBack(n, w);
    ZigZag(FromUnsigned(n, w), w);
  }
}
