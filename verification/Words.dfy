/** Little-endian words on a byte string, and the XOR / count-trailing-zeros comparison of two
    words. */
module Words {
  import opened Bytes

  /** The number of 64-bit words. */
  const TOP: nat := 0x1_0000_0000_0000_0000

  type u32 = x: nat | x < 0x1_0000_0000

  type u64 = x: nat | x < 0x1_0000_0000_0000_0000

  /** The value of a little-endian word. */
  function Get(s: seq<byte>): nat {
    if s == [] then 0 else s[0] + 256 * Get(s[1..])
  }

  /** `n` bytes of a number, lowest first. */
  function Little(f: nat, n: nat): (r: seq<byte>)
    ensures |r| == n
  {
    if n == 0 then [] else [f % 256] + Little(f / 256, n - 1)
  }

  function Pow256(n: nat): (r: nat)
    ensures r >= 1
  {
    if n == 0 then 1 else 256 * Pow256(n - 1)
  }

  /** Exclusive or, bit by bit. */
  function Xor(a: nat, b: nat): nat {
    if a == 0 && b == 0 then 0 else (a + b) % 2 + 2 * Xor(a / 2, b / 2)
  }

  /** The number of zero bits below the lowest one bit. */
  function Ctz(v: nat): nat
    requires v > 0
  {
    if v % 2 == 1 then 0 else 1 + Ctz(v / 2)
  }

  function Pow2(n: nat): (r: nat)
    ensures r >= 1
  {
    if n == 0 then 1 else 2 * Pow2(n - 1)
  }

  lemma {:induction false} Pow2Split(m: nat, n: nat)
    ensures Pow2(m + n) == Pow2(m) * Pow2(n)
  {
    if n > 0 {
      Pow2Split(m, n - 1);
      Twofold(Pow2(m), Pow2(n - 1));
    }
  }

  lemma Twofold(a: nat, b: nat)
    ensures a * (2 * b) == 2 * (a * b)
  {
  }

  lemma Pow2Four(k: nat)
    ensures Pow2(k + 4) == 16 * Pow2(k)
  {
    assert Pow2(k + 2) == 4 * Pow2(k);
  }

  lemma SameHalves(a: nat, b: nat)
    requires a / 2 == b / 2 && a % 2 == b % 2
    ensures a == b
  {
  }

  lemma {:induction false} XorBound(a: nat, b: nat, k: nat)
    requires a < Pow2(k) && b < Pow2(k)
    ensures Xor(a, b) < Pow2(k)
  {
    if k > 0 && (a > 0 || b > 0) {
      XorBound(a / 2, b / 2, k - 1);
    }
  }

  /** One bit at a time. */
  lemma XorUnfold(a: nat, b: nat)
    ensures Xor(a, b) % 2 == (a + b) % 2 && Xor(a, b) / 2 == Xor(a / 2, b / 2)
  {
    if a > 0 || b > 0 {
      DivMod(Xor(a, b), 2, Xor(a / 2, b / 2), (a + b) % 2);
    }
  }

  lemma {:induction false} XorZero(a: nat, b: nat)
    ensures Xor(a, b) == 0 <==> a == b
  {
    if a != 0 || b != 0 {
      XorZero(a / 2, b / 2);
    }
  }

  lemma {:induction false} XorZeroLeft(b: nat)
    ensures Xor(0, b) == b
  {
    if b > 0 {
      XorZeroLeft(b / 2);
    }
  }

  lemma {:induction false} XorNone(a: nat)
    ensures Xor(a, 0) == a
  {
    if a > 0 {
      XorNone(a / 2);
    }
  }

  lemma {:induction false} GetInjective(x: seq<byte>, y: seq<byte>)
    requires |x| == |y|
    ensures Get(x) == Get(y) <==> x == y
  {
    if x != [] {
      GetInjective(x[1..], y[1..]);
      assert x == [x[0]] + x[1..] && y == [y[0]] + y[1..];
    }
  }

  lemma {:induction false} GetLittle(f: nat, n: nat, bound: nat)
    requires f < bound && bound == Pow256(n)
    ensures Get(Little(f, n)) == f
  {
    if n > 0 {
      GetLittle(f / 256, n - 1, Pow256(n - 1));
      assert Little(f, n)[1..] == Little(f / 256, n - 1);
    }
  }

  /** Equal low bytes fall out of the XOR. */
  lemma XorSkipByte(c: byte, a: nat, b: nat)
    ensures Xor(c + 256 * a, c + 256 * b) == 256 * Xor(a, b)
  {
    hide Xor;
    XorSkipNibble(c / 16, a, b);
    XorSkipNibble(c % 16, c / 16 + 16 * a, c / 16 + 16 * b);
  }

  lemma XorSkipNibble(c: nat, a: nat, b: nat)
    requires c < 16
    ensures Xor(c + 16 * a, c + 16 * b) == 16 * Xor(a, b)
  {
    hide Xor;
    XorSkipPair(c / 4, a, b);
    XorSkipPair(c % 4, c / 4 + 4 * a, c / 4 + 4 * b);
  }

  lemma XorSkipPair(c: nat, a: nat, b: nat)
    requires c < 4
    ensures Xor(c + 4 * a, c + 4 * b) == 4 * Xor(a, b)
  {
    hide Xor;
    XorSkipBit(c / 2, a, b);
    XorSkipBit(c % 2, c / 2 + 2 * a, c / 2 + 2 * b);
  }

  lemma XorSkipBit(c: nat, a: nat, b: nat)
    requires c <= 1
    ensures Xor(c + 2 * a, c + 2 * b) == 2 * Xor(a, b)
  {
    assert (c + 2 * a) / 2 == a && (c + 2 * b) / 2 == b;
    assert (c + 2 * a + (c + 2 * b)) % 2 == 0;
  }

  lemma CtzSkipByte(v: nat)
    requires v > 0
    ensures Ctz(256 * v) == 8 + Ctz(v)
  {
    CtzSkipBit(v);
    CtzSkipBit(2 * v);
    CtzSkipBit(4 * v);
    CtzSkipBit(8 * v);
    CtzSkipBit(16 * v);
    CtzSkipBit(32 * v);
    CtzSkipBit(64 * v);
    CtzSkipBit(128 * v);
  }

  lemma CtzSkipBit(v: nat)
    requires v > 0
    ensures Ctz(2 * v) == 1 + Ctz(v)
  {
  }

  /** Do the lowest `k` bits of `a` and `b` differ? */
  predicate LowBitsDiffer(a: nat, b: nat, k: nat) {
    k > 0 && (a % 2 != b % 2 || LowBitsDiffer(a / 2, b / 2, k - 1))
  }

  lemma {:induction false} CtzBelow(a: nat, b: nat, k: nat)
    requires LowBitsDiffer(a, b, k)
    ensures Xor(a, b) > 0 && Ctz(Xor(a, b)) < k
  {
    hide Xor, Ctz;
    XorUnfold(a, b);
    var x, half := Xor(a, b), Xor(a / 2, b / 2);
    if a % 2 == b % 2 {
      CtzBelow(a / 2, b / 2, k - 1);
      SameParity(a, b);
      SameHalves(x, 2 * half);
      CtzSkipBit(half);
    } else {
      OtherParity(a, b);
      CtzOdd(x);
    }
  }

  lemma SameParity(a: nat, b: nat)
    requires a % 2 == b % 2
    ensures (a + b) % 2 == 0
  {
  }

  lemma OtherParity(a: nat, b: nat)
    requires a % 2 != b % 2
    ensures (a + b) % 2 == 1
  {
  }

  lemma CtzOdd(x: nat)
    requires x % 2 == 1
    ensures x > 0 && Ctz(x) == 0
  {
  }

  /** The number the lowest `k` bits make. */
  function LowBits(a: nat, k: nat): nat {
    if k == 0 then 0 else a % 2 + 2 * LowBits(a / 2, k - 1)
  }

  lemma {:induction false} LowBitsEqual(a: nat, b: nat, k: nat)
    requires !LowBitsDiffer(a, b, k)
    ensures LowBits(a, k) == LowBits(b, k)
  {
    if k > 0 {
      LowBitsEqual(a / 2, b / 2, k - 1);
    }
  }

  lemma LowByte(c: byte, a: nat)
    ensures LowBits(c + 256 * a, 8) == c
  {
    LowNibble(c % 16, c / 16 + 16 * a, 4);
    LowNibble(c / 16, a, 0);
  }

  lemma LowNibble(c: nat, a: nat, k: nat)
    requires c < 16
    ensures LowBits(c + 16 * a, k + 4) == c + 16 * LowBits(a, k)
  {
    LowPair(c % 4, c / 4 + 4 * a, k + 2);
    LowPair(c / 4, a, k);
  }

  lemma LowPair(c: nat, a: nat, k: nat)
    requires c < 4
    ensures LowBits(c + 4 * a, k + 2) == c + 4 * LowBits(a, k)
  {
    assert (c + 4 * a) / 2 == c / 2 + 2 * a && (c + 4 * a) % 2 == c % 2;
    assert (c / 2 + 2 * a) / 2 == a && (c / 2 + 2 * a) % 2 == c / 2;
    assert LowBits(c + 4 * a, k + 2) == c % 2 + 2 * LowBits(c / 2 + 2 * a, k + 1);
  }

  lemma BytesDiffer(c: byte, d: byte, a: nat, b: nat)
    requires c != d
    ensures var x := Xor(c + 256 * a, d + 256 * b); x > 0 && Ctz(x) < 8
  {
    LowByte(c, a);
    LowByte(d, b);
    if !LowBitsDiffer(c + 256 * a, d + 256 * b, 8) {
      LowBitsEqual(c + 256 * a, d + 256 * b, 8);
    }
    CtzBelow(c + 256 * a, d + 256 * b, 8);
  }

  lemma BytesAgree(c: byte, a: nat, b: nat)
    requires Xor(c + 256 * a, c + 256 * b) > 0
    ensures Xor(a, b) > 0 && Ctz(Xor(c + 256 * a, c + 256 * b)) == 8 + Ctz(Xor(a, b))
  {
    XorSkipByte(c, a, b);
    CtzSkipByte(Xor(a, b));
  }

  /** The two strings differ at `j` for the first time. */
  ghost predicate Differ(x: seq<byte>, y: seq<byte>, j: nat)
    requires |x| == |y|
  {
    j < |x| && x[..j] == y[..j] && x[j] != y[j]
  }

  /** How many leading bytes are equal. */
  ghost function Lead(x: seq<byte>, y: seq<byte>): nat
    requires |x| == |y|
  {
    if x == [] || x[0] != y[0] then 0 else 1 + Lead(x[1..], y[1..])
  }

  lemma {:induction false} LeadDiffers(x: seq<byte>, y: seq<byte>)
    requires |x| == |y| && x != y
    ensures Differ(x, y, Lead(x, y))
  {
    if x[0] == y[0] {
      assert x == [x[0]] + x[1..] && y == [y[0]] + y[1..];
      LeadDiffers(x[1..], y[1..]);
      var j := Lead(x[1..], y[1..]);
      assert x[..j + 1] == [x[0]] + x[1..][..j];
      assert y[..j + 1] == [y[0]] + y[1..][..j];
    }
  }

  lemma {:induction false} CtzLead(x: seq<byte>, y: seq<byte>, v: nat)
    requires |x| == |y| && v == Xor(Get(x), Get(y)) && v > 0
    ensures Ctz(v) / 8 == Lead(x, y)
  {
    var a, b := Get(x[1..]), Get(y[1..]);
    if x[0] == y[0] {
      BytesAgree(x[0], a, b);
      CtzLead(x[1..], y[1..], Xor(a, b));
    } else {
      BytesDiffer(x[0], y[0], a, b);
    }
  }

  /** On a little-endian machine the trailing zeros of the XOR count the leading equal bytes. */
  lemma FirstDifference(x: seq<byte>, y: seq<byte>)
    requires |x| == |y| && Xor(Get(x), Get(y)) > 0
    ensures Differ(x, y, Ctz(Xor(Get(x), Get(y))) / 8)
  {
    XorZero(Get(x), Get(y));
    LeadDiffers(x, y);
    CtzLead(x, y, Xor(Get(x), Get(y)));
  }

  lemma SmallCtz(v: nat)
    requires v > 0 && Ctz(v) < 8
    ensures v % 256 != 0
  {
    if v % 256 == 0 {
      CtzSkipByte(v / 256);
    }
  }

  /** The XOR over the first byte: shifted out if equal, visible in the low byte if not. */
  lemma XorFirstByte(x: seq<byte>, y: seq<byte>, v: nat, rest: nat)
    requires |x| == |y| && x != []
    requires v == Xor(Get(x), Get(y)) && rest == Xor(Get(x[1..]), Get(y[1..]))
    ensures if x[0] == y[0] then v == 256 * rest else v % 256 != 0
  {
    hide Xor, Ctz;
    if x[0] == y[0] {
      XorSkipByte(x[0], Get(x[1..]), Get(y[1..]));
    } else {
      BytesDiffer(x[0], y[0], Get(x[1..]), Get(y[1..]));
      SmallCtz(v);
    }
  }

  /** The lowest `n` bytes of the XOR of two words say whether their first `n` bytes agree. */
  lemma {:induction false} XorLowBytes(x: seq<byte>, y: seq<byte>, n: nat)
    requires |x| == |y| && n <= |x|
    ensures Xor(Get(x), Get(y)) % Pow256(n) == 0 <==> x[..n] == y[..n]
  {
    if n > 0 {
      hide Xor, Get;
      var v, rest := Xor(Get(x), Get(y)), Xor(Get(x[1..]), Get(y[1..]));
      XorFirstByte(x, y, v, rest);
      XorLowBytes(x[1..], y[1..], n - 1);
      assert x[..n] == [x[0]] + x[1..][..n - 1] && y[..n] == [y[0]] + y[1..][..n - 1];
      if x[0] == y[0] {
        ScaleMod(rest, Pow256(n - 1));
      } else if v % Pow256(n) == 0 {
        DivideMod(v, Pow256(n - 1));
      }
    }
  }

  lemma ScaleMod(a: nat, m: nat)
    requires m >= 1
    ensures 256 * a % (256 * m) == 0 <==> a % m == 0
  {
    var q, r := a / m, a % m;
    assert a == m * q + r;
    assert 256 * a == (256 * m) * q + 256 * r;
    DivMod(256 * a, 256 * m, q, 256 * r);
  }

  lemma DivideMod(a: nat, m: nat)
    requires m >= 1 && a % (256 * m) == 0
    ensures a % 256 == 0
  {
    var q := a / (256 * m);
    assert a == 256 * m * q;
    assert 256 * m * q == 256 * (m * q);
  }

  /** Division is determined by its result. */
  lemma DivMod(a: nat, m: nat, q: nat, r: nat)
    requires a == m * q + r && r < m
    ensures a / m == q && a % m == r
  {
    var d := q - a / m;
    assert m * d == a % m - r by {
      assert a == m * (a / m) + a % m;
      assert m * d == m * q - m * (a / m);
    }
    MultipleSize(m, d);
  }

  /** Dividing twice. */
  lemma DivDiv(n: nat, a: nat, b: nat)
    requires a >= 1 && b >= 1
    ensures a * b >= 1 && n / (a * b) == n / a / b
  {
    var q, r, x := n / a / b, n / a % b, n % a;
    assert n / a == b * q + r;
    Regrouped(n, a, b, q, r, x);
    RestBelow(a, b, r, x);
    DivMod(n, a * b, q, a * r + x);
  }

  lemma Regrouped(n: nat, a: nat, b: nat, q: nat, r: nat, x: nat)
    requires n == a * (b * q + r) + x
    ensures n == a * b * q + (a * r + x) && a * r >= 0
  {
    assert a * (b * q + r) == a * (b * q) + a * r;
    assert a * (b * q) == a * b * q;
  }

  lemma RestBelow(a: nat, b: nat, r: nat, x: nat)
    requires r < b && x < a
    ensures a * r + x < a * b
  {
    assert a * b == a * r + a * (b - r);
    MultipleSize(a, b - r);
  }

  lemma MultipleSize(m: nat, d: int)
    ensures d >= 1 ==> m * d >= m
    ensures d <= -1 ==> m * d <= 0 - m
  {
    if d >= 1 {
      assert m * d == m * (d - 1) + m;
    } else if d <= -1 {
      assert m * d == m * (d + 1) - m;
    }
  }
}
