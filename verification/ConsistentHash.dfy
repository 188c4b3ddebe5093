/** The consistent hash ring: weighted values, the positions they own, and who a key goes to. */
module ConsistentHash {
  import opened Bytes
  import opened Words

  const WORD: nat := 0x1_0000_0000

  // ----- the hash chain

  lemma Bounds()
    ensures Pow2(16) == 0x1_0000 && Pow2(32) == 0x1_0000_0000
  {
    assert Pow2(4) == 16;
    assert Pow2(8) == 16 * Pow2(4);
    assert Pow2(12) == 16 * Pow2(8);
    assert Pow2(16) == 16 * Pow2(12);
    assert Pow2(20) == 16 * Pow2(16);
    assert Pow2(24) == 16 * Pow2(20);
    assert Pow2(28) == 16 * Pow2(24);
    assert Pow2(32) == 16 * Pow2(28);
  }

  /** `(val >> 16) ^ val` */
  function Mix(v: u32): (r: u32) {
    Bounds();
    XorBound(v / 0x1_0000, v, 32);
    Xor(v / 0x1_0000, v)
  }

  function U32Hash(v: u32): u32 {
    var a: u32 := (Mix(v) * 0x45d9f3b + 1) % WORD;
    var b: u32 := (Mix(a) * 0x45d9f3b + 3) % WORD;
    Mix(b)
  }

  lemma {:induction false} XorTwice(a: nat, b: nat)
    ensures Xor(a, Xor(a, b)) == b
  {
    if a > 0 || b > 0 {
      hide Xor;
      var x := Xor(a, b);
      XorTwice(a / 2, b / 2);
      XorUnfold(a, b);
      XorUnfold(a, x);
      var y := Xor(a, x);
      BackAgain(a, b, x, y);
      SameHalves(y, b);
    }
  }

  lemma BackAgain(a: nat, b: nat, x: nat, y: nat)
    requires x % 2 == (a + b) % 2 && y % 2 == (a + x) % 2
    ensures y % 2 == b % 2
  {
  }

  lemma XorDouble(a: nat, p: nat, l: nat)
    ensures Xor(a, 2 * p + l) == (a + l) % 2 + 2 * Xor(a / 2, p + l / 2)
  {
    hide Xor;
    XorUnfold(a, 2 * p + l);
    assert (2 * p + l) / 2 == p + l / 2;
  }

  /** `h << k` */
  function Shift(h: nat, k: nat): nat {
    if k == 0 then h else 2 * Shift(h, k - 1)
  }

  lemma ShiftSixteen(h: nat)
    ensures Shift(h, 16) == h * 0x1_0000
  {
    ShiftFour(h, 0);
    ShiftFour(h, 4);
    ShiftFour(h, 8);
    ShiftFour(h, 12);
  }

  lemma ShiftFour(h: nat, k: nat)
    ensures Shift(h, k + 4) == 16 * Shift(h, k)
  {
    assert Shift(h, k + 2) == 4 * Shift(h, k);
  }

  /** The high part of the longer operand passes through. */
  lemma {:induction false} XorSplit(a: nat, h: nat, l: nat, k: nat)
    requires a < Pow2(k) && l < Pow2(k)
    ensures Xor(a, Shift(h, k) + l) == Shift(h, k) + Xor(a, l)
  {
    hide Xor;
    if k == 0 {
      XorZeroLeft(h);
      XorZeroLeft(0);
    } else {
      XorSplit(a / 2, h, l / 2, k - 1);
      XorDouble(a, Shift(h, k - 1), l);
      XorDouble(a, 0, l);
    }
  }

  lemma MixInvolution(v: u32)
    ensures Mix(Mix(v)) == v
  {
    hide Xor, Shift;
    Bounds();
    var h, l := v / 0x1_0000, v % 0x1_0000;
    ShiftSixteen(h);
    XorSplit(h, h, l, 16);
    XorBound(h, l, 16);
    var m := Xor(h, l);
    assert Mix(v) == h * 0x1_0000 + m;
    DivMod(Mix(v), 0x1_0000, h, m);
    XorSplit(h, h, m, 16);
    XorTwice(h, l);
  }

  /** Multiplication by the odd constant can be undone. */
  lemma MulInvertible(v: u32, c: nat)
    requires c <= 3
    ensures ((v * 0x45d9f3b + c) % WORD + WORD - c) * 0x119de1f3 % WORD == v
  {
    var q := (v * 0x45d9f3b + c) / WORD;
    var n := (v * 0x45d9f3b + c) % WORD + WORD - c;
    assert n == v * 0x45d9f3b + WORD * (1 - q);
    var d := v * 0x4ce8d8 + (1 - q) * 0x119de1f3;
    UndoProduct(v, q, n * 0x119de1f3, d);
  }

  lemma UndoProduct(v: u32, q: int, n: nat, d: int)
    requires n == (v * 0x45d9f3b + WORD * (1 - q)) * 0x119de1f3
    requires d == v * 0x4ce8d8 + (1 - q) * 0x119de1f3
    ensures n % WORD == v
  {
    assert n == WORD * d + v;
    DivMod(n, WORD, d, v);
  }

  /** u32Hash is a bijection on 32-bit words. */
  lemma HashInjective(x: u32, y: u32)
    ensures U32Hash(x) == U32Hash(y) ==> x == y
  {
    hide Mix;
    var a: u32, a': u32 := (Mix(x) * 0x45d9f3b + 1) % WORD, (Mix(y) * 0x45d9f3b + 1) % WORD;
    var b: u32, b': u32 := (Mix(a) * 0x45d9f3b + 3) % WORD, (Mix(a') * 0x45d9f3b + 3) % WORD;
    MixInvolution(b);
    MixInvolution(b');
    MulInvertible(Mix(a), 3);
    MulInvertible(Mix(a'), 3);
    MixInvolution(a);
    MixInvolution(a');
    MulInvertible(Mix(x), 1);
    MulInvertible(Mix(y), 1);
    MixInvolution(x);
    MixInvolution(y);
  }

  function Unhash(p: u32): u32 {
    var b: u32 := (Mix(p) + WORD - 3) * 0x119de1f3 % WORD;
    var a: u32 := (Mix(b) + WORD - 1) * 0x119de1f3 % WORD;
    Mix(a)
  }

  lemma MulReaches(v: u32, c: nat)
    requires c <= 3
    ensures ((v + WORD - c) * 0x119de1f3 % WORD * 0x45d9f3b + c) % WORD == v
  {
    var q := (v + WORD - c) * 0x119de1f3 / WORD;
    var n := (v + WORD - c) * 0x119de1f3 % WORD * 0x45d9f3b + c;
    var d := (v + WORD - c) * 0x4ce8d8 - q * 0x45d9f3b + 1;
    assert n == WORD * d + v;
    DivMod(n, WORD, d, v);
  }

  /** ... and reaches every word. */
  lemma HashUnhash(p: u32)
    ensures U32Hash(Unhash(p)) == p
  {
    hide Mix;
    var b: u32 := (Mix(p) + WORD - 3) * 0x119de1f3 % WORD;
    var a: u32 := (Mix(b) + WORD - 1) * 0x119de1f3 % WORD;
    MixInvolution(a);
    MulReaches(Mix(b), 1);
    MixInvolution(b);
    MulReaches(Mix(p), 3);
    MixInvolution(p);
  }

  /** ... and `Unhash` takes it back. */
  lemma UnhashHash(v: u32)
    ensures Unhash(U32Hash(v)) == v
  {
    hide U32Hash, Unhash;
    HashUnhash(U32Hash(v));
    HashInjective(Unhash(U32Hash(v)), v);
  }

  // ----- probing

  /** `hashValue`: 32-bit sums of the value, the index folded to 32 bits, and the previous position. */
  function HashValue(key: u32, index: nat, last: u32): u32 {
    U32Hash((key + last + index * 0x1_0000 + index / 0x1_0000) % WORD)
  }

  /** The position after `k` probes. */
  function Probe(key: u32, index: nat, last: u32, k: nat): u32 {
    if k == 0 then last else HashValue(key, index, Probe(key, index, last, k - 1))
  }

  /** What goes into the hash: the key, the previous position, and the index with its two halves of sixteen
      bits swapped. No two indices below 2^32 go in alike. */
  lemma HashValueIndex(key: u32, high: nat, low: nat, last: u32)
    requires high < 0x1_0000 && low < 0x1_0000
    ensures Unhash(HashValue(key, high * 0x1_0000 + low, last)) == (key + last + low * 0x1_0000 + high) % WORD
    ensures forall i: u32 :: HashValue(key, i, last) == HashValue(key, high * 0x1_0000 + low, last) ==>
      i == high * 0x1_0000 + low
  {
    hide HashValue, U32Hash, Unhash;
    IndexSum(key, high, low, last);
    forall i: u32 | HashValue(key, i, last) == HashValue(key, high * 0x1_0000 + low, last)
      ensures i == high * 0x1_0000 + low
    {
      IndexOnce(key, high, low, last, i / 0x1_0000, i % 0x1_0000);
    }
  }

  lemma IndexOnce(key: u32, high: nat, low: nat, last: u32, h: nat, l: nat)
    requires high < 0x1_0000 && low < 0x1_0000 && h < 0x1_0000 && l < 0x1_0000
    requires HashValue(key, h * 0x1_0000 + l, last) == HashValue(key, high * 0x1_0000 + low, last)
    ensures h == high && l == low
  {
    hide HashValue, U32Hash, Unhash;
    IndexSum(key, high, low, last);
    IndexSum(key, h, l, last);
    SameSum(l * 0x1_0000 + h, low * 0x1_0000 + high, key + last);
    DivMod(l * 0x1_0000 + h, 0x1_0000, low, high);
    DivMod(l * 0x1_0000 + h, 0x1_0000, l, h);
  }

  lemma IndexSum(key: u32, high: nat, low: nat, last: u32)
    requires high < 0x1_0000 && low < 0x1_0000
    ensures Unhash(HashValue(key, high * 0x1_0000 + low, last)) == (low * 0x1_0000 + high + (key + last)) % WORD
  {
    hide U32Hash, Unhash;
    var index := high * 0x1_0000 + low;
    DivMod(index, 0x1_0000, high, low);
    var n := low * 0x1_0000 + high + (key + last);
    assert key + last + index * 0x1_0000 + index / 0x1_0000 == WORD * high + n;
    Whole(high, n);
    UnhashHash(n % WORD);
  }

  lemma Whole(q: nat, n: nat)
    ensures (WORD * q + n) % WORD == n % WORD
  {
    DivMod(WORD * q + n, WORD, q + n / WORD, n % WORD);
  }

  lemma HashValueInjective(key: u32, index: nat, x: u32, y: u32)
    ensures HashValue(key, index, x) == HashValue(key, index, y) ==> x == y
  {
    hide U32Hash;
    var c := key + index * 0x1_0000 + index / 0x1_0000;
    HashInjective((x + c) % WORD, (y + c) % WORD);
    if (x + c) % WORD == (y + c) % WORD {
      SameSum(x, y, c);
    }
  }

  lemma SameSum(x: u32, y: u32, c: nat)
    requires (x + c) % WORD == (y + c) % WORD
    ensures x == y
  {
    var p, q := (x + c) / WORD, (y + c) / WORD;
    assert x - y == WORD * (p - q);
  }

  /** A chain that meets itself has come back to its start first. */
  lemma {:induction false} ProbeReturns(key: u32, index: nat, last: u32, i: nat, j: nat)
    requires i <= j
    ensures Probe(key, index, last, i) == Probe(key, index, last, j) ==> Probe(key, index, last, j - i) == last
  {
    hide HashValue;
    if i > 0 {
      HashValueInjective(key, index, Probe(key, index, last, i - 1), Probe(key, index, last, j - 1));
      ProbeReturns(key, index, last, i - 1, j - 1);
    }
  }

  lemma {:induction false} ProbeFrom(key: u32, index: nat, last: u32, m: nat, k: nat)
    ensures Probe(key, index, last, m) == last ==> Probe(key, index, last, m + k) == Probe(key, index, last, k)
  {
    hide HashValue;
    if k > 0 {
      ProbeFrom(key, index, last, m, k - 1);
    }
  }

  /** The probes from the first to the `n`-th. */
  ghost function Probes(key: u32, index: nat, last: u32, n: nat): (s: set<u32>) {
    if n == 0 then {} else Probes(key, index, last, n - 1) + {Probe(key, index, last, n)}
  }

  lemma {:induction false} ProbeOf(key: u32, index: nat, last: u32, n: nat, p: u32) returns (k: nat)
    requires p in Probes(key, index, last, n)
    ensures 1 <= k <= n && p == Probe(key, index, last, k)
  {
    if p == Probe(key, index, last, n) {
      k := n;
    } else {
      k := ProbeOf(key, index, last, n - 1, p);
    }
  }

  /** The first `n` probes all hit taken positions. */
  ghost predicate TakenUpTo(ring: set<u32>, key: u32, index: nat, last: u32, n: nat) {
    forall k: nat :: 1 <= k <= n ==> Probe(key, index, last, k) in ring
  }

  lemma {:induction false} ProbesWithin(ring: set<u32>, key: u32, index: nat, last: u32, n: nat)
    requires TakenUpTo(ring, key, index, last, n)
    ensures Probes(key, index, last, n) <= ring
  {
    if n > 0 {
      ProbesWithin(ring, key, index, last, n - 1);
    }
  }

  /** Either the first `n` probes are pairwise distinct, or the chain has come back to its start. */
  lemma {:induction false} ProbesDistinct(key: u32, index: nat, last: u32, n: nat) returns (m: nat)
    ensures m <= n && (m == 0 ==> |Probes(key, index, last, n)| == n)
    ensures m > 0 ==> Probe(key, index, last, m) == last
  {
    hide HashValue;
    m := 0;
    if n > 0 {
      m := ProbesDistinct(key, index, last, n - 1);
      var p := Probe(key, index, last, n);
      if m == 0 && p in Probes(key, index, last, n - 1) {
        var k := ProbeOf(key, index, last, n - 1, p);
        ProbeReturns(key, index, last, k, n);
        m := n - k;
      }
    }
  }

  /** If the first |ring| + 1 probes all hit, they cannot all be different. */
  lemma ProbesCycle(ring: set<u32>, key: u32, index: nat, last: u32) returns (m: nat)
    requires TakenUpTo(ring, key, index, last, |ring| + 1)
    ensures 1 <= m <= |ring| + 1 && Probe(key, index, last, m) == last
  {
    hide Probe, Probes, TakenUpTo;
    ProbesWithin(ring, key, index, last, |ring| + 1);
    SubsetSize(Probes(key, index, last, |ring| + 1), ring);
    m := ProbesDistinct(key, index, last, |ring| + 1);
  }

  /** Every position the chain will ever reach is taken. */
  ghost predicate Hopeless(ring: set<u32>, key: u32, index: nat, last: u32) {
    forall k: nat :: k >= 1 ==> Probe(key, index, last, k) in ring
  }

  /** The search for a free position needs at most one probe more than there are positions, or it goes
      round in circles: the chain reaches a free position at all exactly if it does so among its first
      |ring| + 1 probes. */
  lemma ProbeBound(ring: set<u32>, key: u32, index: nat, last: u32)
    ensures Hopeless(ring, key, index, last) <==> TakenUpTo(ring, key, index, last, |ring| + 1)
  {
    hide Probe, TakenUpTo;
    if Hopeless(ring, key, index, last) {
      HopelessTaken(ring, key, index, last, |ring| + 1);
    }
    if TakenUpTo(ring, key, index, last, |ring| + 1) {
      var m := ProbesCycle(ring, key, index, last);
      forall k: nat | k >= 1
        ensures Probe(key, index, last, k) in ring
      {
        CycleCovers(ring, key, index, last, m, k);
      }
    }
  }

  lemma HopelessTaken(ring: set<u32>, key: u32, index: nat, last: u32, n: nat)
    requires Hopeless(ring, key, index, last)
    ensures TakenUpTo(ring, key, index, last, n)
  {
  }

  lemma SubsetSize(a: set<u32>, b: set<u32>)
    requires a <= b
    ensures |a| <= |b|
  {
    assert b == a + (b - a);
  }

  lemma {:induction false} CycleCovers(ring: set<u32>, key: u32, index: nat, last: u32, m: nat, k: nat)
    requires 1 <= m && 1 <= k && Probe(key, index, last, m) == last
    requires m <= |ring| + 1 && TakenUpTo(ring, key, index, last, |ring| + 1)
    ensures Probe(key, index, last, k) in ring
    decreases k
  {
    if k > m {
      CycleCovers(ring, key, index, last, m, k - m);
      ProbeFrom(key, index, last, m, k - m);
    }
  }

  /** If the position the chain starts from is free, the chain finds a free one. */
  lemma FreeStart(ring: set<u32>, key: u32, index: nat, last: u32)
    requires last !in ring
    ensures !Hopeless(ring, key, index, last)
  {
    hide Probe, Probes;
    if Hopeless(ring, key, index, last) {
      HopelessTaken(ring, key, index, last, |ring| + 1);
      var m := ProbesCycle(ring, key, index, last);
    }
  }

  // ----- looking a key up

  function Least(s: set<u32>): (p: u32)
    requires s != {}
    ensures p in s && forall q :: q in s ==> p <= q
  {
    HasLeast(s);
    var p :| p in s && forall q :: q in s ==> p <= q;
    p
  }

  lemma HasLeast(s: set<u32>)
    requires s != {}
    ensures exists p :: p in s && forall q :: q in s ==> p <= q
  {
    var p := LeastOf(s);
  }

  lemma {:induction false} LeastOf(s: set<u32>) returns (p: u32)
    requires s != {}
    ensures p in s && forall q :: q in s ==> p <= q
    decreases |s|
  {
    var x :| x in s;
    p := x;
    var rest := s - {x};
    if rest != {} {
      var y := LeastOf(rest);
      p := if x <= y then x else y;
      forall q | q in s
        ensures p <= q
      {
        if q != x {
          assert q in rest;
        }
      }
    } else {
      assert s <= {x};
    }
  }

  function AtOrAfter(ring: map<u32, u32>, h: u32): set<u32> {
    set p | p in ring && h <= p
  }

  /** The position `lower_bound` finds, or the first one past the end. */
  function Hit(ring: map<u32, u32>, h: u32): (p: u32)
    requires ring != map[]
    ensures p in ring
  {
    var from := AtOrAfter(ring, h);
    if from != {} then Least(from) else Least(ring.Keys)
  }

  function Lookup(ring: map<u32, u32>, h: u32): u32
    requires ring != map[]
  {
    ring[Hit(ring, h)]
  }

  /** How far clockwise from `h` to `p`. */
  function Ahead(h: u32, p: u32): u32 {
    if h <= p then p - h else p + WORD - h
  }

  /** The position found is the only one nearest clockwise, past the largest position included. */
  lemma HitIsNearest(ring: map<u32, u32>, h: u32, p: u32)
    requires ring != map[]
    ensures p == Hit(ring, h) <==> p in ring && forall q :: q in ring ==> Ahead(h, p) <= Ahead(h, q)
  {
    var hit := Hit(ring, h);
    var from := AtOrAfter(ring, h);
    forall q | q in ring
      ensures Ahead(h, hit) <= Ahead(h, q)
    {
      if h <= q {
        assert q in from;
      }
    }
    assert Ahead(h, p) == Ahead(h, hit) ==> p == hit;
  }

  /** `larger` has the positions of `ring` and more, and all the new ones belong to `v`. */
  ghost predicate Extends(ring: map<u32, u32>, larger: map<u32, u32>, v: u32) {
    && (forall p :: p in ring ==> p in larger && larger[p] == ring[p])
    && forall p :: p in larger && p !in ring ==> larger[p] == v
  }

  /** Minimal disruption, both ways: between a ring and one with more positions of `v`, a key is looked up
      differently only if the larger ring sends it to `v`, and that is exactly when a new position is
      nearer than every old one and the old owner was another value. */
  lemma MinimalDisruption(ring: map<u32, u32>, larger: map<u32, u32>, v: u32, h: u32)
    requires ring != map[] && larger != map[] && Extends(ring, larger, v)
    ensures Lookup(ring, h) == Lookup(larger, h) || Lookup(larger, h) == v
    ensures Lookup(ring, h) != Lookup(larger, h)
       <==> Hit(larger, h) !in ring && Lookup(ring, h) != v
  {
    hide Hit, Ahead;
    var p := Hit(larger, h);
    HitIsNearest(larger, h, p);
    if p in ring {
      HitIsNearest(ring, h, p);
    }
  }

  // ----- the two tables

  datatype Node = Node(last: u32, pos: seq<u32>)

  datatype Table = Table(values: map<u32, Node>, ring: map<u32, u32>)

  const EMPTY: Table := Table(map[], map[])

  function Back(pos: seq<u32>): u32 {
    if pos == [] then 0 else pos[|pos| - 1]
  }

  ghost predicate Distinct(pos: seq<u32>) {
    forall i, j :: 0 <= i < j < |pos| ==> pos[i] != pos[j]
  }

  /** `v` owns the positions its node lists, each listed once. */
  ghost predicate Owns(v: u32, n: Node, ring: map<u32, u32>) {
    && n.last == Back(n.pos)
    && Distinct(n.pos)
    && forall i :: 0 <= i < |n.pos| ==> n.pos[i] in ring && ring[n.pos[i]] == v
  }

  ghost predicate Agree(t: Table) {
    && (forall v :: v in t.values ==> t.values[v].pos != [] && Owns(v, t.values[v], t.ring))
    && forall p :: p in t.ring ==> t.ring[p] in t.values && p in t.values[t.ring[p]].pos
  }

  function NodeOf(t: Table, v: u32): Node {
    if v in t.values then t.values[v] else Node(0, [])
  }

  function Weight(t: Table, v: u32): nat {
    |NodeOf(t, v).pos|
  }

  // ----- what insertNode and removeNode do

  /** The first probe that is free. */
  ghost function FirstFree(ring: set<u32>, key: u32, index: nat, last: u32): (k: nat)
    requires !Hopeless(ring, key, index, last)
    ensures k >= 1 && Probe(key, index, last, k) !in ring && TakenUpTo(ring, key, index, last, k - 1)
  {
    var k: nat :| k >= 1 && Probe(key, index, last, k) !in ring;
    EarlierFree(ring, key, index, last, k)
  }

  ghost function EarlierFree(ring: set<u32>, key: u32, index: nat, last: u32, k: nat): (j: nat)
    requires k >= 1 && Probe(key, index, last, k) !in ring
    ensures j >= 1 && Probe(key, index, last, j) !in ring && TakenUpTo(ring, key, index, last, j - 1)
  {
    if TakenUpTo(ring, key, index, last, k - 1) then k
    else
      var i: nat :| 1 <= i <= k - 1 && Probe(key, index, last, i) !in ring;
      EarlierFree(ring, key, index, last, i)
  }

  /** Positions are added until the value has `weight` of them, unless a search goes round for ever. */
  ghost function Inserted(ring: map<u32, u32>, v: u32, weight: nat, n: Node): (r: Option<(map<u32, u32>, Node)>)
    decreases weight - |n.pos|
  {
    if |n.pos| >= weight then Some((ring, n))
    else if Hopeless(ring.Keys, v, |n.pos|, n.last) then None
    else
      var p := Probe(v, |n.pos|, n.last, FirstFree(ring.Keys, v, |n.pos|, n.last));
      Inserted(ring[p := v], v, weight, Node(p, n.pos + [p]))
  }

  /** Positions are given up, the youngest first. */
  ghost function Removed(ring: map<u32, u32>, weight: nat, n: Node): (r: (map<u32, u32>, Node))
    decreases |n.pos|
  {
    if |n.pos| <= weight then (ring, n)
    else
      var pos := n.pos[..|n.pos| - 1];
      Removed(ring - {Back(n.pos)}, weight, Node(Back(pos), pos))
  }

  ghost function Set(t: Table, v: u32, weight: nat): (r: Option<Table>) {
    var n := NodeOf(t, v);
    if weight == 0 then
      Some(Table(t.values - {v}, Removed(t.ring, 0, n).0))
    else if |n.pos| > weight then
      var (ring, m) := Removed(t.ring, weight, n);
      Some(Table(t.values[v := m], ring))
    else
      match Inserted(t.ring, v, weight, n)
      case None => None
      case Some((ring, m)) => Some(Table(t.values[v := m], ring))
  }

  /** The value whose first position is its own second probe. */
  const STUCK: u32 := Unhash(0xffff_0000)

  /** The search need not end: with nothing else in the ring, this value can have no second position. */
  lemma SetHangs(weight: nat)
    requires weight >= 2
    ensures Set(EMPTY, STUCK, weight) == None
  {
    hide U32Hash, Unhash;
    HashUnhash(0xffff_0000);
    var p: u32 := 0xffff_0000;
    var none: map<u32, u32> := map[];
    assert Probe(STUCK, 0, 0, 1) == HashValue(STUCK, 0, Probe(STUCK, 0, 0, 0)) == p;
    FirstFreeIs(none.Keys, STUCK, 0, 0, 1);
    var one := none[p := STUCK];
    forall k: nat
      ensures Probe(STUCK, 1, p, k) == p
    {
      StuckProbes(k);
    }
    assert Hopeless(one.Keys, STUCK, 1, p);
    assert Inserted(one, STUCK, weight, Node(p, [] + [p])).None?;
    assert Inserted(none, STUCK, weight, Node(0, [])).None?;
  }

  lemma {:induction false} StuckProbes(k: nat)
    ensures Probe(STUCK, 1, 0xffff_0000, k) == 0xffff_0000
  {
    hide U32Hash, Unhash;
    HashUnhash(0xffff_0000);
    if k > 0 {
      StuckProbes(k - 1);
    }
  }

  // ----- what they keep

  lemma {:induction false} InsertedGrows(ring: map<u32, u32>, v: u32, weight: nat, n: Node)
    requires |n.pos| <= weight && Owns(v, n, ring) && Inserted(ring, v, weight, n).Some?
    ensures
      var (larger, m) := Inserted(ring, v, weight, n).value;
      && |m.pos| == weight && n.pos <= m.pos && Owns(v, m, larger) && Extends(ring, larger, v)
      && (forall p :: p in larger && p !in ring ==> p in m.pos)
    decreases weight - |n.pos|
  {
    hide Probe, TakenUpTo;
    if |n.pos| < weight {
      var p := Probe(v, |n.pos|, n.last, FirstFree(ring.Keys, v, |n.pos|, n.last));
      var n' := Node(p, n.pos + [p]);
      assert Owns(v, n', ring[p := v]);
      InsertedGrows(ring[p := v], v, weight, n');
      var m := Inserted(ring, v, weight, n).value.1;
      assert m.pos[|n.pos|] == n'.pos[|n.pos|] == p;
    }
  }

  /** Neither in the ring nor picked before the `i`-th. */
  ghost predicate Fresh(ring: set<u32>, n: Node, pos: seq<u32>, i: nat, p: u32)
    requires i <= |pos|
  {
    p !in ring && forall j :: |n.pos| <= j < i ==> pos[j] != p
  }

  /** `pos[i]` is the `k`-th probe in the chain from the position before it, and the first that is fresh. */
  ghost predicate FirstFresh(ring: set<u32>, v: u32, n: Node, pos: seq<u32>, i: nat, k: nat)
    requires i < |pos|
  {
    && k >= 1 && pos[i] == Probe(v, i, Back(pos[..i]), k)
    && Fresh(ring, n, pos, i, pos[i])
    && forall j: nat :: 1 <= j < k ==> !Fresh(ring, n, pos, i, Probe(v, i, Back(pos[..i]), j))
  }

  /** Which positions a search picks: the one with index `i` is the first probe, in the chain that starts from
      the position before it, that is neither taken nor picked already. */
  lemma {:induction false} InsertedProbes(ring: map<u32, u32>, v: u32, weight: nat, n: Node, i: nat)
    requires n.last == Back(n.pos) && Inserted(ring, v, weight, n).Some? && |n.pos| <= i < weight
    ensures
      var pos := Inserted(ring, v, weight, n).value.1.pos;
      |pos| == weight && n.pos <= pos && exists k :: FirstFresh(ring.Keys, v, n, pos, i, k)
    decreases weight - |n.pos|
  {
    hide Probe, TakenUpTo;
    var k := FirstFree(ring.Keys, v, |n.pos|, n.last);
    var p := Probe(v, |n.pos|, n.last, k);
    var n' := Node(p, n.pos + [p]);
    var pos := Inserted(ring, v, weight, n).value.1.pos;
    InsertedKeeps(ring[p := v], v, weight, n');
    if i == |n.pos| {
      assert pos[..i] == n.pos && pos[i] == n'.pos[i];
      NoneFresh(ring.Keys, v, n, pos, k);
      assert FirstFresh(ring.Keys, v, n, pos, i, k);
    } else {
      InsertedProbes(ring[p := v], v, weight, n', i);
      var j :| FirstFresh(ring[p := v].Keys, v, n', pos, i, j);
      SameFresh(ring.Keys, ring[p := v].Keys, v, n, n', pos, i, j);
    }
  }

  lemma SameFresh(ring: set<u32>, larger: set<u32>, v: u32, n: Node, n': Node, pos: seq<u32>, i: nat, k: nat)
    requires |n.pos| < i < |pos| && n'.pos <= pos && |n'.pos| == |n.pos| + 1
    requires larger == ring + {n'.pos[|n.pos|]} && FirstFresh(larger, v, n', pos, i, k)
    ensures FirstFresh(ring, v, n, pos, i, k)
  {
    hide Probe;
    assert pos[|n.pos|] == n'.pos[|n.pos|];
    assert forall q: u32 :: Fresh(ring, n, pos, i, q) <==> Fresh(larger, n', pos, i, q);
  }

  lemma {:induction false} InsertedKeeps(ring: map<u32, u32>, v: u32, weight: nat, n: Node)
    requires |n.pos| <= weight && Inserted(ring, v, weight, n).Some?
    ensures var pos := Inserted(ring, v, weight, n).value.1.pos; |pos| == weight && n.pos <= pos
    decreases weight - |n.pos|
  {
    hide Probe, TakenUpTo;
    if |n.pos| < weight {
      var p := Probe(v, |n.pos|, n.last, FirstFree(ring.Keys, v, |n.pos|, n.last));
      InsertedKeeps(ring[p := v], v, weight, Node(p, n.pos + [p]));
    }
  }

  lemma NoneFresh(ring: set<u32>, v: u32, n: Node, pos: seq<u32>, k: nat)
    requires n.last == Back(n.pos) && |n.pos| < |pos| && k >= 1
    requires TakenUpTo(ring, v, |n.pos|, n.last, k - 1)
    ensures forall j: nat :: 1 <= j < k ==> !Fresh(ring, n, pos, |n.pos|, Probe(v, |n.pos|, n.last, j))
  {
    hide Probe;
  }

  lemma {:induction false} RemovedShrinks(ring: map<u32, u32>, v: u32, weight: nat, n: Node)
    requires weight <= |n.pos| && Owns(v, n, ring)
    ensures
      var (smaller, m) := Removed(ring, weight, n);
      && m.pos == n.pos[..weight] && Owns(v, m, smaller) && Extends(smaller, ring, v)
      && (forall p :: p in smaller ==> p !in n.pos[weight..])
    decreases |n.pos|
  {
    hide Owns, Extends;
    if |n.pos| > weight {
      var k := |n.pos| - 1;
      var n' := Node(Back(n.pos[..k]), n.pos[..k]);
      OwnsFewer(ring, v, n);
      RemovedShrinks(ring - {n.pos[k]}, v, weight, n');
      assert n'.pos[..weight] == n.pos[..weight];
      assert n.pos[weight..] == n'.pos[weight..] + [n.pos[k]];
      ExtendsOnce(Removed(ring, weight, n).0, ring, v, n.pos[k]);
    } else {
      assert n.pos[..weight] == n.pos;
      ExtendsSelf(ring, v);
    }
  }

  lemma ExtendsOnce(smaller: map<u32, u32>, ring: map<u32, u32>, v: u32, p: u32)
    requires p in ring && ring[p] == v && Extends(smaller, ring - {p}, v)
    ensures Extends(smaller, ring, v) && p !in smaller
  {
  }

  lemma ExtendsSelf(ring: map<u32, u32>, v: u32)
    ensures Extends(ring, ring, v)
  {
  }

  lemma OwnsFewer(ring: map<u32, u32>, v: u32, n: Node)
    requires n.pos != [] && Owns(v, n, ring)
    ensures
      var k := |n.pos| - 1;
      && n.pos[k] in ring && ring[n.pos[k]] == v
      && Owns(v, Node(Back(n.pos[..k]), n.pos[..k]), ring - {n.pos[k]})
  {
  }

  /** Giving positions up in two goes. */
  lemma {:induction false} RemovedTwice(ring: map<u32, u32>, less: nat, weight: nat, n: Node)
    requires less <= weight
    ensures Removed(ring, less, n) == Removed(Removed(ring, weight, n).0, less, Removed(ring, weight, n).1)
    decreases |n.pos|
  {
    if |n.pos| > weight {
      var pos := n.pos[..|n.pos| - 1];
      RemovedTwice(ring - {Back(n.pos)}, less, weight, Node(Back(pos), pos));
    }
  }

  /** Removing what was inserted restores the ring and the node exactly. */
  lemma {:induction false} RemovedInserted(ring: map<u32, u32>, v: u32, weight: nat, n: Node)
    requires |n.pos| <= weight && Owns(v, n, ring) && Inserted(ring, v, weight, n).Some?
    ensures
      var (larger, m) := Inserted(ring, v, weight, n).value;
      Removed(larger, |n.pos|, m) == (ring, n)
    decreases weight - |n.pos|
  {
    hide Probe, TakenUpTo;
    if |n.pos| < weight {
      var p := Probe(v, |n.pos|, n.last, FirstFree(ring.Keys, v, |n.pos|, n.last));
      var n' := Node(p, n.pos + [p]);
      assert Owns(v, n', ring[p := v]);
      RemovedInserted(ring[p := v], v, weight, n');
      var (larger, m) := Inserted(ring, v, weight, n).value;
      RemovedTwice(larger, |n.pos|, |n'.pos|, m);
      assert ring[p := v] - {p} == ring;
      assert n'.pos[..|n.pos|] == n.pos;
    }
  }

  /** The tables after `v` got a new node, or lost its last one. */
  ghost function Stored(t: Table, v: u32, n: Node, ring: map<u32, u32>): (r: Table) {
    Table(if n.pos == [] then t.values - {v} else t.values[v := n], ring)
  }

  /** Nothing but `v`'s positions differs. */
  ghost predicate Elsewhere(ring: map<u32, u32>, other: map<u32, u32>, v: u32) {
    && (forall p :: p in ring && ring[p] != v ==> p in other && other[p] == ring[p])
    && (forall p :: p in other && other[p] != v ==> p in ring && ring[p] == other[p])
  }

  lemma ExtendsElsewhere(ring: map<u32, u32>, larger: map<u32, u32>, v: u32)
    requires Extends(ring, larger, v)
    ensures Elsewhere(ring, larger, v) && Elsewhere(larger, ring, v)
  {
  }

  lemma OwnsElsewhere(ring: map<u32, u32>, other: map<u32, u32>, v: u32, u: u32, n: Node)
    requires Elsewhere(ring, other, v) && u != v && Owns(u, n, ring)
    ensures Owns(u, n, other)
  {
  }

  lemma StoredAgrees(t: Table, v: u32, n: Node, ring: map<u32, u32>)
    requires Agree(t) && Owns(v, n, ring)
    requires Elsewhere(t.ring, ring, v)
    requires forall p :: p in ring && ring[p] == v ==> p in n.pos
    ensures Agree(Stored(t, v, n, ring))
    ensures forall u :: u != v ==> NodeOf(Stored(t, v, n, ring), u) == NodeOf(t, u)
    ensures Weight(Stored(t, v, n, ring), v) == |n.pos|
  {
    hide Owns;
    var t' := Stored(t, v, n, ring);
    forall u | u in t'.values
      ensures t'.values[u].pos != [] && Owns(u, t'.values[u], ring)
    {
      if u != v {
        OwnsElsewhere(t.ring, ring, v, u, t.values[u]);
      }
    }
    forall p | p in ring
      ensures ring[p] in t'.values && p in t'.values[ring[p]].pos
    {
      if ring[p] != v {
        assert p in t.ring && t.ring[p] == ring[p];
      }
    }
  }

  /** Every call that returns keeps the tables in agreement, gives the value exactly the weight asked for,
      and leaves every other value and its positions alone. */
  lemma SetAgrees(t: Table, v: u32, weight: nat)
    requires Agree(t)
    ensures Set(t, v, weight).Some? ==>
      var t' := Set(t, v, weight).value;
      && Agree(t') && Weight(t', v) == weight
      && (forall u :: u != v ==> NodeOf(t', u) == NodeOf(t, u))
      && (weight >= Weight(t, v) ==> Extends(t.ring, t'.ring, v))
      && (weight <= Weight(t, v) ==> Extends(t'.ring, t.ring, v))
  {
    if Set(t, v, weight).Some? {
      var t' := Set(t, v, weight).value;
      OwnsAll(t, v);
      if weight < Weight(t, v) {
        SetLess(t, v, weight);
      } else if weight == 0 {
        assert t'.values == t.values && t'.ring == t.ring;
      } else {
        SetMore(t, v, weight);
      }
    }
  }

  lemma OwnsAll(t: Table, v: u32)
    requires Agree(t)
    ensures Owns(v, NodeOf(t, v), t.ring)
    ensures forall p :: p in t.ring && t.ring[p] == v ==> p in NodeOf(t, v).pos
    ensures v in t.values <==> Weight(t, v) > 0
  {
  }

  lemma SetLess(t: Table, v: u32, weight: nat)
    requires Agree(t) && weight < Weight(t, v)
    ensures
      var n := Removed(t.ring, weight, NodeOf(t, v)).1;
      var t' := Stored(t, v, n, Removed(t.ring, weight, NodeOf(t, v)).0);
      && Set(t, v, weight) == Some(t') && n.pos == NodeOf(t, v).pos[..weight]
      && Agree(t') && Weight(t', v) == weight && Extends(t'.ring, t.ring, v)
      && (forall u :: u != v ==> NodeOf(t', u) == NodeOf(t, u))
  {
    hide Removed, Extends, Elsewhere, Agree, Owns;
    var n := NodeOf(t, v);
    OwnsAll(t, v);
    RemovedShrinks(t.ring, v, weight, n);
    var (ring, m) := Removed(t.ring, weight, n);
    forall p | p in ring && ring[p] == v
      ensures p in m.pos
    {
      ShrunkKeeps(t.ring, ring, v, p);
      assert n.pos == n.pos[..weight] + n.pos[weight..];
    }
    ExtendsElsewhere(ring, t.ring, v);
    StoredAgrees(t, v, m, ring);
  }

  lemma ShrunkKeeps(ring: map<u32, u32>, smaller: map<u32, u32>, v: u32, p: u32)
    requires Extends(smaller, ring, v) && p in smaller
    ensures p in ring && ring[p] == smaller[p]
  {
  }

  lemma SetMore(t: Table, v: u32, weight: nat)
    requires Agree(t) && weight >= Weight(t, v) && weight > 0 && Set(t, v, weight).Some?
    ensures Inserted(t.ring, v, weight, NodeOf(t, v)).Some?
    ensures
      var (ring, n) := Inserted(t.ring, v, weight, NodeOf(t, v)).value;
      var t' := Stored(t, v, n, ring);
      && Set(t, v, weight) == Some(t') && NodeOf(t, v).pos <= n.pos
      && Agree(t') && Weight(t', v) == weight && Extends(t.ring, t'.ring, v)
      && (forall u :: u != v ==> NodeOf(t', u) == NodeOf(t, u))
  {
    hide Inserted, Elsewhere, Agree, Owns;
    var n := NodeOf(t, v);
    OwnsAll(t, v);
    InsertedGrows(t.ring, v, weight, n);
    var (ring, m) := Inserted(t.ring, v, weight, n).value;
    forall p | p in ring && ring[p] == v
      ensures p in m.pos
    {
      if p in t.ring {
        assert p in n.pos;
      }
    }
    ExtendsElsewhere(t.ring, ring, v);
    StoredAgrees(t, v, m, ring);
  }

  /** Raising a weight and then lowering it to what it was restores both tables exactly. */
  lemma RestoreExact(t: Table, v: u32, weight: nat)
    requires Agree(t) && weight >= Weight(t, v)
    ensures Set(t, v, weight).Some? ==> Set(Set(t, v, weight).value, v, Weight(t, v)) == Some(t)
  {
    hide Inserted, Agree, Owns;
    if Set(t, v, weight).Some? {
      var n := NodeOf(t, v);
      var t' := Set(t, v, weight).value;
      OwnsAll(t, v);
      SetAgrees(t, v, weight);
      if Weight(t, v) == 0 {
        if weight > 0 {
          SetMore(t, v, weight);
          RemovedInserted(t.ring, v, weight, n);
        }
        assert t'.values - {v} == t.values;
      } else {
        SetMore(t, v, weight);
        RemovedInserted(t.ring, v, weight, n);
        assert t'.values[v := n] == t.values;
        if weight == |n.pos| {
          SameWeight(t, v, weight);
        }
      }
    }
  }

  lemma SameWeight(t: Table, v: u32, weight: nat)
    requires weight == Weight(t, v) > 0
    ensures Removed(t.ring, weight, NodeOf(t, v)) == (t.ring, NodeOf(t, v))
    ensures Inserted(t.ring, v, weight, NodeOf(t, v)) == Some((t.ring, NodeOf(t, v)))
  {
  }

  /** Raising a weight changes only the keys the value now gets; lowering it only the keys it had. */
  lemma SetDisrupts(t: Table, v: u32, weight: nat, h: u32)
    requires Agree(t) && Set(t, v, weight).Some? && t.ring != map[] && Set(t, v, weight).value.ring != map[]
    requires Lookup(t.ring, h) != Lookup(Set(t, v, weight).value.ring, h)
    ensures weight != Weight(t, v)
    ensures weight > Weight(t, v) ==> Lookup(Set(t, v, weight).value.ring, h) == v
    ensures weight < Weight(t, v) ==> Lookup(t.ring, h) == v
  {
    hide Agree, Set, Lookup, Extends;
    var t' := Set(t, v, weight).value;
    SetAgrees(t, v, weight);
    if weight >= Weight(t, v) {
      MinimalDisruption(t.ring, t'.ring, v, h);
    }
    if weight <= Weight(t, v) {
      MinimalDisruption(t'.ring, t.ring, v, h);
    }
  }

  // ----- the size of the ring

  ghost function TotalWeight(values: map<u32, Node>): (n: nat)
    decreases |values.Keys|
  {
    if values == map[] then 0
    else
      var v :| v in values;
      assert |values.Keys| == |(values - {v}).Keys| + 1 by {
        assert values.Keys == (values - {v}).Keys + {v};
      }
      |values[v].pos| + TotalWeight(values - {v})
  }

  function Elements(pos: seq<u32>): set<u32> {
    set p | p in pos
  }

  lemma {:induction false} RingSize(t: Table)
    requires Agree(t)
    ensures |t.ring| == TotalWeight(t.values)
    decreases |t.values.Keys|
  {
    hide Agree, Owns;
    if t.values == map[] {
      NoValues(t);
      assert t.ring == map[];
    } else {
      var v :| v in t.values && TotalWeight(t.values) == |t.values[v].pos| + TotalWeight(t.values - {v});
      var pos := t.values[v].pos;
      var owned := Elements(pos);
      var rest := Table(t.values - {v}, t.ring - owned);
      assert t.values.Keys == rest.values.Keys + {v};
      OwnedBy(t, v, owned);
      RestAgrees(t, v, rest);
      RingSize(rest);
      assert t.ring.Keys == rest.ring.Keys + owned;
      OwnsAll(t, v);
      DistinctSize(pos);
    }
  }

  lemma NoValues(t: Table)
    requires Agree(t) && t.values == map[]
    ensures t.ring == map[]
  {
  }

  lemma OwnedBy(t: Table, v: u32, owned: set<u32>)
    requires Agree(t) && v in t.values && owned == Elements(t.values[v].pos)
    ensures forall p :: p in owned <==> p in t.ring && t.ring[p] == v
  {
    OwnsAll(t, v);
  }

  lemma RestAgrees(t: Table, v: u32, rest: Table)
    requires Agree(t) && rest.values == t.values - {v}
    requires forall p :: p in rest.ring <==> p in t.ring && t.ring[p] != v
    requires forall p :: p in rest.ring ==> rest.ring[p] == t.ring[p]
    ensures Agree(rest)
  {
    forall u | u in rest.values
      ensures Owns(u, rest.values[u], rest.ring)
    {
      assert Owns(u, t.values[u], t.ring);
    }
  }

  lemma {:induction false} DistinctSize(pos: seq<u32>)
    requires Distinct(pos)
    ensures |Elements(pos)| == |pos|
  {
    if pos != [] {
      var k := |pos| - 1;
      DistinctSize(pos[..k]);
      assert pos == pos[..k] + [pos[k]];
      assert Elements(pos) == Elements(pos[..k]) + {pos[k]};
    }
  }

  // ----- whole runs

  /** A run of calls; None as soon as one does not return. */
  ghost function Run(calls: seq<(u32, nat)>): (r: Option<Table>) {
    if calls == [] then Some(EMPTY)
    else
      match Run(calls[..|calls| - 1])
      case None => None
      case Some(t) => Set(t, calls[|calls| - 1].0, calls[|calls| - 1].1)
  }

  /** The weight the last call for `v` asked for. */
  function Requested(calls: seq<(u32, nat)>, v: u32): nat {
    if calls == [] then 0
    else if calls[|calls| - 1].0 == v then calls[|calls| - 1].1
    else Requested(calls[..|calls| - 1], v)
  }

  lemma {:induction false} RunAgrees(calls: seq<(u32, nat)>)
    requires Run(calls).Some?
    ensures Agree(Run(calls).value)
    ensures forall v :: Weight(Run(calls).value, v) == Requested(calls, v)
    ensures |Run(calls).value.ring| == TotalWeight(Run(calls).value.values)
  {
    hide Set, TotalWeight;
    if calls != [] {
      RunAgrees(calls[..|calls| - 1]);
      var (v, weight) := calls[|calls| - 1];
      SetAgrees(Run(calls[..|calls| - 1]).value, v, weight);
    }
    RingSize(Run(calls).value);
  }

  // ----- the class

  class Ring {
    var values: map<u32, Node>
    var ring: map<u32, u32>

    ghost function Tables(): Table
      reads this
    {
      Table(values, ring)
    }

    constructor ()
      ensures Tables() == EMPTY && Agree(Tables())
    {
      values, ring := map[], map[];
    }

    /** `h` is the key's hash. */
    method Hash(h: u32) returns (v: u32)
      requires ring != map[]
      ensures v == Lookup(ring, h)
    {
      var wh := AtOrAfter(ring, h);
      if wh == {} {
        v := ring[Least(ring.Keys)];
      } else {
        v := ring[Least(wh)];
      }
    }

    /** Sets a weight. `returned` is false where the source searches for a free position for ever. */
    method SetValue(v: u32, weight: nat) returns (returned: bool)
      requires Agree(Tables())
      modifies this
      ensures returned <==> Set(old(Tables()), v, weight).Some?
      ensures returned ==> Tables() == Set(old(Tables()), v, weight).value && Agree(Tables())
    {
      ghost var t := Tables();
      returned := true;
      if weight > 0 {
        var n := if v in values then values[v] else Node(0, []);
        if |n.pos| > weight {
          n := RemoveNode(weight, n);
        } else if |n.pos| < weight {
          returned, n := InsertNode(v, weight, n);
        }
        values := values[v := n];
      } else if v in values {
        var n := RemoveNode(0, values[v]);
        values := values - {v};
      } else {
        assert values - {v} == values;
      }
      if returned {
        SetAgrees(t, v, weight);
      }
    }

    method InsertNode(v: u32, weight: nat, n0: Node) returns (returned: bool, n: Node)
      requires n0.last == Back(n0.pos)
      modifies this`ring
      ensures returned <==> Inserted(old(ring), v, weight, n0).Some?
      ensures returned ==> (ring, n) == Inserted(old(ring), v, weight, n0).value
    {
      n := n0;
      var tries: nat := 0;
      ghost var last := n.last;
      while |n.pos| < weight
        invariant n.last == Probe(v, |n.pos|, last, tries)
        invariant tries <= |ring| && TakenUpTo(ring.Keys, v, |n.pos|, last, tries)
        invariant tries == 0 ==> n.last == last
        invariant |n.pos| >= weight ==> tries == 0
        invariant Inserted(ring, v, weight, Node(last, n.pos)) == Inserted(old(ring), v, weight, n0)
        decreases weight - |n.pos|, |ring| - tries
      {
        hide Probe, TakenUpTo;
        Probed(ring.Keys, v, |n.pos|, last, tries);
        n := n.(last := HashValue(v, |n.pos|, n.last));
        tries := tries + 1;
        if n.last !in ring {
          FirstFreeIs(ring.Keys, v, |n.pos|, last, tries);
          ring := ring[n.last := v];
          n := n.(pos := n.pos + [n.last]);
          last, tries := n.last, 0;
          NoProbe(ring.Keys, v, |n.pos|, last);
        } else if tries > |ring| {
          ProbeBound(ring.Keys, v, |n.pos|, last);
          return false, n;
        }
      }
      returned := true;
    }

    method RemoveNode(weight: nat, n0: Node) returns (n: Node)
      modifies this`ring
      ensures (ring, n) == Removed(old(ring), weight, n0)
    {
      n := n0;
      while |n.pos| > weight
        invariant Removed(ring, weight, n) == Removed(old(ring), weight, n0)
        decreases |n.pos|
      {
        ring := ring - {n.pos[|n.pos| - 1]};
        var pos := n.pos[..|n.pos| - 1];
        n := Node(if pos == [] then 0 else pos[|pos| - 1], pos);
      }
    }
  }

  lemma Probed(ring: set<u32>, v: u32, index: nat, last: u32, tries: nat)
    requires TakenUpTo(ring, v, index, last, tries)
    ensures Probe(v, index, last, tries + 1) == HashValue(v, index, Probe(v, index, last, tries))
    ensures Probe(v, index, last, tries + 1) in ring ==> TakenUpTo(ring, v, index, last, tries + 1)
  {
  }

  lemma NoProbe(ring: set<u32>, v: u32, index: nat, last: u32)
    ensures Probe(v, index, last, 0) == last && TakenUpTo(ring, v, index, last, 0)
  {
  }

  lemma FirstFreeIs(ring: set<u32>, v: u32, index: nat, last: u32, k: nat)
    requires k >= 1 && TakenUpTo(ring, v, index, last, k - 1) && Probe(v, index, last, k) !in ring
    ensures !Hopeless(ring, v, index, last) && FirstFree(ring, v, index, last) == k
  {
    hide Probe;
    var j := FirstFree(ring, v, index, last);
    assert Probe(v, index, last, j) !in ring;
  }
}
