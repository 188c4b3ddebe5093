/** What QuickLZ level 3 makes of a text: the earlier positions it remembers, the match it takes, and when it
    gives the compression up. */
module QlzChoice {
  import opened Bytes
  import opened Words
  import opened QlzFormat

  const HASH_VALUES: nat := 4096
  const POINTERS: nat := 16

  /** Twelve bits of three bytes; the fourth byte read with them does not matter. */
  function HashFunc(fetch: nat): (h: nat)
    ensures h < HASH_VALUES
  {
    Xor(fetch / 0x1000, fetch) % 0x1000
  }

  /** It is the exclusive or of the lowest twelve bits and the twelve above them. */
  lemma HashParts(low: nat, high: nat, rest: nat)
    requires low < 0x1000 && high < 0x1000
    ensures HashFunc(low + 0x1000 * high + 0x100_0000 * rest) == Xor(high, low)
  {
    var f, q := low + 0x1000 * high + 0x100_0000 * rest, high + 0x1000 * rest;
    TwelveBits();
    hide Xor, Pow2;
    DivMod(f, 0x1000, q, low);
    XorLow(high, rest, low, q, 12);
    XorBound(high, low, 12);
    DivMod(Xor(q, f), 0x1000, Xor(rest, q), Xor(high, low));
  }

  lemma TwelveBits()
    ensures Pow2(12) == 0x1000
  {
    Pow2Four(0);
    Pow2Four(4);
    Pow2Four(8);
  }

  /** The lowest `k` bits of an exclusive or. */
  lemma {:induction false} XorLow(a: nat, p: nat, b: nat, q: nat, k: nat)
    requires a < Pow2(k) && b < Pow2(k)
    ensures Xor(a + Pow2(k) * p, b + Pow2(k) * q) == Xor(a, b) + Pow2(k) * Xor(p, q)
  {
    hide Xor;
    if k == 0 {
      XorZero(0, 0);
    } else {
      var m := Pow2(k - 1);
      XorLow(a / 2, p, b / 2, q, k - 1);
      hide Pow2;
      Doubled(m, p);
      Doubled(m, q);
      Doubled(m, Xor(p, q));
      XorStep(a, m * p, b, m * q, m * Xor(p, q));
    }
  }

  lemma Doubled(m: nat, p: nat)
    ensures 2 * m * p == 2 * (m * p) && m * p >= 0
  {
  }

  lemma XorStep(a: nat, x: nat, b: nat, y: nat, z: nat)
    requires Xor(a / 2 + x, b / 2 + y) == Xor(a / 2, b / 2) + z
    ensures Xor(a + 2 * x, b + 2 * y) == Xor(a, b) + 2 * z
  {
    hide Xor;
    assert (a + 2 * x) / 2 == a / 2 + x && (b + 2 * y) / 2 == b / 2 + y;
    XorUnfold(a + 2 * x, b + 2 * y);
    XorUnfold(a, b);
    SameParity(a + b, a + 2 * x + (b + 2 * y), x + y);
    assert (Xor(a, b) + 2 * z) / 2 == Xor(a, b) / 2 + z;
    SameHalves(Xor(a + 2 * x, b + 2 * y), Xor(a, b) + 2 * z);
  }

  lemma SameParity(a: nat, b: nat, d: nat)
    requires b == a + 2 * d
    ensures a % 2 == b % 2
  {
  }

  function Fetch(src: seq<byte>, p: nat): nat
    requires p + 4 <= |src|
  {
    Get(src[p..p + 4])
  }

  function HashAt(src: seq<byte>, p: nat): (h: nat)
    ensures h < HASH_VALUES
  {
    if p + 4 <= |src| then HashFunc(Fetch(src, p)) else 0
  }

  // ----- one match

  ghost predicate Found(src: seq<byte>, s: nat, o: int, m: nat) {
    && 0 <= o && o + MIN_OFFSET <= s && 3 <= m && s + m <= |src|
    && src[o..o + m] == src[s..s + m]
  }

  /** How far a match may reach: 255 bytes, and not into the last four. */
  function Remaining(src: seq<byte>, s: nat): nat
    requires s + 11 <= |src|
  {
    if |src| - 4 - s > 255 then 255 else |src| - 4 - s
  }

  /** Up to the last four bytes, unless that is more than 255. */
  lemma RemainingIs(src: seq<byte>, s: nat)
    requires s + 11 <= |src|
    ensures 7 <= Remaining(src, s) <= 255
    ensures s + Remaining(src, s) + 4 == |src| || (Remaining(src, s) == 255 && s + 259 < |src|)
  {
  }

  /** A way can be used if it is more than two bytes back and three bytes agree. */
  predicate Usable(src: seq<byte>, s: nat, p: int)
    requires s + 11 <= |src|
  {
    0 <= p < s - 2 && src[p..p + 3] == src[s..s + 3]
  }

  /** The match at `o` is as long as it can be, and the one at `p` is not longer, nor as long and nearer. */
  ghost predicate Beats(src: seq<byte>, s: nat, o: int, m: nat, p: int)
    requires s + 11 <= |src|
  {
    && (m < Remaining(src, s) ==> !Found(src, s, p, m + 1))
    && (Found(src, s, p, m) ==> p <= o)
  }

  lemma Shorter(src: seq<byte>, s: nat, p: int, m: nat, less: nat)
    requires Found(src, s, p, m) && 3 <= less <= m
    ensures Found(src, s, p, less)
  {
    assert src[p..p + less] == src[p..p + m][..less];
    assert src[s..s + less] == src[s..s + m][..less];
  }

  // ----- what is remembered

  /** How many positions before `s` have hash `h`. */
  function Count(src: seq<byte>, s: nat, h: nat): nat {
    if s == 0 then 0 else Count(src, s - 1, h) + if HashAt(src, s - 1) == h then 1 else 0
  }

  lemma {:induction false} CountUp(src: seq<byte>, p: nat, s: nat, h: nat)
    requires p <= s
    ensures Count(src, p, h) <= Count(src, s, h)
    ensures p < s && HashAt(src, p) == h ==> Count(src, p, h) < Count(src, s, h)
  {
    hide HashAt;
    if p < s {
      CountUp(src, p, s - 1, h);
    }
  }

  /** The position that was the `r`-th with hash `h`. */
  lemma {:induction false} RankAt(src: seq<byte>, s: nat, h: nat, r: nat) returns (p: nat)
    requires r < Count(src, s, h)
    ensures p < s && HashAt(src, p) == h && Count(src, p, h) == r
  {
    hide HashAt;
    if r < Count(src, s - 1, h) {
      p := RankAt(src, s - 1, h, r);
    } else {
      p := s - 1;
    }
  }

  /** `p` is one of the last sixteen positions before `s` with the hash of `s`; if the number of those before,
      modulo 256, is less than sixteen, one of the last so many. */
  predicate Remembered(src: seq<byte>, s: nat, p: nat) {
    var h := HashAt(src, s);
    && p < s && HashAt(src, p) == h
    && Count(src, s, h) - Count(src, p, h) <= 16
    && Count(src, s, h) - Count(src, p, h) <= Count(src, s, h) % 256
  }

  /** The longest match with a remembered position, and the nearest of those. */
  ghost predicate Best(src: seq<byte>, s: nat, p: nat, m: nat)
    requires s + 11 <= |src|
  {
    && Remembered(src, s, p) && Usable(src, s, p)
    && Found(src, s, p, m) && 3 <= m <= Remaining(src, s)
    && forall q: nat :: Remembered(src, s, q) && Usable(src, s, q) ==> Beats(src, s, p, m, q)
  }

  /** What goes out for position `s`: the best match if it is less than 131071 bytes back, a literal otherwise. */
  ghost predicate Chosen(src: seq<byte>, s: nat, x: Item) {
    && s + 11 <= |src|
    && match x
       case Match(off, len) => off <= s && off < 131071 && Best(src, s, s - off, len)
       case Lit(b) =>
         && b == src[s]
         && ((forall p: nat :: Remembered(src, s, p) ==> !Usable(src, s, p))
             || exists p: nat, m :: Best(src, s, p, m) && s - p >= 131071)
  }

  lemma BestNotLonger(src: seq<byte>, s: nat, p: nat, m: nat, q: nat, n: nat)
    requires s + 11 <= |src| && Best(src, s, p, m) && Best(src, s, q, n)
    ensures m >= n && (m == n ==> q <= p)
  {
    hide Remembered, Usable, Found;
    assert Beats(src, s, p, m, q);
    if m < n {
      Shorter(src, s, q, n, m + 1);
    }
  }

  lemma BestOnce(src: seq<byte>, s: nat, p: nat, m: nat, q: nat, n: nat)
    requires s + 11 <= |src| && Best(src, s, p, m) && Best(src, s, q, n)
    ensures p == q && m == n
  {
    hide Best;
    BestNotLonger(src, s, p, m, q, n);
    BestNotLonger(src, s, q, n, p, m);
  }

  /** There is one thing to do at a position. */
  lemma ChosenOnce(src: seq<byte>, s: nat, x: Item, y: Item)
    requires Chosen(src, s, x) && Chosen(src, s, y)
    ensures x == y
  {
    if x.Match? {
      MatchOnce(src, s, x, y);
    } else if y.Match? {
      MatchOnce(src, s, y, x);
    }
  }

  lemma BestIsThere(src: seq<byte>, s: nat, p: nat, m: nat)
    requires s + 11 <= |src| && Best(src, s, p, m)
    ensures Remembered(src, s, p) && Usable(src, s, p)
  {
  }

  lemma MatchOnce(src: seq<byte>, s: nat, x: Item, y: Item)
    requires Chosen(src, s, x) && Chosen(src, s, y) && x.Match?
    ensures x == y
  {
    var p := s - x.off;
    BestIsThere(src, s, p, x.len);
    hide Best, Remembered, Usable;
    if y.Match? {
      BestOnce(src, s, p, x.len, s - y.off, y.len);
    } else {
      var q: nat, m :| Best(src, s, q, m) && s - q >= 131071;
      BestOnce(src, s, p, x.len, q, m);
    }
  }

  // ----- the items of a text

  /** Chosen item by item from the start of the text. */
  ghost predicate Greedy(src: seq<byte>, xs: seq<Item>) {
    xs == [] ||
    var front := xs[..|xs| - 1];
    Greedy(src, front) && Chosen(src, TextSum(front), xs[|xs| - 1])
  }

  lemma GreedyNext(src: seq<byte>, xs: seq<Item>, x: Item)
    requires Greedy(src, xs) && Chosen(src, TextSum(xs), x)
    ensures Greedy(src, xs + [x])
  {
    assert (xs + [x])[..|xs|] == xs;
  }

  lemma {:induction false} GreedyAgree(src: seq<byte>, xs: seq<Item>, ys: seq<Item>)
    requires Greedy(src, xs) && Greedy(src, ys) && |xs| <= |ys|
    ensures xs == ys[..|xs|]
    decreases |ys|
  {
    hide Chosen, TextSum;
    if |xs| < |ys| {
      GreedyAgree(src, xs, ys[..|ys| - 1]);
      assert ys[..|ys| - 1][..|xs|] == ys[..|xs|];
    } else if xs != [] {
      var n := |xs| - 1;
      GreedyAgree(src, xs[..n], ys[..n]);
      assert ys[..n][..n] == ys[..n];
      ChosenOnce(src, TextSum(xs[..n]), xs[n], ys[n]);
      assert xs == xs[..n] + [xs[n]] && ys == ys[..n] + [ys[n]];
    }
  }

  lemma {:induction false} PrefixSum(xs: seq<Item>, k: nat)
    requires k <= |xs|
    ensures TextSum(xs[..k]) <= TextSum(xs)
  {
    TextSumAppend(xs[..k], xs[k..]);
    SplitSeq(xs, k);
  }

  /** Full groups, chosen item by item, that end past the middle and before the last eleven bytes and have not
      saved a thirty-second. */
  ghost predicate GivesUp(src: seq<byte>, xs: seq<Item>) {
    && xs != [] && |xs| % GROUP == 0 && Greedy(src, xs)
    && var s := TextSum(xs);
       s + 11 <= |src| && s > |src| / 2 && |Groups(xs)| > s - s / 32
  }

  /** There is such a list: the text is stored as it is. */
  ghost predicate Hopeless(src: seq<byte>) {
    exists xs :: GivesUp(src, xs)
  }

  /** No group closed so far has been a reason to give up. */
  ghost predicate NotYet(src: seq<byte>, closed: seq<Item>) {
    forall k :: 0 < k <= |closed| && k % GROUP == 0 ==> !GivesUp(src, closed[..k])
  }

  lemma NotYetMore(src: seq<byte>, closed: seq<Item>, open: seq<Item>)
    requires NotYet(src, closed) && |closed| % GROUP == 0 && |open| == GROUP && !GivesUp(src, closed + open)
    ensures NotYet(src, closed + open)
  {
    var xs := closed + open;
    forall k | 0 < k <= |xs| && k % GROUP == 0
      ensures !GivesUp(src, xs[..k])
    {
      if k <= |closed| {
        assert xs[..k] == closed[..k];
      } else {
        assert k == |xs| && xs[..k] == xs;
      }
    }
  }

  /** Once no position is left to choose at, there is no other list either. */
  lemma NeverHopeless(src: seq<byte>, closed: seq<Item>, open: seq<Item>)
    requires |closed| % GROUP == 0 && |open| <= GROUP && NotYet(src, closed)
    requires Greedy(src, closed + open) && |src| < TextSum(closed + open) + 11
    ensures !Hopeless(src)
  {
    hide GivesUp;
    forall ys
      ensures !GivesUp(src, ys)
    {
      if GivesUp(src, ys) {
        hide Greedy, TextSum;
        AmongClosed(src, closed, open, ys);
      }
    }
  }

  lemma AmongClosed(src: seq<byte>, closed: seq<Item>, open: seq<Item>, ys: seq<Item>)
    requires |closed| % GROUP == 0 && |open| <= GROUP && GivesUp(src, ys)
    requires Greedy(src, closed + open) && |src| < TextSum(closed + open) + 11
    ensures 0 < |ys| <= |closed| && |ys| % GROUP == 0 && ys == closed[..|ys|]
  {
    hide Greedy, TextSum, GivesUp;
    OnTheWay(src, closed + open, ys);
    GroupsBelow(|ys|, |closed|, |open|);
    assert (closed + open)[..|ys|] == closed[..|ys|];
  }

  /** Whole groups that end before the last one does. */
  lemma GroupsBelow(n: nat, closed: nat, open: nat)
    requires n % GROUP == 0 && closed % GROUP == 0 && open <= GROUP
    ensures n < closed + open ==> n <= closed
  {
    var q, r := n / GROUP, closed / GROUP;
    assert n == GROUP * q && closed == GROUP * r;
  }

  lemma OnTheWay(src: seq<byte>, xs: seq<Item>, ys: seq<Item>)
    requires Greedy(src, xs) && |src| < TextSum(xs) + 11 && GivesUp(src, ys)
    ensures 0 < |ys| < |xs| && |ys| % GROUP == 0 && ys == xs[..|ys|]
  {
    hide Greedy, TextSum, Groups;
    if |xs| <= |ys| {
      GreedyAgree(src, xs, ys);
      PrefixSum(ys, |xs|);
    } else {
      GreedyAgree(src, ys, xs);
    }
  }

  function Literals(src: seq<byte>, s: nat): (xs: seq<Item>)
    requires s <= |src|
    ensures |xs| == |src| - s
  {
    seq(|src| - s, i requires 0 <= i < |src| - s => Lit(src[s + i]))
  }

  lemma LiteralsNext(src: seq<byte>, s: nat)
    requires s < |src|
    ensures Literals(src, s) == [Lit(src[s])] + Literals(src, s + 1)
  {
  }

  /** All items of a text: chosen up to its last ten bytes or fewer, which are literals. */
  ghost predicate Whole(src: seq<byte>, xs: seq<Item>) {
    exists main :: WholeWith(src, main, xs)
  }

  ghost predicate WholeWith(src: seq<byte>, main: seq<Item>, xs: seq<Item>) {
    Greedy(src, main) && TextSum(main) <= |src| < TextSum(main) + 11 && xs == main + Literals(src, TextSum(main))
  }

  /** A text has one list of items. */
  lemma WholeOnce(src: seq<byte>, xs: seq<Item>, ys: seq<Item>)
    requires Whole(src, xs) && Whole(src, ys)
    ensures xs == ys
  {
    var m :| WholeWith(src, m, xs);
    var n :| WholeWith(src, n, ys);
    if |m| <= |n| {
      MainOnce(src, m, n);
    } else {
      MainOnce(src, n, m);
    }
  }

  lemma MainOnce(src: seq<byte>, m: seq<Item>, n: seq<Item>)
    requires Greedy(src, m) && Greedy(src, n) && |m| <= |n| && |src| < TextSum(m) + 11
    ensures m == n
  {
    hide TextSum, Greedy;
    GreedyAgree(src, m, n);
    if |m| < |n| {
      GreedyRoom(src, n, |m|);
    }
  }

  lemma {:induction false} GreedyRoom(src: seq<byte>, xs: seq<Item>, k: nat)
    requires Greedy(src, xs) && k < |xs|
    ensures TextSum(xs[..k]) + 11 <= |src|
    decreases |xs|
  {
    hide TextSum;
    if k < |xs| - 1 {
      GreedyRoom(src, xs[..|xs| - 1], k);
      assert xs[..|xs| - 1][..k] == xs[..k];
    }
  }

  /** Where the last group of `n` items starts. */
  function LastGroup(n: nat): (k: nat)
    requires n > 0
    ensures k % GROUP == 0 && k < n <= k + GROUP
  {
    (n - 1) / GROUP * GROUP
  }

  /** The bytes of a body: full groups, and a last one with one to thirty-one items. */
  ghost function Body(xs: seq<Item>): seq<byte>
    requires xs != []
  {
    Groups(xs[..LastGroup(|xs|)]) + GroupBytes(xs[LastGroup(|xs|)..])
  }

  lemma BodyIs(closed: seq<Item>, open: seq<Item>)
    requires |closed| % GROUP == 0 && 1 <= |open| <= GROUP
    ensures Body(closed + open) == Groups(closed) + GroupBytes(open)
  {
    hide Groups, GroupBytes, LastGroup;
    var xs := closed + open;
    GroupsBelow(|closed|, LastGroup(|xs|), |xs| - LastGroup(|xs|));
    GroupsBelow(LastGroup(|xs|), |closed|, |open|);
    assert xs[..|closed|] == closed && xs[|closed|..] == open;
  }
}
