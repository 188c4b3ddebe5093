/** What the choice of items means for a packet: equal bytes always go out compressed, and how small. */
module QlzLaws {
  import opened Bytes
  import opened Words
  import opened QlzFormat
  import opened QlzChoice

  /** In a text of equal bytes all positions have the same hash. */
  lemma {:induction false} SameCount(src: seq<byte>, t: nat, s: nat)
    requires AllSame(src) && t <= s && s + 11 <= |src|
    ensures Count(src, t, HashAt(src, s)) == t
  {
    if t > 0 {
      SameCount(src, t - 1, s);
      assert src[t - 1..t + 3] == src[s..s + 4];
    }
  }

  lemma SameHash(src: seq<byte>, p: nat, s: nat)
    requires AllSame(src) && p <= s && s + 11 <= |src|
    ensures HashAt(src, p) == HashAt(src, s)
  {
    assert src[p..p + 4] == src[s..s + 4];
  }

  /** Remembered are as many as the counter says, sixteen at most. */
  lemma SameRemembered(src: seq<byte>, s: nat, p: nat)
    requires AllSame(src) && p <= s && s + 11 <= |src|
    ensures Remembered(src, s, p) <==> p < s && s - p <= 16 && s - p <= s % 256
  {
    hide HashAt;
    SameCount(src, s, s);
    SameCount(src, p, s);
    SameHash(src, p, s);
  }

  lemma SameFound(src: seq<byte>, s: nat, m: nat)
    requires AllSame(src) && 3 <= s && 3 <= m && s + m <= |src|
    ensures Found(src, s, s - 3, m)
  {
    assert src[s - 3..s - 3 + m] == src[s..s + m];
  }

  /** The third byte back is the best match, and 255 bytes long unless the text ends. */
  lemma SameMatch(src: seq<byte>, s: nat, x: Item)
    requires AllSame(src) && s % 256 >= 3 && Chosen(src, s, x)
    ensures x == Match(3, Remaining(src, s))
  {
    hide Remembered, Found, AllSame;
    SameRemembered(src, s, s - 3);
    SameFound(src, s, 3);
    FoundUsable(src, s);
    if x.Match? {
      SameFound(src, s, x.len);
      if x.len < Remaining(src, s) {
        SameFound(src, s, x.len + 1);
      }
      FoundFar(src, s, s - x.off, x.len);
    } else {
      var q: nat, m :| Best(src, s, q, m) && s - q >= 131071;
      SameRemembered(src, s, q);
    }
  }

  lemma FoundUsable(src: seq<byte>, s: nat)
    requires 3 <= s && s + 11 <= |src| && Found(src, s, s - 3, 3)
    ensures Usable(src, s, s - 3)
  {
  }

  lemma FoundFar(src: seq<byte>, s: nat, o: int, m: nat)
    requires Found(src, s, o, m)
    ensures o + 3 <= s
  {
  }

  /** Right after the counter wrapped, and at the start, nothing far enough back is remembered. */
  lemma SameLiteral(src: seq<byte>, s: nat, x: Item)
    requires AllSame(src) && s % 256 < 3 && Chosen(src, s, x)
    ensures x.Lit?
  {
    hide Remembered, Found, AllSame;
    if x.Match? {
      SameRemembered(src, s, s - x.off);
    }
  }

  /** Where `n` items of equal bytes end: three literals, and then by turns a match and a literal. */
  function Ends(n: nat): nat {
    if n <= 3 then n else if n % 2 == 1 then 3 + 128 * (n - 3) else 258 + 128 * (n - 4)
  }

  lemma EndsRest(n: nat)
    ensures Ends(n) % 256 == if n <= 3 then n else if n % 2 == 1 then 3 else 2
  {
    if n > 3 {
      var k := (n - 3) / 2;
      if n % 2 == 1 {
        assert Ends(n) == 256 * k + 3;
      } else {
        assert Ends(n) == 256 * k + 258;
      }
    }
  }

  /** After a literal, and after a match. */
  lemma EndsNext(n: nat)
    ensures Ends(n + 1) == Ends(n) + if Ends(n) % 256 < 3 then 1 else 255
  {
    EndsRest(n);
  }

  /** A match that ends before the last eleven bytes is a long one. */
  lemma FullLength(src: seq<byte>, s: nat)
    requires s + 11 <= |src|
    ensures s + Remaining(src, s) + 11 <= |src| ==> Remaining(src, s) == 255
  {
  }

  lemma LastItem(src: seq<byte>, xs: seq<Item>)
    requires xs != [] && Greedy(src, xs)
    ensures
      var front, x := xs[..|xs| - 1], xs[|xs| - 1];
      && Greedy(src, front) && TextSum(front) + 11 <= |src| && Chosen(src, TextSum(front), x)
      && TextSum(xs) == TextSum(front) + TextLen(x)
  {
  }

  lemma {:induction false} SameGreedy(src: seq<byte>, xs: seq<Item>)
    requires AllSame(src) && Greedy(src, xs) && TextSum(xs) + 11 <= |src|
    ensures TextSum(xs) == Ends(|xs|)
  {
    if xs != [] {
      hide Ends, TextSum, AllSame, Chosen, Greedy, Remaining;
      var n := |xs| - 1;
      var s := TextSum(xs[..n]);
      LastItem(src, xs);
      SameGreedy(src, xs[..n]);
      EndsNext(n);
      if s % 256 < 3 {
        SameLiteral(src, s, xs[n]);
      } else {
        SameMatch(src, s, xs[n]);
        FullLength(src, s);
      }
    }
  }

  /** All groups but the last, and the last. */
  lemma LastGroupSize(xs: seq<Item>, k: nat)
    requires |xs| % GROUP == 0 && k + GROUP == |xs|
    ensures k % GROUP == 0 && |Groups(xs)| == |Groups(xs[..k])| + 4 + |Payload(xs[k..])|
  {
    hide Little, Payload;
    assert xs != [] && |xs| - GROUP == k;
  }

  lemma WholeGroups(g: nat)
    ensures GROUP * g % GROUP == 0
  {
  }

  lemma {:induction false} GroupsAtMost(xs: seq<Item>, g: nat)
    requires |xs| == GROUP * g
    ensures |xs| % GROUP == 0 && |Groups(xs)| <= 128 * g
    decreases g
  {
    WholeGroups(g);
    if g > 0 {
      hide Groups, Payload;
      var k := |xs| - GROUP;
      LastGroupSize(xs, k);
      GroupsAtMost(xs[..k], g - 1);
      PayloadAtMost(xs[k..]);
    }
  }

  lemma {:induction false} PayloadAtMost(xs: seq<Item>)
    ensures |Payload(xs)| <= 4 * |xs|
  {
    if xs != [] {
      PayloadAtMost(xs[1..]);
    }
  }

  /** Full groups of equal bytes are worth it. */
  lemma SameWorth(src: seq<byte>, xs: seq<Item>)
    requires AllSame(src) && Greedy(src, xs) && xs != [] && |xs| % GROUP == 0 && TextSum(xs) + 11 <= |src|
    ensures |Groups(xs)| <= TextSum(xs) - TextSum(xs) / 32
  {
    hide Greedy, TextSum, Groups, Ends, AllSame;
    SameGreedy(src, xs);
    var g := |xs| / GROUP;
    GroupsAtMost(xs, g);
    Worthwhile(g, |Groups(xs)|);
  }

  /** Equal bytes always go out compressed. */
  lemma SameNotHopeless(src: seq<byte>)
    requires AllSame(src)
    ensures !Hopeless(src)
  {
    hide Greedy, TextSum, Groups, AllSame;
    forall xs
      ensures !GivesUp(src, xs)
    {
      if GivesUp(src, xs) {
        SameWorth(src, xs);
      }
    }
  }

  /** So few bytes save more than a thirty-second. */
  lemma Worthwhile(g: nat, bytes: nat)
    requires g >= 1 && bytes <= 128 * g
    ensures bytes <= Ends(GROUP * g) - Ends(GROUP * g) / 32
  {
    assert Ends(GROUP * g) >= 128 * (GROUP * g) - 384;
    hide Ends;
  }

  lemma BodyAtMost(xs: seq<Item>)
    requires xs != []
    ensures 31 * |Body(xs)| <= 128 * |xs| + 124
  {
    hide Groups;
    var k := LastGroup(|xs|);
    GroupsAtMost(xs[..k], k / GROUP);
    PayloadAtMost(xs[k..]);
  }

  /** `n` equal bytes make a body of at most n/31 + 70 bytes. */
  lemma SameSize(src: seq<byte>, xs: seq<Item>)
    requires AllSame(src) && Whole(src, xs) && xs != []
    ensures |Body(xs)| <= |src| / 31 + 70
  {
    hide Greedy, TextSum, Literals, Body, AllSame;
    var main :| WholeWith(src, main, xs);
    BodyAtMost(xs);
    if main != [] {
      LastItem(src, main);
      SameGreedy(src, main[..|main| - 1]);
    }
  }

  // ----- texts without repeats

  /** The first `k` bytes as literals. */
  function Plain(src: seq<byte>, k: nat): (xs: seq<Item>)
    requires k <= |src|
    ensures |xs| == k && forall i :: 0 <= i < k ==> xs[i] == Lit(src[i])
  {
    seq(k, i requires 0 <= i < k => Lit(src[i]))
  }

  lemma NothingUsable(src: seq<byte>, s: nat)
    requires NoRepeat(src, 3) && s + 11 <= |src|
    ensures Chosen(src, s, Lit(src[s]))
  {
    hide Remembered;
    forall p: nat | Remembered(src, s, p)
      ensures !Usable(src, s, p)
    {
      if p < s {
        assert !SameAt(src, p, s, 3);
      }
    }
  }

  lemma {:induction false} PlainGreedy(src: seq<byte>, k: nat)
    requires NoRepeat(src, 3) && (k > 0 ==> k + 10 <= |src|) && k <= |src|
    ensures Greedy(src, Plain(src, k)) && TextSum(Plain(src, k)) == k
  {
    if k > 0 {
      hide Chosen;
      PlainGreedy(src, k - 1);
      assert Plain(src, k)[..k - 1] == Plain(src, k - 1);
      NothingUsable(src, k - 1);
    }
  }

  ghost predicate AllLits(xs: seq<Item>) {
    forall i :: 0 <= i < |xs| ==> xs[i].Lit?
  }

  lemma LitsParts(xs: seq<Item>, k: nat)
    requires AllLits(xs) && k <= |xs|
    ensures AllLits(xs[..k]) && AllLits(xs[k..])
  {
  }

  lemma {:induction false} PlainPayload(xs: seq<Item>)
    requires AllLits(xs)
    ensures |Payload(xs)| == |xs|
  {
    if xs != [] {
      PlainPayload(xs[1..]);
    }
  }

  lemma {:induction false} PlainGroups(xs: seq<Item>, g: nat)
    requires |xs| == GROUP * g && AllLits(xs)
    ensures |xs| % GROUP == 0 && |Groups(xs)| == 35 * g
    decreases g
  {
    WholeGroups(g);
    if g > 0 {
      hide Groups, Payload, AllLits;
      var k := |xs| - GROUP;
      LastGroupSize(xs, k);
      LitsParts(xs, k);
      PlainGroups(xs[..k], g - 1);
      PlainPayload(xs[k..]);
    }
  }

  /** If no three bytes occur twice there is nothing to match, and from 84 bytes on a group ends past the middle:
      the text is stored. */
  lemma StoredPlain(src: seq<byte>)
    requires NoRepeat(src, 3) && |src| >= 84
    ensures Hopeless(src)
  {
    var g := (|src| - 11) / 31;
    var xs := Plain(src, GROUP * g);
    PlainGreedy(src, GROUP * g);
    PlainGroups(xs, g);
    hide Plain, Greedy, Groups, TextSum, NoRepeat;
    assert GivesUp(src, xs);
  }
}
