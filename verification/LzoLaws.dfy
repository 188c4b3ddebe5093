/** What the parse of a text means for its stream: when there is a match, and how small a stream gets. */
module LzoLaws {
  import opened Bytes
  import opened Words
  import opened LzoFormat
  import opened LzoParse

  // ----- the first match

  /** The first token of a block has the literals up to a position that was looked at. */
  lemma {:induction false} FirstOfBlock(src: seq<byte>, base: nat, ti: nat, end: nat, p: nat, vs: seq<Visit>)
    returns (k: nat)
    requires Scan(src, base, ti, end, vs) && p <= base
    ensures Tokens(src, p, vs) == [] ==> After(p, vs) == p && k == |vs|
    ensures Tokens(src, p, vs) != [] ==>
      k < |vs| && vs[k].len > 0 && Tokens(src, p, vs)[0].lits == Slice(src, p, vs[k].at)
    decreases |vs|
  {
    hide Next, Entry, Slice;
    k := |vs|;
    if vs != [] {
      var n := |vs| - 1;
      k := FirstOfBlock(src, base, ti, end, p, vs[..n]);
      if Tokens(src, p, vs[..n]) == [] {
        k := if vs[n].len > 0 then n else |vs|;
      }
    }
  }

  /** The first position a stream looks at is 5, and the dictionary sends it to 0. */
  lemma FirstVisit(src: seq<byte>, end: nat, vs: seq<Visit>)
    requires Scan(src, 0, 0, end, vs) && vs != []
    ensures vs[0].at == 5 && vs[0].from == 0 && Settled(src, end, vs[0])
    ensures 9 < |src| && (vs[0].len > 0 <==> src[5..9] == src[0..4])
  {
    hide Scan, HashAt, Longest;
    ScanPrefix(src, 0, 0, end, vs, 0);
    assert vs[..0] == [];
    assert Settled(src, end, vs[0]);
    SettledMatch(src, end, vs[0]);
  }

  lemma SettledMatch(src: seq<byte>, end: nat, v: Visit)
    requires Settled(src, end, v)
    ensures v.at + 20 < |src| && v.from < v.at
    ensures v.len > 0 <==> src[v.from..v.from + 4] == src[v.at..v.at + 4]
  {
  }

  lemma FirstTokens(src: seq<byte>, v: Visit)
    requires v.at == 5 && v.from == 0 && v.len > 0 && 9 < |src|
    ensures Tokens(src, 0, [v]) == [Token(src[..5], 5, v.len)]
  {
    assert [v][..0] == [];
    assert src[0..5] == src[..5];
  }

  lemma LaterVisits(src: seq<byte>, end: nat, vs: seq<Visit>, k: nat)
    requires Scan(src, 0, 0, end, vs) && 1 <= k < |vs| && vs[0].at == 5
    ensures vs[k].at > 5
  {
    hide Scan;
    ScanPrefix(src, 0, 0, end, vs, k + 1);
    assert vs[..k + 1][k] == vs[k] && vs[..k + 1][0] == vs[0];
    ScanAscends(src, 0, 0, end, vs[..k + 1], 0);
  }

  lemma {:induction false} TokensPrefix(src: seq<byte>, p: nat, vs: seq<Visit>, k: nat)
    requires k <= |vs|
    ensures Tokens(src, p, vs[..k]) <= Tokens(src, p, vs)
    decreases |vs|
  {
    if k < |vs| {
      TokensPrefix(src, p, vs[..|vs| - 1], k);
      assert vs[..|vs| - 1][..k] == vs[..k];
    } else {
      assert vs[..k] == vs;
    }
  }

  /** Blocks behind the first: no token there starts the text with five literals. */
  lemma {:induction false} LaterFirst(src: seq<byte>, bs: seq<seq<Visit>>)
    requires Parsed(src, bs) && bs != [] && bs[0] != [] && bs[0][0].len == 0
    ensures AllTokens(src, bs) == [] ==> Covered(bs) == 0
    ensures AllTokens(src, bs) != [] ==> |AllTokens(src, bs)[0].lits| != 5
    decreases |bs|
  {
    hide Scan, Tokens, After, Next;
    var n := |bs| - 1;
    var base, p, vs := BLOCK * n, Covered(bs[..n]), bs[n];
    var end := base + Size(src, base) - 20;
    var k;
    if n > 0 {
      LaterFirst(src, bs[..n]);
      k := FirstOfBlock(src, base, base - p, end, p, vs);
      if Tokens(src, p, vs) != [] && p == 0 {
        VisitIn(src, base, base - p, end, vs, k);
      }
    } else {
      assert bs[..0] == [];
      k := FirstOfBlock(src, 0, 0, end, 0, vs);
      FirstVisit(src, end, vs);
      if Tokens(src, p, vs) != [] {
        VisitIn(src, 0, 0, end, vs, k);
        if k > 0 {
          LaterVisits(src, end, vs, k);
        }
      }
    }
  }

  lemma VisitIn(src: seq<byte>, base: nat, ti: nat, end: nat, vs: seq<Visit>, k: nat)
    requires Scan(src, base, ti, end, vs) && k < |vs|
    ensures base < vs[k].at < |src| && |Slice(src, 0, vs[k].at)| == vs[k].at
  {
    ScanPrefix(src, base, ti, end, vs, k);
    ScanPrefix(src, base, ti, end, vs, k + 1);
    assert vs[..k + 1][k] == vs[k];
    ScanAscends(src, base, ti, end, vs[..k + 1], k);
  }

  /** From 32 bytes on a stream starts with five literals and a match five bytes back exactly if bytes 5 to 8
      are bytes 0 to 3. */
  lemma FirstMatch(src: seq<byte>, bs: seq<seq<Visit>>)
    requires |src| >= 32 && Complete(src, bs)
    ensures src[5..9] == src[0..4] <==> AllTokens(src, bs) != [] && |AllTokens(src, bs)[0].lits| == 5
    ensures src[5..9] == src[0..4] ==> AllTokens(src, bs)[0].lits == src[..5] && AllTokens(src, bs)[0].off == 5
  {
    hide Scan, Tokens, Next;
    assert Covered([]) == 0 && Starts(src, 0, 0);
    assert bs != [];
    ParsedPrefix(src, bs, 0);
    ParsedPrefix(src, bs, 1);
    assert bs[..0] == [] && bs[..1] == [bs[0]] && bs[..1][..0] == [];
    var vs, end := bs[0], Size(src, 0) - 20;
    assert AllTokens(src, bs[..1]) == Tokens(src, 0, vs);
    FirstStep(src, end, vs);
    FirstVisit(src, end, vs);
    if vs[0].len > 0 {
      TokensPrefix(src, 0, vs, 1);
      assert vs[..1] == [vs[0]];
      FirstTokens(src, vs[0]);
    } else {
      LaterFirst(src, bs);
    }
  }

  lemma FirstStep(src: seq<byte>, end: nat, vs: seq<Visit>)
    requires Next(0, 0, vs) >= end && end > 5
    ensures vs != []
  {
  }

  /** Whatever the dictionary and the buffer held before, a text has one stream. */
  lemma OneStream(src: seq<byte>, bs: seq<seq<Visit>>, cs: seq<seq<Visit>>, x: seq<byte>, y: seq<byte>)
    requires Complete(src, bs) && Covered(bs) <= |src| && Represents(x, AllTokens(src, bs), src[Covered(bs)..], src)
    requires Complete(src, cs) && Covered(cs) <= |src| && Represents(y, AllTokens(src, cs), src[Covered(cs)..], src)
    ensures x == y
  {
    ParsedOnce(src, bs, cs);
  }

  // ----- texts without repeats

  lemma {:induction false} NoTokens(src: seq<byte>, base: nat, ti: nat, end: nat, p: nat, vs: seq<Visit>)
    requires NoRepeat(src, 4) && Scan(src, base, ti, end, vs)
    ensures Tokens(src, p, vs) == [] && After(p, vs) == p
  {
    hide Next, Entry, Longest;
    if vs != [] {
      var v := vs[|vs| - 1];
      NoTokens(src, base, ti, end, p, vs[..|vs| - 1]);
      assert !SameAt(src, v.from, v.at, 4);
    }
  }

  lemma {:induction false} NoBlockTokens(src: seq<byte>, bs: seq<seq<Visit>>)
    requires NoRepeat(src, 4) && Parsed(src, bs)
    ensures AllTokens(src, bs) == [] && Covered(bs) == 0
  {
    hide Scan, Next, NoRepeat;
    if bs != [] {
      var n := |bs| - 1;
      NoBlockTokens(src, bs[..n]);
      var base := BLOCK * n;
      NoTokens(src, base, base, base + Size(src, base) - 20, 0, bs[n]);
    }
  }

  /** If no four bytes occur twice there is nothing to match, and the stream is the text, the end marker, and for
      more than 18 bytes a header, of one byte for up to 238 and then of a byte more for every 255. */
  lemma StoredWhole(src: seq<byte>, bs: seq<seq<Visit>>)
    requires NoRepeat(src, 4) && Complete(src, bs)
    ensures AllTokens(src, bs) == [] && Covered(bs) == 0
    ensures var n := |src|;
      |Stream([], src)| == if n == 0 then 3 else if n <= 238 then n + 4 else n + 4 + (n - 18 + 254) / 255
  {
    NoBlockTokens(src, bs);
    StoredSize(src);
  }

  // ----- texts of equal bytes

  /** A block of equal bytes is one match, as long as the search goes, at the first position looked at. */
  lemma SameBlock(src: seq<byte>, base: nat, p: nat, vs: seq<Visit>)
    requires AllSame(src) && BlockDone(src, base, p, vs)
    ensures |vs| <= 1
    ensures vs == [] ==> Size(src, base) < 26
    ensures vs != [] ==>
      && base < vs[0].at <= base + 5 && vs[0].from == base && vs[0].len > 0
      && base + Size(src, base) - 20 <= vs[0].at + vs[0].len <= base + Size(src, base) - 9
  {
    hide AllSame, Scan, Settled, Reach, HashAt;
    var end := base + Size(src, base) - 20;
    EndIsNat(src, base, p);
    if vs != [] {
      ScanPrefix(src, base, base - p, end, vs, 0);
      assert vs[..0] == [] && vs[..1] == [vs[0]];
      SameFirst(src, end, vs[0]);
      if |vs| > 1 {
        ScanPrefix(src, base, base - p, end, vs, 1);
        BeforeEnd(src, end, vs[1]);
      }
    }
  }

  lemma BeforeEnd(src: seq<byte>, end: nat, v: Visit)
    requires Settled(src, end, v)
    ensures v.at < end
  {
  }

  lemma SameFirst(src: seq<byte>, end: nat, v: Visit)
    requires AllSame(src) && Settled(src, end, v)
    ensures v.len > 0 && v.at < end <= v.at + v.len <= end + 11
  {
    assert src[v.from..v.from + 4] == src[v.at..v.at + 4];
  }

  /** The bytes of one token that covers much with few literals. */
  lemma TokenSize(ts: seq<Token>, t: Token, s: nat)
    requires Valid(ts + [t]) && s <= 3 && |t.lits| <= 25
    ensures Valid(ts) && 255 * |Encode(ts + [t], s)| <= 255 * |Encode(ts, State(|t.lits|))| + 255 * 32 + t.len
  {
    assert (ts + [t])[..|ts|] == ts;
    RunSize(t.lits);
    MatchSize(t.off, t.len, s);
  }

  lemma MatchSize(off: nat, len: nat, s: nat)
    requires 1 <= off <= M4_MAX_OFFSET && 4 <= len && s <= 3
    ensures 255 * |Code(off, len, s)| <= 255 * 5 + len
  {
    if M3_MAX_LEN < len {
      ExtSize(len - M3_MAX_LEN);
    }
    if M4_MAX_LEN < len {
      ExtSize(len - M4_MAX_LEN);
    }
  }

  /** After any number of blocks of equal bytes the text is covered to within 20 bytes of the end of the last
      one that is long enough to be looked at. */
  lemma {:induction false} SameCovered(src: seq<byte>, bs: seq<seq<Visit>>)
    requires AllSame(src) && Parsed(src, bs)
    ensures Covered(bs) <= |src| && Covered(bs) <= BLOCK * |bs|
    ensures bs != [] ==> BLOCK * (|bs| - 1) + 20 < |src| && BLOCK * (|bs| - 1) <= Covered(bs) + 20
    ensures bs != [] && |src| >= BLOCK * (|bs| - 1) + 26 ==>
      Covered(bs) + 20 >= |src| || Covered(bs) + 20 >= BLOCK * |bs|
  {
    hide Scan, Next, AllSame;
    if bs != [] {
      var n := |bs| - 1;
      var p, vs := Covered(bs[..n]), bs[n];
      SameCovered(src, bs[..n]);
      SameBlock(src, BLOCK * n, p, vs);
      if vs != [] {
        assert After(p, vs) == vs[0].at + vs[0].len;
      }
    }
  }

  /** What one such block adds to the tokens. */
  lemma SameTokens(src: seq<byte>, base: nat, p: nat, vs: seq<Visit>)
    requires AllSame(src) && BlockDone(src, base, p, vs) && base <= p + 20
    ensures vs == [] ==> Tokens(src, p, vs) == [] && After(p, vs) == p
    ensures vs != [] ==>
      && |Tokens(src, p, vs)| == 1 && |Tokens(src, p, vs)[0].lits| <= 25
      && p + Tokens(src, p, vs)[0].len <= After(p, vs)
  {
    hide AllSame, Scan, Next;
    SameBlock(src, base, p, vs);
    if vs != [] {
      assert vs[..0] == [];
    }
  }

  lemma LastBlock(src: seq<byte>, bs: seq<seq<Visit>>)
    requires Parsed(src, bs) && bs != []
    ensures
      var n := |bs| - 1;
      var p := Covered(bs[..n]);
      && Parsed(src, bs[..n]) && BlockDone(src, BLOCK * n, p, bs[n]) && Covered(bs) == After(p, bs[n])
      && AllTokens(src, bs) == AllTokens(src, bs[..n]) + Tokens(src, p, bs[n])
  {
  }

  /** At most one token a block, and few bytes in each. */
  lemma {:induction false} SameParsed(src: seq<byte>, bs: seq<seq<Visit>>, s: nat)
    requires AllSame(src) && Parsed(src, bs) && Valid(AllTokens(src, bs)) && s <= 3
    ensures 255 * |Encode(AllTokens(src, bs), s)| <= 8160 * |bs| + Covered(bs)
    decreases |bs|
  {
    if bs == [] {
      NoBytes(s);
    } else {
      hide *;
      LastBlock(src, bs);
      var n := |bs| - 1;
      var front, vs := bs[..n], bs[n];
      var p, ts, more := Covered(front), AllTokens(src, front), Tokens(src, Covered(front), vs);
      PrefixValid(AllTokens(src, bs), ts);
      SameCovered(src, front);
      SameTokens(src, BLOCK * n, p, vs);
      if vs == [] {
        SameParsed(src, front, s);
        assert ts + more == ts;
      } else {
        assert more == [more[0]];
        TokenSize(ts, more[0], s);
        StateSmall(|more[0].lits|);
        SameParsed(src, front, State(|more[0].lits|));
      }
    }
  }

  lemma StateSmall(n: nat)
    ensures State(n) <= 3
  {
  }

  lemma NoBytes(s: nat)
    requires s <= 3
    ensures Valid([]) && Encode([], s) == []
  {
  }

  lemma PrefixValid(ts: seq<Token>, front: seq<Token>)
    requires Valid(ts) && front <= ts
    ensures Valid(front)
  {
    ValidPrefix(ts, |front|);
    assert ts[..|front|] == front;
  }

  lemma TailSmall(src: seq<byte>, bs: seq<seq<Visit>>)
    requires AllSame(src) && Complete(src, bs)
    ensures Covered(bs) <= |src| <= Covered(bs) + 51
    ensures bs != [] ==> BLOCK * (|bs| - 1) + 20 < |src|
  {
    hide Parsed, AllSame;
    SameCovered(src, bs);
  }

  lemma StreamParts(ts: seq<Token>, tail: seq<byte>)
    requires Valid(ts) && |tail| <= 51
    ensures State(|tail|) <= 3 && |Stream(ts, tail)| <= |Encode(ts, State(|tail|))| + |tail| + 5
  {
    hide Encode, Run;
    RunSize(tail);
  }

  /** `n` equal bytes take at most n/200 + 100 bytes. */
  lemma RepeatSize(src: seq<byte>, bs: seq<seq<Visit>>)
    requires AllSame(src) && Complete(src, bs) && Valid(AllTokens(src, bs))
    ensures Covered(bs) <= |src| && |Stream(AllTokens(src, bs), src[Covered(bs)..])| <= |src| / 200 + 100
  {
    TailSmall(src, bs);
    var tail := src[Covered(bs)..];
    StreamParts(AllTokens(src, bs), tail);
    SameParsed(src, bs, State(|tail|));
    Adds(|src|, |bs|, Covered(bs), |Encode(AllTokens(src, bs), State(|tail|))|, |tail|);
  }

  lemma Adds(n: nat, blocks: nat, covered: nat, e: nat, t: nat)
    requires 255 * e <= 8160 * blocks + covered && covered <= n && t <= 51
    requires blocks > 0 ==> BLOCK * (blocks - 1) + 20 < n
    ensures e + t + 5 <= n / 200 + 100
  {
  }
}
