/** Which tokens lzo1x_1_compress makes of a text: the positions it looks at, what the dictionary has for
    them, and what that means for the stream. */
module LzoParse {
  import opened Bytes
  import opened Words
  import opened LzoFormat

  const BLOCK: nat := 49152
  const DICT_SIZE: nat := 0x4000

  /** The multiplicative hash of four bytes. */
  function Dindex(dv: nat): (d: nat)
    ensures d < DICT_SIZE
  {
    0x1824429d * dv % 0x1_0000_0000 / 0x4_0000 % 0x4000
  }

  /** It is the fourteen bits from bit 18 on of the 32-bit product. */
  lemma DindexBits(dv: nat, high: nat, d: nat, low: nat)
    requires 0x1824429d * dv == high * 0x1_0000_0000 + d * 0x4_0000 + low && d < 0x4000 && low < 0x4_0000
    ensures Dindex(dv) == d
  {
    DivMod(0x1824429d * dv, 0x1_0000_0000, high, d * 0x4_0000 + low);
    DivMod(d * 0x4_0000 + low, 0x4_0000, d, low);
  }

  function HashAt(src: seq<byte>, p: nat): nat {
    if p + 4 <= |src| then Dindex(Get(src[p..p + 4])) else 0
  }

  // ----- one block

  /** One position looked at, what the dictionary had for it, and how long the match was; 0 for none. */
  datatype Visit = Visit(at: nat, from: nat, len: nat)

  /** The last position looked at that has this hash, or the start of the block. */
  function Entry(src: seq<byte>, base: nat, vs: seq<Visit>, h: nat): nat {
    if vs == [] then base
    else if HashAt(src, vs[|vs| - 1].at) == h then vs[|vs| - 1].at
    else Entry(src, base, vs[..|vs| - 1], h)
  }

  /** The end of the last match, or `p`. */
  function After(p: nat, vs: seq<Visit>): nat {
    if vs == [] then p
    else if vs[|vs| - 1].len > 0 then vs[|vs| - 1].at + vs[|vs| - 1].len
    else After(p, vs[..|vs| - 1])
  }

  /** Where it looks next: right behind a match; otherwise one byte on and one more for every 32 since the last
      match or the start of the block. The first literal of a stream's first four is never looked at. */
  function Next(base: nat, ti: nat, vs: seq<Visit>): int {
    if vs == [] then base + (if ti < 4 then 4 - ti else 0) + 1
    else
      var v := vs[|vs| - 1];
      if v.len > 0 then v.at + v.len else v.at + 1 + (v.at - After(base, vs)) / 32
  }

  /** The longest match the search can report: words of eight bytes behind the first four, until one ends at
      the end of the search or behind it. */
  function Reach(at: nat, end: nat): nat
    requires at < end
  {
    var words := (end - at + 3) / 8;
    4 + 8 * if words < 1 then 1 else words
  }

  /** All bytes agree up to the first difference or as far as the search goes. */
  ghost predicate Longest(src: seq<byte>, from: nat, at: nat, len: nat, end: nat)
    requires from < at < end && end + 20 <= |src|
  {
    && 4 <= len <= Reach(at, end) && src[at..at + len] == src[from..from + len]
    && (len == Reach(at, end) || src[at + len] != src[from + len])
  }

  /** A match exactly if four bytes agree with those the dictionary has. */
  ghost predicate Settled(src: seq<byte>, end: nat, v: Visit) {
    && v.from < v.at < end && end + 20 <= |src|
    && if src[v.from..v.from + 4] == src[v.at..v.at + 4] then Longest(src, v.from, v.at, v.len, end) else v.len == 0
  }

  ghost predicate Scan(src: seq<byte>, base: nat, ti: nat, end: nat, vs: seq<Visit>) {
    vs == [] ||
    var rest, v := vs[..|vs| - 1], vs[|vs| - 1];
    && Scan(src, base, ti, end, rest)
    && v.at == Next(base, ti, rest) && v.from == Entry(src, base, rest, HashAt(src, v.at))
    && Settled(src, end, v)
  }

  function Slice(src: seq<byte>, from: nat, to: nat): seq<byte> {
    if from <= to <= |src| then src[from..to] else []
  }

  /** The tokens of the matches, the literals of the first one from `p` on. */
  function Tokens(src: seq<byte>, p: nat, vs: seq<Visit>): seq<Token> {
    if vs == [] then []
    else
      var rest, v := vs[..|vs| - 1], vs[|vs| - 1];
      if v.len == 0 || v.at < v.from then Tokens(src, p, rest)
      else Tokens(src, p, rest) + [Token(Slice(src, After(p, rest), v.at), v.at - v.from, v.len)]
  }

  /** One position more. */
  lemma OneMore(src: seq<byte>, base: nat, ti: nat, end: nat, vs: seq<Visit>, v: Visit, p: nat)
    requires Scan(src, base, ti, end, vs)
    requires v.at == Next(base, ti, vs) && v.from == Entry(src, base, vs, HashAt(src, v.at)) && Settled(src, end, v)
    ensures Scan(src, base, ti, end, vs + [v])
    ensures After(p, vs + [v]) == if v.len > 0 then v.at + v.len else After(p, vs)
    ensures Next(base, ti, vs + [v]) == if v.len > 0 then v.at + v.len else v.at + 1 + (v.at - After(base, vs)) / 32
    ensures Tokens(src, p, vs + [v])
         == Tokens(src, p, vs) + if v.len > 0 then [Token(Slice(src, After(p, vs), v.at), v.at - v.from, v.len)] else []
  {
    hide Entry, HashAt, Slice, Longest;
    assert (vs + [v])[..|vs|] == vs;
  }

  lemma EntryMore(src: seq<byte>, base: nat, vs: seq<Visit>, v: Visit, h: nat)
    ensures Entry(src, base, vs + [v], h) == if HashAt(src, v.at) == h then v.at else Entry(src, base, vs, h)
  {
    assert (vs + [v])[..|vs|] == vs;
  }

  lemma {:induction false} ScanPrefix(src: seq<byte>, base: nat, ti: nat, end: nat, vs: seq<Visit>, k: nat)
    requires Scan(src, base, ti, end, vs) && k <= |vs|
    ensures Scan(src, base, ti, end, vs[..k])
    ensures k < |vs| ==>
      && vs[k].at == Next(base, ti, vs[..k]) && vs[k].from == Entry(src, base, vs[..k], HashAt(src, vs[k].at))
      && Settled(src, end, vs[k])
    decreases |vs|
  {
    hide Next, Entry, Settled;
    if k < |vs| - 1 {
      ScanPrefix(src, base, ti, end, vs[..|vs| - 1], k);
      assert vs[..|vs| - 1][..k] == vs[..k];
    } else if k == |vs| {
      assert vs[..k] == vs;
    }
  }

  /** The positions go up, from the first one on. */
  lemma {:induction false} ScanAscends(src: seq<byte>, base: nat, ti: nat, end: nat, vs: seq<Visit>, k: nat)
    requires Scan(src, base, ti, end, vs) && k < |vs|
    ensures base < vs[k].at <= vs[|vs| - 1].at && (k < |vs| - 1 ==> vs[k].at < vs[|vs| - 1].at)
    ensures After(base, vs) <= vs[|vs| - 1].at + vs[|vs| - 1].len
    decreases |vs|
  {
    hide Entry, Settled;
    var n := |vs| - 1;
    if n > 0 {
      ScanAscends(src, base, ti, end, vs[..n], if k < n then k else n - 1);
    }
  }

  /** What the dictionary has: of the positions looked at before, the last with the same hash. */
  lemma {:induction false} EntryLatest(src: seq<byte>, base: nat, ti: nat, end: nat, vs: seq<Visit>, h: nat, k: nat)
    requires Scan(src, base, ti, end, vs) && k < |vs| && HashAt(src, vs[k].at) == h
    ensures vs[k].at <= Entry(src, base, vs, h)
    ensures exists j :: 0 <= j < |vs| && vs[j].at == Entry(src, base, vs, h) && HashAt(src, vs[j].at) == h
    decreases |vs|
  {
    hide HashAt, Settled, Next;
    var n := |vs| - 1;
    if HashAt(src, vs[n].at) == h {
      LaterAt(src, base, ti, end, vs, k);
    } else {
      EntryLatest(src, base, ti, end, vs[..n], h, k);
      var j :| 0 <= j < n && vs[..n][j].at == Entry(src, base, vs[..n], h) && HashAt(src, vs[..n][j].at) == h;
      assert vs[j].at == Entry(src, base, vs, h);
    }
  }

  lemma LaterAt(src: seq<byte>, base: nat, ti: nat, end: nat, vs: seq<Visit>, k: nat)
    requires Scan(src, base, ti, end, vs) && k < |vs|
    ensures vs[k].at <= vs[|vs| - 1].at
  {
    ScanAscends(src, base, ti, end, vs, k);
  }

  /** How it hurries on where nothing matches: for the first 32 bytes after a match or the start of the block it
      looks at every position, for the next 32 at every other, and so on. */
  lemma Hurries(src: seq<byte>, base: nat, ti: nat, end: nat, vs: seq<Visit>, k: nat)
    requires Scan(src, base, ti, end, vs) && 1 <= k < |vs| && vs[k - 1].len == 0
    ensures After(base, vs[..k]) <= vs[k - 1].at
    ensures
      var run, step: int := vs[k - 1].at - After(base, vs[..k]), vs[k].at - vs[k - 1].at;
      32 * (step - 1) <= run < 32 * step
  {
    hide Entry, Settled;
    ScanPrefix(src, base, ti, end, vs, k);
    assert vs[..k][k - 1] == vs[k - 1];
    ScanAscends(src, base, ti, end, vs[..k], k - 1);
  }

  // ----- the text determines the tokens

  lemma AgreeAt(src: seq<byte>, from: nat, at: nat, n: nat, x: nat)
    requires x < n && from + n <= |src| && at + n <= |src| && src[at..at + n] == src[from..from + n]
    ensures src[at + x] == src[from + x]
  {
    assert src[at..at + n][x] == src[at + x] && src[from..from + n][x] == src[from + x];
  }

  lemma LongestOnce(src: seq<byte>, from: nat, at: nat, x: nat, y: nat, end: nat)
    requires from < at < end && end + 20 <= |src| && Longest(src, from, at, x, end) && Longest(src, from, at, y, end)
    ensures x >= y
  {
    if x < y {
      AgreeAt(src, from, at, y, x);
    }
  }

  lemma SettledOnce(src: seq<byte>, end: nat, v: Visit, w: Visit)
    requires Settled(src, end, v) && Settled(src, end, w) && v.at == w.at && v.from == w.from
    ensures v == w
  {
    if src[v.from..v.from + 4] == src[v.at..v.at + 4] {
      LongestOnce(src, v.from, v.at, v.len, w.len, end);
      LongestOnce(src, v.from, v.at, w.len, v.len, end);
    }
  }

  lemma {:induction false} ScansAgree(src: seq<byte>, base: nat, ti: nat, end: nat, vs: seq<Visit>, ws: seq<Visit>)
    requires Scan(src, base, ti, end, vs) && Scan(src, base, ti, end, ws) && |vs| <= |ws|
    ensures vs == ws[..|vs|]
    decreases |ws|
  {
    hide Next, Entry, Settled;
    if |vs| < |ws| {
      ScansAgree(src, base, ti, end, vs, ws[..|ws| - 1]);
      assert ws[..|ws| - 1][..|vs|] == ws[..|vs|];
    } else if vs != [] {
      var n := |vs| - 1;
      ScansAgree(src, base, ti, end, vs[..n], ws[..n]);
      assert ws[..n][..n] == ws[..n];
      SettledOnce(src, end, vs[n], ws[n]);
      assert vs == vs[..n] + [vs[n]] && ws == ws[..n] + [ws[n]];
    }
  }

  lemma ScanOnce(src: seq<byte>, base: nat, ti: nat, end: nat, vs: seq<Visit>, ws: seq<Visit>)
    requires Scan(src, base, ti, end, vs) && Scan(src, base, ti, end, ws) && |vs| <= |ws|
    requires Next(base, ti, vs) >= end
    ensures vs == ws
  {
    hide Next, Scan;
    ScansAgree(src, base, ti, end, vs, ws);
    if |vs| < |ws| {
      ScanPrefix(src, base, ti, end, ws, |vs|);
    }
  }

  // ----- the blocks

  /** Up to where the text is covered by tokens. */
  function Covered(bs: seq<seq<Visit>>): nat {
    if bs == [] then 0 else After(Covered(bs[..|bs| - 1]), bs[|bs| - 1])
  }

  function AllTokens(src: seq<byte>, bs: seq<seq<Visit>>): seq<Token> {
    if bs == [] then []
    else AllTokens(src, bs[..|bs| - 1]) + Tokens(src, Covered(bs[..|bs| - 1]), bs[|bs| - 1])
  }

  function Size(src: seq<byte>, base: nat): int {
    if |src| - base <= BLOCK then |src| - base else BLOCK
  }

  /** Is there another block at `base`, with the text covered up to `p`? */
  predicate Starts(src: seq<byte>, base: nat, p: nat) {
    base + 20 < |src| && p <= base && base - p + Size(src, base) >= 32
  }

  /** A block from its start to the first position past its last 20 bytes. */
  ghost predicate BlockDone(src: seq<byte>, base: nat, p: nat, vs: seq<Visit>) {
    && Starts(src, base, p)
    && Scan(src, base, base - p, base + Size(src, base) - 20, vs)
    && Next(base, base - p, vs) >= base + Size(src, base) - 20
  }

  ghost predicate Parsed(src: seq<byte>, bs: seq<seq<Visit>>) {
    bs == [] ||
    var front := bs[..|bs| - 1];
    Parsed(src, front) && BlockDone(src, BLOCK * |front|, Covered(front), bs[|bs| - 1])
  }

  /** The whole text: blocks as long as there is another one. */
  ghost predicate Complete(src: seq<byte>, bs: seq<seq<Visit>>) {
    Parsed(src, bs) && !Starts(src, BLOCK * |bs|, Covered(bs))
  }

  lemma BlockMore(src: seq<byte>, bs: seq<seq<Visit>>, vs: seq<Visit>)
    requires Parsed(src, bs) && BlockDone(src, BLOCK * |bs|, Covered(bs), vs)
    ensures Parsed(src, bs + [vs]) && Covered(bs + [vs]) == After(Covered(bs), vs)
    ensures AllTokens(src, bs + [vs]) == AllTokens(src, bs) + Tokens(src, Covered(bs), vs)
  {
    assert (bs + [vs])[..|bs|] == bs;
  }

  lemma {:induction false} ParsedPrefix(src: seq<byte>, bs: seq<seq<Visit>>, k: nat)
    requires Parsed(src, bs) && k <= |bs|
    ensures Parsed(src, bs[..k]) && AllTokens(src, bs[..k]) <= AllTokens(src, bs)
    ensures k < |bs| ==> BlockDone(src, BLOCK * k, Covered(bs[..k]), bs[k])
    decreases |bs|
  {
    hide BlockDone, Tokens, Covered;
    if k < |bs| - 1 {
      ParsedPrefix(src, bs[..|bs| - 1], k);
      assert bs[..|bs| - 1][..k] == bs[..k];
    } else if k == |bs| {
      assert bs[..k] == bs;
    }
  }

  lemma {:induction false} ParsesAgree(src: seq<byte>, bs: seq<seq<Visit>>, cs: seq<seq<Visit>>)
    requires Parsed(src, bs) && Parsed(src, cs) && |bs| <= |cs|
    ensures bs == cs[..|bs|]
    decreases |cs|
  {
    hide BlockDone, Covered;
    if |bs| < |cs| {
      ParsesAgree(src, bs, cs[..|cs| - 1]);
      assert cs[..|cs| - 1][..|bs|] == cs[..|bs|];
    } else if bs != [] {
      var n := |bs| - 1;
      ParsesAgree(src, bs[..n], cs[..n]);
      var base, p := BLOCK * n, Covered(bs[..n]);
      assert cs[..n] == bs[..n];
      BlockOnce(src, base, p, bs[n], cs[n]);
      assert bs == bs[..n] + [bs[n]] && cs == cs[..n] + [cs[n]];
    }
  }

  lemma BlockOnce(src: seq<byte>, base: nat, p: nat, vs: seq<Visit>, ws: seq<Visit>)
    requires BlockDone(src, base, p, vs) && BlockDone(src, base, p, ws)
    ensures vs == ws
  {
    hide Scan, Next, Size;
    var end := base + Size(src, base) - 20;
    EndIsNat(src, base, p);
    if |vs| <= |ws| {
      ScanOnce(src, base, base - p, end, vs, ws);
    } else {
      ScanOnce(src, base, base - p, end, ws, vs);
    }
  }

  lemma EndIsNat(src: seq<byte>, base: nat, p: nat)
    requires Starts(src, base, p)
    ensures base + Size(src, base) - 20 >= 0
  {
  }

  /** Whatever the dictionary and the buffer held before: one text, one list of tokens, one stream. */
  lemma ParsedOnce(src: seq<byte>, bs: seq<seq<Visit>>, cs: seq<seq<Visit>>)
    requires Complete(src, bs) && Complete(src, cs)
    ensures bs == cs
  {
    hide Starts, Parsed, Covered;
    if |bs| <= |cs| {
      ParsesAgree(src, bs, cs);
      NoMore(src, bs, cs);
    } else {
      ParsesAgree(src, cs, bs);
      NoMore(src, cs, bs);
    }
  }

  lemma NoMore(src: seq<byte>, bs: seq<seq<Visit>>, cs: seq<seq<Visit>>)
    requires Complete(src, bs) && Parsed(src, cs) && |bs| <= |cs| && bs == cs[..|bs|]
    ensures bs == cs
  {
    hide Starts, Covered;
    if |bs| < |cs| {
      ParsedPrefix(src, cs, |bs|);
    }
  }
}
