/** qlz_compress, level 3 without streaming: the sixteen-way hash table, the five match codes, the
    control words, and the early decision to store the input as it is. */
module QlzCompress {
  import opened Bytes
  import opened Words
  import opened Lz77
  import opened QlzFormat
  import opened QlzChoice

  // ----- the hash table

  /** qlz_state_compress: per hash value, sixteen positions and an 8-bit counter of insertions. */
  class State {
    const offset: array2<int>
    const counter: array<nat>

    constructor ()
      ensures fresh(offset) && fresh(counter)
      ensures offset.Length0 == HASH_VALUES && offset.Length1 == POINTERS && counter.Length == HASH_VALUES
    {
      offset := new int[HASH_VALUES, POINTERS];
      counter := new nat[HASH_VALUES];
    }

    /** Every way the counter vouches for holds a position before `n`. The counter wraps at 256, and
        then vouches for less than there is. */
    ghost predicate Valid(n: int)
      reads offset, counter
    {
      && offset.Length0 == HASH_VALUES && offset.Length1 == POINTERS && counter.Length == HASH_VALUES
      && (forall h :: 0 <= h < HASH_VALUES ==> counter[h] < 256)
      && forall h, k :: 0 <= h < HASH_VALUES && 0 <= k < POINTERS && k < counter[h] ==> 0 <= offset[h, k] < n
    }

    /** reset_table_compress: only the counters are cleared. */
    method Reset()
      requires counter.Length == HASH_VALUES
      modifies counter
      ensures forall h :: 0 <= h < HASH_VALUES ==> counter[h] == 0
    {
      forall h | 0 <= h < HASH_VALUES {
        counter[h] := 0;
      }
    }

    method Insert(h: nat, pos: nat)
      requires h < HASH_VALUES && Valid(pos)
      modifies offset, counter
      ensures Valid(pos + 1) && counter[..] == old(counter[..])[h := (old(counter[h]) + 1) % 256]
      ensures forall g, k :: 0 <= g < HASH_VALUES && 0 <= k < POINTERS ==>
        offset[g, k] == if g == h && k == old(counter[h]) % POINTERS then pos else old(offset[g, k])
    {
      var c := counter[h];
      offset[h, c % POINTERS] := pos;
      counter[h] := (c + 1) % 256;
    }
  }

  // ----- finding a match

  /** `(fast_read(o, 3) ^ fetch) & 0xffffff` is zero exactly if three bytes agree. */
  lemma SameThree(src: seq<byte>, o: nat, s: nat)
    requires o + 4 <= |src| && s + 4 <= |src|
    ensures Xor(Fetch(src, o), Fetch(src, s)) % 0x100_0000 == 0 <==> src[o..o + 3] == src[s..s + 3]
  {
    XorLowBytes(src[o..o + 4], src[s..s + 4], 3);
    assert Pow256(3) == 0x100_0000;
    assert src[o..o + 3] == src[o..o + 4][..3] && src[s..s + 3] == src[s..s + 4][..3];
  }

  /** Lengthen a match while bytes agree and the limit is not reached. */
  method Extend(src: seq<byte>, s: nat, o: nat, m0: nat, remaining: nat) returns (m: nat)
    requires Found(src, s, o, m0) && m0 <= remaining && s + remaining < |src|
    ensures m0 <= m <= remaining && Found(src, s, o, m)
    ensures m == remaining || src[o + m] != src[s + m]
  {
    m := m0;
    while src[o + m] == src[s + m] && m < remaining
      invariant m0 <= m <= remaining && Found(src, s, o, m)
    {
      assert src[o..o + (m + 1)] == src[o..o + m] + [src[o + m]];
      assert src[s..s + (m + 1)] == src[s..s + m] + [src[s + m]];
      m := m + 1;
    }
  }

  /** No match if none of the first `n` ways can be used; otherwise the best of them. */
  ghost predicate BestOf(src: seq<byte>, s: nat, h: nat, state: State, n: nat, o: int, m: nat)
    requires s + 11 <= |src| && h < HASH_VALUES && n <= POINTERS && state.Valid(s)
    reads state, state.offset, state.counter
  {
    if m == 0 then forall k :: 0 <= k < n ==> !Usable(src, s, state.offset[h, k])
    else
      && Found(src, s, o, m) && 3 <= m <= Remaining(src, s)
      && (exists k :: 0 <= k < n && o == state.offset[h, k])
      && forall k :: 0 <= k < n && Usable(src, s, state.offset[h, k]) ==> Beats(src, s, o, m, state.offset[h, k])
  }

  /** How many ways the counter vouches for. */
  function Ways(c: nat): nat {
    if c < POINTERS then c else POINTERS
  }

  lemma LastAgrees(src: seq<byte>, s: nat, p: int, m: nat)
    requires 0 <= p <= s && s + m < |src| && Found(src, s, p, m + 1)
    ensures src[p + m] == src[s + m]
  {
    assert src[p..p + (m + 1)][m] == src[p + m] && src[s..s + (m + 1)][m] == src[s + m];
  }

  /** A match that stopped at a difference or at the limit is as long as it can be. */
  lemma Longest(src: seq<byte>, s: nat, p: int, m: nat)
    requires s + 11 <= |src| && Found(src, s, p, m) && m <= Remaining(src, s)
    requires m == Remaining(src, s) || src[p + m] != src[s + m]
    ensures Beats(src, s, p, m, p)
  {
    if m < Remaining(src, s) {
      NotLonger(src, s, p, m);
    }
  }

  lemma NotLonger(src: seq<byte>, s: nat, p: int, m: nat)
    requires 0 <= p <= s && s + m < |src| && src[p + m] != src[s + m]
    ensures !Found(src, s, p, m + 1)
  {
    if Found(src, s, p, m + 1) {
      LastAgrees(src, s, p, m);
    }
  }

  /** What is no better than `m` at `o` is no better than a longer or nearer match. */
  lemma BeatsLonger(src: seq<byte>, s: nat, o: int, m: nat, p: int, o': int, m': nat)
    requires s + 11 <= |src| && Beats(src, s, o, m, p) && 3 <= m && m' <= Remaining(src, s)
    requires m' > m || (m' == m && o' > o)
    ensures Beats(src, s, o', m', p)
  {
    if m' > m && Found(src, s, p, m') {
      Shorter(src, s, p, m', m + 1);
    }
    if m' < Remaining(src, s) && Found(src, s, p, m' + 1) {
      Shorter(src, s, p, m' + 1, m + 1);
    }
  }

  /** A candidate that is not taken is no better. */
  lemma BeatsOther(src: seq<byte>, s: nat, o: int, m: nat, p: int, mp: nat)
    requires s + 11 <= |src| && Beats(src, s, p, mp, p) && 3 <= mp && m <= Remaining(src, s)
    requires m > mp || (m == mp && p <= o)
    ensures Beats(src, s, o, m, p)
  {
    if m > mp && Found(src, s, p, m) {
      Shorter(src, s, p, m, mp + 1);
    }
    if m > mp && Found(src, s, p, m + 1) {
      Shorter(src, s, p, m + 1, mp + 1);
    }
  }

  lemma FoundThree(src: seq<byte>, s: nat, p: int)
    requires s + 11 <= |src| && Usable(src, s, p)
    ensures Found(src, s, p, 3)
  {
  }

  lemma FoundNext(src: seq<byte>, s: nat, p: int, m: nat)
    requires Found(src, s, p, m) && s + m < |src| && src[p + m] == src[s + m]
    ensures Found(src, s, p, m + 1)
  {
    assert src[p..p + (m + 1)] == src[p..p + m] + [src[p + m]];
    assert src[s..s + (m + 1)] == src[s..s + m] + [src[s + m]];
  }

  /** The first way. */
  method FirstCandidate(src: seq<byte>, s: nat, h: nat, state: State) returns (o: int, matchlen: nat)
    requires s + 11 <= |src| && h < HASH_VALUES && state.Valid(s)
    ensures BestOf(src, s, h, state, if state.counter[h] > 0 then 1 else 0, o, matchlen)
  {
    hide Beats, Found;
    o := state.offset[h, 0];
    matchlen := 0;
    if o < s - 2 && state.counter[h] > 0 && Xor(Fetch(src, o), Fetch(src, s)) % 0x100_0000 == 0 {
      SameThree(src, o, s);
      FoundThree(src, s, o);
      matchlen := 3;
      if src[o + matchlen] == src[s + matchlen] {
        FoundNext(src, s, o, 3);
        matchlen := Extend(src, s, o, 4, Remaining(src, s));
      }
      Longest(src, s, o, matchlen);
    } else if o < s - 2 && state.counter[h] > 0 {
      SameThree(src, o, s);
    }
  }

  /** The best of the ways the counter vouches for: the longest match, and the nearest of those. */
  method FindMatch(src: seq<byte>, s: nat, h: nat, state: State) returns (o: int, matchlen: nat)
    requires s + 11 <= |src| && h < HASH_VALUES && state.Valid(s)
    ensures BestOf(src, s, h, state, Ways(state.counter[h]), o, matchlen)
  {
    o, matchlen := FirstCandidate(src, s, h, state);
    var c := state.counter[h];
    var k := 1;
    while k < POINTERS && c > k
      invariant 1 <= k && (k <= POINTERS && (c > 0 ==> k <= c))
      invariant BestOf(src, s, h, state, if c > 0 then k else 0, o, matchlen)
    {
      o, matchlen := NextCandidate(src, s, h, state, k, o, matchlen);
      k := k + 1;
    }
  }

  method NextCandidate(src: seq<byte>, s: nat, h: nat, state: State, k: nat, o0: int, m0: nat)
    returns (o: int, matchlen: nat)
    requires s + 11 <= |src| && h < HASH_VALUES && state.Valid(s) && k < POINTERS && k < state.counter[h]
    requires BestOf(src, s, h, state, k, o0, m0)
    ensures BestOf(src, s, h, state, k + 1, o, matchlen)
  {
    hide Beats, Found;
    o, matchlen := o0, m0;
    var p := state.offset[h, k];
    if Xor(Fetch(src, p), Fetch(src, s)) % 0x100_0000 == 0 && p < s - 2 {
      SameThree(src, p, s);
      FoundThree(src, s, p);
      var m := Extend(src, s, p, 3, Remaining(src, s));
      Longest(src, s, p, m);
      if m > matchlen || (m == matchlen && p > o) {
        o, matchlen := p, m;
        forall i | 0 <= i < k && Usable(src, s, state.offset[h, i])
          ensures Beats(src, s, p, m, state.offset[h, i])
        {
          if m0 > 0 {
            BeatsLonger(src, s, o0, m0, state.offset[h, i], p, m);
          }
        }
      } else {
        BeatsOther(src, s, o, matchlen, p, m);
      }
    } else if p < s - 2 {
      SameThree(src, p, s);
    }
  }

  // ----- the table and the text

  /** All positions before `s` have been entered: every counter says how many had its hash, modulo 256, and each
      of the last sixteen is in its way. */
  ghost predicate Entered(src: seq<byte>, s: nat, state: State)
    reads state, state.offset, state.counter
  {
    && state.offset.Length0 == HASH_VALUES && state.offset.Length1 == POINTERS && state.counter.Length == HASH_VALUES
    && (forall h :: 0 <= h < HASH_VALUES ==> state.counter[h] == Count(src, s, h) % 256)
    && forall p: nat :: Recent(src, s, p) ==>
         state.offset[HashAt(src, p), Count(src, p, HashAt(src, p)) % POINTERS] == p
  }

  /** One of the last sixteen before `s` with its hash. */
  predicate Recent(src: seq<byte>, s: nat, p: nat) {
    p < s && Count(src, s, HashAt(src, p)) - Count(src, p, HashAt(src, p)) <= 16
  }

  lemma NoneEntered(src: seq<byte>, state: State)
    requires state.offset.Length0 == HASH_VALUES && state.offset.Length1 == POINTERS
    requires state.counter.Length == HASH_VALUES
    requires forall h :: 0 <= h < HASH_VALUES ==> state.counter[h] == 0
    ensures Entered(src, 0, state) && state.Valid(0)
  {
  }

  /** What one position more changes. */
  lemma RecentNext(src: seq<byte>, s: nat, p: nat)
    requires Recent(src, s + 1, p)
    ensures p == s || (Recent(src, s, p) && (HashAt(src, p) == HashAt(src, s) ==>
      Count(src, p, HashAt(src, p)) % POINTERS != Count(src, s, HashAt(src, p)) % POINTERS))
  {
    hide HashAt;
    if p < s {
      CountUp(src, p, s, HashAt(src, p));
    }
  }

  /** Position `p` goes into way `k` of set `h`. */
  predicate GoesTo(src: seq<byte>, p: nat, h: nat, k: nat) {
    HashAt(src, p) == h && Count(src, p, h) % POINTERS == k
  }

  /** One position more is entered. */
  method Enter(src: seq<byte>, s: nat, state: State)
    requires s + 4 <= |src| && state.Valid(s) && Entered(src, s, state)
    modifies state.offset, state.counter
    ensures state.Valid(s + 1) && Entered(src, s + 1, state)
    ensures forall g, k :: 0 <= g < HASH_VALUES && 0 <= k < POINTERS && !GoesTo(src, s, g, k) ==>
      state.offset[g, k] == old(state.offset[g, k])
  {
    hide HashFunc, HashAt, Count;
    var h := HashFunc(Fetch(src, s));
    HashIs(src, s);
    ghost var n := Count(src, s, h);
    SameWay(n);
    state.Insert(h, s);
    forall g | 0 <= g < HASH_VALUES
      ensures state.counter[g] == Count(src, s + 1, g) % 256
    {
      CountNext(src, s, g);
      CounterNext(Count(src, s, g));
    }
    forall p: nat | Recent(src, s + 1, p)
      ensures state.offset[HashAt(src, p), Count(src, p, HashAt(src, p)) % POINTERS] == p
    {
      RecentNext(src, s, p);
      if p != s {
        assert old(state.offset[HashAt(src, p), Count(src, p, HashAt(src, p)) % POINTERS]) == p;
      }
    }
  }

  lemma HashIs(src: seq<byte>, s: nat)
    requires s + 4 <= |src|
    ensures HashAt(src, s) == HashFunc(Fetch(src, s))
  {
  }

  lemma CountNext(src: seq<byte>, s: nat, h: nat)
    ensures Count(src, s + 1, h) == Count(src, s, h) + if HashAt(src, s) == h then 1 else 0
  {
  }

  /** An 8-bit counter goes up with what it counts. */
  lemma CounterNext(n: nat)
    ensures (n + 1) % 256 == (n % 256 + 1) % 256
  {
    var q, r := n / 256, n % 256;
    assert n == 256 * q + r;
    DivMod(n + 1, 256, if r == 255 then q + 1 else q, if r == 255 then 0 else r + 1);
  }

  lemma SameWay(n: nat)
    ensures n % 256 % POINTERS == n % POINTERS
  {
    var q, r := n / 256, n % 256;
    DivMod(n, 16, 16 * q + r / 16, r % 16);
  }

  /** Which of the positions with a hash way `k` holds, if the counter vouches for it. */
  function Rank(n: nat, k: nat): (r: int)
    requires k < POINTERS
  {
    if n % 256 >= POINTERS then n - 1 - (n - 1 - k) % POINTERS else n - n % 256 + k
  }

  lemma RankIs(n: nat, k: nat)
    requires k < POINTERS && k < n % 256
    ensures 0 <= Rank(n, k) < n && Rank(n, k) % POINTERS == k
    ensures n - Rank(n, k) <= 16 && n - Rank(n, k) <= n % 256
  {
    if n % 256 < POINTERS {
      var q := n / 256;
      assert n - n % 256 == 256 * q;
      DivMod(256 * q + k, 16, 16 * q, k);
    } else {
      var d := n - 1 - k;
      assert d >= 0;
      var q := d / 16;
      assert n - 1 - d % 16 == 16 * q + k;
      DivMod(16 * q + k, 16, q, k);
    }
  }

  /** A rank that is not too far back belongs to a way the counter vouches for. */
  lemma RankWay(n: nat, r: nat)
    requires r < n && n - r <= 16 && n - r <= n % 256
    ensures r % POINTERS < Ways(n % 256)
  {
    if n % 256 < POINTERS {
      var q, k := n / 256, r - (n - n % 256);
      assert r == 256 * q + k;
      DivMod(r, 16, 16 * q, k);
    }
  }

  /** The ways the counter vouches for hold the remembered positions, and no others. */
  lemma WayRemembered(src: seq<byte>, s: nat, state: State, k: nat)
    requires Entered(src, s, state) && k < Ways(state.counter[HashAt(src, s)])
    ensures state.offset[HashAt(src, s), k] >= 0 && Remembered(src, s, state.offset[HashAt(src, s), k])
  {
    hide HashAt, Rank;
    var h := HashAt(src, s);
    var n := Count(src, s, h);
    RankIs(n, k);
    var p := RankAt(src, s, h, Rank(n, k));
    assert Recent(src, s, p);
  }

  lemma RememberedWay(src: seq<byte>, s: nat, state: State, p: nat)
    requires Entered(src, s, state) && Remembered(src, s, p)
    ensures
      var k := Count(src, p, HashAt(src, s)) % POINTERS;
      k < Ways(state.counter[HashAt(src, s)]) && state.offset[HashAt(src, s), k] == p
  {
    hide HashAt;
    var h := HashAt(src, s);
    CountUp(src, p, s, h);
    RankWay(Count(src, s, h), Count(src, p, h));
    assert Recent(src, s, p);
  }

  /** The best of the ways is the best of what is remembered. */
  lemma BestOfIsBest(src: seq<byte>, s: nat, state: State, o: int, m: nat)
    requires s + 11 <= |src| && state.Valid(s) && Entered(src, s, state)
    requires BestOf(src, s, HashAt(src, s), state, Ways(state.counter[HashAt(src, s)]), o, m)
    ensures m == 0 ==> forall p: nat :: Remembered(src, s, p) ==> !Usable(src, s, p)
    ensures m > 0 ==> o >= 0 && Best(src, s, o, m)
  {
    hide HashAt, Beats, Remembered, Entered;
    var h := HashAt(src, s);
    if m > 0 {
      var k :| 0 <= k < Ways(state.counter[h]) && o == state.offset[h, k];
      WayRemembered(src, s, state, k);
      FoundUsable(src, s, o, m);
    }
    forall q: nat | Remembered(src, s, q) && Usable(src, s, q)
      ensures m > 0 && Beats(src, s, o, m, q)
    {
      RememberedWay(src, s, state, q);
    }
  }

  lemma FoundUsable(src: seq<byte>, s: nat, o: int, m: nat)
    requires s + 11 <= |src| && Found(src, s, o, m)
    ensures Usable(src, s, o)
  {
    Shorter(src, s, o, m, 3);
  }

  // ----- the output

  /** The output from `base` on: closed groups up to `cp`, a reserved control word, and the payload of
      the open group. */
  ghost predicate Packing(out: array<byte>, base: nat, cp: nat, d: nat, cword: nat,
                          closed: seq<Item>, open: seq<Item>)
    reads out
  {
    && base <= cp && cp + 4 <= d <= out.Length
    && |closed| % GROUP == 0 && |open| <= GROUP && cword == Filling(open)
    && out[base..cp] == Groups(closed)
    && out[cp + 4..d] == Payload(open)
  }

  /** fast_write: the low `n` bytes of `f`, lowest first. */
  method WriteLittle(out: array<byte>, at: nat, f: nat, n: nat)
    requires at + n <= out.Length
    modifies out
    ensures out[at..at + n] == Little(f, n)
    ensures out[..at] == old(out[..at]) && out[at + n..] == old(out[at + n..])
    decreases n
  {
    if n > 0 {
      out[at] := f % 256;
      ghost var tail := out[at + n..];
      WriteLittle(out, at + 1, f / 256, n - 1);
      assert out[at] == out[..at + 1][at];
      assert out[at..at + n] == [out[at]] + out[at + 1..at + 1 + (n - 1)];
      assert out[..at] == out[..at + 1][..at];
    }
  }

  /** The same at the end of what is written. */
  method AppendLittle(out: array<byte>, d0: nat, f: nat, n: nat) returns (d: nat)
    requires d0 + n <= out.Length
    modifies out
    ensures d == d0 + n && out[..d] == old(out[..d0]) + Little(f, n)
  {
    WriteLittle(out, d0, f, n);
    d := d0 + n;
    assert out[..d] == out[..d0] + out[d0..d0 + n];
  }

  /** The five match codes. A three byte code is stored as a word of four. */
  method WriteMatch(out: array<byte>, d0: nat, off: nat, len: nat) returns (d: nat)
    requires d0 + 4 <= out.Length && MIN_OFFSET <= off <= MAX_OFFSET && 3 <= len <= MAX_LEN
    modifies out
    ensures d <= out.Length && out[..d] == old(out[..d0]) + Code(Match(off, len))
  {
    if len == 3 && off <= 63 {
      d := Put(out, d0, off * 4);
      assert Little(off * 4, 1) == [off * 4];
    } else if len == 3 && off <= 16383 {
      d := AppendLittle(out, d0, off * 4 + 1, 2);
    } else if len <= 18 && off <= 1023 {
      d := AppendLittle(out, d0, (len - 3) * 4 + off * 64 + 2, 2);
    } else if len <= 33 {
      var f := (len - 2) * 4 + off * 128 + 3;
      d := AppendLittle(out, d0, f, 4);
      LittlePrefix(f, 3, 4);
      assert out[..d0 + 3] == out[..d][..d0 + 3];
      d := d0 + 3;
    } else {
      d := AppendLittle(out, d0, (len - 3) * 128 + off * 32768 + 3, 4);
    }
  }

  lemma {:induction false} LittlePrefix(f: nat, m: nat, n: nat)
    requires m <= n
    ensures Little(f, n)[..m] == Little(f, m)
  {
    if m > 0 {
      LittlePrefix(f / 256, m - 1, n - 1);
    }
  }

  /** One more item: its code at the end, its bit at the top of the control word. */
  lemma Packed(out: array<byte>, was: seq<byte>, base: nat, cp: nat, d: nat, cword: nat,
               closed: seq<Item>, open: seq<Item>, x: Item)
    requires base <= cp && cp + 4 <= |was| && d <= out.Length
    requires |closed| % GROUP == 0 && |open| < GROUP && cword == Filling(open)
    requires was[base..cp] == Groups(closed) && was[cp + 4..] == Payload(open)
    requires out[..d] == was + Code(x)
    ensures Packing(out, base, cp, d, cword / 2 + Bit(x) * TOP_BIT, closed, open + [x])
  {
    hide Code, Groups, Payload, Filling;
    PayloadAppend(open, x);
    FillingAppend(open, x);
    AppendSlices(was, Code(x), base, cp, cp + 4);
    SliceOfPrefix(out[..], base, cp, d);
    SliceOfPrefix(out[..], cp + 4, d, d);
    assert out[..][..d] == out[..d];
  }

  /** Writing a control word at `cp` leaves the groups before it and the payload after it alone. */
  method WriteControlWord(out: array<byte>, base: nat, cp: nat, d: nat, w: nat)
    requires base <= cp && cp + 4 <= d <= out.Length
    modifies out
    ensures out[base..d] == old(out[base..cp]) + (Little(w, 4) + old(out[cp + 4..d]))
  {
    ghost var before, payload := out[base..cp], out[cp + 4..d];
    WriteLittle(out, cp, w, 4);
    assert out[base..cp] == out[..cp][base..];
    assert out[cp + 4..d] == out[cp + 4..][..d - (cp + 4)];
    assert out[base..d] == out[base..cp] + (out[cp..cp + 4] + out[cp + 4..d]);
  }

  /** A full group: its control word goes into the place kept for it, and a new group starts. */
  method Flush(out: array<byte>, base: nat, cp: nat, d: nat, cword: nat,
               ghost closed: seq<Item>, ghost open: seq<Item>)
    requires Packing(out, base, cp, d, cword, closed, open) && |open| == GROUP
    requires d + 4 <= out.Length
    modifies out
    ensures Packing(out, base, d, d + 4, TOP_BIT, closed + open, [])
  {
    hide Code, Groups;
    FillingFull(open);
    WriteControlWord(out, base, cp, d, cword / 2 + TOP_BIT);
    GroupsAppend(closed, open);
  }

  lemma GroupsAppend(closed: seq<Item>, open: seq<Item>)
    requires |closed| % GROUP == 0 && |open| == GROUP
    ensures Groups(closed + open) == Groups(closed) + GroupBytes(open)
  {
    assert (closed + open)[..|closed|] == closed && (closed + open)[|closed|..] == open;
  }

  // ----- the core

  /** The items so far stand for the first `s` bytes. */
  ghost predicate Progress(src: seq<byte>, s: nat, xs: seq<Item>) {
    && s <= |src| && TextSum(xs) == s
    && Plays([], xs, src[..s]) && Placed(xs, 0, s, |src|) && LongMatches(xs)
  }

  /** `x` stands for the text from `s` to `t`. */
  ghost predicate Right(src: seq<byte>, s: nat, t: nat, x: Item) {
    && s < t <= |src| && t == s + TextLen(x)
    && match x
       case Lit(b) => b == src[s]
       case Match(off, len) =>
         && s + 11 <= |src| && off <= s && Found(src, s, s - off, len)
         && len <= Remaining(src, s) && off <= MAX_OFFSET
  }

  lemma ProgressNext(src: seq<byte>, s: nat, t: nat, closed: seq<Item>, open: seq<Item>, x: Item)
    requires Progress(src, s, closed + open) && Right(src, s, t, x)
    ensures Progress(src, t, closed + (open + [x]))
  {
    Assoc(closed, open, [x]);
    ProgressOne(src, s, t, closed + open, x);
  }

  lemma ProgressOne(src: seq<byte>, s: nat, t: nat, xs: seq<Item>, x: Item)
    requires Progress(src, s, xs) && Right(src, s, t, x)
    ensures Progress(src, t, xs + [x])
  {
    if x.Match? {
      CopyMatchReproduces(src, s, x.off, x.len);
    } else {
      assert src[..t] == src[..s] + [src[s]];
    }
    PlaysAppend([], xs, src[..s], x);
    PlacedAppend(xs, 0, s, |src|, x);
    TextSumAppend(xs, [x]);
    assert TextSum([x]) == TextLen(x) by {
      assert [x][..0] == [];
    }
  }

  /** Enter the positions a match skips, each in the next way of its set; no other way changes. */
  method InsertSkipped(src: seq<byte>, s: nat, len: nat, state: State)
    requires 3 <= len && s + len + 4 <= |src| && state.Valid(s + 1) && Entered(src, s + 1, state)
    modifies state.offset, state.counter
    ensures state.Valid(s + len) && Entered(src, s + len, state)
    ensures forall h, k :: 0 <= h < HASH_VALUES && 0 <= k < POINTERS && !Fills(src, s + 1, s + len, h, k) ==>
      state.offset[h, k] == old(state.offset[h, k])
  {
    hide Entered, GoesTo;
    var u := 1;
    while u < len
      invariant 1 <= u <= len && state.Valid(s + u) && Entered(src, s + u, state)
      invariant forall h, k :: 0 <= h < HASH_VALUES && 0 <= k < POINTERS && !Fills(src, s + 1, s + u, h, k) ==>
        state.offset[h, k] == old(state.offset[h, k])
    {
      hide Fills;
      ghost var from, at, next := s + 1, s + u, s + (u + 1);
      forall h, k | 0 <= h < HASH_VALUES && 0 <= k < POINTERS && !Fills(src, from, next, h, k)
        ensures !Fills(src, from, at, h, k) && !GoesTo(src, at, h, k)
      {
        NotFilled(src, from, at, h, k);
      }
      Enter(src, s + u, state);
      u := u + 1;
    }
  }

  /** One of the positions from `a` up to `b` goes into way `k` of set `h`. */
  predicate Fills(src: seq<byte>, a: nat, b: nat, h: nat, k: nat) {
    exists p: nat :: a <= p < b && GoesTo(src, p, h, k)
  }

  lemma NotFilled(src: seq<byte>, a: nat, b: nat, h: nat, k: nat)
    requires a <= b && !Fills(src, a, b + 1, h, k)
    ensures !Fills(src, a, b, h, k) && !GoesTo(src, b, h, k)
  {
    hide GoesTo;
  }

  /** The item for a match at `o`, or for a zero length the literal. */
  function ItemAt(src: seq<byte>, s: nat, o: int, len: nat): Item
    requires s < |src|
  {
    if len > 0 && o <= s then Match(s - o, len) else Lit(src[s])
  }

  /** What to do at `s`: a match, or a zero length for a literal. The positions up to where the next item starts
      are entered. */
  method Choose(src: seq<byte>, s: nat, state: State) returns (o: int, len: nat)
    requires s + 11 <= |src| && state.Valid(s) && Entered(src, s, state)
    modifies state.offset, state.counter
    ensures len > 0 ==> Found(src, s, o, len) && len <= Remaining(src, s) && s - o <= MAX_OFFSET
    ensures state.Valid(s + if len > 0 then len else 1) && Entered(src, s + (if len > 0 then len else 1), state)
    ensures Chosen(src, s, ItemAt(src, s, o, len))
  {
    hide HashFunc, Entered, BestOf, Found, Remembered, Beats;
    var hash := HashFunc(Fetch(src, s));
    assert HashAt(src, s) == hash;
    o, len := FindMatch(src, s, hash, state);
    BestOfIsBest(src, s, state, o, len);
    BestOfFound(src, s, hash, state, o, len);
    Enter(src, s, state);
    if len > 2 && s - o < 131071 {
      InsertSkipped(src, s, len, state);
    } else {
      len := 0;
    }
  }

  lemma BestOfFound(src: seq<byte>, s: nat, h: nat, state: State, o: int, m: nat)
    requires s + 11 <= |src| && h < HASH_VALUES && state.Valid(s)
    requires BestOf(src, s, h, state, Ways(state.counter[h]), o, m)
    ensures m > 0 ==> Found(src, s, o, m) && 3 <= m <= Remaining(src, s) && 0 <= o && o + 3 <= s
  {
  }

  /** A match goes out as a code and a one. */
  method EmitMatch(off: nat, len: nat, out: array<byte>, base: nat, cp: nat, d0: nat, cword0: nat,
                   ghost closed: seq<Item>, ghost open: seq<Item>)
    returns (d: nat, cword: nat)
    requires MIN_OFFSET <= off <= MAX_OFFSET && 3 <= len <= MAX_LEN
    requires Packing(out, base, cp, d0, cword0, closed, open) && |open| < GROUP && d0 + 4 <= out.Length
    modifies out
    ensures Packing(out, base, cp, d, cword, closed, open + [Match(off, len)])
  {
    ghost var was := out[..d0];
    SliceOfPrefix(out[..], base, cp, d0);
    assert out[..][..d0] == was;
    cword := cword0 / 2 + TOP_BIT;
    d := WriteMatch(out, d0, off, len);
    Packed(out, was, base, cp, d, cword0, closed, open, Match(off, len));
  }

  /** A literal goes out as itself and a zero. */
  method EmitLiteral(b: byte, out: array<byte>, base: nat, cp: nat, d0: nat, cword0: nat,
                     ghost closed: seq<Item>, ghost open: seq<Item>)
    returns (d: nat, cword: nat)
    requires Packing(out, base, cp, d0, cword0, closed, open) && |open| < GROUP && d0 < out.Length
    modifies out
    ensures d == d0 + 1 && Packing(out, base, cp, d, cword, closed, open + [Lit(b)])
  {
    ghost var was := out[..d0];
    SliceOfPrefix(out[..], base, cp, d0);
    assert out[..][..d0] == was;
    d := Put(out, d0, b);
    cword := cword0 / 2;
    Packed(out, was, base, cp, d, cword0, closed, open, Lit(b));
  }

  /** One item of the main loop. */
  method EmitItem(src: seq<byte>, s0: nat, out: array<byte>, base: nat, cp: nat, d0: nat, cword0: nat,
                  state: State, ghost closed: seq<Item>, ghost open: seq<Item>)
    returns (s: nat, d: nat, cword: nat, ghost x: Item)
    requires s0 + 11 <= |src| && state.Valid(s0) && Entered(src, s0, state)
    requires Packing(out, base, cp, d0, cword0, closed, open) && |open| < GROUP && d0 + 4 <= out.Length
    modifies out, state.offset, state.counter
    ensures Right(src, s0, s, x) && s + 4 <= |src| && state.Valid(s) && Entered(src, s, state)
    ensures Chosen(src, s0, x)
    ensures Packing(out, base, cp, d, cword, closed, open + [x])
  {
    hide BestOf, Chosen, Entered;
    var o, len := Choose(src, s0, state);
    if len > 0 {
      var off := s0 - o;
      x := Match(off, len);
      s := s0 + len;
      d, cword := EmitMatch(off, len, out, base, cp, d0, cword0, closed, open);
    } else {
      x := Lit(src[s0]);
      s := s0 + 1;
      d, cword := EmitLiteral(src[s0], out, base, cp, d0, cword0, closed, open);
    }
  }

  /** As long as no full group lies past the middle of the input, or the last one that does was worth
      it, the output stays within reach of the input. */
  ghost predicate Worth(size: nat, closed: seq<Item>)
    requires |closed| % GROUP == 0
  {
    var s := TextSum(closed);
    s <= size / 2 || |Groups(closed)| <= s - s / 32
  }

  /** The most the compressed form can take before the last bytes, in any case and per byte. */
  lemma MainRoom(size: nat, closed: seq<Item>, open: seq<Item>, s: nat)
    requires |closed| % GROUP == 0 && |open| <= GROUP && s == TextSum(closed + open) <= size
    requires LongMatches(closed + open) && Worth(size, closed)
    ensures |Groups(closed)| + 4 + |Payload(open)| <= size + 128
    ensures 31 * (|Groups(closed)| + |Payload(open)|) <= 35 * s
  {
    LongParts(closed, open);
    TextSumAppend(closed, open);
    GroupsSize(closed);
    PayloadSize(open);
  }

  lemma LongParts(closed: seq<Item>, open: seq<Item>)
    requires LongMatches(closed + open)
    ensures LongMatches(closed) && LongMatches(open)
  {
    forall i | 0 <= i < |closed|
      ensures closed[i] == (closed + open)[i]
    {
    }
    forall i | 0 <= i < |open|
      ensures open[i] == (closed + open)[|closed| + i]
    {
    }
  }

  /** Everything the loops keep. */
  ghost predicate Inv(src: seq<byte>, s: nat, out: array<byte>, base: nat, cp: nat, d: nat, cword: nat,
                      closed: seq<Item>, open: seq<Item>)
    reads out
  {
    && Packing(out, base, cp, d, cword, closed, open) && Progress(src, s, closed + open)
    && base <= 9 && |src| + 400 <= out.Length
  }

  /** The group is full, ends past the middle, and all groups up to it have not saved a thirty-second. */
  ghost predicate Wasted(size: nat, s: nat, closed: seq<Item>, open: seq<Item>) {
    && |open| == GROUP && |closed| % GROUP == 0 && s > size / 2
    && |Groups(closed + open)| > s - s / 32
  }

  /** Before an item: close a full group, unless it is time to give up. */
  method MakeRoom(src: seq<byte>, s: nat, out: array<byte>, base: nat, cp0: nat, d0: nat, cword0: nat,
                  ghost closed0: seq<Item>, ghost open0: seq<Item>)
    returns (ok: bool, cp: nat, d: nat, cword: nat, ghost closed: seq<Item>, ghost open: seq<Item>)
    requires Inv(src, s, out, base, cp0, d0, cword0, closed0, open0) && Worth(|src|, closed0)
    modifies out
    ensures ok ==> Inv(src, s, out, base, cp, d, cword, closed, open) && Worth(|src|, closed)
    ensures ok ==> |open| < GROUP && d + 4 <= out.Length && closed + open == closed0 + open0
    ensures ok <==> !Wasted(|src|, s, closed0, open0)
    ensures if |open0| == GROUP then closed == closed0 + open0 else closed == closed0 && open == open0
    ensures !ok ==> |src| >= 31
  {
    hide Code, Payload, Filling, TextSum, Plays, Placed, Groups;
    ok, cp, d, cword, closed, open := true, cp0, d0, cword0, closed0, open0;
    FillingFull(open);
    MainRoom(|src|, closed, open, s);
    if cword % 2 == 1 {
      GroupsAppend(closed, open);
      if s > |src| / 2 && d - base > s - s / 32 {
        ok := false;
        closed, open := closed + open, [];
        PayloadSize(closed);
      } else {
        Flush(out, base, cp, d, cword, closed, open);
        closed, open := closed + open, [];
        assert closed + open == closed;
        cp, d, cword := d, d + 4, TOP_BIT;
      }
    }
  }

  /** What the loop keeps about the choice of items. */
  ghost predicate Choosing(src: seq<byte>, s: nat, closed: seq<Item>, open: seq<Item>) {
    Greedy(src, closed + open) && NotYet(src, closed) && TextSum(closed + open) == s
  }

  /** A full group that was closed was no reason to give up; one that was not closed was one. */
  lemma RoomMade(src: seq<byte>, s: nat, closed0: seq<Item>, open0: seq<Item>, ok: bool,
                 closed: seq<Item>, open: seq<Item>)
    requires Choosing(src, s, closed0, open0) && |closed0| % GROUP == 0 && |open0| <= GROUP && s + 11 <= |src|
    requires ok <==> !Wasted(|src|, s, closed0, open0)
    requires if |open0| == GROUP then closed == closed0 + open0 else closed == closed0 && open == open0
    requires ok ==> closed + open == closed0 + open0
    ensures if ok then Choosing(src, s, closed, open) else GivesUp(src, closed)
  {
    hide Greedy, TextSum, Groups;
    if |open0| == GROUP {
      if ok {
        hide NotYet;
        NotYetMore(src, closed0, open0);
      }
    }
  }

  lemma ItemChosen(src: seq<byte>, s: nat, closed: seq<Item>, open: seq<Item>, x: Item)
    requires Choosing(src, s, closed, open) && Chosen(src, s, x)
    ensures Choosing(src, s + TextLen(x), closed, open + [x])
  {
    hide Chosen, NotYet;
    GreedyNext(src, closed + open, x);
    Assoc(closed, open, [x]);
    TextSumAppend(closed + open, [x]);
    assert [x][..0] == [];
  }

  lemma NothingChosen(src: seq<byte>)
    ensures Choosing(src, 0, [], [])
  {
    var none: seq<Item> := [];
    assert none + none == none;
  }

  lemma RightLen(src: seq<byte>, s: nat, t: nat, x: Item)
    requires Right(src, s, t, x)
    ensures t == s + TextLen(x) && s < t <= |src|
  {
  }

  /** Nothing has been written yet. */
  lemma NothingYet(src: seq<byte>, out: array<byte>, base: nat)
    requires base <= 9 && |src| + 400 <= out.Length
    ensures Inv(src, 0, out, base, base, base + 4, TOP_BIT, [], []) && Worth(|src|, [])
  {
    assert src[..0] == [];
  }

  lemma InvParts(src: seq<byte>, s: nat, out: array<byte>, base: nat, cp: nat, d: nat, cword: nat,
                 closed: seq<Item>, open: seq<Item>)
    requires Inv(src, s, out, base, cp, d, cword, closed, open)
    ensures Packing(out, base, cp, d, cword, closed, open) && Progress(src, s, closed + open)
    ensures |closed| % GROUP == 0 && |open| <= GROUP && base <= 9 && |src| + 400 <= out.Length && s <= |src|
    ensures base <= cp && cp + 4 <= d && cword == Filling(open)
  {
  }

  lemma InvOf(src: seq<byte>, s: nat, out: array<byte>, base: nat, cp: nat, d: nat, cword: nat,
              closed: seq<Item>, open: seq<Item>)
    requires Packing(out, base, cp, d, cword, closed, open) && Progress(src, s, closed + open)
    requires base <= 9 && |src| + 400 <= out.Length
    ensures Inv(src, s, out, base, cp, d, cword, closed, open)
  {
  }

  /** The main loop: items until the last eleven bytes, with a look at the ratio before each new
      group past the middle. Gives up when the output is not ahead by a thirty-second. */
  method MainLoop(src: seq<byte>, out: array<byte>, base: nat, state: State)
    returns (ok: bool, s: nat, cp: nat, d: nat, cword: nat, ghost closed: seq<Item>, ghost open: seq<Item>)
    requires base <= 9 && |src| + 400 <= out.Length && state.Valid(0) && Entered(src, 0, state)
    modifies out, state.offset, state.counter
    ensures ok ==> Inv(src, s, out, base, cp, d, cword, closed, open) && Worth(|src|, closed)
    ensures ok ==> |src| < s + 11 && (s == 0 || s < |src|)
    ensures ok ==> Choosing(src, s, closed, open)
    ensures !ok ==> GivesUp(src, closed)
    ensures !ok ==> |src| >= 31
  {
    hide Inv, Packing, Progress, Worth, Choosing, Chosen, Right, Entered, GivesUp, Groups, TextLen;
    ok, s, cp, d, cword := true, 0, base, base + 4, TOP_BIT;
    closed, open := [], [];
    NothingYet(src, out, base);
    NothingChosen(src);
    assert |closed| % GROUP == 0;
    while s + 11 <= |src|
      invariant Inv(src, s, out, base, cp, d, cword, closed, open)
      invariant |closed| % GROUP == 0 && Worth(|src|, closed)
      invariant Choosing(src, s, closed, open)
      invariant state.Valid(s) && Entered(src, s, state) && (s == 0 || s < |src|)
      decreases |src| - s
    {
      ghost var closed0, open0 := closed, open;
      InvParts(src, s, out, base, cp, d, cword, closed, open);
      ok, cp, d, cword, closed, open := MakeRoom(src, s, out, base, cp, d, cword, closed, open);
      RoomMade(src, s, closed0, open0, ok, closed, open);
      if !ok {
        return;
      }
      InvParts(src, s, out, base, cp, d, cword, closed, open);
      ghost var x;
      ghost var was := s;
      s, d, cword, x := EmitItem(src, s, out, base, cp, d, cword, state, closed, open);
      RightLen(src, was, s, x);
      ProgressNext(src, was, s, closed, open, x);
      ItemChosen(src, was, closed, open, x);
      open := open + [x];
      InvOf(src, s, out, base, cp, d, cword, closed, open);
    }
  }

  /** The last bytes, always literals. There are at most ten, so at most one more group is closed. */
  method TailLoop(src: seq<byte>, s0: nat, out: array<byte>, base: nat, cp0: nat, d0: nat, cword0: nat,
                  ghost closed0: seq<Item>, ghost open0: seq<Item>)
    returns (cp: nat, d: nat, cword: nat, ghost closed: seq<Item>, ghost open: seq<Item>)
    requires Inv(src, s0, out, base, cp0, d0, cword0, closed0, open0)
    requires s0 < |src| < s0 + 11 && d0 - base <= |src| + 132
    modifies out
    ensures open != [] && closed + open == closed0 + open0 + Literals(src, s0)
    ensures Inv(src, |src|, out, base, cp, d, cword, closed, open)
    ensures d - base <= |src| + 146
  {
    hide Inv, Progress, Packing, Groups, Payload, Code, Filling, Literals;
    var s := s0;
    cp, d, cword, closed, open := cp0, d0, cword0, closed0, open0;
    ghost var flushed := 0;
    while s < |src|
      invariant s0 <= s <= |src| && Inv(src, s, out, base, cp, d, cword, closed, open)
      invariant d == d0 + (s - s0) + 4 * flushed && 0 <= flushed <= 1
      invariant flushed == 1 ==> |open| <= s - s0
      invariant s > s0 ==> open != []
      invariant closed + open + Literals(src, s) == closed0 + open0 + Literals(src, s0)
    {
      InvParts(src, s, out, base, cp, d, cword, closed, open);
      FillingFull(open);
      if cword % 2 == 1 {
        Flush(out, base, cp, d, cword, closed, open);
        closed, open := closed + open, [];
        assert closed + open == closed;
        cp, d, cword := d, d + 4, TOP_BIT;
        flushed := flushed + 1;
      }
      d, cword := EmitLiteral(src[s], out, base, cp, d, cword, closed, open);
      ProgressNext(src, s, s + 1, closed, open, Lit(src[s]));
      LiteralsNext(src, s);
      Regroup(closed, open, Lit(src[s]), Literals(src, s + 1));
      open := open + [Lit(src[s])];
      s := s + 1;
      InvOf(src, s, out, base, cp, d, cword, closed, open);
    }
  }

  lemma Regroup(closed: seq<Item>, open: seq<Item>, x: Item, rest: seq<Item>)
    ensures closed + (open + [x]) + rest == closed + open + ([x] + rest)
  {
  }

  /** Bring the sentinel of the last group down to the lowest bit. */
  method Normalize(cword0: nat, ghost open: seq<Item>) returns (cword: nat)
    requires |open| <= GROUP && cword0 == Filling(open)
    ensures cword / 2 + TOP_BIT == Closed(open)
  {
    hide Bits, Filling;
    cword := cword0;
    FillingIs(open);
    ghost var j: nat := GROUP - |open|;
    ghost var odd := 1 + 2 * Bits(open);
    while cword % 2 != 1
      invariant cword == Pow2(j) * odd
      decreases j
    {
      assert j > 0;
      Halve(Pow2(j - 1), odd);
      cword := cword / 2;
      j := j - 1;
    }
    if j > 0 {
      EvenProduct(Pow2(j - 1), odd);
    }
  }

  lemma EncodesBody(src: seq<byte>, closed: seq<Item>, open: seq<Item>, rest: seq<byte>)
    requires |src| > 0 && |closed| % GROUP == 0 && 1 <= |open| <= GROUP
    requires Progress(src, |src|, closed + open)
    ensures Encodes(Groups(closed) + GroupBytes(open) + rest, closed + open, src)
  {
    hide Reads, Groups, GroupBytes, Plays, Placed;
    ReadsWord(open, rest, []);
    assert open + [] == open;
    ReadsGroups(closed, GroupBytes(open) + rest, open);
    Assoc(Groups(closed), GroupBytes(open), rest);
    assert src[..|src|] == src;
  }

  /** How small the body is: within 146 bytes of the input, and within a ninth plus a word. */
  lemma BodySize(src: seq<byte>, out: array<byte>, base: nat, cp: nat, d: nat, cword: nat,
                 closed: seq<Item>, open: seq<Item>)
    requires Inv(src, |src|, out, base, cp, d, cword, closed, open)
    ensures 31 * (d - base - 4) <= 35 * |src|
  {
    LongParts(closed, open);
    TextSumAppend(closed, open);
    GroupsSize(closed);
    PayloadSize(open);
  }

  /** The last control word; the length is never below nine. */
  method CloseBody(src: seq<byte>, out: array<byte>, base: nat, cp: nat, d: nat, cword0: nat,
                   ghost closed: seq<Item>, ghost open: seq<Item>)
    returns (r: nat)
    requires Inv(src, |src|, out, base, cp, d, cword0, closed, open) && open != []
    requires 1 <= |src| && d - base <= |src| + 146
    modifies out
    ensures 9 <= r <= |src| + 146 && (r == 9 || r == d - base)
    ensures Encodes(out[base..base + r], closed + open, src) && Filled(out[base..base + r], closed + open)
  {
    hide Encodes, Groups, Payload, Filling, Plays, Placed, TextSum, LongMatches, Body;
    var cword := Normalize(cword0, open);
    WriteControlWord(out, base, cp, d, cword / 2 + TOP_BIT);
    r := if d - base < 9 then 9 else d - base;
    assert out[base..base + r][..d - base] == out[base..d];
    BodyBytes(src, out[base..base + r], d - base, closed, open);
    BodyIs(closed, open);
  }

  /** The body of the items, and bytes that were there before up to a length of nine. */
  ghost predicate Filled(bytes: seq<byte>, xs: seq<Item>) {
    xs != [] && Body(xs) <= bytes && |bytes| == if |Body(xs)| < 9 then 9 else |Body(xs)|
  }

  lemma BodyBytes(src: seq<byte>, bytes: seq<byte>, n: nat, closed: seq<Item>, open: seq<Item>)
    requires |src| > 0 && |closed| % GROUP == 0 && 1 <= |open| <= GROUP
    requires Progress(src, |src|, closed + open)
    requires n <= |bytes| && bytes[..n] == Groups(closed) + (Little(Closed(open), 4) + Payload(open))
    ensures Encodes(bytes, closed + open, src)
  {
    SplitSeq(bytes, n);
    EncodesBody(src, closed, open, bytes[n..]);
  }

  /** From the end of the main loop to the end of the body. */
  method LastBytes(src: seq<byte>, s: nat, out: array<byte>, base: nat, cp0: nat, d0: nat, cword0: nat,
                   ghost closed0: seq<Item>, ghost open0: seq<Item>)
    returns (r: nat, ghost xs: seq<Item>)
    requires Inv(src, s, out, base, cp0, d0, cword0, closed0, open0) && Worth(|src|, closed0)
    requires s < |src| < s + 11
    modifies out
    ensures 9 <= r <= |src| + 146 && (r == 9 || 31 * (r - 4) <= 35 * |src|)
    ensures Encodes(out[base..base + r], xs, src) && Filled(out[base..base + r], xs)
    ensures xs == closed0 + open0 + Literals(src, s)
  {
    hide Literals;
    MainRoom(|src|, closed0, open0, s);
    ghost var closed, open;
    var cp, d, cword;
    cp, d, cword, closed, open := TailLoop(src, s, out, base, cp0, d0, cword0, closed0, open0);
    BodySize(src, out, base, cp, d, cword, closed, open);
    r := CloseBody(src, out, base, cp, d, cword, closed, open);
    xs := closed + open;
  }

  lemma ChoiceMade(src: seq<byte>, s: nat, closed: seq<Item>, open: seq<Item>)
    requires Choosing(src, s, closed, open) && |closed| % GROUP == 0 && |open| <= GROUP && s <= |src| < s + 11
    ensures !Hopeless(src) && Whole(src, closed + open + Literals(src, s))
  {
    hide Greedy, GivesUp, NotYet, TextSum, Literals;
    NeverHopeless(src, closed, open);
    assert WholeWith(src, closed + open, closed + open + Literals(src, s));
  }

  /** qlz_compress_core: zero exactly if some full groups past the middle are not worth it, otherwise the length of
      the body, at least nine. The items are the only ones the text has. */
  method Core(src: seq<byte>, out: array<byte>, base: nat, state: State) returns (r: nat, ghost xs: seq<Item>)
    requires 1 <= |src| && base <= 9 && |src| + 400 <= out.Length && state.Valid(0) && Entered(src, 0, state)
    modifies out, state.offset, state.counter
    ensures r == 0 <==> Hopeless(src)
    ensures r == 0 ==> |src| >= 31
    ensures r > 0 ==> 9 <= r <= |src| + 146 && (r == 9 || 31 * (r - 4) <= 35 * |src|)
    ensures r > 0 ==> Encodes(out[base..base + r], xs, src)
    ensures r > 0 ==> Whole(src, xs) && Filled(out[base..base + r], xs)
  {
    hide Inv, Packing, Progress, Worth, Choosing, Chosen, Entered, GivesUp, Encodes, Whole, Filled;
    var ok, s, cp, d, cword;
    ghost var closed, open;
    ok, s, cp, d, cword, closed, open := MainLoop(src, out, base, state);
    if ok {
      InvParts(src, s, out, base, cp, d, cword, closed, open);
      ChoiceMade(src, s, closed, open);
      r, xs := LastBytes(src, s, out, base, cp, d, cword, closed, open);
    } else {
      r, xs := 0, [];
    }
  }

  /** Bits 2 and 3 say level 3, bit 6 is always set. */
  method SetFlags(out: array<byte>, flag: nat)
    requires flag <= 3 && 1 <= out.Length && out[0] == flag
    modifies out
    ensures out[1..] == old(out[1..]) && out[0] == flag + 12 + 64
  {
    out[0] := out[0] + 3 * 4;
    out[0] := out[0] + 64;
  }

  /** The first byte of a packet: bit 0 for compressed, bit 1 for long sizes, level 3, and bit 6. */
  function FirstByte(base: nat, compressed: bool): byte {
    (if compressed then 1 else 0) + (if base == 9 then 2 else 0) + 3 * 4 + 64
  }

  /** What a header has to say. */
  ghost predicate Header(bytes: seq<byte>, base: nat, compressed: bool, r: nat, size: nat)
    requires |bytes| >= 9
  {
    && bytes[0] == FirstByte(base, compressed) && SizeHeader(bytes) == base
    && SizeCompressed(bytes) == r && SizeDecompressed(bytes) == size
  }

  method WriteShortHeader(out: array<byte>, compressed: bool, r: byte, size: byte)
    requires 9 <= out.Length
    modifies out
    ensures out[3..] == old(out[3..]) && Header(out[..], 3, compressed, r, size)
  {
    out[0] := if compressed then 1 else 0;
    out[1] := r;
    out[2] := size;
    SetFlags(out, out[0]);
    ghost var bytes := out[..];
    assert bytes[1] == out[1..][0] == r && bytes[2] == out[1..][1] == size;
    assert out[3..] == out[1..][2..];
    ShortField(bytes, 1);
    ShortField(bytes, 2);
  }

  method WriteLongHeader(out: array<byte>, compressed: bool, r: nat, size: nat)
    requires 9 <= out.Length && r < 0x1_0000_0000 && size < 0x1_0000_0000
    modifies out
    ensures out[9..] == old(out[9..]) && Header(out[..], 9, compressed, r, size)
  {
    hide Little, Header;
    out[0] := if compressed then 3 else 2;
    assert out[9..] == old(out[9..]);
    WriteFields(out, r, size);
    LongFields(out[..], out[1..]);
    SetFlags(out, out[0]);
    LongFields(out[..], out[1..]);
    LongHeader(out[..], compressed, r, size);
  }

  /** The two sizes of a long header. */
  method WriteFields(out: array<byte>, r: nat, size: nat)
    requires 9 <= out.Length
    modifies out
    ensures out[0] == old(out[0]) && out[9..] == old(out[9..])
    ensures out[1..5] == Little(r, 4) && out[5..9] == Little(size, 4)
  {
    hide Little;
    ghost var first := out[..1];
    WriteLittle(out, 1, r, 4);
    assert out[9..] == out[5..][4..];
    ghost var front := out[..5];
    assert front[..1] == out[..1] && front[1..5] == out[1..5];
    WriteLittle(out, 5, size, 4);
    assert out[..5] == front;
    assert out[..1] == front[..1] && out[1..5] == front[1..5];
    assert out[0] == first[0];
  }

  lemma LongHeader(bytes: seq<byte>, compressed: bool, r: nat, size: nat)
    requires 9 <= |bytes| && r < 0x1_0000_0000 && size < 0x1_0000_0000
    requires bytes[0] == (if compressed then 3 else 2) + 12 + 64
    requires bytes[1..5] == Little(r, 4) && bytes[5..9] == Little(size, 4)
    ensures Header(bytes, 9, compressed, r, size)
  {
    hide Get, Little;
    assert Pow256(3) == 0x100_0000;
    GetLittle(r, 4, Pow256(4));
    GetLittle(size, 4, Pow256(4));
    DivMod(r, Pow256(4), 0, r);
    DivMod(size, Pow256(4), 0, size);
  }

  lemma LongFields(bytes: seq<byte>, later: seq<byte>)
    requires |bytes| >= 9 && later == bytes[1..]
    ensures bytes[1..5] == later[..4] && bytes[5..9] == later[4..8] && bytes[9..] == later[8..]
  {
  }

  lemma ShortField(bytes: seq<byte>, at: nat)
    requires at + 4 <= |bytes|
    ensures Get(bytes[at..at + 4]) % Pow256(1) == bytes[at]
  {
    var w := bytes[at..at + 4];
    assert Get(w) == w[0] + 256 * Get(w[1..]);
    assert Pow256(1) == 256 * Pow256(0);
  }

  lemma HeaderOfPrefix(bytes: seq<byte>, r: nat, base: nat, compressed: bool, size: nat)
    requires 9 <= r <= |bytes| && Header(bytes, base, compressed, r, size)
    ensures Header(bytes[..r], base, compressed, r, size)
  {
    var p := bytes[..r];
    assert p[1..5] == bytes[1..5];
    var n := FieldLen(bytes);
    assert p[1 + n..5 + n] == bytes[1 + n..5 + n];
  }

  method WriteHeader(out: array<byte>, base: nat, compressed: bool, r: nat, size: nat)
    requires 9 <= r <= out.Length
    requires (base == 3 && r < 256 && size < 256) || (base == 9 && r < 0x1_0000_0000 && size < 0x1_0000_0000)
    modifies out
    ensures out[base..] == old(out[base..])
    ensures Header(out[..r], base, compressed, r, size)
  {
    if base == 3 {
      WriteShortHeader(out, compressed, r, size);
    } else {
      WriteLongHeader(out, compressed, r, size);
    }
    HeaderOfPrefix(out[..], r, base, compressed, size);
    assert out[..][..r] == out[..r];
  }

  /** qlz_compress. Sizes that the header cannot carry are refused; everything else fits the buffer of
      `size + 400` bytes, and short inputs fit the one-byte size fields. */
  method Compress(src: seq<byte>, out: array<byte>, state: State) returns (r: nat, ghost xs: seq<Item>)
    requires |src| + 400 <= out.Length
    requires state.offset.Length0 == HASH_VALUES && state.offset.Length1 == POINTERS
    requires state.counter.Length == HASH_VALUES
    modifies out, state.offset, state.counter
    ensures r <= |src| + 155
    ensures r == 0 <==> |src| == 0 || |src| > MAX_SIZE
    ensures r > 0 ==> Packet(out[..r], xs, src)
    ensures r > 0 ==> r >= 9 && out[0] == FirstByte(if |src| < 216 then 3 else 9, !Hopeless(src))
    ensures 1 <= |src| < 216 ==> r < 256 && SizeHeader(out[..r]) == 3
    ensures r > 0 && Hopeless(src) ==> r == |src| + if |src| < 216 then 3 else 9
    ensures r > 0 && !Hopeless(src) ==>
      Whole(src, xs) && Filled(out[if |src| < 216 then 3 else 9..r], xs)
  {
    hide Hopeless, Whole, Filled, Encodes, Packet, Header, Entered, FirstByte;
    var size := |src|;
    if size == 0 || size > MAX_SIZE {
      return 0, [];
    }
    var base := if size < 216 then 3 else 9;
    state.Reset();
    NoneEntered(src, state);
    r, xs := Core(src, out, base, state);
    var compressed := r != 0;
    if !compressed {
      CopyAll(src, out, base);
      r := size;
    }
    ghost var body := out[base..base + r];
    TailSlices(out[..], base, base + r);
    r := r + base;
    WriteHeader(out, base, compressed, r, size);
    TailSlices(out[..], base, r);
    PacketOf(out[..r], base, compressed, r, size, body, xs, src);
  }

  /** A header and what it announces make a packet. */
  lemma PacketOf(bytes: seq<byte>, base: nat, compressed: bool, r: nat, size: nat, body: seq<byte>, xs: seq<Item>,
                 text: seq<byte>)
    requires 9 <= r == |bytes| && base <= 9 && Header(bytes, base, compressed, r, size)
    requires bytes[base..] == body && size == |text| >= 1
    requires if compressed then Encodes(body, xs, text) && |body| >= 9 else body == text
    ensures Packet(bytes, xs, text)
    ensures bytes[0] == FirstByte(base, compressed) && SizeHeader(bytes) == base
  {
    hide Encodes;
  }

  lemma TailSlices(s: seq<byte>, base: nat, r: nat)
    requires base <= r <= |s|
    ensures s[..r][base..] == s[base..r] == s[base..][..r - base]
  {
  }

  /** memcpy(destination + base, source, size) */
  method CopyAll(src: seq<byte>, out: array<byte>, base: nat)
    requires base + |src| <= out.Length
    modifies out
    ensures out[base..base + |src|] == src
  {
    forall i | 0 <= i < |src| {
      out[base + i] := src[i];
    }
  }
}
