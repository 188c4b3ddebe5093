/** Event counts of the last few intervals, kept in a circular array. The monotonic clock is an input. */
module FreqCounter {
  import opened Words

  const LIMIT: int := 0x8000_0000

  // ----- which interval

  /** The interval `now` belongs to. */
  function Interval(up: int, now: int, granularity: nat): nat
    requires up <= now
  {
    if granularity > 1 then (now - up) / granularity else now - up
  }

  /** Interval `i` is the `granularity` seconds from `i * granularity` after the start on; one second each if the
      granularity is 0 or 1. */
  lemma IntervalBounds(up: int, now: int, granularity: nat, i: nat)
    requires up <= now
    ensures var g := if granularity > 1 then granularity else 1;
      Interval(up, now, granularity) == i <==> up + i * g <= now < up + (i + 1) * g
  {
    var t: nat := now - up;
    if granularity > 1 {
      assert (i + 1) * granularity == i * granularity + granularity;
      if i * granularity <= t < (i + 1) * granularity {
        DivMod(t, granularity, i, t - i * granularity);
      }
    }
  }

  /** `idx`: the difference goes through a 32-bit `int`. */
  function Index(up: int, now: int, granularity: nat): nat {
    var word := (now - up) % 0x1_0000_0000;
    var t := if word < LIMIT then word else word - 0x1_0000_0000;
    var t := if t < 0 then 0 else t;
    if granularity > 1 then t / granularity else t
  }

  /** The index is the interval exactly for the first 2^31 seconds. */
  lemma IndexExact(up: int, now: int, granularity: nat)
    requires up <= now && granularity <= LIMIT
    ensures Index(up, now, granularity) == Interval(up, now, granularity) <==> now - up < LIMIT
  {
    var t: nat := now - up;
    if t >= LIMIT {
      var word := t % 0x1_0000_0000;
      var s: nat := if word < LIMIT then word else 0;
      assert word >= LIMIT ==> s + granularity <= t;
      assert word < LIMIT ==> t >= s + 0x1_0000_0000;
      if granularity > 1 {
        Further(s, t, granularity);
      }
    }
  }

  lemma Further(s: nat, t: nat, g: nat)
    requires g > 0 && s + g <= t
    ensures s / g < t / g
  {
    var q := s / g;
    assert g * (q + 1) == g * q + g <= t;
    DivMono(g * (q + 1), t, g);
    DivMod(g * (q + 1), g, q + 1, 0);
  }

  lemma DivMono(a: nat, b: nat, g: nat)
    requires g > 0 && a <= b
    ensures a / g <= b / g
  {
    var d := b / g - a / g;
    assert g * d == b - a - (b % g - a % g) by {
      assert a == g * (a / g) + a % g && b == g * (b / g) + b % g;
    }
    MultipleSize(g, d);
  }

  /** One second past the limit the index falls back to 0. */
  lemma IndexFallsBack(up: int, granularity: nat)
    requires granularity <= 1
    ensures Index(up, up + LIMIT - 1, granularity) == LIMIT - 1
    ensures Index(up, up + LIMIT, granularity) == 0
  {
  }

  // ----- what happened

  datatype Event = Event(interval: nat, times: u64)

  function Count(h: seq<Event>, i: nat): nat {
    if h == [] then 0
    else Count(h[..|h| - 1], i) + if h[|h| - 1].interval == i then h[|h| - 1].times else 0
  }

  /** All events in the intervals `lo .. hi`. */
  function Total(h: seq<Event>, lo: nat, hi: nat): nat
    requires lo <= hi
  {
    if lo == hi then 0 else Total(h, lo, hi - 1) + Count(h, hi - 1)
  }

  ghost predicate UpTo(h: seq<Event>, last: nat) {
    forall i :: 0 <= i < |h| ==> h[i].interval <= last
  }

  lemma {:induction false} NotYet(h: seq<Event>, last: nat, i: nat)
    requires UpTo(h, last) && last < i
    ensures Count(h, i) == 0
  {
    if h != [] {
      NotYet(h[..|h| - 1], last, i);
    }
  }

  lemma CountMore(h: seq<Event>, e: Event, i: nat)
    ensures Count(h + [e], i) == Count(h, i) + if e.interval == i then e.times else 0
  {
    assert (h + [e])[..|h|] == h;
  }

  lemma {:induction false} TotalJoin(h: seq<Event>, lo: nat, mid: nat, hi: nat)
    requires lo <= mid <= hi
    ensures Total(h, lo, mid) + Total(h, mid, hi) == Total(h, lo, hi)
  {
    if mid < hi {
      TotalJoin(h, lo, mid, hi - 1);
    }
  }

  // ----- the window

  /** Interval `i` is one of the `n` the array still holds. */
  predicate Live(i: nat, last: nat, n: nat) {
    i <= last < i + n
  }

  ghost predicate Window(h: seq<Event>, last: nat, cnt: seq<u64>)
    requires cnt != []
  {
    && UpTo(h, last)
    && forall i: nat :: Live(i, last, |cnt|) ==> cnt[i % |cnt|] == Count(h, i) % TOP
  }

  /** Two different live intervals have different places. */
  lemma OwnPlace(i: nat, j: nat, n: nat)
    requires n > 0 && i < j < i + n
    ensures i % n != j % n
  {
    var d := j / n - i / n;
    assert j - i == n * d + (j % n - i % n);
    MultipleSize(n, d);
  }

  lemma WindowNext(h: seq<Event>, last: nat, cnt: seq<u64>)
    requires cnt != [] && Window(h, last, cnt)
    ensures Window(h, last + 1, cnt[(last + 1) % |cnt| := 0])
  {
    var n := |cnt|;
    forall i: nat | Live(i, last + 1, n)
      ensures cnt[(last + 1) % n := 0][i % n] == Count(h, i) % TOP
    {
      if i == last + 1 {
        NotYet(h, last, i);
      } else {
        OwnPlace(i, last + 1, n);
        assert Live(i, last, n);
      }
    }
  }

  lemma WindowFar(h: seq<Event>, last: nat, cnt: seq<u64>, next: nat)
    requires cnt != [] && UpTo(h, last) && last + |cnt| <= next
    requires forall k :: 0 <= k < |cnt| ==> cnt[k] == 0
    ensures Window(h, next, cnt)
  {
    forall i: nat | Live(i, next, |cnt|)
      ensures cnt[i % |cnt|] == Count(h, i) % TOP
    {
      NotYet(h, last, i);
    }
  }

  lemma WindowMore(h: seq<Event>, last: nat, cnt: seq<u64>, times: u64)
    requires cnt != [] && Window(h, last, cnt)
    ensures
      var k := last % |cnt|;
      Window(h + [Event(last, times)], last, cnt[k := (cnt[k] + times) % TOP])
  {
    hide Count;
    var n, k, e := |cnt|, last % |cnt|, Event(last, times);
    forall i: nat | Live(i, last, n)
      ensures cnt[k := (cnt[k] + times) % TOP][i % n] == Count(h + [e], i) % TOP
    {
      CountMore(h, e, i);
      if i < last {
        OwnPlace(i, last, n);
      } else {
        AddTimes(Count(h, i), times);
      }
    }
  }

  lemma AddTimes(a: nat, times: nat)
    ensures (a % TOP + times) % TOP == (a + times) % TOP
  {
  }

  // ----- the class

  /** The intervals a frequency is taken over. */
  function From(last: nat, n: nat): nat {
    if last < 2 then 0 else if last < n then 1 else last - n + 1
  }

  function To(last: nat): nat {
    if last < 2 then 1 else last
  }

  /** Exactly the intervals that are over, still in the window of `duration` before the current one, and not
      the first, which may have begun in the middle; only while there is none of those it is the first. */
  lemma CompleteIntervals(last: nat, duration: nat, i: nat)
    requires duration >= 1
    ensures last >= 2 ==>
      (From(last, duration + 1) <= i < To(last) <==> 1 <= i < last && last <= i + duration)
    ensures last < 2 ==> (From(last, duration + 1) <= i < To(last) <==> i == 0)
    ensures From(last, duration + 1) <= i < To(last) ==> Live(i, last, duration + 1)
  {
  }

  class FreqCounter {
    const duration: nat
    const granularity: nat
    const up: int
    const cnt: array<u64>
    var last: int
    var lasti: nat
    ghost var history: seq<Event>

    ghost predicate Valid()
      reads this, cnt
    {
      && cnt.Length == duration + 1
      && up <= last
      && (last - up < LIMIT ==> lasti == Interval(up, last, granularity) && Window(history, lasti, cnt[..]))
    }

    constructor (duration: nat, granularity: nat, clock: int)
      ensures Valid() && fresh(cnt)
      ensures this.duration == duration && this.granularity == granularity && up == last == clock && history == []
    {
      this.duration, this.granularity, up, last, lasti := duration, granularity, clock, clock, 0;
      cnt := new u64[duration + 1](_ => 0);
      history := [];
    }

    /** The window moves up to the clock, and never back. */
    method Update(clock: int)
      requires Valid()
      modifies this`last, this`lasti, cnt
      ensures Valid() && last == if clock > old(last) then clock else old(last)
    {
      if clock > last {
        var e := Index(up, clock, granularity);
        ghost var right := clock - up < LIMIT;
        if right {
          IntervalMono(up, last, clock, granularity);
        }
        if e < lasti + cnt.Length {
          var i := lasti + 1;
          while i <= e
            invariant right ==> lasti + 1 <= i <= e + 1 && Window(history, i - 1, cnt[..])
            decreases e + 1 - i
          {
            if right {
              WindowNext(history, i - 1, cnt[..]);
            }
            cnt[i % cnt.Length] := 0;
            i := i + 1;
          }
        } else {
          forall k | 0 <= k < cnt.Length {
            cnt[k] := 0;
          }
          if right {
            WindowFar(history, lasti, cnt[..], e);
          }
        }
        last := clock;
        lasti := e;
      }
    }

    method Occur(times: u64, clock: int)
      requires Valid()
      modifies this`last, this`lasti, this`history, cnt
      ensures Valid() && last == if clock > old(last) then clock else old(last)
      ensures history == old(history) + [Event(Interval(up, last, granularity), times)]
    {
      Update(clock);
      if last - up < LIMIT {
        WindowMore(history, lasti, cnt[..], times);
      }
      history := history + [Event(Interval(up, last, granularity), times)];
      var k := lasti % cnt.Length;
      cnt[k] := (cnt[k] + times) % TOP;
    }

    /** The sum is the exact number of events, modulo 2^64, in the intervals it claims to cover, for the
        first 2^31 seconds and any positive duration. */
    method SumTo() returns (s: u64, d: nat)
      requires Valid()
      ensures duration >= 1 ==> From(lasti, duration + 1) < To(lasti) && d == To(lasti) - From(lasti, duration + 1)
      ensures duration >= 1 && last - up < LIMIT ==> s == Total(history, From(lasti, duration + 1), To(lasti)) % TOP
    {
      hide Total, Window, Round, Count, Interval;
      ghost var right := duration >= 1 && last - up < LIMIT;
      var n := cnt.Length;
      s, d := 0, 0;
      if lasti < 2 {
        s := cnt[0];
        d := 1;
        if right {
          TotalNone(history, 0);
          TotalStep(history, lasti, cnt[..], 0, 0, 0);
        }
      } else if lasti < n {
        d := 1;
        if right {
          TotalNone(history, 1);
        }
        while d < lasti
          invariant 1 <= d <= lasti
          invariant right ==> s == Total(history, 1, d) % TOP
        {
          if right {
            DivMod(d, n, 0, d);
            TotalStep(history, lasti, cnt[..], 1, d, s);
          }
          s := (s + cnt[d]) % TOP;
          d := d + 1;
        }
        d := lasti - 1;
      } else {
        var cur, i: nat := lasti % n, 0;
        if right {
          RoundStart(history, lasti, n);
        }
        while i < n
          invariant 0 <= i <= n
          invariant right ==> Round(history, lasti, n, i, s)
        {
          if right {
            RoundStep(history, lasti, cnt[..], i, s);
          }
          if i != cur {
            s := (s + cnt[i]) % TOP;
          }
          i := i + 1;
        }
        d := n - 1;
        if right {
          RoundEnd(history, lasti, n, s);
        }
      }
    }

    method Frequency(clock: int) returns (f: u64)
      requires Valid() && duration >= 1
      modifies this`last, this`lasti, cnt
      ensures Valid() && last == if clock > old(last) then clock else old(last)
      ensures From(lasti, duration + 1) < To(lasti)
      ensures last - up < LIMIT ==>
        && lasti == Interval(up, last, granularity)
        && f == Total(history, From(lasti, duration + 1), To(lasti)) % TOP / (To(lasti) - From(lasti, duration + 1))
    {
      Update(clock);
      var s, d := SumTo();
      f := s / d;
    }
  }

  lemma IntervalMono(up: int, last: int, now: int, granularity: nat)
    requires up <= last <= now && now - up < LIMIT
    ensures Interval(up, last, granularity) <= Interval(up, now, granularity) == Index(up, now, granularity)
  {
    if granularity > 1 {
      DivMono(last - up, now - up, granularity);
    }
  }

  lemma Below(last: nat, n: nat)
    requires 0 < n <= last
    ensures n <= last - last % n
  {
    assert last == n * (last / n) + last % n;
    DivMono(n, last, n);
    MultipleSize(n, last / n);
  }

  /** Which live interval a place holds. */
  lemma SlotOf(last: nat, i: nat, n: nat)
    requires 0 < n <= last && i < n && i != last % n
    ensures last - last % n + i >= n
    ensures i < last % n ==> (last - last % n + i) % n == i
    ensures i > last % n ==> (last - last % n + i - n) % n == i
  {
    Below(last, n);
    var q := last / n;
    assert last - last % n == n * q;
    if i < last % n {
      DivMod(n * q + i, n, q, i);
    } else {
      assert n * q + i - n == n * (q - 1) + i;
      assert q >= 1;
      DivMod(n * (q - 1) + i, n, q - 1, i);
    }
  }

  /** One more live interval goes into a sum. */
  lemma TotalStep(h: seq<Event>, last: nat, cnt: seq<u64>, lo: nat, i: nat, s: u64)
    requires cnt != [] && Window(h, last, cnt) && Live(i, last, |cnt|)
    requires lo <= i && s == Total(h, lo, i) % TOP
    ensures (s + cnt[i % |cnt|]) % TOP == Total(h, lo, i + 1) % TOP
  {
    hide Count, UpTo;
    AddMod(Total(h, lo, i), Count(h, i));
  }

  lemma AddMod(a: nat, b: nat)
    ensures (a % TOP + b % TOP) % TOP == (a + b) % TOP
  {
  }

  /** The sum over the first `i` places but the current one: what is after the current place is older. */
  ghost predicate Round(h: seq<Event>, last: nat, n: nat, i: nat, s: u64)
    requires 0 < n <= last && i <= n
  {
    Below(last, n);
    var cur, base := last % n, last - last % n;
    s == (if i <= cur then Total(h, base, base + i)
          else Total(h, last + 1 - n, base + i - n) + Total(h, base, last)) % TOP
  }

  lemma RoundStart(h: seq<Event>, last: nat, n: nat)
    requires 0 < n <= last
    ensures Round(h, last, n, 0, 0)
  {
    Below(last, n);
  }

  lemma RoundStep(h: seq<Event>, last: nat, cnt: seq<u64>, i: nat, s: u64)
    requires cnt != [] && Window(h, last, cnt) && |cnt| <= last && i < |cnt| && Round(h, last, |cnt|, i, s)
    ensures Round(h, last, |cnt|, i + 1, if i == last % |cnt| then s else (s + cnt[i]) % TOP)
  {
    hide Count, Window, Total;
    var n := |cnt|;
    var cur, base := last % n, last - last % n;
    Below(last, n);
    if i < cur {
      SlotOf(last, i, n);
      TotalStep(h, last, cnt, base, base + i, s);
    } else if i == cur {
      TotalNone(h, last + 1 - n);
    } else {
      SlotOf(last, i, n);
      var older, newer := Total(h, last + 1 - n, base + i - n), Total(h, base, last);
      AddMod(older, newer);
      TotalStep(h, last, cnt, last + 1 - n, base + i - n, older % TOP);
      AddMod(Total(h, last + 1 - n, base + i + 1 - n), newer);
      Shuffle(older, newer, cnt[i], Total(h, last + 1 - n, base + i + 1 - n));
    }
  }

  lemma TotalNone(h: seq<Event>, lo: nat)
    ensures Total(h, lo, lo) == 0
  {
  }

  lemma Shuffle(older: nat, newer: nat, c: nat, more: nat)
    requires (older % TOP + c) % TOP == more % TOP
    ensures ((older + newer) % TOP + c) % TOP == (more + newer) % TOP
  {
    AddTimes(older, c);
    AddTimes(older + newer, c);
    SameRest(older + c, more, newer);
  }

  lemma SameRest(a: nat, b: nat, c: nat)
    requires a % TOP == b % TOP
    ensures (a + c) % TOP == (b + c) % TOP
  {
    DivMod(a + c, TOP, a / TOP + (a % TOP + c) / TOP, (a % TOP + c) % TOP);
    DivMod(b + c, TOP, b / TOP + (a % TOP + c) / TOP, (a % TOP + c) % TOP);
  }

  lemma RoundEnd(h: seq<Event>, last: nat, n: nat, s: u64)
    requires 0 < n <= last && Round(h, last, n, n, s)
    ensures s == Total(h, last + 1 - n, last) % TOP
  {
    Below(last, n);
    TotalJoin(h, last + 1 - n, last - last % n, last);
  }
}
