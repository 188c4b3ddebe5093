/** The token bucket, in 64-bit arithmetic. The monotonic clock is an input. */
module FreqControl {
  import opened Words

  const MICROS: nat := 1000000
  const SIGN: int := 0x8000_0000_0000_0000

  type i64 = x: int | -0x8000_0000_0000_0000 <= x < 0x8000_0000_0000_0000

  /** The 64-bit word of `x`, read with a sign. */
  function Signed(x: int): (r: i64)
    ensures -SIGN <= x < SIGN ==> r == x
  {
    if x % TOP < SIGN then x % TOP else x % TOP - TOP
  }

  function Min(a: int, b: int): int {
    if a <= b then a else b
  }

  datatype Bucket = Bucket(freq: u64, size: u64, token: i64, delta: i64, time: u64)

  /** The time a call of `generate` goes by: a time in the past is replaced by the clock. */
  function Effective(b: Bucket, now: u64, clock: u64): u64 {
    if now < b.time then clock else now
  }

  function Generated(b: Bucket, now: u64, clock: u64): Bucket {
    if b.freq == 0 then b
    else
      var t := Effective(b, now, clock);
      if t <= b.time then b.(time := t)
      else
        var delta := Signed(b.delta + b.freq * (t - b.time));
        if delta < 0 then b.(time := t, delta := 0, token := Signed(b.size))
        else
          var tok := Signed(delta / MICROS + b.token);
          b.(time := t, delta := delta % MICROS,
             token := if tok < b.token || tok > Signed(b.size) then Signed(b.size) else tok)
  }

  function Got(b: Bucket, need: u64): (bool, Bucket) {
    if b.token < 0 || b.token < need then (false, b) else (true, b.(token := b.token - need))
  }

  function Overdrawn(b: Bucket, need: u64): (bool, Bucket) {
    if b.freq == 0 || Signed(need) < 0 then (false, b) else (true, b.(token := Signed(b.token - need)))
  }

  function Initialized(b: Bucket, freq: u64, size: u64, clock: u64): Bucket {
    if b.freq == 0 then Bucket(freq, size, 0, 0, clock) else b.(freq := freq, size := size)
  }

  class FreqControl {
    var freq: u64
    var size: u64
    var token: i64
    var delta: i64
    var time: u64

    function State(): Bucket
      reads this
    {
      Bucket(freq, size, token, delta, time)
    }

    constructor (freq: u64, size: u64, clock: u64)
      ensures State() == Bucket(freq, size, 0, 0, clock)
    {
      this.freq, this.size, token, delta, time := 0, 0, 0, 0, 0;
      new;
      Init(freq, size, clock);
    }

    /** Starts a bucket that has no frequency (`FreshLimit`) and changes one that has (`Rerated`, `InitBack`). */
    method Init(freq: u64, size: u64, clock: u64)
      modifies this
      ensures State() == Initialized(old(State()), freq, size, clock)
    {
      if this.freq == 0 {
        token, delta := 0, 0;
        time := clock;
      }
      this.freq := freq;
      this.size := size;
    }

    method Generate(now: u64, clock: u64)
      modifies this
      ensures State() == Generated(old(State()), now, clock)
    {
      hide Signed;
      if freq == 0 {
        return;
      }
      var now := now;
      if now < time {
        now := clock;
      }
      if now > time {
        delta := Signed(delta + freq * (now - time));
        if delta < 0 {
          delta := 0;
          token := Signed(size);
        } else {
          var tok := Signed(delta / MICROS + token);
          delta := delta % MICROS;
          if tok < token || tok > Signed(size) {
            tok := Signed(size);
          }
          token := tok;
        }
      }
      time := now;
    }

    method Check(need: u64) returns (enough: bool)
      ensures enough <==> token >= need
    {
      enough := token >= 0 && token >= need;
    }

    method Get(need: u64) returns (ok: bool)
      modifies this
      ensures (ok, State()) == Got(old(State()), need)
      ensures ok <==> old(token) >= need
      ensures token == if ok then old(token) - need else old(token)
      ensures freq == old(freq) && size == old(size) && delta == old(delta) && time == old(time)
    {
      if token < 0 || token < need {
        return false;
      }
      token := token - need;
      ok := true;
    }

    method Overdraw(need: u64) returns (ok: bool)
      modifies this
      ensures (ok, State()) == Overdrawn(old(State()), need)
      ensures ok <==> freq != 0 && need < 0x8000_0000_0000_0000
      ensures ok && old(token) - need >= -0x8000_0000_0000_0000 ==> token == old(token) - need
      ensures !ok ==> token == old(token)
      ensures freq == old(freq) && size == old(size) && delta == old(delta) && time == old(time)
    {
      if freq == 0 || Signed(need) < 0 {
        return false;
      }
      token := Signed(token - need);
      ok := true;
    }
  }

  // ----- one call of generate

  /** All the micro-tokens there are at `t`: the remainder and what has come in since. */
  function Due(b: Bucket, t: u64): nat
    requires b.delta >= 0 && b.time <= t
  {
    var product: int := b.freq * (t - b.time);
    Positive(b.freq, t - b.time);
    b.delta + product
  }

  lemma Positive(a: nat, b: nat)
    ensures a * b >= 0
  {
  }

  ghost predicate Sound(b: Bucket) {
    b.freq > 0 && b.size < SIGN && 0 <= b.delta < MICROS
  }

  /** If the micro-tokens fit in 63 bits, the bucket gets every whole token due, up to its size, and keeps
      the remainder. */
  lemma GeneratedExact(b: Bucket, now: u64, clock: u64)
    requires Sound(b) && b.time < Effective(b, now, clock)
    requires Due(b, Effective(b, now, clock)) < SIGN
    ensures
      var t := Effective(b, now, clock);
      Generated(b, now, clock)
      == b.(time := t, delta := Due(b, t) % MICROS, token := Min(b.size, b.token + Due(b, t) / MICROS))
  {
    var t := Effective(b, now, clock);
    TokensFit(b, Due(b, t));
  }

  /** The test for an overflow of the sum is right. */
  lemma TokensFit(b: Bucket, due: nat)
    requires b.size < SIGN && due < SIGN
    ensures
      var tok := Signed(due / MICROS + b.token);
      (if tok < b.token || tok > Signed(b.size) then Signed(b.size) else tok)
      == Min(b.size, b.token + due / MICROS)
  {
    var sum := due / MICROS + b.token;
    if sum >= SIGN {
      assert sum < TOP;
      assert sum % TOP == sum;
    }
  }

  /** Exactly when the tokens are right: the micro-tokens fit in 63 bits, or what is left of them after the
      wrap fills the bucket anyway. */
  lemma GeneratedExactly(b: Bucket, now: u64, clock: u64)
    requires Sound(b) && b.time < Effective(b, now, clock)
    ensures
      var due := Due(b, Effective(b, now, clock));
      var left := if Signed(due) < 0 then due else due % TOP;
      Generated(b, now, clock).token == Min(b.size, b.token + due / MICROS)
      <==> due < SIGN || b.size <= b.token + left / MICROS
  {
    var due: nat := Due(b, Effective(b, now, clock));
    if due < SIGN {
      GeneratedExact(b, now, clock);
    } else {
      hide Due, Signed, Generated;
      GeneratedToken(b, now, clock, due);
      if Signed(due) >= 0 {
        WrapLoses(due);
        TokensFit(b, Signed(due));
      }
    }
  }

  /** The tokens after a call that brings something. */
  lemma GeneratedToken(b: Bucket, now: u64, clock: u64, due: nat)
    requires Sound(b) && b.time < Effective(b, now, clock) && due == Due(b, Effective(b, now, clock))
    ensures
      var delta := Signed(due);
      var tok := Signed(delta / MICROS + b.token);
      Generated(b, now, clock).token
      == if delta < 0 || tok < b.token || tok > Signed(b.size) then Signed(b.size) else tok
    ensures Signed(b.size) == b.size
  {
    hide Signed;
  }

  /** Micro-tokens that wrap are short of whole tokens. */
  lemma WrapLoses(due: nat)
    requires due >= SIGN && Signed(due) >= 0
    ensures Signed(due) == due % TOP && Signed(due) / MICROS < due / MICROS
  {
    var delta := due % TOP;
    assert due == TOP * (due / TOP) + delta;
    assert due >= delta + TOP;
  }

  /** 2^44 tokens a second for 2^20 microseconds: the product is 2^64 and the bucket gets nothing. */
  lemma GeneratedWraps()
    ensures
      var b := Bucket(0x1000_0000_0000, 100, 0, 0, 0);
      Sound(b) && Generated(b, 0x10_0000, 0).token == 0 && Due(b, 0x10_0000) / MICROS > 100
  {
    assert 0x1000_0000_0000 * 0x10_0000 == TOP;
  }

  /** 2^43 tokens a second for 2^20 microseconds: the product is 2^63, which reads as negative, and an empty
      bucket is filled with 2^62 tokens where fewer than 10^13 are due. */
  lemma GeneratedOverfills()
    ensures
      var b := Bucket(0x800_0000_0000, 0x4000_0000_0000_0000, 0, 0, 0);
      && Sound(b) && Generated(b, 0x10_0000, 0).token == 0x4000_0000_0000_0000
      && Due(b, 0x10_0000) / MICROS < 10000000000000
  {
    assert 0x800_0000_0000 * 0x10_0000 == SIGN;
  }

  /** One call or two, the bucket ends up the same, cap or no cap. */
  lemma GeneratedSplit(b: Bucket, mid: u64, now: u64, clock: u64)
    requires Sound(b) && b.time <= mid <= now && Due(b, now) < SIGN
    ensures Generated(Generated(b, mid, clock), now, clock) == Generated(b, now, clock)
  {
    hide Generated, Due;
    if b.time < mid {
      DueMono(b, mid, now);
      GeneratedExact(b, mid, clock);
      GeneratedExact(b, now, clock);
      var c := Generated(b, mid, clock);
      assert c == b.(time := mid, delta := Due(b, mid) % MICROS, token := Min(b.size, b.token + Due(b, mid) / MICROS));
      DueSplit(b, c, mid, now);
      if mid < now {
        GeneratedExact(c, now, clock);
      } else {
        GeneratedAgain(c, clock);
      }
    } else {
      GeneratedAgain(b, clock);
    }
  }

  lemma GeneratedAgain(b: Bucket, clock: u64)
    ensures Generated(b, b.time, clock) == b
  {
  }

  lemma DueMono(b: Bucket, mid: u64, now: u64)
    requires Sound(b) && b.time <= mid <= now
    ensures Due(b, now) == Due(b, mid) + b.freq * (now - mid)
    ensures b.freq * (now - mid) >= 0
  {
    Positive(b.freq, now - mid);
    assert b.freq * (now - b.time) == b.freq * (mid - b.time) + b.freq * (now - mid);
  }

  lemma DueNow(b: Bucket)
    requires b.delta >= 0
    ensures Due(b, b.time) == b.delta
  {
  }

  /** Whole tokens now and whole tokens later add up. */
  lemma DueSplit(b: Bucket, c: Bucket, mid: u64, now: u64)
    requires Sound(b) && b.time <= mid <= now
    requires Sound(c) && c.freq == b.freq && c.time == mid && c.delta == Due(b, mid) % MICROS
    ensures Due(c, now) <= Due(b, now) && Due(c, now) % MICROS == Due(b, now) % MICROS
    ensures Due(b, now) / MICROS == Due(b, mid) / MICROS + Due(c, now) / MICROS
  {
    hide Due;
    DueMono(b, mid, now);
    DueMono(c, mid, now);
    DueNow(c);
    var q, d := Due(b, mid) / MICROS, Due(c, now);
    assert Due(b, now) == MICROS * (q + d / MICROS) + d % MICROS;
    DivMod(Due(b, now), MICROS, q + d / MICROS, d % MICROS);
  }

  // ----- whole runs

  datatype Call = Generate(now: u64, clock: u64) | Get(need: u64) | Overdraw(need: u64)

  function After(b: Bucket, call: Call): Bucket {
    match call
    case Generate(now, clock) => Generated(b, now, clock)
    case Get(need) => Got(b, need).1
    case Overdraw(need) => Overdrawn(b, need).1
  }

  function GrantedBy(b: Bucket, call: Call): nat {
    match call
    case Generate(_, _) => 0
    case Get(need) => if Got(b, need).0 then need else 0
    case Overdraw(need) => if Overdrawn(b, need).0 then need else 0
  }

  /** What the cap takes away. */
  function LostBy(b: Bucket, call: Call): int {
    match call
    case Generate(now, clock) =>
      var t := Effective(b, now, clock);
      if b.time < t && b.delta >= 0 then b.token + Due(b, t) / MICROS - Min(b.size, b.token + Due(b, t) / MICROS) else 0
    case _ => 0
  }

  /** The microseconds a call brings tokens for. */
  function Came(b: Bucket, call: Call): nat {
    match call
    case Generate(now, clock) =>
      var t := Effective(b, now, clock);
      if b.time < t then t - b.time else 0
    case _ => 0
  }

  /** No sum leaves its word. */
  ghost predicate Fitting(b: Bucket, call: Call)
    requires Sound(b)
  {
    match call
    case Generate(now, clock) =>
      var t := Effective(b, now, clock);
      b.time < t ==> Due(b, t) < SIGN
    case Get(_) => true
    case Overdraw(need) => need < SIGN ==> b.token - need >= -SIGN
  }

  /** Time does not go back. */
  predicate Forward(b: Bucket, call: Call) {
    call.Generate? ==> b.time <= Effective(b, call.now, call.clock)
  }

  function Run(b: Bucket, calls: seq<Call>): Bucket {
    if calls == [] then b else After(Run(b, calls[..|calls| - 1]), calls[|calls| - 1])
  }

  function Granted(b: Bucket, calls: seq<Call>): nat {
    if calls == [] then 0
    else
      var rest := calls[..|calls| - 1];
      Granted(b, rest) + GrantedBy(Run(b, rest), calls[|calls| - 1])
  }

  function Lost(b: Bucket, calls: seq<Call>): int {
    if calls == [] then 0
    else
      var rest := calls[..|calls| - 1];
      Lost(b, rest) + LostBy(Run(b, rest), calls[|calls| - 1])
  }

  function Advanced(b: Bucket, calls: seq<Call>): nat {
    if calls == [] then 0
    else
      var rest := calls[..|calls| - 1];
      Advanced(b, rest) + Came(Run(b, rest), calls[|calls| - 1])
  }

  ghost predicate FittingRun(b: Bucket, calls: seq<Call>) {
    calls == [] ||
    var rest := calls[..|calls| - 1];
    FittingRun(b, rest) && Sound(Run(b, rest)) && Fitting(Run(b, rest), calls[|calls| - 1])
  }

  predicate ForwardRun(b: Bucket, calls: seq<Call>) {
    calls == [] ||
    var rest := calls[..|calls| - 1];
    ForwardRun(b, rest) && Forward(Run(b, rest), calls[|calls| - 1])
  }

  /** All the micro-tokens there are after so many microseconds. */
  function Accrued(b: Bucket, micros: nat): nat
    requires b.delta >= 0
  {
    Positive(b.freq, micros);
    var product: int := b.freq * micros;
    b.delta + product
  }

  /** Whole tokens of two stretches add up. */
  lemma AccruedSplit(b: Bucket, c: Bucket, x: nat, y: nat)
    requires Sound(b) && Sound(c) && c.freq == b.freq && c.delta == Accrued(b, x) % MICROS
    ensures Accrued(b, x + y) / MICROS == Accrued(b, x) / MICROS + Accrued(c, y) / MICROS
    ensures Accrued(b, x + y) % MICROS == Accrued(c, y) % MICROS
  {
    var q, d := Accrued(b, x) / MICROS, Accrued(c, y);
    assert b.freq * (x + y) == b.freq * x + b.freq * y;
    assert Accrued(b, x + y) == MICROS * q + d;
    hide Accrued;
    assert MICROS * q + d == MICROS * (q + d / MICROS) + d % MICROS;
    DivMod(Accrued(b, x + y), MICROS, q + d / MICROS, d % MICROS);
  }

  /** What was given out by a call, is there after it or was lost to the cap is what was there before it and
      the whole tokens that came in. */
  ghost predicate Accounts(b: Bucket, micros: nat, granted: nat, lost: int, c: Bucket)
    requires Sound(b)
  {
    && Sound(c) && c.freq == b.freq && c.size == b.size && lost >= 0
    && granted + c.token + lost == b.token + Accrued(b, micros) / MICROS
    && c.delta == Accrued(b, micros) % MICROS
  }

  lemma AccountsNothing(b: Bucket)
    requires Sound(b)
    ensures Accounts(b, 0, 0, 0, b)
  {
    DivMod(b.delta, MICROS, 0, b.delta);
  }

  lemma AfterAccounts(b: Bucket, call: Call)
    requires Sound(b) && Fitting(b, call)
    ensures Accounts(b, Came(b, call), GrantedBy(b, call), LostBy(b, call), After(b, call))
    ensures After(b, call).time - b.time <= Came(b, call)
    ensures After(b, call).time - b.time == Came(b, call) <==> Forward(b, call)
  {
    hide Generated, Due, Accrued;
    AccountsNothing(b);
    if call.Generate? {
      var t := Effective(b, call.now, call.clock);
      if b.time < t {
        GeneratedExact(b, call.now, call.clock);
        DueAccrued(b, t);
      } else {
        GeneratedBack(b, call.now, call.clock);
      }
    }
  }

  lemma DueAccrued(b: Bucket, t: u64)
    requires b.delta >= 0 && b.time <= t
    ensures Due(b, t) == Accrued(b, t - b.time)
  {
  }

  lemma GeneratedBack(b: Bucket, now: u64, clock: u64)
    requires b.freq > 0 && Effective(b, now, clock) <= b.time
    ensures Generated(b, now, clock) == b.(time := Effective(b, now, clock))
  {
  }

  lemma AccountsMore(b: Bucket, x: nat, g: nat, l: int, m: Bucket, y: nat, g': nat, l': int, c: Bucket)
    requires Sound(b) && Accounts(b, x, g, l, m) && Accounts(m, y, g', l', c)
    ensures Accounts(b, x + y, g + g', l + l', c)
  {
    hide Accrued;
    AccruedSplit(b, m, x, y);
  }

  /** Over any run in which no sum leaves its word, whatever the time does: the tokens granted, those still
      there and those the cap took are exactly the starting ones and the whole tokens of the microseconds the
      calls counted. They count no fewer than have passed, and as many exactly if time never went back. */
  lemma {:induction false} RunAccounts(b: Bucket, calls: seq<Call>)
    requires Sound(b) && FittingRun(b, calls)
    ensures Accounts(b, Advanced(b, calls), Granted(b, calls), Lost(b, calls), Run(b, calls))
    ensures Run(b, calls).time - b.time <= Advanced(b, calls)
    ensures Run(b, calls).time - b.time == Advanced(b, calls) <==> ForwardRun(b, calls)
  {
    hide After, GrantedBy, LostBy, Came, Fitting, Forward, Accounts;
    if calls == [] {
      AccountsNothing(b);
    } else {
      var rest, call := calls[..|calls| - 1], calls[|calls| - 1];
      var m := Run(b, rest);
      RunAccounts(b, rest);
      AfterAccounts(m, call);
      AccountsMore(b, Advanced(b, rest), Granted(b, rest), Lost(b, rest), m,
                   Came(m, call), GrantedBy(m, call), LostBy(m, call), Run(b, calls));
    }
  }

  /** The micro-tokens a run brought: granted, left, lost, and in the remainder. */
  function Brought(b: Bucket, calls: seq<Call>): int {
    var c := Run(b, calls);
    MICROS * (Granted(b, calls) + c.token + Lost(b, calls) - b.token) + c.delta - b.delta
  }

  /** Exactly when every microsecond counts once: a run brings the micro-tokens of the time that passed if
      and only if no call goes by a time behind the bucket's own, and more if one does. */
  lemma CountsOnce(b: Bucket, calls: seq<Call>)
    requires Sound(b) && FittingRun(b, calls)
    ensures Brought(b, calls) >= b.freq * (Run(b, calls).time - b.time)
    ensures Brought(b, calls) == b.freq * (Run(b, calls).time - b.time) <==> ForwardRun(b, calls)
  {
    hide Run, Granted, Lost, Advanced;
    RunAccounts(b, calls);
    var passed, counted := Run(b, calls).time - b.time, Advanced(b, calls);
    assert Brought(b, calls) == b.freq * counted;
    More(b.freq, passed, counted);
  }

  lemma More(f: nat, x: int, y: int)
    requires f > 0 && x <= y
    ensures f * x <= f * y && (f * x == f * y <==> x == y)
  {
    assert f * y == f * x + f * (y - x);
    MultipleSize(f, y - x);
  }

  /** Over any run in which time does not go back and no sum leaves its word, the tokens granted, those
      still there and those the cap took are exactly the starting ones and the whole tokens due since. */
  lemma Conservation(b: Bucket, calls: seq<Call>)
    requires Sound(b) && FittingRun(b, calls) && ForwardRun(b, calls)
    ensures var c := Run(b, calls); Sound(c) && c.freq == b.freq && c.size == b.size && b.time <= c.time
    ensures
      var c := Run(b, calls);
      && Granted(b, calls) + c.token + Lost(b, calls) == b.token + Due(b, c.time) / MICROS
      && c.delta == Due(b, c.time) % MICROS && Lost(b, calls) >= 0
  {
    hide Run, Granted, Lost, Advanced, ForwardRun;
    RunAccounts(b, calls);
    assert Due(b, Run(b, calls).time) == Accrued(b, Advanced(b, calls));
  }

  lemma {:induction false} GetsStayPositive(b: Bucket, calls: seq<Call>)
    requires Sound(b) && FittingRun(b, calls) && b.token >= 0
    requires forall i :: 0 <= i < |calls| ==> !calls[i].Overdraw?
    ensures Sound(Run(b, calls)) && Run(b, calls).token >= 0
  {
    hide Generated;
    if calls != [] {
      var rest, call := calls[..|calls| - 1], calls[|calls| - 1];
      var m := Run(b, rest);
      GetsStayPositive(b, rest);
      AfterAccounts(m, call);
      if call.Generate? {
        if m.time < Effective(m, call.now, call.clock) {
          GeneratedExact(m, call.now, call.clock);
        } else {
          GeneratedBack(m, call.now, call.clock);
        }
      }
    }
  }

  // ----- taking tokens

  function Gets(needs: seq<u64>): (calls: seq<Call>)
    ensures |calls| == |needs| && forall i :: 0 <= i < |calls| ==> calls[i] == Get(needs[i])
  {
    seq(|needs|, i requires 0 <= i < |needs| => Get(needs[i]))
  }

  function Sum(needs: seq<u64>): nat {
    if needs == [] then 0 else Sum(needs[..|needs| - 1]) + needs[|needs| - 1]
  }

  /** Calls of `get` in a row: all of them get what they ask for exactly if the bucket holds their sum, and
      then that sum is gone and nothing else has changed. */
  lemma {:induction false} GrantedInFull(b: Bucket, needs: seq<u64>)
    ensures Granted(b, Gets(needs)) <= Sum(needs)
    ensures Granted(b, Gets(needs)) == Sum(needs) <==> Sum(needs) <= b.token || Sum(needs) == 0
    ensures Run(b, Gets(needs)).token == b.token - Granted(b, Gets(needs))
    ensures Run(b, Gets(needs)) == b.(token := Run(b, Gets(needs)).token)
  {
    if needs != [] {
      var k := |needs| - 1;
      GrantedInFull(b, needs[..k]);
      assert Gets(needs)[..k] == Gets(needs[..k]);
    }
  }

  /** With `get(1)` a bucket of `n` tokens is emptied by `n` calls, and every call after those is refused:
      that many are granted, not one fewer and not one more. */
  lemma {:induction false} OneByOne(b: Bucket, n: nat)
    requires b.token >= 0
    ensures
      var ones := seq(n, _ => Get(1));
      && Run(b, ones) == b.(token := if n <= b.token then b.token - n else 0)
      && Granted(b, ones) == Min(n, b.token)
  {
    if n > 0 {
      OneByOne(b, n - 1);
      assert seq(n, _ => Get(1))[..n - 1] == seq(n - 1, _ => Get(1));
    }
  }

  /** An overdraft, on the other hand, is granted whatever the bucket holds: a run of them takes the sum of
      what they ask for, unless the bucket has no frequency. */
  lemma {:induction false} OverdraftsGranted(b: Bucket, needs: seq<u64>)
    requires b.freq > 0 && b.token - Sum(needs) >= -0x8000_0000_0000_0000
    requires forall i :: 0 <= i < |needs| ==> needs[i] < 0x8000_0000_0000_0000
    ensures
      var calls := seq(|needs|, i requires 0 <= i < |needs| => Overdraw(needs[i]));
      Run(b, calls) == b.(token := b.token - Sum(needs)) && Granted(b, calls) == Sum(needs)
  {
    if needs != [] {
      var k := |needs| - 1;
      OverdraftsGranted(b, needs[..k]);
      var calls := seq(|needs|, i requires 0 <= i < |needs| => Overdraw(needs[i]));
      assert calls[..k] == seq(k, i requires 0 <= i < k => Overdraw(needs[..k][i]));
    }
  }

  /** The rate limit: without overdrawing, what is granted in a window is at most the tokens at its start
      and one for every whole million micro-tokens of the microseconds counted, which are those that passed
      if time does not go back. */
  lemma RateLimit(b: Bucket, calls: seq<Call>)
    requires Sound(b) && FittingRun(b, calls) && b.token >= 0
    requires forall i :: 0 <= i < |calls| ==> !calls[i].Overdraw?
    ensures Granted(b, calls) <= b.token + Accrued(b, Advanced(b, calls)) / MICROS
    ensures ForwardRun(b, calls) ==>
      b.time <= Run(b, calls).time && Granted(b, calls) <= b.token + Due(b, Run(b, calls).time) / MICROS
  {
    hide Run, Granted, Lost, Advanced, ForwardRun;
    RunAccounts(b, calls);
    GetsStayPositive(b, calls);
    if ForwardRun(b, calls) {
      Conservation(b, calls);
    }
  }

  /** One call or many: as long as their times do not go back, any calls of generate leave the bucket as the
      last of them alone would, tokens and remainder, cap or no cap. */
  lemma {:induction false} GeneratedInSteps(b: Bucket, calls: seq<Call>, clock: u64)
    requires Sound(b) && ForwardRun(b, calls) && forall i :: 0 <= i < |calls| ==> calls[i].Generate?
    requires Run(b, calls).time >= b.time ==> Due(b, Run(b, calls).time) < SIGN
    ensures b.time <= Run(b, calls).time && Run(b, calls) == Generated(b, Run(b, calls).time, clock)
  {
    hide Generated, Due;
    RunForward(b, calls);
    if calls == [] {
      GeneratedAgain(b, clock);
    } else {
      var rest, call := calls[..|calls| - 1], calls[|calls| - 1];
      var mid, now := Run(b, rest).time, Run(b, calls).time;
      RunForward(b, rest);
      GoesBy(Run(b, rest), call.now, call.clock, clock);
      DueMono(b, mid, now);
      DueMono(b, b.time, mid);
      GeneratedInSteps(b, rest, clock);
      GeneratedSplit(b, mid, now, clock);
    }
  }

  /** What a call does depends only on the time it goes by, if that is not in the past. */
  lemma GoesBy(b: Bucket, now: u64, clock: u64, other: u64)
    requires b.freq > 0 && b.time <= Effective(b, now, clock)
    ensures Generated(b, now, clock).time == Effective(b, now, clock)
    ensures Generated(b, now, clock) == Generated(b, Effective(b, now, clock), other)
  {
  }

  lemma {:induction false} RunForward(b: Bucket, calls: seq<Call>)
    requires b.freq > 0 && ForwardRun(b, calls)
    ensures Run(b, calls).freq == b.freq && b.time <= Run(b, calls).time
    ensures calls != [] ==> Run(b, calls[..|calls| - 1]).time <= Run(b, calls).time
  {
    if calls != [] {
      RunForward(b, calls[..|calls| - 1]);
    }
  }

  /** A time ahead of the clock lets the same microseconds count twice: the second call goes back to the
      clock, and the third brings in again what the first had. */
  lemma BackwardsCountsTwice()
    ensures
      var b := Bucket(1000000, 100, 0, 0, 0);
      var c := Run(b, [Generate(10, 0), Generate(0, 5), Generate(10, 10)]);
      Sound(b) && c.time == 10 && c.token == 15 && Due(b, c.time) / MICROS == 10
  {
    var b := Bucket(1000000, 100, 0, 0, 0);
    var one := Generated(b, 10, 0);
    assert one == Bucket(1000000, 100, 10, 0, 10);
    var two := Generated(one, 0, 5);
    assert two == Bucket(1000000, 100, 10, 0, 5);
    var three := Generated(two, 10, 10);
    assert three == Bucket(1000000, 100, 15, 0, 10);
    var calls := [Generate(10, 0), Generate(0, 5), Generate(10, 10)];
    assert calls[..2] == [Generate(10, 0), Generate(0, 5)] && calls[..2][..1] == [Generate(10, 0)];
    assert Run(b, calls[..2][..1]) == After(Run(b, []), Generate(10, 0)) == one by {
      assert calls[..2][..1][..0] == [];
    }
    assert Run(b, calls[..2]) == two;
  }

  // ----- starting and changing a bucket

  /** A fresh bucket is empty and starts at the clock: without overdrawing it never grants more than its
      frequency brings from then on. */
  lemma FreshLimit(b: Bucket, freq: u64, size: u64, clock: u64, calls: seq<Call>)
    requires b.freq == 0 && freq > 0 && size < SIGN
    requires FittingRun(Initialized(b, freq, size, clock), calls)
    requires ForwardRun(Initialized(b, freq, size, clock), calls)
    requires forall i :: 0 <= i < |calls| ==> !calls[i].Overdraw?
    ensures
      var c := Initialized(b, freq, size, clock);
      clock <= Run(c, calls).time && Granted(c, calls) <= freq * (Run(c, calls).time - clock) / MICROS
  {
    hide Run, Granted, FittingRun, ForwardRun;
    RateLimit(Initialized(b, freq, size, clock), calls);
  }

  /** A running bucket keeps its tokens, its remainder and its time: the next call brings the whole stretch
      since then, at the new frequency and under the new size. */
  lemma Rerated(b: Bucket, freq: u64, size: u64, clock: u64, now: u64, due: nat)
    requires Sound(b) && freq > 0 && size < SIGN && b.time < now
    requires due == b.delta + freq * (now - b.time) && due < SIGN
    ensures Generated(Initialized(b, freq, size, clock), now, clock)
         == Bucket(freq, size, Min(size, b.token + due / MICROS), due % MICROS, now)
  {
    hide Generated;
    GeneratedExact(Initialized(b, freq, size, clock), now, clock);
  }

  /** Changing a running bucket and changing it back leaves nothing changed; through frequency 0 it loses
      its tokens. */
  lemma InitBack(b: Bucket, freq: u64, size: u64, clock: u64, later: u64)
    requires b.freq > 0
    ensures Initialized(Initialized(b, freq, size, clock), b.freq, b.size, later)
      == if freq > 0 then b else Bucket(b.freq, b.size, 0, 0, later)
  {
  }
}
