/** What both byte streams share: the error status, the cursor and the stack of stubs that limit it. */
module StreamBase {
  import opened Bytes
  import opened Words

  /** `len` is the size of the data of an input stream; an output stream has none. */
  datatype State = State(status: int, cur: nat, stubs: seq<u64>, len: Option<nat>) {
    predicate Good() {
      status == 0
    }

    predicate Within(pos: nat) {
      (stubs != [] ==> pos <= stubs[|stubs| - 1]) && (len.Some? ==> pos <= len.value)
    }

    /** A good stream has its cursor within the top stub, and any stream within its data. */
    predicate Safe() {
      (len.Some? ==> cur <= len.value) && (Good() ==> Within(cur))
    }

    /** `left()`, a 64-bit difference. */
    function Left(): nat
      requires len.Some?
    {
      var end := if stubs != [] && stubs[|stubs| - 1] < len.value then stubs[|stubs| - 1] else len.value;
      (end - cur) % TOP
    }
  }

  datatype Call =
    | Bad(code: int)
    | Seek(pos: nat)
    | Skip(off: int)
    | Take(n: nat)
    | Push(size: u64)
    | Pop(align: bool, check: bool)
    | End

  function Failed(s: State): State {
    s.(status := 1)
  }

  function CheckStub(s: State, pos: nat): (State, bool) {
    if !s.Good() then (s, false)
    else if s.stubs != [] && pos > s.stubs[|s.stubs| - 1] then (Failed(s), false)
    else (s, true)
  }

  function Sought(s: State, pos: nat): State {
    var (t, ok) := CheckStub(s, pos);
    if !ok then t
    else if s.len.Some? && pos > s.len.value then Failed(t)
    else t.(cur := pos)
  }

  /** `skip`: the two streams differ in what they check first. */
  function Skipped(s: State, off: int): State {
    var pos := (s.cur + off) % TOP;
    if s.len.Some? then Sought(s, pos)
    else
      var (t, ok) := CheckStub(s, pos);
      if !ok then t
      else if off < 0 && -off > s.cur then Failed(t)
      else Sought(t, pos)
  }

  /** `ensure`: is there room for `n` bytes? */
  function Ensured(s: State, n: nat): (State, bool) {
    var (t, ok) := CheckStub(s, (s.cur + n) % TOP);
    if !ok then (t, false)
    else if s.len.Some? && s.Left() < n then (Failed(t), false)
    else (t, true)
  }

  /** Reading or writing `n` bytes. */
  function Taken(s: State, n: nat): State {
    var (t, ok) := Ensured(s, n);
    if ok then t.(cur := t.cur + n) else t
  }

  function Pushed(s: State, size: u64): State {
    if s.Good() then s.(stubs := s.stubs + [(size + s.cur) % TOP]) else s
  }

  function Popped(s: State, align: bool, check: bool): State {
    if !s.Good() then s
    else if s.stubs == [] then Failed(s)
    else
      var pos := s.stubs[|s.stubs| - 1];
      var t := s.(stubs := s.stubs[..|s.stubs| - 1]);
      if check && t.cur != pos then Failed(t)
      else Sought(t, if align then pos else t.cur)
  }

  /** `Manip::end` of an input stream. */
  function Ended(s: State): State {
    if !s.Good() then s
    else
      var t := s.(stubs := []);
      if t.len.Some? && t.Left() > 0 then Failed(t) else t
  }

  function After(s: State, call: Call): State {
    match call
    case Bad(code) => s.(status := code)
    case Seek(pos) => Sought(s, pos)
    case Skip(off) => Skipped(s, off)
    case Take(n) => Taken(s, n)
    case Push(size) => Pushed(s, size)
    case Pop(align, check) => Popped(s, align, check)
    case End => Ended(s)
  }

  ghost predicate Bounded(s: State) {
    s.cur < TOP && (s.len.Some? ==> s.len.value < TOP)
  }

  // ----- single calls

  /** `ensure` succeeds exactly when the bytes end within the stub and the data, on an input stream even if
      the position wraps. */
  lemma EnsuredExactly(s: State, n: nat)
    requires s.Good() && s.Safe() && Bounded(s) && (s.cur + n < TOP || s.len.Some?)
    ensures Ensured(s, n) == if s.Within(s.cur + n) then (s, true) else (Failed(s), false)
  {
  }

  /** A push keeps the stream safe exactly when the position does not wrap. */
  lemma PushedSafe(s: State, size: u64)
    requires s.Good() && s.Safe() && s.cur < TOP
    ensures Pushed(s, size).Safe() <==> size + s.cur < TOP
  {
  }

  /** A stub of nearly 2^64 bytes at position 1 is a stub at position 0. */
  lemma PushedWraps()
    ensures var s := State(0, 1, [], Some(10)); s.Safe() && !Pushed(s, 0xFFFF_FFFF_FFFF_FFFF).Safe()
  {
  }

  /** After a detour that came out good, under the same stubs, the cursor goes back where it was. */
  lemma SeekBack(s: State, t: State)
    requires s.Good() && s.Safe() && t.Good() && t.stubs == s.stubs && t.len == s.len
    ensures Sought(t, s.cur) == s
  {
  }

  /** A seek goes to any place within the stub and the data, and fails for any other. */
  lemma SoughtExactly(s: State, pos: nat)
    requires s.Good()
    ensures Sought(s, pos) == if s.Within(pos) then s.(cur := pos) else Failed(s)
  {
  }

  /** A relative seek goes to the cursor and the offset together, wherever that is a place to go. */
  lemma SkippedExactly(s: State, off: int)
    requires s.Good() && s.Safe() && Bounded(s) && 0 <= s.cur + off < TOP
    ensures Skipped(s, off) == if s.Within(s.cur + off) then s.(cur := s.cur + off) else Failed(s)
  {
  }

  /** The end of an input stream takes the stubs away and fails exactly if data is left. */
  lemma EndedExactly(s: State)
    requires s.Good() && s.Safe() && Bounded(s)
    ensures Ended(s) == State(if s.len.Some? && s.cur < s.len.value then 1 else 0, s.cur, [], s.len)
  {
  }

  // ----- whole runs

  function Run(s: State, calls: seq<Call>): State {
    if calls == [] then s else After(Run(s, calls[..|calls| - 1]), calls[|calls| - 1])
  }

  /** No status reset, and no position past 2^64 except in a read, which the data stop. */
  ghost predicate Tame(s: State, call: Call) {
    match call
    case Bad(code) => code != 0
    case Take(n) => s.len.Some? || s.cur + n < TOP
    case Push(size) => size + s.cur < TOP
    case Seek(pos) => pos < TOP
    case _ => true
  }

  ghost predicate TameRun(s: State, calls: seq<Call>) {
    calls == [] || (TameRun(s, calls[..|calls| - 1]) && Tame(Run(s, calls[..|calls| - 1]), calls[|calls| - 1]))
  }

  lemma AfterSafe(s: State, call: Call)
    requires s.Safe() && Bounded(s) && Tame(s, call)
    ensures After(s, call).Safe() && Bounded(After(s, call))
    ensures !s.Good() ==> !After(s, call).Good() && After(s, call).cur == s.cur
  {
    match call
    case Take(n) =>
      if s.Good() {
        EnsuredExactly(s, n);
      }
    case _ =>
  }

  /** Over any run without a status reset and without a wrap: the stream stays safe, and once it failed its
      cursor never moves again. */
  lemma {:induction false} RunSafe(s: State, calls: seq<Call>, k: nat)
    requires s.Safe() && Bounded(s) && TameRun(s, calls) && k <= |calls|
    ensures TameRun(s, calls[..k]) && Run(s, calls).Safe() && Bounded(Run(s, calls))
    ensures !Run(s, calls[..k]).Good() ==>
      !Run(s, calls).Good() && Run(s, calls).cur == Run(s, calls[..k]).cur
  {
    if k == |calls| {
      assert calls[..k] == calls;
      if calls != [] {
        RunSafe(s, calls[..k - 1], k - 1);
        AfterSafe(Run(s, calls[..k - 1]), calls[k - 1]);
      }
    } else {
      var rest := calls[..|calls| - 1];
      RunSafe(s, rest, k);
      assert rest[..k] == calls[..k];
      AfterSafe(Run(s, rest), calls[|calls| - 1]);
    }
  }

  // ----- a stub around other calls

  /** How many more stubs there are afterwards. */
  function Depth(calls: seq<Call>): int {
    if calls == [] then 0
    else
      Depth(calls[..|calls| - 1])
      + match calls[|calls| - 1]
        case Push(_) => 1
        case Pop(_, _) => -1
        case _ => 0
  }

  /** Every pop has its push before it, and nothing takes all stubs away. */
  ghost predicate Nested(calls: seq<Call>) {
    calls == [] || (Nested(calls[..|calls| - 1]) && Depth(calls) >= 0 && calls[|calls| - 1] != End)
  }

  /** One call of a stream that is good afterwards. */
  lemma AfterGood(s: State, call: Call)
    requires s.Safe() && Bounded(s) && Tame(s, call) && call != End && After(s, call).Good()
    ensures s.Good() && After(s, call).len == s.len
    ensures call.Pop? ==> s.stubs != [] && After(s, call).stubs == s.stubs[..|s.stubs| - 1]
    ensures call.Push? ==> |After(s, call).stubs| == |s.stubs| + 1 && s.stubs <= After(s, call).stubs
    ensures !call.Pop? && !call.Push? ==> After(s, call).stubs == s.stubs
  {
    AfterSafe(s, call);
  }

  /** Calls that are nested well and come out good leave the stubs below them alone. */
  lemma {:induction false} StubsKept(s: State, calls: seq<Call>)
    requires s.Safe() && Bounded(s) && TameRun(s, calls) && Nested(calls) && Run(s, calls).Good()
    ensures s.Good() && Run(s, calls).len == s.len && s.stubs <= Run(s, calls).stubs
    ensures |Run(s, calls).stubs| == |s.stubs| + Depth(calls)
  {
    hide After, Tame;
    if calls != [] {
      var rest, call := calls[..|calls| - 1], calls[|calls| - 1];
      RunSafe(s, rest, |rest|);
      AfterGood(Run(s, rest), call);
      StubsKept(s, rest);
      if call.Pop? {
        PrefixLess(s.stubs, Run(s, rest).stubs);
      }
    }
  }

  lemma PrefixLess<T>(a: seq<T>, b: seq<T>)
    requires a <= b && |a| < |b|
    ensures a <= b[..|b| - 1]
  {
  }

  /** A stub of `n` bytes is pushed at the cursor, any well nested calls come out good at `d`, and the stub is
      popped. The stubs are then as they were before the push. The pop goes on at the end of the stub if it
      aligns and at `d` if it does not; it fails, and stays at `d`, exactly if it has to check that the stub
      was used up and it was not, or if the place to go on at is behind the stub below or the data. */
  lemma StubAround(s: State, n: u64, calls: seq<Call>, align: bool, check: bool)
    requires s.Good() && s.Safe() && Bounded(s) && s.cur + n < TOP
    requires Nested(calls) && Depth(calls) == 0
    requires TameRun(s.(stubs := s.stubs + [s.cur + n]), calls)
    requires Run(s.(stubs := s.stubs + [s.cur + n]), calls).Good()
    ensures
      var d := Run(s.(stubs := s.stubs + [s.cur + n]), calls).cur;
      var to := if align then s.cur + n else d;
      && d <= s.cur + n
      && Run(s, [Push(n)] + calls + [Pop(align, check)])
         == if (check ==> d == s.cur + n) && s.Within(to) then s.(cur := to) else s.(cur := d, status := 1)
  {
    hide Run, Nested, Depth, TameRun;
    var inner := s.(stubs := s.stubs + [s.cur + n]);
    assert Pushed(s, n) == inner;
    RunOne(s, Push(n));
    RunThen(s, [Push(n)], calls);
    RunThen(s, [Push(n)] + calls, [Pop(align, check)]);
    var t := Run(inner, calls);
    RunOne(t, Pop(align, check));
    StubsKept(inner, calls);
    assert t.stubs == s.stubs + [s.cur + n];
    RunSafe(inner, calls, |calls|);
  }

  lemma RunOne(s: State, call: Call)
    ensures Run(s, [call]) == After(s, call)
  {
    assert [call][..0] == [];
  }

  lemma {:induction false} RunThen(s: State, a: seq<Call>, b: seq<Call>)
    ensures Run(s, a + b) == Run(Run(s, a), b)
  {
    if b == [] {
      assert a + b == a;
    } else {
      RunThen(s, a, b[..|b| - 1]);
      assert (a + b)[..|a + b| - 1] == a + b[..|b| - 1];
    }
  }
}
