/** The lock-free attribute table as a machine of atomic steps, run by any number of threads in any
    order. Reads and writes of a key and of a value are single steps, as on the hardware the library
    is for; the log is a history of what the steps did. */
module AttrTable {
  import opened Words

  datatype Slot = Slot(key: int, val: nat)

  /** What a thread may set out to do. `CachedAdd` is the macro's second and later pass: it adds
      through the pointer an earlier search left behind. */
  datatype Op = Add(attr: int, amount: nat) | Set(attr: int, amount: nat)
      | CachedAdd(attr: int, amount: nat, at: nat) | Iterate

  /** Where a thread is between two atomic steps. */
  datatype Pc =
    | Idle
    | ReadKey(op: Op, i: nat)
    | Claim(op: Op, i: nat)
    | Compare(op: Op, i: nat)
    | Update(op: Op, i: nat)
    | IterKey(i: nat)
    | IterSwap(i: nat)

  datatype Event =
    | Found(attr: int, at: nat)
    | Refused(attr: int)
    | Added(attr: int, amount: nat)
    | Replaced(attr: int, now: nat, before: nat)
    | Delivered(attr: int, value: nat)

  type Tid = nat

  datatype State = State(slots: seq<Slot>, pcs: map<Tid, Pc>, log: seq<Event>)

  function PcOf(s: State, t: Tid): Pc {
    if t in s.pcs then s.pcs[t] else Idle
  }

  /** `init`: all keys and values zero. */
  function Init(capacity: nat): State {
    State(seq(capacity, _ => Slot(0, 0)), map[], [])
  }

  // ----- one atomic step

  function Begin(s: State, t: Tid, op: Op): State {
    match op
    case Iterate => s.(pcs := s.pcs[t := IterKey(0)])
    case CachedAdd(attr, _, i) =>
      if Found(attr, i) in s.log then s.(pcs := s.pcs[t := Update(op, i)]) else s
    case _ =>
      if op.attr <= 0 then s.(log := s.log + [Refused(op.attr)])
      else s.(pcs := s.pcs[t := ReadKey(op, 0)])
  }

  /** The next atomic step of thread `t`; an idle thread starts `op`. */
  function Step(s: State, t: Tid, op: Op): State {
    match PcOf(s, t)
    case Idle => Begin(s, t, op)
    case ReadKey(o, i) =>
      if i >= |s.slots| then Finish(s, t, Refused(AttrOf(o)))
      else if s.slots[i].key == 0 then s.(pcs := s.pcs[t := Claim(o, i)])
      else s.(pcs := s.pcs[t := Compare(o, i)])
    case Claim(o, i) =>
      if i < |s.slots| && s.slots[i].key == 0 then
        s.(slots := s.slots[i := s.slots[i].(key := AttrOf(o))], pcs := s.pcs[t := Update(o, i)],
           log := s.log + [Found(AttrOf(o), i)])
      else s.(pcs := s.pcs[t := Compare(o, i)])
    case Compare(o, i) =>
      if i < |s.slots| && s.slots[i].key == AttrOf(o) then
        s.(pcs := s.pcs[t := Update(o, i)], log := s.log + [Found(AttrOf(o), i)])
      else s.(pcs := s.pcs[t := ReadKey(o, i + 1)])
    case Update(o, i) =>
      if i >= |s.slots| || o.Iterate? then s
      else
        var was := s.slots[i].val;
        if o.Set? then
          Finish(s.(slots := s.slots[i := s.slots[i].(val := o.amount % TOP)]), t,
                 Replaced(o.attr, o.amount % TOP, was))
        else
          Finish(s.(slots := s.slots[i := s.slots[i].(val := (was + o.amount) % TOP)]), t,
                 Added(o.attr, o.amount))
    case IterKey(i) =>
      if i >= |s.slots| || s.slots[i].key == 0 then s.(pcs := s.pcs[t := Idle])
      else s.(pcs := s.pcs[t := IterSwap(i)])
    case IterSwap(i) =>
      if i >= |s.slots| then s
      else
        State(s.slots[i := s.slots[i].(val := 0)], s.pcs[t := IterKey(i + 1)],
              s.log + [Delivered(s.slots[i].key, s.slots[i].val)])
  }

  function AttrOf(o: Op): int {
    if o.Iterate? then 0 else o.attr
  }

  function Finish(s: State, t: Tid, e: Event): State {
    s.(pcs := s.pcs[t := Idle], log := s.log + [e])
  }

  /** A whole run: who moves, and what it starts if it is idle. */
  function Run(s: State, schedule: seq<(Tid, Op)>): State
    decreases |schedule|
  {
    if schedule == [] then s
    else Run(Step(s, schedule[0].0, schedule[0].1), schedule[1..])
  }

  // ----- what every step keeps

  /** The claimed slots come first. */
  ghost predicate Prefix(s: State) {
    forall i, j :: 0 <= i < j < |s.slots| && s.slots[j].key != 0 ==> s.slots[i].key != 0
  }

  ghost predicate Distinct(s: State) {
    forall i, j :: 0 <= i < j < |s.slots| && s.slots[i].key != 0 ==> s.slots[i].key != s.slots[j].key
  }

  /** Every slot before `i` is claimed by someone else. */
  ghost predicate Passed(s: State, i: nat, attr: int) {
    i <= |s.slots| && forall j :: 0 <= j < i ==> s.slots[j].key != 0 && s.slots[j].key != attr
  }

  /** What a thread may rely on where it is. */
  ghost predicate PcOk(s: State, pc: Pc) {
    match pc
    case Idle => true
    case ReadKey(o, i) => !o.Iterate? && o.attr > 0 && Passed(s, i, o.attr)
    case Claim(o, i) => !o.Iterate? && o.attr > 0 && i < |s.slots| && Passed(s, i, o.attr)
    case Compare(o, i) =>
      !o.Iterate? && o.attr > 0 && i < |s.slots| && Passed(s, i, o.attr) && s.slots[i].key != 0
    case Update(o, i) => !o.Iterate? && o.attr > 0 && i < |s.slots| && s.slots[i].key == o.attr
    case IterKey(i) => i <= |s.slots|
    case IterSwap(i) => i < |s.slots| && s.slots[i].key != 0
  }

  /** What the log says is true, and stays true. */
  ghost predicate EventOk(s: State, e: Event) {
    match e
    case Found(attr, i) => attr > 0 && i < |s.slots| && s.slots[i].key == attr
    case Refused(attr) => attr > 0 ==> Passed(s, |s.slots|, attr)
    case Delivered(attr, _) => attr > 0
    case _ => e.attr > 0
  }

  /** A value is a machine word, and zero until its slot is claimed. */
  predicate SlotOk(x: Slot) {
    x.key >= 0 && x.val < TOP && (x.key == 0 ==> x.val == 0)
  }

  ghost predicate Inv(s: State) {
    && Prefix(s) && Distinct(s)
    && (forall i :: 0 <= i < |s.slots| ==> SlotOk(s.slots[i]))
    && (forall t :: t in s.pcs ==> PcOk(s, s.pcs[t]))
    && (forall e :: e in s.log ==> EventOk(s, e))
  }

  /** Keys, once claimed, do not change. */
  ghost predicate KeysKept(s: State, s': State) {
    |s'.slots| == |s.slots|
    && forall i :: 0 <= i < |s.slots| && s.slots[i].key != 0 ==> s'.slots[i].key == s.slots[i].key
  }

  lemma StepKeepsKeys(s: State, t: Tid, op: Op)
    requires Inv(s)
    ensures KeysKept(s, Step(s, t, op))
  {
  }

  lemma StepKeepsTable(s: State, t: Tid, op: Op)
    requires Inv(s)
    ensures var s' := Step(s, t, op);
            && Prefix(s') && Distinct(s')
            && forall i :: 0 <= i < |s'.slots| ==> SlotOk(s'.slots[i])
  {
    var s' := Step(s, t, op);
    var pc := PcOf(s, t);
    if pc.Claim? {
      assert PcOk(s, pc);
    } else if pc.Update? {
      assert PcOk(s, pc);
    }
  }

  /** What a thread relies on does not go away while keys are kept. */
  lemma StillOk(s: State, s': State, pc: Pc)
    requires PcOk(s, pc) && KeysKept(s, s')
    ensures PcOk(s', pc)
  {
  }

  /** A thread's own step leads to a place it may be in. */
  lemma OwnStep(s: State, t: Tid, op: Op)
    requires Inv(s) && t in Step(s, t, op).pcs
    ensures PcOk(Step(s, t, op), Step(s, t, op).pcs[t])
  {
    hide Prefix, Distinct;
    var pc := PcOf(s, t);
    assert PcOk(s, pc);
    if pc == Idle && op.CachedAdd? && Found(op.attr, op.at) in s.log {
      assert EventOk(s, Found(op.attr, op.at));
    }
  }

  lemma StepKeepsThreads(s: State, t: Tid, op: Op, u: Tid)
    requires Inv(s) && u in Step(s, t, op).pcs
    ensures PcOk(Step(s, t, op), Step(s, t, op).pcs[u])
  {
    if u == t {
      OwnStep(s, t, op);
    } else {
      OthersStay(s, t, op, u);
      StepKeepsKeys(s, t, op);
      StillOk(s, Step(s, t, op), s.pcs[u]);
    }
  }

  lemma OthersStay(s: State, t: Tid, op: Op, u: Tid)
    requires u != t
    ensures PcOf(Step(s, t, op), u) == PcOf(s, u)
    ensures u in Step(s, t, op).pcs <==> u in s.pcs
  {
  }

  lemma StepKeepsLog(s: State, t: Tid, op: Op, e: Event)
    requires Inv(s) && e in Step(s, t, op).log
    ensures EventOk(Step(s, t, op), e)
  {
    StepKeepsKeys(s, t, op);
    assert PcOk(s, PcOf(s, t));
    if e in s.log {
      assert EventOk(s, e);
    }
  }

  lemma StepKeepsInv(s: State, t: Tid, op: Op)
    requires Inv(s)
    ensures Inv(Step(s, t, op))
  {
    StepKeepsTable(s, t, op);
    var s' := Step(s, t, op);
    forall u | u in s'.pcs
      ensures PcOk(s', s'.pcs[u])
    {
      StepKeepsThreads(s, t, op, u);
    }
    forall e | e in s'.log
      ensures EventOk(s', e)
    {
      StepKeepsLog(s, t, op, e);
    }
  }

  /** Over every run of every number of threads: the invariant holds and claimed keys stay. */
  lemma {:induction false} RunKeepsInv(s: State, schedule: seq<(Tid, Op)>)
    requires Inv(s)
    ensures Inv(Run(s, schedule)) && KeysKept(s, Run(s, schedule))
    decreases |schedule|
  {
    if schedule != [] {
      var (t, op) := schedule[0];
      StepKeepsInv(s, t, op);
      StepKeepsKeys(s, t, op);
      RunKeepsInv(Step(s, t, op), schedule[1..]);
    }
  }

  lemma InitInv(capacity: nat)
    ensures Inv(Init(capacity))
  {
  }

  // ----- what that means for the callers

  /** Everyone who ever asked for an attribute was sent to the same slot. */
  lemma OneSlotPerAttribute(capacity: nat, schedule: seq<(Tid, Op)>, attr: int, i: nat, j: nat)
    requires Found(attr, i) in Run(Init(capacity), schedule).log
    requires Found(attr, j) in Run(Init(capacity), schedule).log
    ensures i == j
  {
    InitInv(capacity);
    RunKeepsInv(Init(capacity), schedule);
    var s := Run(Init(capacity), schedule);
    assert EventOk(s, Found(attr, i)) && EventOk(s, Found(attr, j));
  }

  /** A search for a positive attribute comes back empty only when every slot belongs to some other
      attribute, and then no later run ever gives that attribute a slot. */
  lemma RefusedForGood(capacity: nat, before: seq<(Tid, Op)>, after: seq<(Tid, Op)>, attr: int)
    requires attr > 0 && Refused(attr) in Run(Init(capacity), before).log
    ensures var s := Run(Run(Init(capacity), before), after);
            forall i :: 0 <= i < |s.slots| ==> s.slots[i].key != 0 && s.slots[i].key != attr
  {
    InitInv(capacity);
    RunKeepsInv(Init(capacity), before);
    var s := Run(Init(capacity), before);
    assert EventOk(s, Refused(attr));
    RunKeepsInv(s, after);
  }

  /** When an iteration stops, nothing claimed lies at or behind the place where it stops. */
  lemma IterationComplete(s: State, t: Tid, op: Op, i: nat)
    requires Inv(s) && PcOf(s, t) == IterKey(i) && PcOf(Step(s, t, op), t) == Idle
    ensures forall j :: i <= j < |s.slots| ==> s.slots[j].key == 0
  {
    assert PcOk(s, PcOf(s, t));
    forall j | i <= j < |s.slots|
      ensures s.slots[j].key == 0
    {
      assert i == j || i < j;
    }
  }

  // ----- nothing is lost

  /** What went into attribute `attr`, according to the log. */
  function In(log: seq<Event>, attr: int): nat {
    if log == [] then 0
    else In(log[..|log| - 1], attr) + InOf(log[|log| - 1], attr)
  }

  function InOf(e: Event, attr: int): nat {
    match e
    case Added(a, amount) => if a == attr then amount else 0
    case Replaced(a, now, _) => if a == attr then now else 0
    case _ => 0
  }

  /** What came out of it: values handed to an iteration, and values overwritten. */
  function Out(log: seq<Event>, attr: int): nat {
    if log == [] then 0
    else Out(log[..|log| - 1], attr) + OutOf(log[|log| - 1], attr)
  }

  function OutOf(e: Event, attr: int): nat {
    match e
    case Delivered(a, value) => if a == attr then value else 0
    case Replaced(a, _, before) => if a == attr then before else 0
    case _ => 0
  }

  /** What the table holds for it. */
  function Held(slots: seq<Slot>, attr: int): nat {
    if slots == [] then 0
    else Held(slots[..|slots| - 1], attr) + HeldOf(slots[|slots| - 1], attr)
  }

  function HeldOf(x: Slot, attr: int): nat {
    if x.key == attr then x.val else 0
  }

  ghost predicate Balanced(s: State, attr: int) {
    (In(s.log, attr) - Out(s.log, attr) - Held(s.slots, attr)) % TOP == 0
  }

  lemma {:induction false} HeldUpdate(slots: seq<Slot>, i: nat, x: Slot, attr: int)
    requires i < |slots|
    ensures Held(slots[i := x], attr) == Held(slots, attr) - HeldOf(slots[i], attr) + HeldOf(x, attr)
  {
    var n := |slots| - 1;
    if i == n {
      assert slots[i := x][..n] == slots[..n];
    } else {
      HeldUpdate(slots[..n], i, x, attr);
      assert slots[i := x][..n] == slots[..n][i := x];
    }
  }

  lemma LogAppend(log: seq<Event>, e: Event, attr: int)
    ensures In(log + [e], attr) == In(log, attr) + InOf(e, attr)
    ensures Out(log + [e], attr) == Out(log, attr) + OutOf(e, attr)
  {
    assert (log + [e])[..|log|] == log;
  }

  /** An atomic addition: what wraps around is a multiple of the word size. */
  lemma AddBalanced(s: State, i: nat, amount: nat, log: seq<Event>, attr: int)
    requires i < |s.slots| && attr > 0 && Balanced(s, attr)
    requires log == s.log + [Added(s.slots[i].key, amount)]
    ensures var x := s.slots[i].(val := (s.slots[i].val + amount) % TOP);
            (In(log, attr) - Out(log, attr) - Held(s.slots[i := x], attr)) % TOP == 0
  {
    var x := s.slots[i].(val := (s.slots[i].val + amount) % TOP);
    LogAppend(s.log, Added(s.slots[i].key, amount), attr);
    HeldUpdate(s.slots, i, x, attr);
    if s.slots[i].key == attr {
      var balance := In(s.log, attr) - Out(s.log, attr) - Held(s.slots, attr);
      var k := (s.slots[i].val + amount) / TOP;
      assert In(log, attr) - Out(log, attr) - Held(s.slots[i := x], attr) == balance + k * TOP;
      assert (balance + k * TOP) % TOP == 0;
    }
  }

  /** Replacing a value, or taking it away, moves exactly what it logs. */
  lemma ReplaceBalanced(s: State, i: nat, x: Slot, e: Event, log: seq<Event>, attr: int)
    requires i < |s.slots| && attr > 0 && Balanced(s, attr) && x.key == s.slots[i].key
    requires log == s.log + [e]
    requires e == Replaced(x.key, x.val, s.slots[i].val) || (x.val == 0 && e == Delivered(x.key, s.slots[i].val))
    ensures (In(log, attr) - Out(log, attr) - Held(s.slots[i := x], attr)) % TOP == 0
  {
    LogAppend(s.log, e, attr);
    HeldUpdate(s.slots, i, x, attr);
  }

  /** Claiming a slot changes no balance, because an unclaimed slot is empty. */
  lemma ClaimBalanced(s: State, i: nat, x: Slot, e: Event, log: seq<Event>, attr: int)
    requires i < |s.slots| && attr > 0 && Balanced(s, attr) && s.slots[i].val == x.val == 0
    requires log == s.log + [e] && e.Found?
    ensures (In(log, attr) - Out(log, attr) - Held(s.slots[i := x], attr)) % TOP == 0
  {
    LogAppend(s.log, e, attr);
    HeldUpdate(s.slots, i, x, attr);
  }

  /** Every step moves as much as it logs, modulo the word size. */
  lemma StepBalanced(s: State, t: Tid, op: Op, attr: int)
    requires Inv(s) && attr > 0 && Balanced(s, attr)
    ensures Balanced(Step(s, t, op), attr)
  {
    hide In, Out, Held;
    var s' := Step(s, t, op);
    var pc := PcOf(s, t);
    assert PcOk(s, pc);
    if pc.Update? && !pc.op.Set? {
      AddBalanced(s, pc.i, pc.op.amount, s'.log, attr);
    } else if pc.Update? || pc.IterSwap? {
      ReplaceBalanced(s, pc.i, s'.slots[pc.i], s'.log[|s.log|], s'.log, attr);
    } else if pc.Claim? && s'.slots != s.slots {
      assert SlotOk(s.slots[pc.i]);
      ClaimBalanced(s, pc.i, s'.slots[pc.i], s'.log[|s.log|], s'.log, attr);
    } else if s'.log != s.log {
      LogAppend(s.log, s'.log[|s.log|], attr);
    }
  }

  /** Over every run: what was added to an attribute and what is stored in it account, modulo 2^64, for
      what the iterations delivered, what was overwritten, and what is still there. */
  lemma {:induction false} Conservation(s: State, schedule: seq<(Tid, Op)>, attr: int)
    requires Inv(s) && attr > 0 && Balanced(s, attr)
    ensures Balanced(Run(s, schedule), attr)
    decreases |schedule|
  {
    if schedule != [] {
      var (t, op) := schedule[0];
      StepKeepsInv(s, t, op);
      StepBalanced(s, t, op, attr);
      Conservation(Step(s, t, op), schedule[1..], attr);
    }
  }

  lemma {:induction false} InitBalanced(capacity: nat, attr: int)
    ensures Balanced(Init(capacity), attr) && Held(Init(capacity).slots, attr) == 0
  {
    if capacity > 0 {
      InitBalanced(capacity - 1, attr);
      assert Init(capacity).slots[..capacity - 1] == Init(capacity - 1).slots;
    }
  }

  /** From the start: what went in is what came out and what is still held, modulo the word size. */
  lemma Conserved(capacity: nat, schedule: seq<(Tid, Op)>, attr: int)
    requires attr > 0
    ensures
      var s := Run(Init(capacity), schedule);
      In(s.log, attr) % TOP == (Out(s.log, attr) + Held(s.slots, attr)) % TOP
  {
    InitInv(capacity);
    InitBalanced(capacity, attr);
    Conservation(Init(capacity), schedule, attr);
    var s := Run(Init(capacity), schedule);
    SameRemainder(In(s.log, attr), Out(s.log, attr) + Held(s.slots, attr));
  }

  lemma SameRemainder(a: nat, b: nat)
    requires (a - b) % TOP == 0
    ensures a % TOP == b % TOP
  {
  }

  // ----- wait-freedom

  /** How many steps of its own a thread needs at most to finish what it is doing. */
  function Left(n: nat, pc: Pc): int {
    match pc
    case Idle => 0
    case ReadKey(_, i) => 3 * (n - i) + 2
    case Claim(_, i) => 3 * (n - i) + 1
    case Compare(_, i) => 3 * (n - i)
    case Update(_, _) => 1
    case IterKey(i) => 2 * (n - i) + 1
    case IterSwap(i) => 2 * (n - i)
  }

  function Turns(schedule: seq<(Tid, Op)>, t: Tid): nat {
    if schedule == [] then 0
    else (if schedule[0].0 == t then 1 else 0) + Turns(schedule[1..], t)
  }

  /** Does thread `t` come to rest somewhere in the run? */
  ghost predicate Rests(s: State, schedule: seq<(Tid, Op)>, t: Tid)
    decreases |schedule|
  {
    PcOf(s, t) == Idle
    || (schedule != [] && Rests(Step(s, schedule[0].0, schedule[0].1), schedule[1..], t))
  }

  /** A thread finishes after a bounded number of its own steps, whatever the others do meanwhile. */
  lemma {:induction false} WaitFree(s: State, schedule: seq<(Tid, Op)>, t: Tid)
    requires Inv(s) && Turns(schedule, t) >= Left(|s.slots|, PcOf(s, t))
    ensures Rests(s, schedule, t) && Left(|s.slots|, PcOf(s, t)) <= 3 * |s.slots| + 2
    decreases |schedule|
  {
    hide Step, Inv;
    var pc := PcOf(s, t);
    LeftBounded(s, t);
    if pc != Idle {
      var (u, op) := schedule[0];
      StepKeepsInv(s, u, op);
      StepKeepsKeys(s, u, op);
      if u == t {
        LeftLess(s, t, op);
      } else {
        OthersStay(s, u, op, t);
      }
      WaitFree(Step(s, u, op), schedule[1..], t);
    }
  }

  lemma LeftBounded(s: State, t: Tid)
    requires Inv(s)
    ensures Left(|s.slots|, PcOf(s, t)) <= 3 * |s.slots| + 2
    ensures PcOf(s, t) != Idle ==> Left(|s.slots|, PcOf(s, t)) > 0
  {
    assert PcOk(s, PcOf(s, t));
  }

  /** A thread's own step brings it nearer to its end. */
  lemma LeftLess(s: State, t: Tid, op: Op)
    requires Inv(s) && PcOf(s, t) != Idle
    ensures
      var s' := Step(s, t, op);
      |s'.slots| == |s.slots| && Left(|s'.slots|, PcOf(s', t)) < Left(|s.slots|, PcOf(s, t))
  {
    hide Prefix, Distinct, EventOk, SlotOk;
    assert PcOk(s, PcOf(s, t));
  }

  // ----- what one operation does from its start to its end

  /** What a step puts into the log. */
  function News(s: State, t: Tid, op: Op): seq<Event> {
    var s' := Step(s, t, op);
    if |s.log| <= |s'.log| then s'.log[|s.log|..] else []
  }

  /** What thread `t` puts into the log during a run. */
  function Done(s: State, schedule: seq<(Tid, Op)>, t: Tid): seq<Event>
    decreases |schedule|
  {
    if schedule == [] then []
    else
      var (u, op) := schedule[0];
      (if u == t then News(s, u, op) else []) + Done(Step(s, u, op), schedule[1..], t)
  }

  /** Thread `t` is busy with one operation all the time, and at rest at the end. */
  ghost predicate Finishes(s: State, schedule: seq<(Tid, Op)>, t: Tid)
    decreases |schedule|
  {
    if schedule == [] then PcOf(s, t) == Idle
    else PcOf(s, t) != Idle && Finishes(Step(s, schedule[0].0, schedule[0].1), schedule[1..], t)
  }

  lemma KeptTwice(a: State, b: State, c: State)
    requires KeysKept(a, b) && KeysKept(b, c)
    ensures KeysKept(a, c)
  {
  }

  /** The event for slot `j` when they start with slot `i`. */
  function Nth(es: seq<Event>, i: nat, j: int): Event
    requires i <= j < i + |es|
  {
    es[j - i]
  }

  lemma NthMore(e: Event, es: seq<Event>, i: nat, j: int)
    requires i <= j <= i + |es|
    ensures Nth([e] + es, i, j) == if j == i then e else Nth(es, i + 1, j)
  {
  }

  predicate HandsOver(e: Event, key: int) {
    e.Delivered? && e.attr == key != 0
  }

  /** The slots from `i` on have been handed over in order, each under its key, up to the end of what is
      claimed in `s`. */
  ghost predicate Visited(s: State, end: State, i: nat, es: seq<Event>) {
    && i + |es| <= |s.slots| == |end.slots|
    && (forall j :: i <= j < |s.slots| && s.slots[j].key != 0 ==> j < i + |es|)
    && forall j :: i <= j < i + |es| ==> HandsOver(Nth(es, i, j), end.slots[j].key)
  }

  lemma NothingLeft(s: State, i: nat)
    requires Prefix(s) && i <= |s.slots| && (i < |s.slots| ==> s.slots[i].key == 0)
    ensures Visited(s, s, i, [])
  {
    forall j | i <= j < |s.slots|
      ensures s.slots[j].key == 0
    {
      assert i == j || i < j;
    }
  }

  lemma VisitedEarlier(s: State, s': State, end: State, i: nat, es: seq<Event>)
    requires KeysKept(s, s') && Visited(s', end, i, es)
    ensures Visited(s, end, i, es)
  {
  }

  lemma VisitedMore(s: State, end: State, i: nat, e: Event, es: seq<Event>)
    requires Visited(s, end, i + 1, es) && HandsOver(e, end.slots[i].key)
    ensures Visited(s, end, i, [e] + es)
  {
    hide Nth;
    forall j | i <= j < i + |[e] + es|
      ensures HandsOver(Nth([e] + es, i, j), end.slots[j].key)
    {
      NthMore(e, es, i, j);
    }
  }

  lemma {:induction false} IterationRuns(s: State, schedule: seq<(Tid, Op)>, t: Tid)
    requires Inv(s) && (PcOf(s, t).IterKey? || PcOf(s, t).IterSwap?) && Finishes(s, schedule, t)
    ensures Visited(s, Run(s, schedule), PcOf(s, t).i, Done(s, schedule, t))
    decreases |schedule|
  {
    hide Inv, Visited, Step, News;
    var (u, op) := schedule[0];
    var s', rest, end, i := Step(s, u, op), schedule[1..], Run(s, schedule), PcOf(s, t).i;
    StepKeepsInv(s, u, op);
    StepKeepsKeys(s, u, op);
    RunKeepsInv(s', rest);
    KeptTwice(s, s', end);
    if u != t {
      OthersStay(s, u, op, t);
      IterationRuns(s', rest, t);
      VisitedEarlier(s, s', end, i, Done(s', rest, t));
      assert Done(s, schedule, t) == [] + Done(s', rest, t) == Done(s', rest, t);
    } else {
      IterationSteps(s, t, op);
      if PcOf(s', t) == Idle {
        RestsAtOnce(s', rest, t);
        assert Done(s, schedule, t) == [] && end == s';
        VisitedEarlier(s, s', end, i, []);
      } else {
        IterationRuns(s', rest, t);
        var es := Done(s', rest, t);
        VisitedEarlier(s, s', end, PcOf(s', t).i, es);
        if PcOf(s, t).IterSwap? {
          VisitedMore(s, end, i, News(s, t, op)[0], es);
          assert Done(s, schedule, t) == [News(s, t, op)[0]] + es;
        } else {
          assert Done(s, schedule, t) == [] + es == es;
        }
      }
    }
  }

  /** An iterating thread's own step. */
  lemma IterationSteps(s: State, t: Tid, op: Op)
    requires Inv(s) && (PcOf(s, t).IterKey? || PcOf(s, t).IterSwap?)
    ensures
      var s', i := Step(s, t, op), PcOf(s, t).i;
      if PcOf(s, t).IterKey? then
        && News(s, t, op) == [] && (PcOf(s', t) == Idle || PcOf(s', t) == IterSwap(i))
        && (PcOf(s', t) == Idle ==> Visited(s', s', i, []))
      else
        && i < |s.slots| && s.slots[i].key != 0 && PcOf(s', t) == IterKey(i + 1)
        && News(s, t, op) == [Delivered(s.slots[i].key, s.slots[i].val)]
  {
    hide Distinct, EventOk, SlotOk;
    assert PcOk(s, PcOf(s, t));
    if PcOf(s, t).IterKey? && PcOf(Step(s, t, op), t) == Idle {
      NothingLeft(s, PcOf(s, t).i);
      assert Step(s, t, op).slots == s.slots;
    }
  }

  lemma RestsAtOnce(s: State, schedule: seq<(Tid, Op)>, t: Tid)
    requires PcOf(s, t) == Idle && Finishes(s, schedule, t)
    ensures schedule == [] && Done(s, schedule, t) == [] && Run(s, schedule) == s
  {
  }

  /** An iteration from its start to its end, whatever the other threads do meanwhile: every slot that was
      claimed when it started has been handed over, once, in the order of the slots and under its key. */
  lemma IterationVisits(s: State, schedule: seq<(Tid, Op)>, t: Tid)
    requires Inv(s) && PcOf(s, t) == Idle && Finishes(Step(s, t, Iterate), schedule, t)
    ensures
      var end, es := Run(s, [(t, Iterate)] + schedule), Done(s, [(t, Iterate)] + schedule, t);
      && |es| <= |end.slots| == |s.slots|
      && (forall k :: 0 <= k < |es| ==> es[k].Delivered? && es[k].attr == end.slots[k].key)
      && (forall j :: 0 <= j < |s.slots| && s.slots[j].key != 0 ==> j < |es| && es[j].attr == s.slots[j].key)
  {
    hide Inv;
    var s' := Step(s, t, Iterate);
    StepKeepsInv(s, t, Iterate);
    StepKeepsKeys(s, t, Iterate);
    IterationRuns(s', schedule, t);
    RunKeepsInv(s', schedule);
    FirstStep(s, t, Iterate, schedule);
    var end, es := Run(s', schedule), Done(s', schedule, t);
    assert [] + es == es;
    forall k | 0 <= k < |es|
      ensures es[k].Delivered? && es[k].attr == end.slots[k].key
    {
      assert HandsOver(Nth(es, 0, k), end.slots[k].key);
    }
  }

  lemma FirstStep(s: State, t: Tid, op: Op, schedule: seq<(Tid, Op)>)
    requires PcOf(s, t) == Idle
    ensures Run(s, [(t, op)] + schedule) == Run(Step(s, t, op), schedule)
    ensures Done(s, [(t, op)] + schedule, t) == News(s, t, op) + Done(Step(s, t, op), schedule, t)
    ensures op.Iterate? ==> News(s, t, op) == []
  {
    assert ([(t, op)] + schedule)[1..] == schedule;
  }

  /** What an operation that found its slot logs: the amount it was asked to add or store. */
  predicate Logged(op: Op, e: Event)
    requires !op.Iterate?
  {
    if op.Set? then e.Replaced? && e.attr == op.attr && e.now == op.amount % TOP
    else e == Added(op.attr, op.amount)
  }

  /** Refused, and every slot is someone else's; or sent to the slot of its attribute, and its amount moved. */
  ghost predicate Served(op: Op, end: State, es: seq<Event>)
    requires !op.Iterate?
  {
    || (es == [Refused(op.attr)] && Passed(end, |end.slots|, op.attr))
    || (&& |es| == 2 && es[0].Found? && es[0].attr == op.attr
        && es[0].at < |end.slots| && end.slots[es[0].at].key == op.attr && Logged(op, es[1]))
  }

  predicate Searching(pc: Pc) {
    pc.ReadKey? || pc.Claim? || pc.Compare?
  }

  /** A searching thread's own step. */
  lemma SearchSteps(s: State, t: Tid, op: Op)
    requires Inv(s) && Searching(PcOf(s, t))
    ensures
      var s', o := Step(s, t, op), PcOf(s, t).op;
      && !o.Iterate?
      && (|| (Searching(PcOf(s', t)) && PcOf(s', t).op == o && News(s, t, op) == [])
          || (PcOf(s', t) == Idle && News(s, t, op) == [Refused(o.attr)] && Passed(s', |s'.slots|, o.attr))
          || (PcOf(s', t) == Update(o, PcOf(s, t).i) && News(s, t, op) == [Found(o.attr, PcOf(s, t).i)]))
  {
    hide Prefix, Distinct, EventOk, SlotOk;
    assert PcOk(s, PcOf(s, t));
  }

  lemma UpdateSteps(s: State, t: Tid, op: Op)
    requires Inv(s) && PcOf(s, t).Update?
    ensures
      var o := PcOf(s, t).op;
      !o.Iterate? && PcOf(Step(s, t, op), t) == Idle && |News(s, t, op)| == 1 && Logged(o, News(s, t, op)[0])
  {
    hide Prefix, Distinct, EventOk, SlotOk;
    assert PcOk(s, PcOf(s, t));
  }

  lemma {:induction false} UpdateRuns(s: State, schedule: seq<(Tid, Op)>, t: Tid)
    requires Inv(s) && PcOf(s, t).Update? && Finishes(s, schedule, t)
    ensures
      var o, es := PcOf(s, t).op, Done(s, schedule, t);
      !o.Iterate? && |es| == 1 && Logged(o, es[0])
    decreases |schedule|
  {
    hide Inv, Step, News, Logged;
    var (u, op) := schedule[0];
    StepKeepsInv(s, u, op);
    if u != t {
      OthersStay(s, u, op, t);
      UpdateRuns(Step(s, u, op), schedule[1..], t);
    } else {
      UpdateSteps(s, t, op);
      RestsAtOnce(Step(s, t, op), schedule[1..], t);
    }
  }

  lemma {:induction false} SearchRuns(s: State, schedule: seq<(Tid, Op)>, t: Tid)
    requires Inv(s) && Searching(PcOf(s, t)) && Finishes(s, schedule, t)
    ensures !PcOf(s, t).op.Iterate? && Served(PcOf(s, t).op, Run(s, schedule), Done(s, schedule, t))
    decreases |schedule|
  {
    hide Inv, Step, News, Logged;
    var (u, op) := schedule[0];
    var s', rest := Step(s, u, op), schedule[1..];
    StepKeepsInv(s, u, op);
    if u != t {
      OthersStay(s, u, op, t);
      SearchRuns(s', rest, t);
    } else {
      SearchSteps(s, t, op);
      if PcOf(s', t) == Idle {
        RestsAtOnce(s', rest, t);
      } else if Searching(PcOf(s', t)) {
        SearchRuns(s', rest, t);
      } else {
        UpdateRuns(s', rest, t);
        UpdatePlace(s', rest, t);
      }
    }
  }

  /** The slot a thread was sent to is its attribute's to the end. */
  lemma UpdatePlace(s: State, schedule: seq<(Tid, Op)>, t: Tid)
    requires Inv(s) && PcOf(s, t).Update?
    ensures
      var pc, end := PcOf(s, t), Run(s, schedule);
      !pc.op.Iterate? && pc.i < |end.slots| && end.slots[pc.i].key == pc.op.attr
  {
    assert PcOk(s, PcOf(s, t));
    RunKeepsInv(s, schedule);
  }

  /** A request to add or store from its start to its end, whatever the other threads do meanwhile: it is
      refused when every slot is someone else's, or it is sent to its attribute's slot and moves its own
      amount, once. */
  lemma RequestServed(s: State, schedule: seq<(Tid, Op)>, t: Tid, op: Op)
    requires Inv(s) && PcOf(s, t) == Idle && Finishes(Step(s, t, op), schedule, t)
    requires (op.Add? || op.Set?) && op.attr > 0
    ensures Served(op, Run(s, [(t, op)] + schedule), Done(s, [(t, op)] + schedule, t))
  {
    hide Inv;
    StepKeepsInv(s, t, op);
    FirstStep(s, t, op, schedule);
    SearchRuns(Step(s, t, op), schedule, t);
  }

  /** The other ways to start: an attribute that is not positive is refused at once, and a pass through a
      pointer that an earlier search left behind adds its amount without a search. */
  lemma OtherRequests(s: State, schedule: seq<(Tid, Op)>, t: Tid, op: Op)
    requires Inv(s) && PcOf(s, t) == Idle
    ensures (op.Add? || op.Set?) && op.attr <= 0 ==> Step(s, t, op) == s.(log := s.log + [Refused(op.attr)])
    ensures op.CachedAdd? && Found(op.attr, op.at) in s.log && Finishes(Step(s, t, op), schedule, t) ==>
      Done(s, [(t, op)] + schedule, t) == [Added(op.attr, op.amount)]
  {
    if op.CachedAdd? && Found(op.attr, op.at) in s.log && Finishes(Step(s, t, op), schedule, t) {
      hide Inv;
      StepKeepsInv(s, t, op);
      FirstStep(s, t, op, schedule);
      UpdateRuns(Step(s, t, op), schedule, t);
    }
  }

  // ----- one operation with nobody else about

  ghost predicate Alone(schedule: seq<(Tid, Op)>, t: Tid) {
    forall k :: 0 <= k < |schedule| ==> schedule[k].0 == t
  }

  /** A claimed slot, emptied, and its value handed over. */
  predicate Empties(before: Slot, after: Slot, e: Event) {
    before.key != 0 && after == Slot(before.key, 0) && e == Delivered(before.key, before.val)
  }

  /** The slots from `i` on, emptied, and what was in them. */
  ghost predicate Emptied(before: seq<Slot>, after: seq<Slot>, i: nat, es: seq<Event>) {
    && |after| == |before| && i + |es| <= |before|
    && (forall j :: 0 <= j < |before| && !(i <= j < i + |es|) ==> after[j] == before[j])
    && (forall j :: i <= j < i + |es| ==> Empties(before[j], after[j], Nth(es, i, j)))
    && (i + |es| < |before| ==> before[i + |es|].key == 0)
  }

  lemma EmptiedMore(before: seq<Slot>, mid: seq<Slot>, after: seq<Slot>, i: nat, e: Event, es: seq<Event>)
    requires i < |before| && before[i].key != 0 && mid == before[i := Slot(before[i].key, 0)]
    requires Emptied(mid, after, i + 1, es) && e == Delivered(before[i].key, before[i].val)
    ensures Emptied(before, after, i, [e] + es)
  {
    hide Nth;
    forall j | i <= j < i + |[e] + es|
      ensures Empties(before[j], after[j], Nth([e] + es, i, j))
    {
      NthMore(e, es, i, j);
    }
  }

  lemma {:induction false} IteratesAlone(s: State, schedule: seq<(Tid, Op)>, t: Tid)
    requires Inv(s) && (PcOf(s, t).IterKey? || PcOf(s, t).IterSwap?) && Finishes(s, schedule, t) && Alone(schedule, t)
    ensures Emptied(s.slots, Run(s, schedule).slots, PcOf(s, t).i, Done(s, schedule, t))
    decreases |schedule|
  {
    hide Inv, Emptied, Visited, News;
    var op := schedule[0].1;
    var s', rest, i := Step(s, t, op), schedule[1..], PcOf(s, t).i;
    StepKeepsInv(s, t, op);
    IterationSteps(s, t, op);
    if PcOf(s', t) == Idle {
      RestsAtOnce(s', rest, t);
      EmptiedNone(s', i);
    } else {
      IteratesAlone(s', rest, t);
      if PcOf(s, t).IterSwap? {
        EmptiedMore(s.slots, s'.slots, Run(s', rest).slots, i, News(s, t, op)[0], Done(s', rest, t));
        assert Done(s, schedule, t) == [News(s, t, op)[0]] + Done(s', rest, t);
      } else {
        assert Done(s, schedule, t) == [] + Done(s', rest, t) == Done(s', rest, t);
      }
    }
  }

  lemma EmptiedNone(s: State, i: nat)
    requires Visited(s, s, i, [])
    ensures Emptied(s.slots, s.slots, i, [])
  {
  }

  /** An iteration with nobody else about hands over exactly the values of the claimed slots, in order, and
      leaves zeros in their places. */
  lemma IterationAlone(s: State, schedule: seq<(Tid, Op)>, t: Tid)
    requires Inv(s) && PcOf(s, t) == Idle && Finishes(Step(s, t, Iterate), schedule, t) && Alone(schedule, t)
    ensures
      var end, es := Run(s, [(t, Iterate)] + schedule), Done(s, [(t, Iterate)] + schedule, t);
      && |es| <= |s.slots| == |end.slots|
      && forall j :: 0 <= j < |s.slots| ==>
           if j < |es| then
             && s.slots[j].key != 0 && es[j] == Delivered(s.slots[j].key, s.slots[j].val)
             && end.slots[j] == Slot(s.slots[j].key, 0)
           else s.slots[j].key == 0 && end.slots[j] == s.slots[j]
  {
    hide Inv;
    IterationVisits(s, schedule, t);
    StepKeepsInv(s, t, Iterate);
    FirstStep(s, t, Iterate, schedule);
    var s' := Step(s, t, Iterate);
    IteratesAlone(s', schedule, t);
    var end, es := Run(s', schedule), Done(s', schedule, t);
    assert [] + es == es;
    forall j | 0 <= j < |es|
      ensures s.slots[j].key != 0 && end.slots[j] == Slot(s.slots[j].key, 0)
      ensures es[j] == Delivered(s.slots[j].key, s.slots[j].val)
    {
      assert Empties(s.slots[j], end.slots[j], Nth(es, 0, j));
    }
  }

  /** The first slot from `i` on that is free or belongs to `attr`. */
  function Place(slots: seq<Slot>, attr: int, i: nat): (at: nat)
    requires i <= |slots|
    ensures i <= at <= |slots| && (at < |slots| ==> slots[at].key == 0 || slots[at].key == attr)
    ensures forall j :: i <= j < at ==> slots[j].key != 0 && slots[j].key != attr
    decreases |slots| - i
  {
    if i == |slots| || slots[i].key == 0 || slots[i].key == attr then i else Place(slots, attr, i + 1)
  }

  /** One slot gets the attribute's name and the new value; a full table stays as it is. */
  function Applied(slots: seq<Slot>, op: Op, at: nat): seq<Slot>
    requires at <= |slots| && !op.Iterate?
  {
    if at == |slots| then slots
    else slots[at := Slot(op.attr, (if op.Set? then op.amount else slots[at].val + op.amount) % TOP)]
  }

  lemma {:induction false} UpdatesAlone(s: State, schedule: seq<(Tid, Op)>, t: Tid)
    requires Inv(s) && PcOf(s, t).Update? && Finishes(s, schedule, t) && Alone(schedule, t)
    ensures
      var pc := PcOf(s, t);
      !pc.op.Iterate? && pc.i < |s.slots| && Run(s, schedule).slots == Applied(s.slots, pc.op, pc.i)
  {
    assert PcOk(s, PcOf(s, t));
    UpdateSteps(s, t, schedule[0].1);
    RestsAtOnce(Step(s, t, schedule[0].1), schedule[1..], t);
  }

  lemma {:induction false} SearchesAlone(s: State, schedule: seq<(Tid, Op)>, t: Tid)
    requires Inv(s) && Searching(PcOf(s, t)) && Finishes(s, schedule, t) && Alone(schedule, t)
    ensures
      var pc := PcOf(s, t);
      && !pc.op.Iterate? && pc.i <= |s.slots|
      && Run(s, schedule).slots == Applied(s.slots, pc.op, Place(s.slots, pc.op.attr, pc.i))
    decreases |schedule|
  {
    hide Prefix, Distinct, EventOk;
    var pc, op := PcOf(s, t), schedule[0].1;
    var s', rest := Step(s, t, op), schedule[1..];
    assert PcOk(s, pc);
    StepKeepsInv(s, t, op);
    SearchSteps(s, t, op);
    if PcOf(s', t) == Idle {
      RestsAtOnce(s', rest, t);
    } else if Searching(PcOf(s', t)) {
      SearchesAlone(s', rest, t);
    } else {
      UpdatesAlone(s', rest, t);
      assert SlotOk(s.slots[pc.i]);
    }
  }

  /** A request with nobody else about changes exactly the first slot that is free or its attribute's. */
  lemma RequestAlone(s: State, schedule: seq<(Tid, Op)>, t: Tid, op: Op)
    requires Inv(s) && PcOf(s, t) == Idle && Finishes(Step(s, t, op), schedule, t) && Alone(schedule, t)
    requires (op.Add? || op.Set?) && op.attr > 0
    ensures Run(s, [(t, op)] + schedule).slots == Applied(s.slots, op, Place(s.slots, op.attr, 0))
  {
    StepKeepsInv(s, t, op);
    FirstStep(s, t, op, schedule);
    SearchesAlone(Step(s, t, op), schedule, t);
  }
}
