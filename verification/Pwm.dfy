/** xenoPWM: the PWM tasks and the ioctls that change their duty cycles, interleaved at every read. */
module Pwm {
  import opened Options
  import opened CInt

  const PERIOD_NS: int := 10_000_000
  const MAX_PWM_NUM: nat := 5
  const FIRST_DUTY: Int32 := 10

  datatype DutyCycle = DutyCycle(pin: Int32, duty: Int32, min: Int32, max: Int32)
  {
    /** PWM_RANGE */
    function Range(): Int32 { Wrap(max - min) }
  }

  /** Sleep per unit of duty. */
  function Quantum(range: int): int
    requires range != 0
  {
    TruncDiv(PERIOD_NS, range)
  }

  /** HIGH_TIME */
  function HighTime(range: Int32, duty: Int32): Int32
    requires range != 0
  {
    Wrap(Quantum(range) * duty)
  }

  /** LOW_TIME */
  function LowTime(range: Int32, duty: Int32): Int32
    requires range != 0
  {
    Wrap(Quantum(range) * Wrap(range - duty))
  }

  /** First slot in use with the pin; the slot count if there is none. */
  function FirstPin(slots: seq<DutyCycle>, pin: int): (i: nat)
    ensures i <= |slots| && (i < |slots| ==> slots[i].pin == pin)
    ensures forall j :: 0 <= j < i ==> slots[j].pin != pin
  {
    if slots == [] then 0 else if slots[0].pin == pin then 0 else 1 + FirstPin(slots[1..], pin)
  }

  /** PWM_SET: the duty of the first slot with the pin changes, or nothing does. */
  method PwmSet(dutyArray: array<DutyCycle>, count: nat, pin: Int32, duty: Int32) returns (found: bool)
    requires count <= dutyArray.Length
    modifies dutyArray
    ensures var i := FirstPin(old(dutyArray[..count]), pin);
      && found == (i < count)
      && dutyArray[..] == if i < count then old(dutyArray[..][i := dutyArray[i].(duty := duty)]) else old(dutyArray[..])
  {
    var i := 0;
    ghost var slots := dutyArray[..count];
    while i < count && dutyArray[i].pin != pin
      invariant 0 <= i <= count && i <= FirstPin(slots, pin) && dutyArray[..] == old(dutyArray[..])
    {
      assert slots[i].pin != pin;
      i := i + 1;
    }
    assert i < count ==> slots[i].pin == pin;
    found := i < count;
    if found {
      dutyArray[i] := dutyArray[i].(duty := duty);
    }
  }

  // ---- tasks and ioctls as steps

  /**
   * A task: the sleep programmed this cycle so far (None before the high part), its totals over whole cycles, the
   * duties that PWM_SETs gave its slot, and by how many times SPAN its low halves were off for lack of room in an int.
   */
  datatype Task = Task(high: Option<int>, slept: int, cycles: nat, duties: seq<Int32>, slips: int)
  {
    /** Every duty the slot has had. */
    function History(): (h: seq<Int32>)
      ensures h != []
    {
      [FIRST_DUTY] + duties
    }
  }

  datatype State = State(slots: seq<DutyCycle>, tasks: seq<Task>, overrun: bool)

  datatype Step =
    | Init(pin: Int32, min: Int32, max: Int32, taskCreated: bool)
    | Set(pin: Int32, duty: Int32)
    | High(pos: nat)
    | Low(pos: nat)

  /** With a range of 0 the division traps: no half of a cycle begins. */
  predicate Enabled(s: State, step: Step) {
    match step
    case Init(_, _, _, _) => true
    case Set(_, _) => true
    case High(pos) =>
      pos < |s.slots| && pos < |s.tasks| && s.slots[pos].Range() != 0 && s.tasks[pos].high.None?
    case Low(pos) =>
      pos < |s.slots| && pos < |s.tasks| && s.slots[pos].Range() != 0 && s.tasks[pos].high.Some?
  }

  function HighDone(t: Task, d: DutyCycle): Task
    requires d.Range() != 0
  {
    t.(high := Some(HighTime(d.Range(), d.duty)))
  }

  /** A cycle is complete. */
  function LowDone(t: Task, d: DutyCycle): Task
    requires t.high.Some? && d.Range() != 0
  {
    t.(high := None, slept := t.slept + t.high.value + LowTime(d.Range(), d.duty), cycles := t.cycles + 1,
       slips := t.slips + Slip(d.Range(), d.duty))
  }

  function Apply(s: State, step: Step): State
    requires Enabled(s, step)
  {
    match step
    case Init(pin, min, max, taskCreated) =>
      var s' := s.(overrun := s.overrun || |s.slots| >= MAX_PWM_NUM); // there is no bound check
      if !taskCreated then s'
      else s'.(slots := s.slots + [DutyCycle(pin, FIRST_DUTY, min, max)], tasks := s.tasks + [Task(None, 0, 0, [], 0)])
    case Set(pin, duty) =>
      var i := FirstPin(s.slots, pin);
      if i < |s.slots| && i < |s.tasks| then
        s.(slots := s.slots[i := s.slots[i].(duty := duty)],
           tasks := s.tasks[i := s.tasks[i].(duties := s.tasks[i].duties + [duty])])
      else s
    case High(pos) => s.(tasks := s.tasks[pos := HighDone(s.tasks[pos], s.slots[pos])])
    case Low(pos) => s.(tasks := s.tasks[pos := LowDone(s.tasks[pos], s.slots[pos])])
  }

  predicate IsRun(s: State, steps: seq<Step>)
    decreases |steps|
  {
    steps == [] || (Enabled(s, steps[0]) && IsRun(Apply(s, steps[0]), steps[1..]))
  }

  function Final(s: State, steps: seq<Step>): State
    requires IsRun(s, steps)
    decreases |steps|
  {
    if steps == [] then s else Final(Apply(s, steps[0]), steps[1..])
  }

  function Empty(): State { State([], [], false) }

  lemma {:induction false} RunSnoc(s: State, steps: seq<Step>)
    requires IsRun(s, steps) && steps != []
    ensures
      var p := steps[..|steps| - 1];
      && IsRun(s, p) && Enabled(Final(s, p), steps[|steps| - 1])
      && Final(s, steps) == Apply(Final(s, p), steps[|steps| - 1])
    decreases |steps|
  {
    if |steps| > 1 {
      RunSnoc(Apply(s, steps[0]), steps[1..]);
      assert steps[1..][..|steps| - 2] == steps[..|steps| - 1][1..];
    }
  }

  lemma {:induction false} Then(s: State, steps: seq<Step>, step: Step) returns (longer: seq<Step>)
    requires IsRun(s, steps) && Enabled(Final(s, steps), step)
    ensures longer == steps + [step] && IsRun(s, longer) && Final(s, longer) == Apply(Final(s, steps), step)
    decreases |steps|
  {
    longer := steps + [step];
    if steps == [] {
      assert longer[1..] == [];
    } else {
      var rest := Then(Apply(s, steps[0]), steps[1..], step);
      assert longer[1..] == rest;
    }
  }

  // ---- one undisturbed cycle

  /** Both halves of a cycle with room to spare: the period, less what the division loses. */
  function Whole(range: int): int
    requires range != 0
  {
    Quantum(range) * range
  }

  function Abs(x: int): nat { if x < 0 then -x else x }

  lemma WholeIsPeriod(range: int)
    requires range != 0
    ensures Whole(range) == PERIOD_NS - PERIOD_NS % Abs(range) && 0 <= Whole(range) <= PERIOD_NS
  {
    var a := Abs(range);
    assert PERIOD_NS == (PERIOD_NS / a) * a + PERIOD_NS % a;
    if range < 0 { assert -(PERIOD_NS / a) * range == (PERIOD_NS / a) * a; }
  }

  /** The rest of the period after the high half fits in an int. */
  predicate Regular(range: Int32, duty: Int32)
    requires range != 0
  {
    Fits(Whole(range) - HighTime(range, duty))
  }

  /** By how many times SPAN the low half is off. */
  function Slip(range: Int32, duty: Int32): int
    requires range != 0
  {
    if Regular(range, duty) then 0 else if Whole(range) > HighTime(range, duty) then -1 else 1
  }

  lemma LowWraps(range: Int32, duty: Int32)
    requires range != 0
    ensures LowTime(range, duty) == Wrap(Whole(range) - HighTime(range, duty))
  {
    var q := Quantum(range);
    WrapFactor(q, range - duty);
    assert q * (range - duty) == q * range - q * duty;
    WrapMinus(q * range, q * duty);
  }

  /** A cycle that sees one duty sleeps for Whole, off by SPAN when the low half does not fit: exactly then. */
  lemma Halves(range: Int32, duty: Int32)
    requires range != 0
    ensures HighTime(range, duty) + LowTime(range, duty) == Whole(range) + SPAN * Slip(range, duty)
    ensures HighTime(range, duty) + LowTime(range, duty) == Whole(range) <==> Regular(range, duty)
  {
    LowWraps(range, duty);
    WholeIsPeriod(range);
    WrapOnce(Whole(range) - HighTime(range, duty));
  }

  /** Where neither product leaves the int range, the cycle is regular and HIGH_TIME is the product. */
  lemma FittingIsRegular(range: Int32, duty: Int32)
    requires range != 0 && Fits(Quantum(range) * duty) && Fits(Quantum(range) * (range - duty))
    ensures Regular(range, duty) && HighTime(range, duty) == Quantum(range) * duty
  {
    assert Quantum(range) * (range - duty) == Whole(range) - Quantum(range) * duty;
  }

  /** A duty that PWM_SET accepts on a range of 10: every cycle programs 2^32 ns too few. */
  lemma WrappedCycle(steps: seq<Step>)
    requires steps == [Init(4, 0, 10, true)] + [Set(4, 2148)] + [High(0)] + [Low(0)]
    ensures IsRun(Empty(), steps) && !Final(Empty(), steps).overrun
    ensures Final(Empty(), steps).tasks == [Task(None, PERIOD_NS - SPAN, 1, [2148], -1)]
    ensures !Regular(10, 2148)
  {
    var slot := DutyCycle(4, 2148, 0, 10);
    var r := Then(Empty(), [], Init(4, 0, 10, true));
    r := Then(Empty(), r, Set(4, 2148));
    assert [] + [2148] == [2148];
    assert Final(Empty(), r) == State([slot], [Task(None, 0, 0, [2148], 0)], false);
    assert slot.Range() == 10 && HighTime(10, 2148) == -2_146_967_296 && LowTime(10, 2148) == -2_138_000_000;
    r := Then(Empty(), r, High(0));
    r := Then(Empty(), r, Low(0));
    assert [] + [Init(4, 0, 10, true)] == [Init(4, 0, 10, true)];
  }

  // ---- the timing of a task, for any ranges and duties

  function Positive(x: int): nat { if x > 0 then x else 0 }

  /** The sum of the upward moves of HIGH_TIME along a list of duties. */
  function Rises(range: Int32, duties: seq<Int32>): nat
    requires range != 0
  {
    if |duties| <= 1 then 0
    else
      var p, n := duties[..|duties| - 1], |duties|;
      Rises(range, p) + Positive(HighTime(range, duties[n - 1]) - HighTime(range, duties[n - 2]))
  }

  /** And of the downward ones. */
  function Falls(range: Int32, duties: seq<Int32>): nat
    requires range != 0
  {
    if |duties| <= 1 then 0
    else
      var p, n := duties[..|duties| - 1], |duties|;
      Falls(range, p) + Positive(HighTime(range, duties[n - 2]) - HighTime(range, duties[n - 1]))
  }

  /** How far the high half of the cycle in progress is from what the duty now calls for. */
  function Gap(d: DutyCycle, t: Task): int
    requires d.Range() != 0
  {
    if t.high.Some? then t.high.value - HighTime(d.Range(), d.duty) else 0
  }

  /** How far whole cycles are off, slips aside. */
  function Off(range: int, t: Task): int
    requires range != 0
  {
    t.slept - t.cycles * Whole(range) - SPAN * t.slips
  }

  ghost predicate AllRegular(range: Int32, duties: seq<Int32>)
    requires range != 0
  {
    forall k :: 0 <= k < |duties| ==> Regular(range, duties[k])
  }

  /** Whole cycles are off by no more than HIGH_TIME fell or rose, with or without the cycle in progress. */
  ghost predicate TaskOk(d: DutyCycle, t: Task) {
    var r, h := d.Range(), t.History();
    && d.duty == h[|h| - 1]
    && if r == 0 then t.high.None? && t.cycles == 0
       else
         && 0 <= Off(r, t) + Rises(r, h) && Off(r, t) <= Falls(r, h)
         && 0 <= Off(r, t) + Gap(d, t) + Rises(r, h) && Off(r, t) + Gap(d, t) <= Falls(r, h)
         && (AllRegular(r, h) ==> t.slips == 0)
  }

  ghost predicate Inv(s: State) {
    |s.tasks| == |s.slots| && forall i :: 0 <= i < |s.slots| ==> TaskOk(s.slots[i], s.tasks[i])
  }

  lemma HistorySnoc(t: Task, duty: Int32)
    ensures
      var h, h' := t.History(), t.(duties := t.duties + [duty]).History();
      h' == h + [duty] && h'[..|h' | - 1] == h
  {}

  lemma SetKeeps(d: DutyCycle, t: Task, duty: Int32)
    requires TaskOk(d, t)
    ensures TaskOk(d.(duty := duty), t.(duties := t.duties + [duty]))
  {
    HistorySnoc(t, duty);
    var h := t.History();
    var h' := h + [duty];
    if d.Range() != 0 {
      assert AllRegular(d.Range(), h') ==> AllRegular(d.Range(), h) by {
        assert forall k :: 0 <= k < |h| ==> h'[k] == h[k];
      }
    }
  }

  lemma HighKeeps(d: DutyCycle, t: Task)
    requires TaskOk(d, t) && t.high.None? && d.Range() != 0
    ensures TaskOk(d, HighDone(t, d))
  {
    assert HighDone(t, d).History() == t.History();
  }

  lemma OneMore(n: nat, w: int)
    ensures (n + 1) * w == n * w + w
  {}

  /** A finished cycle adds the gap it had. */
  lemma OffLow(d: DutyCycle, t: Task)
    requires t.high.Some? && d.Range() != 0
    ensures Off(d.Range(), LowDone(t, d)) == Off(d.Range(), t) + Gap(d, t)
  {
    Halves(d.Range(), d.duty);
    OneMore(t.cycles, Whole(d.Range()));
  }

  lemma LowKeeps(d: DutyCycle, t: Task)
    requires TaskOk(d, t) && t.high.Some? && d.Range() != 0
    ensures TaskOk(d, LowDone(t, d))
  {
    var t' := LowDone(t, d);
    assert t'.History() == t.History() && Gap(d, t') == 0;
    OffLow(d, t);
    assert AllRegular(d.Range(), t.History()) ==> Slip(d.Range(), d.duty) == 0;
  }

  lemma StepKeeps(s: State, step: Step)
    requires Inv(s) && Enabled(s, step)
    ensures Inv(Apply(s, step))
  {
    match step
    case Init(_, _, _, _) =>
    case Set(pin, duty) =>
      var i := FirstPin(s.slots, pin);
      if i < |s.slots| { SetKeeps(s.slots[i], s.tasks[i], duty); }
    case High(pos) => HighKeeps(s.slots[pos], s.tasks[pos]);
    case Low(pos) => LowKeeps(s.slots[pos], s.tasks[pos]);
  }

  lemma {:induction false} RunKeeps(s: State, steps: seq<Step>)
    requires Inv(s) && IsRun(s, steps)
    ensures Inv(Final(s, steps))
    decreases |steps|
  {
    if steps != [] {
      StepKeeps(s, steps[0]);
      RunKeeps(Apply(s, steps[0]), steps[1..]);
    }
  }

  /** A run that stays inside the slot array and leaves the task at pos with this range and these PWM_SETs. */
  ghost predicate Drives(steps: seq<Step>, pos: nat, range: Int32, duties: seq<Int32>) {
    && IsRun(Empty(), steps) && !Final(Empty(), steps).overrun
    && pos < |Final(Empty(), steps).slots| && pos < |Final(Empty(), steps).tasks|
    && Final(Empty(), steps).slots[pos].Range() == range && Final(Empty(), steps).tasks[pos].duties == duties
  }

  function TaskAfter(steps: seq<Step>, pos: nat): Task
    requires IsRun(Empty(), steps) && pos < |Final(Empty(), steps).tasks|
  {
    Final(Empty(), steps).tasks[pos]
  }

  /**
   * In every interleaving, for every range and every duty an int can hold: whole cycles are short of undisturbed ones
   * by at most the rises of HIGH_TIME and over by at most its falls, and off by SPAN for every slip; none slips if all
   * duties are regular.
   */
  lemma Deviation(steps: seq<Step>, pos: nat, range: Int32, duties: seq<Int32>)
    requires Drives(steps, pos, range, duties)
    ensures range == 0 ==> TaskAfter(steps, pos).cycles == 0
    ensures range != 0 ==> Off(range, TaskAfter(steps, pos)) + Rises(range, [FIRST_DUTY] + duties) >= 0
    ensures range != 0 ==> Off(range, TaskAfter(steps, pos)) <= Falls(range, [FIRST_DUTY] + duties)
    ensures range != 0 && AllRegular(range, [FIRST_DUTY] + duties) ==> TaskAfter(steps, pos).slips == 0
  {
    RunKeeps(Empty(), steps);
    assert TaskOk(Final(Empty(), steps).slots[pos], TaskAfter(steps, pos));
  }

  // ---- the deviation is reached

  /** One slot with range r and the duties ds behind it, between cycles. */
  function One(r: Int32, ds: seq<Int32>, slept: int, cycles: nat, slips: int): State {
    var t := Task(None, slept, cycles, ds, slips);
    State([DutyCycle(0, t.History()[|ds|], 0, r)], [t], false)
  }

  lemma FirstStep(r: Int32) returns (steps: seq<Step>)
    ensures IsRun(Empty(), steps) && Final(Empty(), steps) == One(r, [], 0, 0, 0)
  {
    steps := [];
    steps := Then(Empty(), steps, Init(0, 0, r, true));
  }

  lemma SetStep(r: Int32, ds: seq<Int32>, slept: int, cycles: nat, slips: int, duty: Int32)
    ensures Enabled(One(r, ds, slept, cycles, slips), Set(0, duty))
    ensures Apply(One(r, ds, slept, cycles, slips), Set(0, duty)) == One(r, ds + [duty], slept, cycles, slips)
  {
    var s := One(r, ds, slept, cycles, slips);
    HistorySnoc(s.tasks[0], duty);
  }

  /** The duty changes between the halves of a cycle. */
  lemma SplitCycle(before: seq<Step>, r: Int32, ds: seq<Int32>, slept: int, cycles: nat, duty: Int32)
    returns (steps: seq<Step>)
    requires r != 0 && Regular(r, duty) && IsRun(Empty(), before)
    requires Final(Empty(), before) == One(r, ds, slept, cycles, 0)
    ensures IsRun(Empty(), steps)
    ensures
      var prev := ([FIRST_DUTY] + ds)[|ds|];
      Final(Empty(), steps)
        == One(r, ds + [duty], slept + Whole(r) + HighTime(r, prev) - HighTime(r, duty), cycles + 1, 0)
  {
    var s := One(r, ds, slept, cycles, 0);
    var prev := ([FIRST_DUTY] + ds)[|ds|];
    assert s.slots[0] == DutyCycle(0, prev, 0, r) && s.slots[0].Range() == r;
    HistorySnoc(s.tasks[0], duty);
    Halves(r, duty);
    steps := Then(Empty(), before, High(0));
    steps := Then(Empty(), steps, Set(0, duty));
    var d := DutyCycle(0, duty, 0, r);
    assert d.Range() == r;
    assert Final(Empty(), steps)
      == State([d], [Task(Some(HighTime(r, prev)), slept, cycles, ds + [duty], 0)], false);
    steps := Then(Empty(), steps, Low(0));
  }

  /** All rises as a loss, or all falls as a gain. */
  function Extreme(r: Int32, ds: seq<Int32>, up: bool): int
    requires r != 0
  {
    if up then 0 - Rises(r, [FIRST_DUTY] + ds) else Falls(r, [FIRST_DUTY] + ds)
  }

  lemma ExtremeSnoc(r: Int32, p: seq<Int32>, duty: Int32, up: bool)
    requires r != 0
    ensures
      var move := HighTime(r, duty) - HighTime(r, ([FIRST_DUTY] + p)[|p|]);
      Extreme(r, p + [duty], up) == Extreme(r, p, up) + if up then 0 - Positive(move) else Positive(0 - move)
    ensures AllRegular(r, [FIRST_DUTY] + (p + [duty])) ==> AllRegular(r, [FIRST_DUTY] + p) && Regular(r, duty)
  {
    var h, all := [FIRST_DUTY] + p, [FIRST_DUTY] + (p + [duty]);
    assert all[..|all| - 1] == h && all[|h|] == duty;
    assert forall k :: 0 <= k < |h| ==> all[k] == h[k];
  }

  /** The schedule that splits a cycle at every rise (or at every fall) and sets the duty between cycles otherwise. */
  lemma {:induction false} Schedule(r: Int32, ds: seq<Int32>, up: bool)
    returns (steps: seq<Step>, slept: int, cycles: nat)
    requires r != 0 && AllRegular(r, [FIRST_DUTY] + ds)
    ensures IsRun(Empty(), steps) && Final(Empty(), steps) == One(r, ds, slept, cycles, 0)
    ensures slept - cycles * Whole(r) == Extreme(r, ds, up)
    decreases |ds|
  {
    if ds == [] {
      slept, cycles := 0, 0;
      steps := FirstStep(r);
      assert [FIRST_DUTY] + ds == [FIRST_DUTY];
    } else {
      var p, duty := ds[..|ds| - 1], ds[|ds| - 1];
      assert ds == p + [duty];
      ExtremeSnoc(r, p, duty, up);
      steps, slept, cycles := Schedule(r, p, up);
      var move := HighTime(r, duty) - HighTime(r, ([FIRST_DUTY] + p)[|p|]);
      if (up && move > 0) || (!up && move < 0) {
        steps := SplitCycle(steps, r, p, slept, cycles, duty);
        OneMore(cycles, Whole(r));
        slept, cycles := slept + Whole(r) - move, cycles + 1;
      } else {
        SetStep(r, p, slept, cycles, 0, duty);
        steps := Then(Empty(), steps, Set(0, duty));
      }
    }
  }

  /** The schedule as a run of the driver with that range and those PWM_SETs. */
  lemma Reached(r: Int32, ds: seq<Int32>, up: bool) returns (steps: seq<Step>)
    requires r != 0 && AllRegular(r, [FIRST_DUTY] + ds)
    ensures Drives(steps, 0, r, ds)
    ensures var t := TaskAfter(steps, 0); t.slept - t.cycles * Whole(r) == Extreme(r, ds, up)
  {
    var slept, cycles;
    steps, slept, cycles := Schedule(r, ds, up);
    assert Final(Empty(), steps).slots[0].Range() == r;
  }

  // ---- an irregular duty has no bound at all

  /** PWM_SETs between cycles. */
  lemma {:induction false} SetAll(before: seq<Step>, r: Int32, ds: seq<Int32>, more: seq<Int32>, slept: int,
      cycles: nat, slips: int) returns (steps: seq<Step>)
    requires IsRun(Empty(), before) && Final(Empty(), before) == One(r, ds, slept, cycles, slips)
    ensures IsRun(Empty(), steps) && Final(Empty(), steps) == One(r, ds + more, slept, cycles, slips)
    decreases |more|
  {
    if more == [] {
      steps := before;
      assert ds + more == ds;
    } else {
      SetStep(r, ds, slept, cycles, slips, more[0]);
      steps := Then(Empty(), before, Set(0, more[0]));
      steps := SetAll(steps, r, ds + [more[0]], more[1..], slept, cycles, slips);
      assert ds + [more[0]] + more[1..] == ds + more;
    }
  }

  lemma WholeCycle(before: seq<Step>, r: Int32, ds: seq<Int32>, slept: int, cycles: nat, slips: int)
    returns (steps: seq<Step>)
    requires r != 0 && IsRun(Empty(), before) && Final(Empty(), before) == One(r, ds, slept, cycles, slips)
    ensures IsRun(Empty(), steps)
    ensures
      var e := Slip(r, ([FIRST_DUTY] + ds)[|ds|]);
      Final(Empty(), steps) == One(r, ds, slept + Whole(r) + SPAN * e, cycles + 1, slips + e)
  {
    var duty := ([FIRST_DUTY] + ds)[|ds|];
    var d := DutyCycle(0, duty, 0, r);
    assert One(r, ds, slept, cycles, slips).slots == [d] && d.Range() == r;
    Halves(r, duty);
    steps := Then(Empty(), before, High(0));
    steps := Then(Empty(), steps, Low(0));
  }

  /** n undisturbed cycles. */
  lemma {:induction false} WholeCycles(before: seq<Step>, r: Int32, ds: seq<Int32>, n: nat)
    returns (steps: seq<Step>, slept: int)
    requires r != 0 && IsRun(Empty(), before) && Final(Empty(), before) == One(r, ds, 0, 0, 0)
    ensures IsRun(Empty(), steps)
    ensures
      var e := Slip(r, ([FIRST_DUTY] + ds)[|ds|]);
      Final(Empty(), steps) == One(r, ds, slept, n, n * e) && slept - n * Whole(r) == SPAN * (n * e)
    decreases n
  {
    if n == 0 {
      steps, slept := before, 0;
    } else {
      var e := Slip(r, ([FIRST_DUTY] + ds)[|ds|]);
      steps, slept := WholeCycles(before, r, ds, n - 1);
      steps := WholeCycle(steps, r, ds, slept, n - 1, (n - 1) * e);
      OneMore(n - 1, Whole(r));
      OneMore(n - 1, e);
      slept := slept + Whole(r) + SPAN * e;
    }
  }

  /** After an irregular duty, enough cycles exceed any bound. */
  lemma Irregular(r: Int32, ds: seq<Int32>, k: nat) returns (steps: seq<Step>)
    requires r != 0 && k <= |ds| && !Regular(r, ([FIRST_DUTY] + ds)[k])
    ensures Drives(steps, 0, r, ds)
    ensures var t := TaskAfter(steps, 0); Abs(t.slept - t.cycles * Whole(r)) > |ds| * PERIOD_NS
  {
    var p, n, slept := ds[..k], |ds| + 1, 0;
    assert ([FIRST_DUTY] + p)[|p|] == ([FIRST_DUTY] + ds)[k];
    var e := Slip(r, ([FIRST_DUTY] + p)[|p|]);
    steps := FirstStep(r);
    steps := SetAll(steps, r, [], p, 0, 0, 0);
    assert [] + p == p;
    steps, slept := WholeCycles(steps, r, p, n);
    steps := SetAll(steps, r, p, ds[k..], slept, n, n * e);
    assert p + ds[k..] == ds;
    assert Final(Empty(), steps).slots[0].Range() == r;
    assert n * e == n || n * e == 0 - n;
  }

  // ---- one period for each PWM_SET

  /** In every interleaving with these PWM_SETs, whole cycles are off by at most one period for each of them. */
  ghost predicate PeriodPerSet(range: Int32, duties: seq<Int32>)
    requires range != 0
  {
    forall steps, pos :: Drives(steps, pos, range, duties) ==>
      var t := TaskAfter(steps, pos); Abs(t.slept - t.cycles * Whole(range)) <= |duties| * PERIOD_NS
  }

  function Max(a: nat, b: nat): nat { if a > b then a else b }

  /** The greater of all rises and all falls of HIGH_TIME; a caller can compute it from the duties. */
  function Swing(range: Int32, duties: seq<Int32>): nat
    requires range != 0
  {
    Max(Rises(range, [FIRST_DUTY] + duties), Falls(range, [FIRST_DUTY] + duties))
  }

  lemma NeedsRegular(range: Int32, duties: seq<Int32>)
    requires range != 0 && !AllRegular(range, [FIRST_DUTY] + duties)
    ensures !PeriodPerSet(range, duties)
  {
    var h := [FIRST_DUTY] + duties;
    var k :| 0 <= k < |h| && !Regular(range, h[k]);
    var steps := Irregular(range, duties, k);
    assert Drives(steps, 0, range, duties);
  }

  /**
   * At most one period for each PWM_SET in every interleaving, if and only if the duties are regular and their swing
   * is no more than that.
   */
  lemma PeriodPerSetIff(range: Int32, duties: seq<Int32>)
    requires range != 0
    ensures PeriodPerSet(range, duties) <==>
      AllRegular(range, [FIRST_DUTY] + duties) && Swing(range, duties) <= |duties| * PERIOD_NS
  {
    var h := [FIRST_DUTY] + duties;
    if AllRegular(range, h) && Swing(range, duties) <= |duties| * PERIOD_NS {
      forall steps, pos | Drives(steps, pos, range, duties)
        ensures
          var t := TaskAfter(steps, pos); Abs(t.slept - t.cycles * Whole(range)) <= |duties| * PERIOD_NS
      {
        Deviation(steps, pos, range, duties);
      }
    }
    if !AllRegular(range, h) {
      NeedsRegular(range, duties);
    } else {
      var down := Reached(range, duties, true);
      var up := Reached(range, duties, false);
      assert Drives(down, 0, range, duties) && Drives(up, 0, range, duties);
    }
  }

  /**
   * Against whole periods: N cycles with k PWM_SETs are within what N divisions lose and one period for each PWM_SET,
   * whenever the duties are regular and their swing is no more than k periods.
   */
  lemma TimingBound(steps: seq<Step>, pos: nat, range: Int32, duties: seq<Int32>)
    requires Drives(steps, pos, range, duties) && range != 0
    requires AllRegular(range, [FIRST_DUTY] + duties) && Swing(range, duties) <= |duties| * PERIOD_NS
    ensures
      var t := TaskAfter(steps, pos);
      Abs(t.slept - t.cycles * PERIOD_NS) <= t.cycles * (PERIOD_NS % Abs(range)) + |duties| * PERIOD_NS
  {
    PeriodPerSetIff(range, duties);
    CyclesLose(range, TaskAfter(steps, pos).cycles);
  }

  lemma CyclesLose(range: int, n: nat)
    requires range != 0
    ensures n * PERIOD_NS == n * Whole(range) + n * (PERIOD_NS % Abs(range)) && n * (PERIOD_NS % Abs(range)) >= 0
  {
    WholeIsPeriod(range);
  }

  // ---- ranges of at least 10 and duties within them

  predicate Within(range: Int32, duties: seq<Int32>) {
    range >= FIRST_DUTY && forall k :: 0 <= k < |duties| ==> 0 <= duties[k] <= range
  }

  lemma DutyWithin(range: Int32, duty: Int32)
    requires range > 0 && 0 <= duty <= range
    ensures Regular(range, duty) && 0 <= HighTime(range, duty) <= PERIOD_NS
  {
    var q := Quantum(range);
    WholeIsPeriod(range);
    assert q >= 0 && q * range == q * duty + q * (range - duty);
    assert q * duty >= 0 && q * (range - duty) >= 0;
    FittingIsRegular(range, duty);
  }

  /** Each move is at most one period. */
  lemma {:induction false} SwingWithin(range: Int32, h: seq<Int32>)
    requires range > 0 && h != [] && forall k :: 0 <= k < |h| ==> 0 <= h[k] <= range
    ensures AllRegular(range, h)
    ensures Rises(range, h) <= (|h| - 1) * PERIOD_NS && Falls(range, h) <= (|h| - 1) * PERIOD_NS
    decreases |h|
  {
    forall k | 0 <= k < |h| ensures Regular(range, h[k]) { DutyWithin(range, h[k]); }
    if |h| > 1 {
      SwingWithin(range, h[..|h| - 1]);
      DutyWithin(range, h[|h| - 1]);
      DutyWithin(range, h[|h| - 2]);
    }
  }

  /** So with ranges of at least 10 and duties within them the bound holds in every interleaving. */
  lemma TimingWithin(steps: seq<Step>, pos: nat, range: Int32, duties: seq<Int32>)
    requires Drives(steps, pos, range, duties) && Within(range, duties)
    ensures
      var t := TaskAfter(steps, pos);
      Abs(t.slept - t.cycles * PERIOD_NS) <= t.cycles * (PERIOD_NS % range) + |duties| * PERIOD_NS
  {
    SwingWithin(range, [FIRST_DUTY] + duties);
    TimingBound(steps, pos, range, duties);
  }

  /** A duty of 1000 on a range of 10, which PWM_SET accepts, splits a cycle by far more than a period. */
  lemma OutOfRangeExceeds() returns (steps: seq<Step>)
    ensures AllRegular(10, [FIRST_DUTY] + [1000]) && Swing(10, [1000]) > PERIOD_NS
    ensures Drives(steps, 0, 10, [1000])
    ensures var t := TaskAfter(steps, 0); Abs(t.slept - t.cycles * Whole(10)) > PERIOD_NS
  {
    FittingIsRegular(10, 10);
    FittingIsRegular(10, 1000);
    var h: seq<Int32> := [FIRST_DUTY] + [1000];
    assert h[..1] == [FIRST_DUTY] && Rises(10, [FIRST_DUTY]) == 0;
    assert Rises(10, h) == 990_000_000;
    steps := Reached(10, [1000], true);
  }

  // ---- PWM_INIT has no bound check

  /** PWM_INITs that created a task. */
  function Created(steps: seq<Step>): nat {
    if steps == [] then 0
    else Created(steps[..|steps| - 1]) + if steps[|steps| - 1].Init? && steps[|steps| - 1].taskCreated then 1 else 0
  }

  /** Step k is a PWM_INIT after at least five that created a task. */
  predicate Sixth(steps: seq<Step>, k: nat) {
    k < |steps| && steps[k].Init? && Created(steps[..k]) >= MAX_PWM_NUM
  }

  lemma SixthInPrefix(steps: seq<Step>, n: nat, k: nat)
    requires k < n <= |steps|
    ensures Sixth(steps[..n], k) <==> Sixth(steps, k)
  {
    assert steps[..n][..k] == steps[..k];
  }

  lemma {:induction false} SlotsCreated(steps: seq<Step>)
    requires IsRun(Empty(), steps)
    ensures |Final(Empty(), steps).slots| == Created(steps)
    decreases |steps|
  {
    if steps != [] {
      RunSnoc(Empty(), steps);
      SlotsCreated(steps[..|steps| - 1]);
    }
  }

  /** The slot array is overrun exactly when a PWM_INIT follows five that succeeded. */
  lemma {:induction false} OverrunIff(steps: seq<Step>)
    requires IsRun(Empty(), steps)
    ensures Final(Empty(), steps).overrun <==> exists k: nat :: Sixth(steps, k)
    decreases |steps|
  {
    if steps != [] {
      var n := |steps| - 1;
      var p := steps[..n];
      RunSnoc(Empty(), steps);
      OverrunIff(p);
      SlotsCreated(p);
      assert Final(Empty(), steps).overrun <==> Final(Empty(), p).overrun || Sixth(steps, n);
      forall k: nat | k < n ensures Sixth(p, k) <==> Sixth(steps, k) { SixthInPrefix(steps, n, k); }
      assert forall k: nat :: Sixth(p, k) ==> Sixth(steps, k);
    }
  }

  lemma {:induction false} AllInits(s: State, steps: seq<Step>)
    requires forall k :: 0 <= k < |steps| ==> steps[k].Init?
    ensures IsRun(s, steps)
    decreases |steps|
  {
    if steps != [] { AllInits(Apply(s, steps[0]), steps[1..]); }
  }

  lemma {:induction false} AllCreated(steps: seq<Step>)
    requires forall k :: 0 <= k < |steps| ==> steps[k].Init? && steps[k].taskCreated
    ensures Created(steps) == |steps|
    decreases |steps|
  {
    if steps != [] { AllCreated(steps[..|steps| - 1]); }
  }

  /** Six successful PWM_INITs write past the end of the slot array. */
  lemma SixInitsOverrun(steps: seq<Step>)
    requires |steps| == MAX_PWM_NUM + 1 && forall k :: 0 <= k < |steps| ==> steps[k].Init? && steps[k].taskCreated
    ensures IsRun(Empty(), steps) && Final(Empty(), steps).overrun
  {
    AllInits(Empty(), steps);
    AllCreated(steps[..MAX_PWM_NUM]);
    assert Sixth(steps, MAX_PWM_NUM);
    OverrunIff(steps);
  }

  // ---- what a run leaves in the slots

  /** Slot i is the first one with the pin. */
  predicate FirstWith(slots: seq<DutyCycle>, pin: Int32, i: nat) {
    i < |slots| && slots[i].pin == pin && forall j :: 0 <= j < i ==> slots[j].pin != pin
  }

  /** PWM_SET changes the duty of the first slot with the pin and adds to its history, and nothing else anywhere. */
  lemma SetMeans(s: State, pin: Int32, duty: Int32)
    requires Inv(s)
    ensures
      var s' := Apply(s, Set(pin, duty));
      && |s'.slots| == |s.slots| == |s.tasks| == |s'.tasks| && s'.overrun == s.overrun
      && forall i: nat :: i < |s.slots| ==>
           if FirstWith(s.slots, pin, i)
           then s'.slots[i] == s.slots[i].(duty := duty)
                && s'.tasks[i] == s.tasks[i].(duties := s.tasks[i].duties + [duty])
           else s'.slots[i] == s.slots[i] && s'.tasks[i] == s.tasks[i]
  {
    var i := FirstPin(s.slots, pin);
    if i < |s.slots| { assert FirstWith(s.slots, pin, i); }
  }

  /** What the ioctl does to the array in memory is what the step does to the slots. */
  lemma SetIsPwmSet(s: State, pin: Int32, duty: Int32, before: seq<DutyCycle>, after: seq<DutyCycle>, count: nat)
    requires Inv(s) && count <= |before| && before[..count] == s.slots
    requires
      var i := FirstPin(before[..count], pin);
      after == if i < count then before[i := before[i].(duty := duty)] else before
    ensures after[..count] == Apply(s, Set(pin, duty)).slots
  {}

  /** A whole cycle of one task, from its high half to its low half, with a duty for each. */
  lemma CycleMeans(s: State, t: State, pos: nat)
    requires Enabled(s, High(pos)) && Enabled(t, Low(pos)) && t.tasks[pos].high == Apply(s, High(pos)).tasks[pos].high
    ensures
      var r, d := s.slots[pos].Range(), t.slots[pos];
      var before, after := t.tasks[pos], Apply(t, Low(pos)).tasks[pos];
      && r != 0 && d.Range() != 0
      && after.slept == before.slept + Wrap(Quantum(r) * s.slots[pos].duty)
                        + Wrap(Quantum(d.Range()) * Wrap(d.Range() - d.duty))
      && after.cycles == before.cycles + 1 && after.high == None && after.duties == before.duties
  {}

  /** Steps of a task leave all slots and all other tasks alone. */
  lemma OthersRun(s: State, step: Step)
    requires Enabled(s, step) && (step.High? || step.Low?)
    ensures
      var s' := Apply(s, step);
      && s'.slots == s.slots && |s'.tasks| == |s.tasks| && s'.overrun == s.overrun
      && forall i: nat :: i < |s.tasks| && i != step.pos ==> s'.tasks[i] == s.tasks[i]
  {}

  /** The pins of the slots, in order of creation. */
  function Pins(steps: seq<Step>): (pins: seq<Int32>) {
    if steps == [] then []
    else
      var before, last := Pins(steps[..|steps| - 1]), steps[|steps| - 1];
      if last.Init? && last.taskCreated then before + [last.pin] else before
  }

  /** The PWM_SETs that reach slot i: those of its pin, made after it was created, if no earlier slot has that pin. */
  function DutiesOf(steps: seq<Step>, i: nat): seq<Int32> {
    if steps == [] then []
    else
      var p, last := steps[..|steps| - 1], steps[|steps| - 1];
      if last.Set? && i < |Pins(p)| && Pins(p)[i] == last.pin && last.pin !in Pins(p)[..i]
      then DutiesOf(p, i) + [last.duty] else DutiesOf(p, i)
  }

  ghost predicate Served(s: State, pins: seq<Int32>, i: nat, duties: seq<Int32>) {
    && |s.slots| == |s.tasks| == |pins| && (forall j :: 0 <= j < |pins| ==> s.slots[j].pin == pins[j])
    && (i < |pins| ==> s.tasks[i].duties == duties && s.slots[i].duty == ([FIRST_DUTY] + duties)[|duties|])
    && (i >= |pins| ==> duties == [])
  }

  lemma ServedStep(s: State, step: Step, pins: seq<Int32>, i: nat, duties: seq<Int32>)
    requires Inv(s) && Enabled(s, step) && Served(s, pins, i, duties)
    ensures
      Served(Apply(s, step), if step.Init? && step.taskCreated then pins + [step.pin] else pins, i,
             if step.Set? && i < |pins| && pins[i] == step.pin && step.pin !in pins[..i]
             then duties + [step.duty] else duties)
  {
    if step.Set? {
      SetMeans(s, step.pin, step.duty);
      if i < |pins| {
        assert FirstWith(s.slots, step.pin, i) <==> pins[i] == step.pin && step.pin !in pins[..i];
      }
    }
  }

  /** After any run slot i has the pin it was created with, and the duties are those of the PWM_SETs that reach it. */
  lemma {:induction false} RunDuties(steps: seq<Step>, i: nat)
    requires IsRun(Empty(), steps)
    ensures Served(Final(Empty(), steps), Pins(steps), i, DutiesOf(steps, i))
    decreases |steps|
  {
    if steps != [] {
      var p := steps[..|steps| - 1];
      RunSnoc(Empty(), steps);
      RunDuties(p, i);
      RunKeeps(Empty(), p);
      ServedStep(Final(Empty(), p), steps[|steps| - 1], Pins(p), i, DutiesOf(p, i));
    }
  }
}
