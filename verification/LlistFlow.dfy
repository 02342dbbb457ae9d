/** llist: nothing is lost. Every batch is in flight or pushed, every node pushed is listed or was taken once. */
module LlistFlow {
  import opened Options
  import opened Sequences
  import opened Llist

  // ---- what went in, what came out

  /** What is followed through a run: a whole batch, or one node in whatever batch it comes. */
  datatype Item = Whole(batch: seq<Node>) | Single(node: Node)

  predicate Has(batch: seq<Node>, item: Item) {
    match item
    case Whole(b) => batch == b
    case Single(x) => x in batch
  }

  function One(b: bool): nat { if b then 1 else 0 }

  /** How many additions of the item began in a run. */
  function Begun(steps: seq<Step>, item: Item): nat {
    if steps == [] then 0 else One(steps[0].AddStart? && Has(steps[0].batch, item)) + Begun(steps[1..], item)
  }

  /** How many calls of llist_del_first began, and how many of llist_del_all were made. */
  function Dels(steps: seq<Step>): nat {
    if steps == [] then 0 else One(steps[0].DelLoad?) + Dels(steps[1..])
  }

  function Drains(steps: seq<Step>): nat {
    if steps == [] then 0 else One(steps[0].DelAll?) + Drains(steps[1..])
  }

  /** The additions in flight that bring the item. */
  function Flying(adders: map<Tid, Adder>, item: Item): set<Tid> {
    set t | t in adders && Has(adders[t].batch, item)
  }

  /** How often the item was pushed, and how often a node was popped or drained. */
  function Pushed(log: seq<Event>, item: Item): nat {
    if log == [] then 0 else Pushed(log[..|log| - 1], item) + Pushes(log[|log| - 1], item)
  }

  function Pushes(ev: Event, item: Item): nat { One(ev.Push? && Has(ev.batch, item)) }

  function Taken(log: seq<Event>, x: Node): nat {
    if log == [] then 0 else Taken(log[..|log| - 1], x) + Takes(log[|log| - 1], x)
  }

  function Takes(ev: Event, x: Node): nat {
    match ev
    case Pop(n) => One(n == x)
    case Drain(chain) => multiset(chain)[x]
    case _ => 0
  }

  /** How many calls of llist_del_first, and of llist_del_all, have recorded their result. */
  function Answered(log: seq<Event>): nat {
    if log == [] then 0 else Answered(log[..|log| - 1]) + One(log[|log| - 1].Pop? || log[|log| - 1].PopEmpty?)
  }

  function Emptied(log: seq<Event>): nat {
    if log == [] then 0 else Emptied(log[..|log| - 1]) + One(log[|log| - 1].Drain?)
  }

  // ---- every step

  /** One more result. */
  lemma LogSnoc(log: seq<Event>, ev: Event, item: Item, x: Node)
    ensures Pushed(log + [ev], item) == Pushed(log, item) + Pushes(ev, item)
    ensures Taken(log + [ev], x) == Taken(log, x) + Takes(ev, x)
    ensures Answered(log + [ev]) == Answered(log) + One(ev.Pop? || ev.PopEmpty?)
    ensures Emptied(log + [ev]) == Emptied(log) + One(ev.Drain?)
  {
    assert (log + [ev])[..|log|] == log;
  }

  lemma FlyingSet(adders: map<Tid, Adder>, tid: Tid, a: Adder, item: Item)
    ensures |Flying(adders[tid := a], item)|
         == |Flying(adders, item)| + One(Has(a.batch, item)) - One(tid in Flying(adders, item))
  {
    var f, f' := Flying(adders, item), Flying(adders[tid := a], item);
    if Has(a.batch, item) { assert f' == f + {tid}; } else { assert f' == f - {tid}; }
  }

  lemma FlyingDrop(adders: map<Tid, Adder>, tid: Tid, item: Item)
    ensures |Flying(adders - {tid}, item)| == |Flying(adders, item)| - One(tid in Flying(adders, item))
  {
    assert Flying(adders - {tid}, item) == Flying(adders, item) - {tid};
  }

  lemma {:induction false} DistinctOnce(xs: seq<Node>, x: Node)
    requires Distinct(xs)
    ensures multiset(xs)[x] == One(x in xs)
  {
    if xs != [] {
      var p, y := xs[..|xs| - 1], xs[|xs| - 1];
      DistinctOnce(p, x);
      assert xs == p + [y];
    }
  }

  lemma CasFlows(s: State, tid: Tid, item: Item)
    requires Inv(s) && Enabled(s, AddCas(tid))
    ensures
      var s' := Apply(s, AddCas(tid));
      Pushed(s'.log, item) + |Flying(s'.adders, item)| == Pushed(s.log, item) + |Flying(s.adders, item)|
  {
    var a := s.adders[tid];
    assert tid in Flying(s.adders, item) <==> Has(a.batch, item);
    LogSnoc(s.log, Push(a.batch, a.first == None), item, 0);
    FlyingDrop(s.adders, tid, item);
    FlyingSet(s.adders, tid, Adder(a.batch, false, None), item);
  }

  lemma AddFlows(s: State, step: Step, item: Item)
    requires Inv(s) && Enabled(s, step) && (step.AddStart? || step.AddLoad?)
    ensures
      var s' := Apply(s, step);
      && s'.log == s.log
      && |Flying(s'.adders, item)| == |Flying(s.adders, item)| + One(step.AddStart? && Has(step.batch, item))
  {
    match step
    case AddStart(tid, batch) => FlyingSet(s.adders, tid, Adder(batch, false, None), item);
    case AddLoad(tid) =>
      assert AdderOk(s, s.adders[tid]);
      FlyingSet(s.adders, tid, Adder(s.adders[tid].batch, true, s.head), item);
  }

  lemma DelFlows(s: State, step: Step, item: Item)
    requires Inv(s) && Enabled(s, step) && !step.AddStart? && !step.AddLoad? && !step.AddCas?
    ensures Apply(s, step).adders == s.adders && Pushed(Apply(s, step).log, item) == Pushed(s.log, item)
  {
    match step
    case DelLoad => LogSnoc(s.log, PopEmpty, item, 0);
    case DelLoadNext =>
    case DelCas =>
      LogSnoc(s.log, PopEmpty, item, 0);
      LogSnoc(s.log, Pop(s.deleter.entry), item, 0);
    case DelAll => LogSnoc(s.log, Drain(s.stack), item, 0);
  }

  /** An addition is in flight from its start to its push, and is pushed once. */
  lemma StepFlows(s: State, step: Step, item: Item)
    requires Inv(s) && Enabled(s, step)
    ensures
      var s' := Apply(s, step);
      Pushed(s'.log, item) + |Flying(s'.adders, item)|
      == Pushed(s.log, item) + |Flying(s.adders, item)| + One(step.AddStart? && Has(step.batch, item))
  {
    if step.AddStart? || step.AddLoad? {
      AddFlows(s, step, item);
    } else if step.AddCas? {
      CasFlows(s, step.tid, item);
    } else {
      DelFlows(s, step, item);
    }
  }

  /** A node is taken from the list once for each time it was put there. */
  lemma StepTakes(s: State, step: Step, x: Node)
    requires Inv(s) && Enabled(s, step)
    ensures
      var s' := Apply(s, step);
      One(x in s'.stack) + Taken(s'.log, x) + Pushed(s.log, Single(x))
      == One(x in s.stack) + Taken(s.log, x) + Pushed(s'.log, Single(x))
  {
    match step
    case AddStart(_, _) =>
    case AddLoad(_) =>
    case AddCas(tid) =>
      var a := s.adders[tid];
      assert AdderOk(s, a);
      LogSnoc(s.log, Push(a.batch, a.first == None), Single(x), x);
    case DelLoad => LogSnoc(s.log, PopEmpty, Single(x), x);
    case DelLoadNext =>
    case DelCas => PopTakes(s, x);
    case DelAll =>
      DistinctOnce(s.stack, x);
      LogSnoc(s.log, Drain(s.stack), Single(x), x);
  }

  lemma PopTakes(s: State, x: Node)
    requires Inv(s) && Enabled(s, DelCas)
    ensures
      var s' := Apply(s, DelCas);
      && Pushed(s'.log, Single(x)) == Pushed(s.log, Single(x))
      && One(x in s'.stack) + Taken(s'.log, x) == One(x in s.stack) + Taken(s.log, x)
  {
    LogSnoc(s.log, PopEmpty, Single(x), x);
    LogSnoc(s.log, Pop(s.deleter.entry), Single(x), x);
    if s.head == Some(s.deleter.entry) {
      assert s.stack == [s.stack[0]] + s.stack[1..];
      assert x in s.stack[1..] ==> x != s.stack[0];
    }
  }

  function Busy(d: Deleter): nat { One(!d.Idle?) }

  /** Calls of the deleter end with a result in the log, and no result comes from elsewhere. */
  lemma StepAnswers(s: State, step: Step)
    requires Inv(s) && Enabled(s, step)
    ensures
      var s' := Apply(s, step);
      && Answered(s'.log) + Busy(s'.deleter) == Answered(s.log) + Busy(s.deleter) + One(step.DelLoad?)
      && Emptied(s'.log) == Emptied(s.log) + One(step.DelAll?)
  {
    match step
    case AddStart(_, _) =>
    case AddLoad(_) =>
    case AddCas(tid) => LogSnoc(s.log, Push(s.adders[tid].batch, s.adders[tid].first == None), Single(0), 0);
    case DelLoad => LogSnoc(s.log, PopEmpty, Single(0), 0);
    case DelLoadNext => assert s.deleter.entry in s.stack;
    case DelCas =>
      LogSnoc(s.log, PopEmpty, Single(0), 0);
      LogSnoc(s.log, Pop(s.deleter.entry), Single(0), 0);
    case DelAll => LogSnoc(s.log, Drain(s.stack), Single(0), 0);
  }

  // ---- every run

  lemma {:induction false} RunFlows(s: State, steps: seq<Step>, item: Item)
    requires Inv(s) && IsRun(s, steps)
    ensures
      var s' := Final(s, steps);
      Pushed(s'.log, item) + |Flying(s'.adders, item)|
      == Pushed(s.log, item) + |Flying(s.adders, item)| + Begun(steps, item)
    decreases |steps|
  {
    if steps != [] {
      StepFlows(s, steps[0], item);
      StepKeeps(s, steps[0]);
      RunFlows(Apply(s, steps[0]), steps[1..], item);
    }
  }

  lemma {:induction false} RunTakes(s: State, steps: seq<Step>, x: Node)
    requires Inv(s) && IsRun(s, steps)
    ensures
      var s' := Final(s, steps);
      One(x in s'.stack) + Taken(s'.log, x) + Pushed(s.log, Single(x))
      == One(x in s.stack) + Taken(s.log, x) + Pushed(s'.log, Single(x))
    decreases |steps|
  {
    if steps != [] {
      StepTakes(s, steps[0], x);
      StepKeeps(s, steps[0]);
      RunTakes(Apply(s, steps[0]), steps[1..], x);
    }
  }

  lemma {:induction false} RunAnswers(s: State, steps: seq<Step>)
    requires Inv(s) && IsRun(s, steps)
    ensures
      var s' := Final(s, steps);
      && Answered(s'.log) + Busy(s'.deleter) == Answered(s.log) + Busy(s.deleter) + Dels(steps)
      && Emptied(s'.log) == Emptied(s.log) + Drains(steps)
    decreases |steps|
  {
    if steps != [] {
      StepAnswers(s, steps[0]);
      StepKeeps(s, steps[0]);
      RunAnswers(Apply(s, steps[0]), steps[1..]);
    }
  }

  /** In every run each batch begun is in flight or was pushed, as often as it was begun. */
  lemma NoBatchLost(s0: State, steps: seq<Step>, batch: seq<Node>)
    requires Init(s0) && IsRun(s0, steps)
    ensures
      var s := Final(s0, steps);
      Begun(steps, Whole(batch)) == |Flying(s.adders, Whole(batch))| + Pushed(s.log, Whole(batch))
  {
    RunFlows(s0, steps, Whole(batch));
    assert Flying(s0.adders, Whole(batch)) == {};
  }

  /** And each node brought is in flight, on the list, or was popped or drained, as often as it was brought. */
  lemma NoNodeLost(s0: State, steps: seq<Step>, x: Node)
    requires Init(s0) && IsRun(s0, steps)
    ensures
      var s := Final(s0, steps);
      Begun(steps, Single(x)) == |Flying(s.adders, Single(x))| + One(x in s.stack) + Taken(s.log, x)
  {
    RunFlows(s0, steps, Single(x));
    RunTakes(s0, steps, x);
    assert Flying(s0.adders, Single(x)) == {};
  }

  /** Every call of llist_del_first but the one in progress, and every llist_del_all, has its one result in the log. */
  lemma NoCallLost(s0: State, steps: seq<Step>)
    requires Init(s0) && IsRun(s0, steps)
    ensures
      var s := Final(s0, steps);
      Dels(steps) == Answered(s.log) + One(!s.deleter.Idle?) && Drains(steps) == Emptied(s.log)
  {
    RunAnswers(s0, steps);
  }

  // ---- when nobody interferes

  /** An addition that is not disturbed puts its batch on top. */
  lemma AddAlone(s: State, tid: Tid, batch: seq<Node>)
    requires Inv(s) && Enabled(s, AddStart(tid, batch))
    ensures
      var steps := [AddStart(tid, batch)] + [AddLoad(tid)] + [AddCas(tid)];
      && IsRun(s, steps)
      && var s' := Final(s, steps);
      && s'.stack == batch + s.stack && s'.head == Some(batch[0]) && s'.adders == s.adders
      && s'.log == s.log + [Push(batch, s.stack == [])]
  {
    var a := Apply(s, AddStart(tid, batch));
    StepKeeps(s, AddStart(tid, batch));
    var l := Apply(a, AddLoad(tid));
    StepKeeps(a, AddLoad(tid));
    var c := Apply(l, AddCas(tid));
    Three(s, AddStart(tid, batch), AddLoad(tid), AddCas(tid));
    assert c.adders == s.adders;
  }

  lemma Three(s: State, a: Step, b: Step, c: Step)
    requires Enabled(s, a) && Enabled(Apply(s, a), b) && Enabled(Apply(Apply(s, a), b), c)
    ensures IsRun(s, [a] + [b] + [c]) && Final(s, [a] + [b] + [c]) == Apply(Apply(Apply(s, a), b), c)
  {
    var t, u, v := Apply(s, a), Apply(Apply(s, a), b), Apply(Apply(Apply(s, a), b), c);
    assert IsRun(v, []) && Final(v, []) == v;
    assert [c][1..] == [] && ([b] + [c])[1..] == [c] && ([a] + [b] + [c])[1..] == [b] + [c];
    assert IsRun(u, [c]) && Final(u, [c]) == v;
    assert IsRun(t, [b] + [c]) && Final(t, [b] + [c]) == v;
  }

  /** An undisturbed llist_del_first takes the top node, or finds the list empty at once. */
  lemma DelAlone(s: State)
    requires Inv(s) && s.deleter.Idle?
    ensures s.stack == [] ==> Apply(s, DelLoad) == s.(log := s.log + [PopEmpty])
    ensures s.stack != [] ==>
      var steps := [DelLoad] + [DelLoadNext] + [DelCas];
      && IsRun(s, steps)
      && Final(s, steps)
         == s.(head := Head(s.stack[1..], None), stack := s.stack[1..], log := s.log + [Pop(s.stack[0])])
  {
    if s.stack != [] {
      assert s.stack[0] in s.next && s.next[s.stack[0]] == Head(s.stack[0 + 1..], None);
      Three(s, DelLoad, DelLoadNext, DelCas);
    }
  }
}
