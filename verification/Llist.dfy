/** The lock-less list: many adders, one deleter, interleaved at every load, store and cmpxchg. */
module Llist {
  import opened Options
  import opened Sequences

  type Node = nat
  type Tid = nat
  type Ptr = Option<Node>

  /** An llist_add_batch in flight: its chain, and head->first once loaded. */
  datatype Adder = Adder(batch: seq<Node>, loaded: bool, first: Ptr)

  /** The single llist_del_first in flight. */
  datatype Deleter = Idle | HasEntry(entry: Node) | HasNext(entry: Node, nxt: Ptr)

  /** What an operation does to the abstract stack, recorded at its atomic step together with its result. */
  datatype Event =
    | Push(batch: seq<Node>, wasEmpty: bool)
    | Pop(node: Node)
    | PopEmpty
    | Drain(chain: seq<Node>)

  datatype State = State(head: Ptr, next: map<Node, Ptr>, adders: map<Tid, Adder>, deleter: Deleter,
                         stack: seq<Node>, log: seq<Event>)

  datatype Step =
    | AddStart(tid: Tid, batch: seq<Node>)
    | AddLoad(tid: Tid)
    | AddCas(tid: Tid)
    | DelLoad
    | DelLoadNext
    | DelCas
    | DelAll

  // ---- chains in memory

  ghost predicate Disjoint(xs: seq<Node>, ys: seq<Node>) {
    forall i, j :: 0 <= i < |xs| && 0 <= j < |ys| ==> xs[i] != ys[j]
  }

  function Head(xs: seq<Node>, tail: Ptr): Ptr {
    if xs == [] then tail else Some(xs[0])
  }

  /** Following next from the nodes of xs visits xs and then tail. */
  ghost predicate Linked(next: map<Node, Ptr>, xs: seq<Node>, tail: Ptr) {
    forall i :: 0 <= i < |xs| ==> xs[i] in next && next[xs[i]] == Head(xs[i + 1..], tail)
  }

  /** Links of a private batch, except the last one. */
  ghost predicate InnerLinks(next: map<Node, Ptr>, xs: seq<Node>) {
    forall i :: 0 <= i < |xs| - 1 ==> xs[i] in next && next[xs[i]] == Some(xs[i + 1])
  }

  /** next with the batch chained together; the caller's preparation. */
  function ChainUp(next: map<Node, Ptr>, xs: seq<Node>): (m: map<Node, Ptr>)
    ensures forall n :: n in next && n !in xs ==> n in m && m[n] == next[n]
    ensures Distinct(xs) ==> InnerLinks(m, xs)
    decreases |xs|
  {
    if |xs| <= 1 then next
    else
      var m := ChainUp(next, xs[1..]);
      assert Distinct(xs) ==> Distinct(xs[1..]);
      m[xs[0] := Some(xs[1])]
  }

  // ---- steps

  ghost predicate Enabled(s: State, step: Step) {
    match step
    case AddStart(tid, batch) =>
      // the caller owns its nodes: they are neither listed nor being added by anyone else
      && tid !in s.adders && batch != [] && Distinct(batch) && Disjoint(batch, s.stack)
      && forall t :: t in s.adders ==> Disjoint(batch, s.adders[t].batch)
    case AddLoad(tid) => tid in s.adders && !s.adders[tid].loaded
    case AddCas(tid) => tid in s.adders && s.adders[tid].loaded
    case DelLoad => s.deleter.Idle?
    case DelLoadNext => s.deleter.HasEntry?
    case DelCas => s.deleter.HasNext?
    case DelAll => s.deleter.Idle?
  }

  function Last(xs: seq<Node>): Node
    requires xs != []
  {
    xs[|xs| - 1]
  }

  /** entry as loaded or returned by a failed cmpxchg: NULL ends the call. */
  function Resume(s: State, entry: Ptr): State {
    match entry
    case None => s.(deleter := Idle, log := s.log + [PopEmpty])
    case Some(n) => s.(deleter := HasEntry(n))
  }

  ghost function Apply(s: State, step: Step): State
    requires Enabled(s, step)
  {
    match step
    case AddStart(tid, batch) =>
      s.(next := ChainUp(s.next, batch), adders := s.adders[tid := Adder(batch, false, None)])
    case AddLoad(tid) =>
      var a := s.adders[tid];
      if a.batch == [] then s
      else s.(next := s.next[Last(a.batch) := s.head], adders := s.adders[tid := Adder(a.batch, true, s.head)])
    case AddCas(tid) =>
      var a := s.adders[tid];
      if s.head == a.first then
        s.(head := Head(a.batch, s.head), stack := a.batch + s.stack, adders := s.adders - {tid},
           log := s.log + [Push(a.batch, a.first == None)])
      else s.(adders := s.adders[tid := Adder(a.batch, false, None)])
    case DelLoad => Resume(s, s.head)
    case DelLoadNext =>
      if s.deleter.entry in s.next then s.(deleter := HasNext(s.deleter.entry, s.next[s.deleter.entry])) else s
    case DelCas =>
      if s.head == Some(s.deleter.entry) then
        s.(head := s.deleter.nxt, stack := if s.stack == [] then [] else s.stack[1..], deleter := Idle,
           log := s.log + [Pop(s.deleter.entry)])
      else Resume(s, s.head)
    case DelAll =>
      s.(head := None, stack := [], log := s.log + [Drain(s.stack)])
  }

  // ---- the sequential specification

  /** Contents of a stack after a sequence of events, or None if some event's result is wrong. */
  function Replay(log: seq<Event>): Option<seq<Node>> {
    if log == [] then Some([])
    else
      match Replay(log[..|log| - 1])
      case None => None
      case Some(st) =>
        match log[|log| - 1]
        case Push(batch, wasEmpty) => if wasEmpty == (st == []) then Some(batch + st) else None
        case Pop(n) => if st != [] && st[0] == n then Some(st[1..]) else None
        case PopEmpty => if st == [] then Some(st) else None
        case Drain(chain) => if chain == st then Some([]) else None
  }

  // ---- the invariant

  ghost predicate AdderOk(s: State, a: Adder) {
    && a.batch != [] && Distinct(a.batch) && Disjoint(a.batch, s.stack) && InnerLinks(s.next, a.batch)
    && (a.loaded ==> Last(a.batch) in s.next && s.next[Last(a.batch)] == a.first)
  }

  ghost predicate DeleterOk(s: State) {
    && (!s.deleter.Idle? ==> s.deleter.entry in s.stack)
    && (s.deleter.HasNext? ==> s.deleter.entry in s.next && s.next[s.deleter.entry] == s.deleter.nxt)
  }

  ghost predicate Inv(s: State) {
    && s.head == Head(s.stack, None) && Distinct(s.stack) && Linked(s.next, s.stack, None)
    && (forall t :: t in s.adders ==> AdderOk(s, s.adders[t]))
    && (forall t, u :: t in s.adders && u in s.adders && t != u ==> Disjoint(s.adders[t].batch, s.adders[u].batch))
    && DeleterOk(s)
    && Replay(s.log) == Some(s.stack)
  }

  lemma ReplaySnoc(log: seq<Event>, ev: Event)
    ensures (log + [ev])[..|log|] == log && (log + [ev])[|log|] == ev
  {}

  lemma AddStartKeeps(s: State, tid: Tid, batch: seq<Node>)
    requires Inv(s) && Enabled(s, AddStart(tid, batch))
    ensures Inv(Apply(s, AddStart(tid, batch)))
  {
    var s' := Apply(s, AddStart(tid, batch));
    forall t | t in s'.adders ensures AdderOk(s', s'.adders[t]) {
      if t != tid {
        var a := s.adders[t];
        assert AdderOk(s, a) && Disjoint(batch, a.batch);
      }
    }
  }

  lemma AddLoadKeeps(s: State, tid: Tid)
    requires Inv(s) && Enabled(s, AddLoad(tid))
    ensures Inv(Apply(s, AddLoad(tid)))
  {
    var s' := Apply(s, AddLoad(tid));
    var b := s.adders[tid].batch;
    assert AdderOk(s, s.adders[tid]);
    assert Last(b) !in s.stack;
    forall t | t in s'.adders ensures AdderOk(s', s'.adders[t]) {
      var a := s.adders[t];
      assert AdderOk(s, a);
      if t != tid { assert Disjoint(b, a.batch); }
    }
  }

  lemma AddCasKeeps(s: State, tid: Tid)
    requires Inv(s) && Enabled(s, AddCas(tid))
    ensures Inv(Apply(s, AddCas(tid)))
  {
    var s' := Apply(s, AddCas(tid));
    var a := s.adders[tid];
    assert AdderOk(s, a);
    if s.head == a.first {
      PushLinked(s.next, a.batch, s.stack);
      ReplaySnoc(s.log, Push(a.batch, a.first == None));
      forall t | t in s'.adders ensures AdderOk(s', s'.adders[t]) {
        assert AdderOk(s, s.adders[t]) && Disjoint(s.adders[t].batch, a.batch);
      }
    } else {
      forall t | t in s'.adders ensures AdderOk(s', s'.adders[t]) { assert AdderOk(s, s.adders[t]); }
    }
  }

  lemma PushLinked(next: map<Node, Ptr>, batch: seq<Node>, stack: seq<Node>)
    requires batch != [] && InnerLinks(next, batch) && Linked(next, stack, None)
    requires Last(batch) in next && next[Last(batch)] == Head(stack, None)
    ensures Linked(next, batch + stack, None)
  {
    var xs := batch + stack;
    forall i | 0 <= i < |xs| ensures xs[i] in next && next[xs[i]] == Head(xs[i + 1..], None) {
      if i < |batch| - 1 {
        assert xs[i + 1..][0] == batch[i + 1];
      } else if i == |batch| - 1 {
        assert xs[i + 1..] == stack;
      } else {
        assert xs[i + 1..] == stack[i - |batch| + 1..];
      }
    }
  }

  /** A successful cmpxchg finds the node on top, and the next it read earlier is still the current one: no ABA. */
  lemma DelCasCurrent(s: State)
    requires Inv(s) && s.deleter.HasNext? && s.head == Some(s.deleter.entry)
    ensures s.stack != [] && s.stack[0] == s.deleter.entry
    ensures s.deleter.nxt == Head(s.stack[1..], None)
  {
    assert s.stack[0 + 1..] == s.stack[1..];
  }

  lemma DelCasKeeps(s: State)
    requires Inv(s) && Enabled(s, DelCas)
    ensures Inv(Apply(s, DelCas))
  {
    var s' := Apply(s, DelCas);
    if s.head == Some(s.deleter.entry) {
      DelCasCurrent(s);
      ReplaySnoc(s.log, Pop(s.deleter.entry));
      var rest := s.stack[1..];
      forall i | 0 <= i < |rest| ensures rest[i] in s.next && s.next[rest[i]] == Head(rest[i + 1..], None) {
        assert rest[i] == s.stack[i + 1] && rest[i + 1..] == s.stack[i + 2..];
      }
    }
    forall t | t in s'.adders ensures AdderOk(s', s'.adders[t]) { assert AdderOk(s, s.adders[t]); }
  }

  /** A step that leaves memory and batches alone and only shrinks the stack keeps every adder sound. */
  lemma AddersKept(s: State, s': State)
    requires Inv(s) && s'.adders == s.adders && s'.next == s.next && (s'.stack == s.stack || s'.stack == [])
    ensures forall t :: t in s'.adders ==> AdderOk(s', s'.adders[t])
  {
    forall t | t in s'.adders ensures AdderOk(s', s'.adders[t]) { assert AdderOk(s, s.adders[t]); }
  }

  lemma DelLoadKeeps(s: State)
    requires Inv(s) && Enabled(s, DelLoad)
    ensures Inv(Apply(s, DelLoad))
  {
    AddersKept(s, Apply(s, DelLoad));
    ReplaySnoc(s.log, PopEmpty);
  }

  lemma DelAllKeeps(s: State)
    requires Inv(s) && Enabled(s, DelAll)
    ensures Inv(Apply(s, DelAll))
  {
    AddersKept(s, Apply(s, DelAll));
    ReplaySnoc(s.log, Drain(s.stack));
  }

  lemma StepKeeps(s: State, step: Step)
    requires Inv(s) && Enabled(s, step)
    ensures Inv(Apply(s, step))
  {
    match step
    case AddStart(tid, batch) => AddStartKeeps(s, tid, batch);
    case AddLoad(tid) => AddLoadKeeps(s, tid);
    case AddCas(tid) => AddCasKeeps(s, tid);
    case DelLoad => DelLoadKeeps(s);
    case DelLoadNext => AddersKept(s, Apply(s, DelLoadNext));
    case DelCas => DelCasKeeps(s);
    case DelAll => DelAllKeeps(s);
  }

  // ---- runs

  ghost predicate Init(s: State) {
    s.head == None && s.stack == [] && s.adders == map[] && s.deleter.Idle? && s.log == []
  }

  ghost predicate IsRun(s: State, steps: seq<Step>)
    decreases |steps|
  {
    steps == [] || (Enabled(s, steps[0]) && IsRun(Apply(s, steps[0]), steps[1..]))
  }

  ghost function Final(s: State, steps: seq<Step>): State
    requires IsRun(s, steps)
    decreases |steps|
  {
    if steps == [] then s else Final(Apply(s, steps[0]), steps[1..])
  }

  lemma {:induction false} RunKeeps(s: State, steps: seq<Step>)
    requires Inv(s) && IsRun(s, steps)
    ensures Inv(Final(s, steps))
    decreases |steps|
  {
    if steps != [] {
      StepKeeps(s, steps[0]);
      RunKeeps(Apply(s, steps[0]), steps[1..]);
    }
  }

  /**
   * Linearizability: the results recorded at the atomic steps of any interleaving are those of a sequential stack,
   * and the list in memory is that stack.
   */
  lemma EveryRunIsAStack(s0: State, steps: seq<Step>)
    requires Init(s0) && IsRun(s0, steps)
    ensures
      var s := Final(s0, steps);
      Replay(s.log) == Some(s.stack) && s.head == Head(s.stack, None) && Linked(s.next, s.stack, None)
  {
    RunKeeps(s0, steps);
  }

  // ---- draining and arrival order

  function Reversed<T>(s: seq<T>): (r: seq<T>)
    ensures |r| == |s| && forall i :: 0 <= i < |s| ==> r[i] == s[|s| - 1 - i]
  {
    seq(|s|, i requires 0 <= i < |s| => s[|s| - 1 - i])
  }

  /** The latest push that put x on the list. */
  function PushTime(log: seq<Event>, x: Node): (t: int)
    ensures -1 <= t < |log| && (t >= 0 ==> log[t].Push? && x in log[t].batch)
  {
    if log == [] then -1
    else
      var ev := log[|log| - 1];
      if ev.Push? && x in ev.batch then |log| - 1 else PushTime(log[..|log| - 1], x)
  }

  /** x came on the list before y: by an earlier push, or further down in the same batch. */
  ghost predicate Arrived(log: seq<Event>, x: Node, y: Node) {
    var t, u := PushTime(log, x), PushTime(log, y);
    0 <= t <= u && (t == u ==> Before(log[t].batch, y, x))
  }

  /** The list from its top down, latest arrival first. */
  ghost predicate LatestFirst(log: seq<Event>, stack: seq<Node>) {
    && (forall i :: 0 <= i < |stack| ==> PushTime(log, stack[i]) >= 0)
    && (forall i, j :: 0 <= i < j < |stack| ==> Arrived(log, stack[j], stack[i]))
  }

  lemma PushTimeSnoc(log: seq<Event>, ev: Event, x: Node)
    ensures PushTime(log + [ev], x) == if ev.Push? && x in ev.batch then |log| else PushTime(log, x)
  {
    ReplaySnoc(log, ev);
  }

  /** An event that pushes none of these nodes does not change their order. */
  lemma SameArrival(log: seq<Event>, ev: Event, x: Node, y: Node)
    requires Arrived(log, x, y) && (ev.Push? ==> x !in ev.batch && y !in ev.batch)
    ensures Arrived(log + [ev], x, y)
  {
    PushTimeSnoc(log, ev, x);
    PushTimeSnoc(log, ev, y);
    var t := PushTime(log, x);
    assert (log + [ev])[t] == log[t];
  }

  lemma OtherEvent(log: seq<Event>, ev: Event, stack: seq<Node>)
    requires LatestFirst(log, stack) && !ev.Push?
    ensures LatestFirst(log + [ev], stack)
  {
    forall i | 0 <= i < |stack| ensures PushTime(log + [ev], stack[i]) >= 0 { PushTimeSnoc(log, ev, stack[i]); }
    forall i, j | 0 <= i < j < |stack| ensures Arrived(log + [ev], stack[j], stack[i]) {
      SameArrival(log, ev, stack[j], stack[i]);
    }
  }

  /** A batch goes on top, in its own order. */
  lemma PushEvent(log: seq<Event>, ev: Event, stack: seq<Node>)
    requires LatestFirst(log, stack) && ev.Push? && Disjoint(ev.batch, stack)
    ensures LatestFirst(log + [ev], ev.batch + stack)
  {
    var b, st, log' := ev.batch, ev.batch + stack, log + [ev];
    assert log'[|log|] == ev;
    forall i | 0 <= i < |st| ensures PushTime(log', st[i]) == if i < |b| then |log| else PushTime(log, stack[i - |b|]) {
      PushTimeSnoc(log, ev, st[i]);
    }
    forall i, j | 0 <= i < j < |st| ensures Arrived(log', st[j], st[i]) {
      if j < |b| {
        assert b[i] == st[i] && b[j] == st[j];
      } else if i >= |b| {
        assert Arrived(log, stack[j - |b|], stack[i - |b|]);
        SameArrival(log, ev, st[j], st[i]);
      }
    }
  }

  lemma StepOrder(s: State, step: Step)
    requires Inv(s) && Enabled(s, step) && LatestFirst(s.log, s.stack)
    ensures LatestFirst(Apply(s, step).log, Apply(s, step).stack)
  {
    match step
    case AddStart(_, _) =>
    case AddLoad(_) =>
    case AddCas(tid) =>
      var a := s.adders[tid];
      assert AdderOk(s, a);
      if s.head == a.first { PushEvent(s.log, Push(a.batch, a.first == None), s.stack); }
    case DelLoad => OtherEvent(s.log, PopEmpty, s.stack);
    case DelLoadNext =>
    case DelCas => PopOrder(s);
    case DelAll =>
  }

  lemma PopOrder(s: State)
    requires s.deleter.HasNext? && LatestFirst(s.log, s.stack)
    ensures LatestFirst(Apply(s, DelCas).log, Apply(s, DelCas).stack)
  {
    if s.head == Some(s.deleter.entry) {
      OtherEvent(s.log, Pop(s.deleter.entry), s.stack);
      WithoutTop(s.log + [Pop(s.deleter.entry)], s.stack);
    } else {
      OtherEvent(s.log, PopEmpty, s.stack);
    }
  }

  lemma WithoutTop(log: seq<Event>, stack: seq<Node>)
    requires LatestFirst(log, stack)
    ensures LatestFirst(log, if stack == [] then [] else stack[1..])
  {}

  lemma {:induction false} RunOrder(s: State, steps: seq<Step>)
    requires Inv(s) && IsRun(s, steps) && LatestFirst(s.log, s.stack)
    ensures LatestFirst(Final(s, steps).log, Final(s, steps).stack)
    decreases |steps|
  {
    if steps != [] {
      StepKeeps(s, steps[0]);
      StepOrder(s, steps[0]);
      RunOrder(Apply(s, steps[0]), steps[1..]);
    }
  }

  ghost predicate InArrivalOrder(log: seq<Event>, xs: seq<Node>) {
    forall i, j :: 0 <= i < j < |xs| ==> Arrived(log, xs[i], xs[j])
  }

  /**
   * Whatever adds of whatever batches, deletes and drains came before: the chain a DelAll returns is the list in
   * memory, and reversed it is in order of arrival, batches from their last node to their first.
   */
  lemma DrainedReversedIsArrival(s0: State, steps: seq<Step>)
    requires Init(s0) && IsRun(s0, steps) && Enabled(Final(s0, steps), DelAll)
    ensures var s := Final(s0, steps);
      && Apply(s, DelAll).log == s.log + [Drain(s.stack)]
      && s.head == Head(s.stack, None) && Linked(s.next, s.stack, None)
      && InArrivalOrder(s.log, Reversed(s.stack))
  {
    RunKeeps(s0, steps);
    RunOrder(s0, steps);
  }

  /** Reversal is its own inverse. */
  lemma ReversedTwice<T>(s: seq<T>)
    ensures Reversed(Reversed(s)) == s
  {}

  class LlistNode {
    var next: LlistNode?
    const name: Node

    constructor (name: Node)
      ensures this.name == name && next == null
    {
      this.name := name;
      next := null;
    }
  }

  ghost function Names(nodes: seq<LlistNode>): (names: seq<Node>)
    ensures |names| == |nodes| && forall i :: 0 <= i < |nodes| ==> names[i] == nodes[i].name
  {
    seq(|nodes|, i requires 0 <= i < |nodes| => nodes[i].name)
  }

  ghost predicate Chain(head: LlistNode?, nodes: seq<LlistNode>)
    reads nodes
  {
    && (forall i, j :: 0 <= i < j < |nodes| ==> nodes[i] != nodes[j])
    && head == (if nodes == [] then null else nodes[0])
    && forall i :: 0 <= i < |nodes| ==> nodes[i].next == NodeAt(nodes, i + 1)
  }

  ghost function NodeAt(nodes: seq<LlistNode>, i: int): LlistNode? {
    if 0 <= i < |nodes| then nodes[i] else null
  }

  /** Nodes that each point to the one before them are the reversed chain. */
  lemma Relinked(head: LlistNode?, nodes: seq<LlistNode>)
    requires (forall i, j :: 0 <= i < j < |nodes| ==> nodes[i] != nodes[j]) && head == NodeAt(nodes, |nodes| - 1)
    requires forall i :: 0 <= i < |nodes| ==> nodes[i].next == NodeAt(nodes, i - 1)
    ensures Chain(head, Reversed(nodes))
  {
    var r := Reversed(nodes);
    forall i | 0 <= i < |r| ensures r[i].next == NodeAt(r, i + 1) {
      assert r[i] == nodes[|r| - 1 - i];
    }
  }

  /** llist_reverse_order: relink the chain in place. */
  method ReverseOrder(first: LlistNode?, ghost nodes: seq<LlistNode>) returns (newHead: LlistNode?)
    requires Chain(first, nodes)
    modifies nodes
    ensures Chain(newHead, Reversed(nodes))
  {
    newHead := null;
    var head := first;
    ghost var k := 0;
    while head != null
      invariant 0 <= k <= |nodes| && head == NodeAt(nodes, k) && newHead == NodeAt(nodes, k - 1)
      invariant forall i :: 0 <= i < k ==> nodes[i].next == NodeAt(nodes, i - 1)
      invariant forall i :: k <= i < |nodes| ==> nodes[i].next == NodeAt(nodes, i + 1)
      decreases |nodes| - k
    {
      var tmp := head;
      head := head.next;
      tmp.next := newHead;
      newHead := tmp;
      k := k + 1;
    }
    Relinked(newHead, nodes);
  }

  /** llist_reverse_order on the chain a DelAll of a run returned: the new chain is in order of arrival. */
  method ReverseDrained(first: LlistNode?, ghost nodes: seq<LlistNode>, ghost s0: State, ghost steps: seq<Step>)
    returns (newHead: LlistNode?)
    requires Init(s0) && IsRun(s0, steps) && Enabled(Final(s0, steps), DelAll)
    requires Chain(first, nodes) && Names(nodes) == Final(s0, steps).stack
    modifies nodes
    ensures Chain(newHead, Reversed(nodes)) && InArrivalOrder(Final(s0, steps).log, Names(Reversed(nodes)))
  {
    DrainedReversedIsArrival(s0, steps);
    assert Names(Reversed(nodes)) == Reversed(Names(nodes));
    newHead := ReverseOrder(first, nodes);
  }
}
