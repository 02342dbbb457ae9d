/** klist: what every call does to the list, told by positions and by who is on which node. */
module KlistSteps {
  import opened Options
  import opened Sequences
  import opened Klist

  /** An iterator other than i is on n. */
  ghost predicate OtherOn(s: State, i: IterId, n: Node) {
    exists x :: x in s.iters && x != i && s.iters[x].cur == Some(n)
  }

  ghost predicate SomeoneOn(s: State, n: Node) {
    exists x :: x in s.iters && s.iters[x].cur == Some(n)
  }

  /** ys is xs without the place k, which held n. */
  ghost predicate CutAt(xs: seq<Node>, n: Node, k: nat, ys: seq<Node>) {
    k < |xs| && xs[k] == n && ys == xs[..k] + xs[k + 1..]
  }

  ghost predicate Cut(xs: seq<Node>, n: Node, ys: seq<Node>) { exists k :: CutAt(xs, n, k, ys) }

  lemma WithoutCuts(xs: seq<Node>, n: Node)
    requires n in xs
    ensures Cut(xs, n, Without(xs, n))
  {
    assert CutAt(xs, n, Index(xs, n), Without(xs, n));
  }

  // ---- additions

  ghost predicate PutAt(xs: seq<Node>, k: nat, n: Node, ys: seq<Node>) {
    k <= |xs| && ys == xs[..k] + [n] + xs[k..]
  }

  /** n stands right behind pos, or right before it, and the rest is as it was. */
  ghost predicate Behind(xs: seq<Node>, pos: Node, n: Node, ys: seq<Node>) {
    exists k: nat :: PutAt(xs, k, n, ys) && 0 < k && xs[k - 1] == pos
  }

  ghost predicate Ahead(xs: seq<Node>, pos: Node, n: Node, ys: seq<Node>) {
    exists k: nat :: PutAt(xs, k, n, ys) && k < |xs| && xs[k] == pos
  }

  lemma InsertsAtEnds(xs: seq<Node>, n: Node)
    ensures InsertAt(xs, 0, n) == [n] + xs && InsertAt(xs, |xs|, n) == xs + [n]
  {}

  /** A new node is alive, with one reference; nothing else changes. */
  ghost predicate Comes(s: State, n: Node, s': State) {
    s'.iters == s.iters && s'.waiters == s.waiters && s'.dead == s.dead - {n} && s'.ref == s.ref[n := 1]
  }

  lemma AddComes(s: State, n: Node, k: nat)
    requires k <= |s.list|
    ensures Comes(s, n, Add(s, n, k)) && Add(s, n, k).list == InsertAt(s.list, k, n)
  {}

  /** klist_add_head and klist_add_tail put the node at the ends, */
  lemma AddsAtEnds(s: State, n: Node)
    requires n !in s.list
    ensures Comes(s, n, Apply(s, AddHead(n))) && Apply(s, AddHead(n)).list == [n] + s.list
    ensures Comes(s, n, Apply(s, AddTail(n))) && Apply(s, AddTail(n)).list == s.list + [n]
  {
    AddComes(s, n, 0);
    AddComes(s, n, |s.list|);
    InsertsAtEnds(s.list, n);
  }

  /** klist_add_behind right behind the given one, */
  lemma AddsBehind(s: State, n: Node, pos: Node)
    requires n !in s.list && pos in s.list
    ensures Comes(s, n, Apply(s, AddBehind(n, pos))) && Behind(s.list, pos, n, Apply(s, AddBehind(n, pos)).list)
  {
    var k := Index(s.list, pos) + 1;
    AddComes(s, n, k);
    assert PutAt(s.list, k, n, Add(s, n, k).list);
  }

  /** and klist_add_before right before it. */
  lemma AddsAhead(s: State, n: Node, pos: Node)
    requires n !in s.list && pos in s.list
    ensures Comes(s, n, Apply(s, AddBefore(n, pos))) && Ahead(s.list, pos, n, Apply(s, AddBefore(n, pos)).list)
  {
    var k := Index(s.list, pos);
    AddComes(s, n, k);
    assert PutAt(s.list, k, n, Add(s, n, k).list);
  }

  // ---- deletions

  lemma NobodyOn(s: State, n: Node)
    ensures ParkedOn(s.iters, n) == {} <==> !SomeoneOn(s, n)
  {
    if !SomeoneOn(s, n) {
      assert forall x :: x !in ParkedOn(s.iters, n);
    } else {
      var x :| x in s.iters && s.iters[x].cur == Some(n);
      assert x in ParkedOn(s.iters, n);
    }
  }

  /** A killed node leaves at once if no iterator is on it; otherwise it stays in its place, dead. */
  ghost predicate Kills(s: State, n: Node, s': State) {
    && s'.iters.Keys == s.iters.Keys && (forall i :: i in s.iters ==> s'.iters[i].cur == s.iters[i].cur)
    && if SomeoneOn(s, n) then s'.list == s.list && s'.dead == s.dead + {n}
       else Cut(s.list, n, s'.list) && s'.dead == s.dead
  }

  /** Dropping the extra reference: the node stays exactly if it is alive or someone is on it. */
  lemma DropMeans(t: State, n: Node)
    requires OneExtra(t, n)
    ensures
      var d := Drop(t, n);
      && d.iters == t.iters
      && if n in t.dead && !SomeoneOn(t, n) then Cut(t.list, n, d.list) && d.dead == t.dead - {n}
         else d.list == t.list && d.dead == t.dead
  {
    DropKeeps(t, n);
    NobodyOn(t, n);
    WithoutCuts(t.list, n);
    if SomeoneOn(t, n) { CountSome(t, n); }
  }

  lemma KillMeans(s: State, n: Node)
    requires Counts(s) && n in s.list && n !in s.dead
    ensures Kills(s, n, Kill(s, n))
  {
    var t := Killed(s, n);
    KilledExtra(s, n);
    DropMeans(t, n);
    KilledOn(s, n);
    assert s.dead + {n} - {n} == s.dead;
  }

  lemma KilledOn(s: State, n: Node)
    ensures SomeoneOn(Killed(s, n), n) <==> SomeoneOn(s, n)
  {
    var t := Killed(s, n);
    if x :| x in s.iters && s.iters[x].cur == Some(n) { assert x in t.iters && t.iters[x].cur == Some(n); }
  }

  lemma CountSome(t: State, n: Node)
    requires OneExtra(t, n) && ParkedOn(t.iters, n) != {}
    ensures t.ref[n] > 1
  {
    var x :| x in ParkedOn(t.iters, n);
    assert ParkedOn(t.iters, n) == {x} + (ParkedOn(t.iters, n) - {x});
  }

  lemma DelMeans(s: State, n: Node)
    requires Inv(s) && Enabled(s, Del(n))
    ensures Kills(s, n, Apply(s, Del(n)))
  {
    KillMeans(s, n);
  }

  /** klist_remove registers its waiter, kills like klist_del, and returns only when woken. */
  lemma RemoveMeans(s: State, step: Step)
    requires Inv(s) && Enabled(s, step) && (step.RemoveRegister? || step.RemoveDel? || step.RemoveReturn?)
    ensures
      var s', w := Apply(s, step), step.w;
      match step
      case RemoveRegister(_, n) => s' == s.(waiters := s.waiters[w := Waiter(n, false, false)])
      case RemoveReturn(_) => s.waiters[w].woken && s' == s.(waiters := s.waiters - {w})
      case RemoveDel(_) =>
        Kills(s, s.waiters[w].node, s') && w in s'.waiters && s'.waiters[w].deleted
        && s'.waiters[w].node == s.waiters[w].node
      case _ => true
  {
    if step.RemoveDel? {
      var w := step.w;
      var t := s.(waiters := s.waiters[w := s.waiters[w].(deleted := true)]);
      forall m | m in t.list ensures RefOk(t, m) && t.ref[m] > 0 { assert RefOk(s, m); }
      KillMeans(t, s.waiters[w].node);
      assert SomeoneOn(t, s.waiters[w].node) == SomeoneOn(s, s.waiters[w].node);
    }
  }

  // ---- iterators

  /** Leaving a node takes it off the list exactly when it is dead and nobody else is on it. */
  ghost predicate Leaves(s: State, i: IterId, s': State)
    requires i in s.iters
  {
    match s.iters[i].cur
    case None => s'.list == s.list && s'.dead == s.dead
    case Some(c) =>
      if c in s.dead && !OtherOn(s, i, c) then Cut(s.list, c, s'.list) && s'.dead == s.dead - {c}
      else s'.list == s.list && s'.dead == s.dead
  }

  lemma UnparkMeans(s: State, i: IterId)
    requires Counts(s) && i in s.iters
    ensures Leaves(s, i, Unpark(s, i)) && Unpark(s, i).iters == s.iters[i := Iter(None, None)]
  {
    UnparkKeeps(s, i);
    if s.iters[i].cur.Some? {
      var c := s.iters[i].cur.value;
      var t := s.(iters := s.iters[i := Iter(None, None)]);
      UnparkExtra(s, i, c);
      DropMeans(t, c);
      if x :| x in s.iters && x != i && s.iters[x].cur == Some(c) { assert x in t.iters && t.iters[x].cur == Some(c); }
    }
  }

  ghost predicate OthersStay(s: State, i: IterId, s': State) {
    forall x :: x != i ==> (x in s'.iters <==> x in s.iters) && (x in s.iters ==> s'.iters[x] == s.iters[x])
  }

  /** The place of the first node klist_next looks at. */
  ghost predicate LooksFrom(s: State, i: IterId, k: nat)
    requires i in s.iters
  {
    match s.iters[i].cur
    case None => k == 0
    case Some(c) => 0 < k <= |s.list| && s.list[k - 1] == c
  }

  /** Where klist_next stops: at the first node from k on that is not dead, or nowhere if there is none. */
  ghost predicate StopsAt(s: State, k: nat, cur: Option<Node>) {
    match cur
    case None => forall m :: k <= m < |s.list| ==> s.list[m] in s.dead
    case Some(n) =>
      exists j :: k <= j < |s.list| && s.list[j] == n && n !in s.dead && forall m :: k <= m < j ==> s.list[m] in s.dead
  }

  lemma NextParks(s: State, i: IterId)
    requires Inv(s) && Enabled(s, IterNext(i))
    ensures
      var s', u, j := NextStep(s, i), Unpark(s, i), NextAlive(s, ScanFrom(s, i));
      && s'.list == u.list && s'.dead == u.dead && i in s'.iters && OthersStay(s, i, s')
      && s'.iters[i].cur == if j < |s.list| then Some(s.list[j]) else None
  {
    var j, u, p := NextAlive(s, ScanFrom(s, i)), Unpark(s, i), PassSoFar(s, i);
    UnparkKeeps(s, i);
    if j < |s.list| {
      assert s.iters[i].cur != Some(s.list[j]);
      ParkKeeps(u, i, s.list[j], Extend(p, s.list[j]));
    }
  }

  /** klist_next stops at the first node behind the old one that is not dead, and at the end if there is none. */
  lemma NextSkips(s: State, i: IterId, k: nat)
    requires Inv(s) && Enabled(s, IterNext(i)) && LooksFrom(s, i, k)
    ensures
      var s' := Apply(s, IterNext(i));
      && i in s'.iters && OthersStay(s, i, s') && Leaves(s, i, s') && StopsAt(s, k, s'.iters[i].cur)
  {
    assert k == ScanFrom(s, i);
    NextParks(s, i);
    UnparkMeans(s, i);
    Stops(s, k);
  }

  lemma Stops(s: State, k: nat)
    requires k <= |s.list|
    ensures
      var j := NextAlive(s, k);
      StopsAt(s, k, if j < |s.list| then Some(s.list[j]) else None)
  {}

  /** There is one such place. */
  lemma LooksSomewhere(s: State, i: IterId) returns (k: nat)
    requires Inv(s) && Enabled(s, IterNext(i))
    ensures LooksFrom(s, i, k)
  {
    k := ScanFrom(s, i);
  }

  /** klist_iter_init starts on the node given if it is listed, else before the head; klist_iter_exit lets go. */
  lemma InitMeans(s: State, i: IterId, start: Option<Node>)
    requires Inv(s) && Enabled(s, IterInit(i, start))
    ensures
      var s' := Apply(s, IterInit(i, start));
      && i in s'.iters && OthersStay(s, i, s') && s'.list == s.list && s'.dead == s.dead && s'.waiters == s.waiters
      && s'.iters[i].cur == if start.Some? && start.value in s.list then start else None
  {
    assert start.Some? ==> (start.value in s.ref <==> start.value in Elements(s.list));
  }

  lemma ExitMeans(s: State, i: IterId)
    requires Inv(s) && Enabled(s, IterExit(i))
    ensures
      var s' := Apply(s, IterExit(i));
      i !in s'.iters && OthersStay(s, i, s') && Leaves(s, i, s')
  {
    UnparkMeans(s, i);
  }
}
