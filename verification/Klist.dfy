/** Order-preserving selection from a sequence. */
module Selection {
  /** The elements of xs that are in keep, in order. */
  function Filter<T(==)>(xs: seq<T>, keep: set<T>): seq<T> {
    if xs == [] then []
    else Filter(xs[..|xs| - 1], keep) + if xs[|xs| - 1] in keep then [xs[|xs| - 1]] else []
  }

  lemma {:induction false} FilterConcat<T>(a: seq<T>, b: seq<T>, keep: set<T>)
    ensures Filter(a + b, keep) == Filter(a, keep) + Filter(b, keep)
  {
    if b == [] {
      assert a + b == a;
    } else {
      FilterConcat(a, b[..|b| - 1], keep);
      assert (a + b)[..|a + b| - 1] == a + b[..|b| - 1];
    }
  }

  lemma {:induction false} FilterNone<T>(xs: seq<T>, keep: set<T>)
    requires forall i :: 0 <= i < |xs| ==> xs[i] !in keep
    ensures Filter(xs, keep) == []
  {
    if xs != [] { FilterNone(xs[..|xs| - 1], keep); }
  }

  /** Selecting twice, the second time more narrowly, is selecting once. */
  lemma {:induction false} FilterFilter<T>(xs: seq<T>, wide: set<T>, narrow: set<T>)
    requires narrow <= wide
    ensures Filter(Filter(xs, wide), narrow) == Filter(xs, narrow)
  {
    if xs != [] {
      var p, x := xs[..|xs| - 1], xs[|xs| - 1];
      FilterFilter(p, wide, narrow);
      FilterConcat(Filter(p, wide), if x in wide then [x] else [], narrow);
      assert [x][..0] == [];
    }
  }

  /** An element that is not kept can be inserted or removed freely. */
  lemma FilterSkip<T>(a: seq<T>, x: T, b: seq<T>, keep: set<T>)
    requires x !in keep
    ensures Filter(a + [x] + b, keep) == Filter(a + b, keep)
  {
    FilterConcat(a + [x], b, keep);
    FilterConcat(a, b, keep);
    assert (a + [x])[..|a|] == a;
  }

  lemma {:induction false} FilterCount<T>(xs: seq<T>, keep: set<T>, x: T)
    requires x in keep
    ensures multiset(Filter(xs, keep))[x] == multiset(xs)[x]
  {
    if xs != [] {
      FilterCount(xs[..|xs| - 1], keep, x);
      assert xs == xs[..|xs| - 1] + [xs[|xs| - 1]];
    }
  }
}

/** klist: reference-counted nodes and iterators that survive concurrent additions and deletions. */
module Klist {
  import opened Options
  import opened Sequences
  import opened Selection

  type Node = nat
  type IterId = nat
  type WaiterId = nat

  /** A pass over the list: what was returned, and the nodes linked and alive since the pass began. */
  datatype Pass = Pass(returned: seq<Node>, stayed: set<Node>)

  /** i_cur, and the pass in progress (or finished, when cur is NULL) if the iterator started from the head. */
  datatype Iter = Iter(cur: Option<Node>, pass: Option<Pass>)

  /** A klist_remove caller: registered, then past its klist_del, then woken. */
  datatype Waiter = Waiter(node: Node, deleted: bool, woken: bool)

  datatype State = State(list: seq<Node>, ref: map<Node, nat>, dead: set<Node>,
                         iters: map<IterId, Iter>, waiters: map<WaiterId, Waiter>)

  datatype Step =
    | AddHead(n: Node)
    | AddTail(n: Node)
    | AddBehind(n: Node, pos: Node)
    | AddBefore(n: Node, pos: Node)
    | Del(n: Node)
    | RemoveRegister(w: WaiterId, n: Node)
    | RemoveDel(w: WaiterId)
    | RemoveReturn(w: WaiterId)
    | IterInit(i: IterId, start: Option<Node>)
    | IterNext(i: IterId)
    | IterExit(i: IterId)

  // ---- the list

  function Index(xs: seq<Node>, x: Node): (k: nat)
    requires x in xs
    ensures k < |xs| && xs[k] == x && forall j :: 0 <= j < k ==> xs[j] != x
  {
    if xs[0] == x then 0 else assert xs == [xs[0]] + xs[1..]; 1 + Index(xs[1..], x)
  }

  function InsertAt(xs: seq<Node>, k: nat, x: Node): seq<Node>
    requires k <= |xs|
  {
    xs[..k] + [x] + xs[k..]
  }

  function Without(xs: seq<Node>, x: Node): seq<Node> {
    if x in xs then xs[..Index(xs, x)] + xs[Index(xs, x) + 1..] else xs
  }

  /** First position from k on whose node is not dead, or the length. */
  function NextAlive(s: State, k: nat): (j: nat)
    requires k <= |s.list|
    ensures k <= j <= |s.list|
    ensures j < |s.list| ==> s.list[j] !in s.dead
    ensures forall m :: k <= m < j ==> s.list[m] in s.dead
    decreases |s.list| - k
  {
    if k == |s.list| || s.list[k] !in s.dead then k else NextAlive(s, k + 1)
  }

  // ---- reference counting

  /** klist_release: unlink the node and wake everyone waiting for it. */
  function Release(s: State, n: Node): State {
    s.(list := Without(s.list, n), ref := s.ref - {n}, dead := s.dead - {n},
       waiters := map w | w in s.waiters ::
         if s.waiters[w].node == n then s.waiters[w].(woken := true) else s.waiters[w])
  }

  /** klist_dec_and_del */
  function Drop(s: State, n: Node): State {
    if n !in s.ref || s.ref[n] == 0 then s
    else if s.ref[n] == 1 then Release(s, n)
    else s.(ref := s.ref[n := s.ref[n] - 1])
  }

  /** The iterator lets go of its current node. */
  function Unpark(s: State, i: IterId): State
    requires i in s.iters
  {
    match s.iters[i].cur
    case None => s.(iters := s.iters[i := Iter(None, None)])
    case Some(c) => Drop(s.(iters := s.iters[i := Iter(None, None)]), c)
  }

  /** The iterator takes a reference on n and stops there. */
  function Park(s: State, i: IterId, n: Node, pass: Option<Pass>): State {
    if n in s.ref then s.(ref := s.ref[n := s.ref[n] + 1], iters := s.iters[i := Iter(Some(n), pass)]) else s
  }

  /** Nodes killed during a pass no longer count as having stayed. */
  function Forget(it: Iter, n: Node): Iter {
    match it.pass
    case None => it
    case Some(p) => it.(pass := Some(Pass(p.returned, p.stayed - {n})))
  }

  function Kill(s: State, n: Node): State {
    Drop(s.(dead := s.dead + {n}, iters := map i | i in s.iters :: Forget(s.iters[i], n)), n)
  }

  function Add(s: State, n: Node, k: nat): State
    requires k <= |s.list|
  {
    s.(list := InsertAt(s.list, k, n), ref := s.ref[n := 1], dead := s.dead - {n})
  }

  function Alive(s: State): set<Node> { Elements(s.list) - s.dead }

  // ---- klist_next

  /** Where the scan starts: after the current node, or at the head. */
  function ScanFrom(s: State, i: IterId): (k: nat)
    requires i in s.iters && (s.iters[i].cur.Some? ==> s.iters[i].cur.value in s.list)
    ensures k <= |s.list|
  {
    match s.iters[i].cur
    case None => 0
    case Some(c) => Index(s.list, c) + 1
  }

  /** A call with i_cur NULL begins a new pass over the nodes alive now. */
  function PassSoFar(s: State, i: IterId): Option<Pass>
    requires i in s.iters
  {
    if s.iters[i].cur.None? then Some(Pass([], Alive(s))) else s.iters[i].pass
  }

  function Extend(p: Option<Pass>, n: Node): Option<Pass> {
    match p
    case None => None
    case Some(q) => Some(Pass(q.returned + [n], q.stayed))
  }

  function NextStep(s: State, i: IterId): State
    requires i in s.iters && (s.iters[i].cur.Some? ==> s.iters[i].cur.value in s.list)
  {
    var j := NextAlive(s, ScanFrom(s, i));
    var p := PassSoFar(s, i);
    var dropped := Unpark(s, i);
    if j < |s.list| then Park(dropped, i, s.list[j], Extend(p, s.list[j]))
    else dropped.(iters := dropped.iters[i := Iter(None, p)])
  }

  // ---- steps

  predicate Enabled(s: State, step: Step) {
    match step
    case AddHead(n) => n !in s.list
    case AddTail(n) => n !in s.list
    case AddBehind(n, pos) => n !in s.list && pos in s.list
    case AddBefore(n, pos) => n !in s.list && pos in s.list
    case Del(n) => n in s.list && n !in s.dead
    case RemoveRegister(w, n) => w !in s.waiters && n in s.list && n !in s.dead
    case RemoveDel(w) =>
      w in s.waiters && !s.waiters[w].deleted && s.waiters[w].node in s.list && s.waiters[w].node !in s.dead
    case RemoveReturn(w) => w in s.waiters && s.waiters[w].woken
    case IterInit(i, _) => i !in s.iters
    case IterNext(i) => i in s.iters && (s.iters[i].cur.Some? ==> s.iters[i].cur.value in s.list)
    case IterExit(i) => i in s.iters
  }

  function Apply(s: State, step: Step): State
    requires Enabled(s, step)
  {
    match step
    case AddHead(n) => Add(s, n, 0)
    case AddTail(n) => Add(s, n, |s.list|)
    case AddBehind(n, pos) => Add(s, n, Index(s.list, pos) + 1)
    case AddBefore(n, pos) => Add(s, n, Index(s.list, pos))
    case Del(n) => Kill(s, n)
    case RemoveRegister(w, n) => s.(waiters := s.waiters[w := Waiter(n, false, false)])
    case RemoveDel(w) => Kill(s.(waiters := s.waiters[w := s.waiters[w].(deleted := true)]), s.waiters[w].node)
    case RemoveReturn(w) => s.(waiters := s.waiters - {w})
    case IterInit(i, start) =>
      if start.Some? && start.value in s.ref && s.ref[start.value] > 0
      then Park(s, i, start.value, None)
      else s.(iters := s.iters[i := Iter(None, None)])
    case IterNext(i) => NextStep(s, i)
    case IterExit(i) => var u := Unpark(s, i); u.(iters := u.iters - {i})
  }

  // ---- the invariant

  function ParkedOn(iters: map<IterId, Iter>, n: Node): set<IterId> {
    set i | i in iters && iters[i].cur == Some(n)
  }

  /** A node's count is one for the list while it is not killed, plus one for each iterator parked on it. */
  ghost predicate RefOk(s: State, n: Node)
    requires n in s.ref
  {
    s.ref[n] == (if n in s.dead then 0 else 1) + |ParkedOn(s.iters, n)|
  }

  ghost predicate Counts(s: State) {
    && Distinct(s.list) && s.ref.Keys == Elements(s.list) && s.dead <= Elements(s.list)
    && (forall n :: n in s.list ==> RefOk(s, n) && s.ref[n] > 0)
    && (forall i :: i in s.iters && s.iters[i].cur.Some? ==> s.iters[i].cur.value in s.list)
  }

  /** What a pass has returned of the nodes that stayed, is those up to its current node, in list order. */
  ghost predicate Covered(list: seq<Node>, cur: Option<Node>, p: Pass) {
    match cur
    case None => Filter(p.returned, p.stayed) == Filter(list, p.stayed)
    case Some(c) =>
      forall k :: 0 <= k < |list| && list[k] == c ==> Filter(p.returned, p.stayed) == Filter(list[..k + 1], p.stayed)
  }

  ghost predicate PassOk(s: State, it: Iter) {
    it.pass.Some? ==> it.pass.value.stayed <= Alive(s) && Covered(s.list, it.cur, it.pass.value)
  }

  ghost predicate WaiterOk(s: State, w: Waiter) {
    w.deleted && !w.woken ==> w.node in s.list && w.node in s.dead
  }

  ghost predicate Inv(s: State) {
    && Counts(s)
    && (forall i :: i in s.iters ==> PassOk(s, s.iters[i]))
    && (forall w :: w in s.waiters ==> WaiterOk(s, s.waiters[w]))
  }

  // ---- counting

  /** As Counts, but n holds one reference too many: the one about to be dropped. */
  ghost predicate OneExtra(t: State, n: Node) {
    && Distinct(t.list) && t.ref.Keys == Elements(t.list) && t.dead <= Elements(t.list)
    && n in t.list && t.ref[n] == 1 + (if n in t.dead then 0 else 1) + |ParkedOn(t.iters, n)|
    && (forall m :: m in t.list && m != n ==> RefOk(t, m) && t.ref[m] > 0)
    && (forall i :: i in t.iters && t.iters[i].cur.Some? ==> t.iters[i].cur.value in t.list)
  }

  lemma RemoveIndex(xs: seq<Node>, k: nat, ys: seq<Node>)
    requires Distinct(xs) && k < |xs| && ys == xs[..k] + xs[k + 1..]
    ensures Distinct(ys) && xs[k] !in ys
    ensures forall j :: 0 <= j < |xs| && j != k ==> xs[j] in ys
    ensures forall y :: y in ys ==> y in xs
  {
    forall j | 0 <= j < |xs| && j != k ensures xs[j] in ys {
      assert ys[if j < k then j else j - 1] == xs[j];
    }
  }

  lemma WithoutElements(xs: seq<Node>, x: Node)
    requires Distinct(xs) && x in xs
    ensures Distinct(Without(xs, x)) && Elements(Without(xs, x)) == Elements(xs) - {x}
  {
    RemoveIndex(xs, Index(xs, x), Without(xs, x));
  }

  /** Dropping a reference restores the count; a node is released only when dead and with no iterator on it. */
  lemma DropKeeps(t: State, n: Node)
    requires OneExtra(t, n)
    ensures Counts(Drop(t, n))
    ensures n !in Drop(t, n).list <==> t.ref[n] == 1
    ensures t.ref[n] == 1 ==> n in t.dead && ParkedOn(t.iters, n) == {}
    ensures Drop(t, n).list == (if t.ref[n] == 1 then Without(t.list, n) else t.list)
    ensures Drop(t, n).iters == t.iters
  {
    if t.ref[n] == 1 { DropReleases(t, n); } else { DropStays(t, n); }
  }

  lemma DropReleases(t: State, n: Node)
    requires OneExtra(t, n) && t.ref[n] == 1
    ensures Counts(Drop(t, n)) && n !in Drop(t, n).list && n in t.dead && ParkedOn(t.iters, n) == {}
  {
    var s := Drop(t, n);
    WithoutElements(t.list, n);
    assert n !in Elements(s.list);
    forall i | i in s.iters && s.iters[i].cur.Some? ensures s.iters[i].cur.value in s.list {
      assert i !in ParkedOn(t.iters, n);
      assert s.iters[i].cur.value in Elements(s.list);
    }
    forall m | m in s.list ensures RefOk(s, m) && s.ref[m] > 0 {
      assert m in Elements(s.list);
      assert m in t.list && RefOk(t, m);
    }
  }

  lemma DropStays(t: State, n: Node)
    requires OneExtra(t, n) && t.ref[n] != 1
    ensures Counts(Drop(t, n)) && n in Drop(t, n).list
  {
    var s := Drop(t, n);
    forall m | m in s.list ensures RefOk(s, m) && s.ref[m] > 0 { assert m != n ==> RefOk(t, m); }
  }

  /** Moving one iterator changes only the counts of the node it leaves and the node it takes. */
  lemma MoveCounts(iters: map<IterId, Iter>, i: IterId, it: Iter, n: Node)
    ensures
      var before, after := ParkedOn(iters, n), ParkedOn(iters[i := it], n);
      && (it.cur == Some(n) && i !in before ==> |after| == |before| + 1)
      && (it.cur != Some(n) && i in before ==> |after| == |before| - 1)
      && (it.cur == Some(n) && i in before ==> |after| == |before|)
      && (it.cur != Some(n) && i !in before ==> |after| == |before|)
  {
    var before, after := ParkedOn(iters, n), ParkedOn(iters[i := it], n);
    if it.cur == Some(n) { assert after == before + {i}; } else { assert after == before - {i}; }
  }

  lemma RemoveCounts(iters: map<IterId, Iter>, i: IterId, n: Node)
    requires i in iters && iters[i].cur == None
    ensures ParkedOn(iters - {i}, n) == ParkedOn(iters, n)
  {}

  lemma UnparkKeeps(s: State, i: IterId)
    requires Counts(s) && i in s.iters
    ensures Counts(Unpark(s, i))
    ensures Unpark(s, i).iters == s.iters[i := Iter(None, None)]
    ensures Unpark(s, i).list == s.list
            || (&& s.iters[i].cur.Some? && s.iters[i].cur.value in s.dead
                && Unpark(s, i).list == Without(s.list, s.iters[i].cur.value))
    ensures forall m :: m in s.list && s.iters[i].cur != Some(m) ==>
              m in Unpark(s, i).list && (m in Unpark(s, i).dead <==> m in s.dead)
    ensures Unpark(s, i).dead <= s.dead
  {
    var t := s.(iters := s.iters[i := Iter(None, None)]);
    forall m | m in s.list ensures RefOk(s, m) { }
    match s.iters[i].cur
    case None =>
      forall m | m in s.list ensures RefOk(t, m) { MoveCounts(s.iters, i, Iter(None, None), m); }
    case Some(c) =>
      forall m | m in s.list && m != c ensures RefOk(t, m) { MoveCounts(s.iters, i, Iter(None, None), m); }
      MoveCounts(s.iters, i, Iter(None, None), c);
      assert i in ParkedOn(s.iters, c);
      assert OneExtra(t, c);
      DropKeeps(t, c);
      if t.ref[c] == 1 { WithoutElements(s.list, c); }
  }

  lemma ParkKeeps(s: State, i: IterId, n: Node, pass: Option<Pass>)
    requires Counts(s) && n in s.list && (i in s.iters ==> s.iters[i].cur == None)
    ensures Counts(Park(s, i, n, pass))
    ensures Park(s, i, n, pass).list == s.list && Park(s, i, n, pass).dead == s.dead
    ensures Park(s, i, n, pass).iters == s.iters[i := Iter(Some(n), pass)]
  {
    var t := Park(s, i, n, pass);
    forall m | m in t.list ensures RefOk(t, m) && t.ref[m] > 0 {
      assert RefOk(s, m);
      MoveCounts(s.iters, i, Iter(Some(n), pass), m);
    }
  }

  lemma AddKeeps(s: State, n: Node, k: nat)
    requires Counts(s) && n !in s.list && k <= |s.list|
    ensures Counts(Add(s, n, k))
  {
    var t := Add(s, n, k);
    assert Elements(t.list) == Elements(s.list) + {n} by {
      forall x | x in s.list ensures x in t.list {
        var j := Index(s.list, x);
        assert t.list[if j < k then j else j + 1] == x;
      }
      assert t.list[k] == n;
    }
    assert ParkedOn(s.iters, n) == {};
    forall m | m in t.list ensures RefOk(t, m) && t.ref[m] > 0 {
      if m != n { assert m in s.list && RefOk(s, m); }
    }
  }

  // ---- coverage of a pass under list changes

  lemma CoveredInsert(list: seq<Node>, k: nat, n: Node, cur: Option<Node>, p: Pass)
    requires k <= |list| && n !in p.stayed && n !in list && cur != Some(n) && Covered(list, cur, p)
    ensures Covered(InsertAt(list, k, n), cur, p)
  {
    var after := InsertAt(list, k, n);
    match cur
    case None =>
      FilterSkip(list[..k], n, list[k..], p.stayed);
      assert list[..k] + list[k..] == list;
    case Some(c) =>
      forall m | 0 <= m < |after| && after[m] == c
        ensures Filter(p.returned, p.stayed) == Filter(after[..m + 1], p.stayed)
      {
        if m < k {
          assert after[..m + 1] == list[..m + 1];
        } else {
          assert list[m - 1] == c;
          assert after[..m + 1] == list[..k] + [n] + list[k..m];
          FilterSkip(list[..k], n, list[k..m], p.stayed);
          assert list[..k] + list[k..m] == list[..m];
        }
      }
  }

  lemma PrefixRemove(list: seq<Node>, k: nat, m: nat, keep: set<Node>)
    requires k <= m < |list| && list[k] !in keep
    ensures Filter(list[..k] + list[k + 1..m + 1], keep) == Filter(list[..m + 1], keep)
  {
    assert list[..m + 1] == list[..k] + [list[k]] + list[k + 1..m + 1];
    FilterSkip(list[..k], list[k], list[k + 1..m + 1], keep);
  }

  lemma AllRemove(list: seq<Node>, k: nat, keep: set<Node>)
    requires k < |list| && list[k] !in keep
    ensures Filter(list[..k] + list[k + 1..], keep) == Filter(list, keep)
  {
    assert list == list[..k] + [list[k]] + list[k + 1..];
    FilterSkip(list[..k], list[k], list[k + 1..], keep);
  }

  lemma CoveredRemoveAt(list: seq<Node>, k: nat, after: seq<Node>, c: Node, p: Pass)
    requires k < |list| && list[k] !in p.stayed && c != list[k] && Covered(list, Some(c), p)
    requires after == list[..k] + list[k + 1..]
    ensures Covered(after, Some(c), p)
  {
    forall m | 0 <= m < |after| && after[m] == c
      ensures Filter(p.returned, p.stayed) == Filter(after[..m + 1], p.stayed)
    {
      if m < k {
        assert after[..m + 1] == list[..m + 1];
      } else {
        assert list[m + 1] == c;
        PrefixRemove(list, k, m + 1, p.stayed);
        assert after[..m + 1] == list[..k] + list[k + 1..m + 2];
      }
    }
  }

  lemma CoveredRemove(list: seq<Node>, n: Node, cur: Option<Node>, p: Pass)
    requires n in list && n !in p.stayed && cur != Some(n) && Covered(list, cur, p)
    ensures Covered(Without(list, n), cur, p)
  {
    var k := Index(list, n);
    match cur
    case None => AllRemove(list, k, p.stayed);
    case Some(c) => CoveredRemoveAt(list, k, Without(list, n), c, p);
  }

  lemma CoveredForget(list: seq<Node>, cur: Option<Node>, p: Pass, n: Node)
    requires Covered(list, cur, p)
    ensures Covered(list, cur, Pass(p.returned, p.stayed - {n}))
  {
    var fewer := p.stayed - {n};
    FilterFilter(p.returned, p.stayed, fewer);
    match cur
    case None => FilterFilter(list, p.stayed, fewer);
    case Some(c) =>
      forall k | 0 <= k < |list| && list[k] == c ensures Filter(p.returned, fewer) == Filter(list[..k + 1], fewer) {
        FilterFilter(list[..k + 1], p.stayed, fewer);
      }
  }

  /** Before the scan: everything that stayed, up to where the scan starts, has been returned. */
  lemma PassReached(s: State, i: IterId)
    requires Inv(s) && i in s.iters && (s.iters[i].cur.Some? ==> s.iters[i].cur.value in s.list)
    requires PassSoFar(s, i).Some?
    ensures
      var p := PassSoFar(s, i).value;
      p.stayed <= Alive(s) && Filter(p.returned, p.stayed) == Filter(s.list[..ScanFrom(s, i)], p.stayed)
  {
    if s.iters[i].cur.Some? { assert PassOk(s, s.iters[i]); }
  }

  lemma SkipDead(list: seq<Node>, k: nat, j: nat, keep: set<Node>)
    requires k <= j <= |list| && forall m :: k <= m < j ==> list[m] !in keep
    ensures Filter(list[..j], keep) == Filter(list[..k], keep)
  {
    FilterNone(list[k..j], keep);
    FilterConcat(list[..k], list[k..j], keep);
    assert list[..k] + list[k..j] == list[..j];
  }

  lemma FilterSnoc(xs: seq<Node>, ys: seq<Node>, x: Node, keep: set<Node>)
    requires Filter(xs, keep) == Filter(ys, keep)
    ensures Filter(xs + [x], keep) == Filter(ys + [x], keep)
  {
    FilterConcat(xs, [x], keep);
    FilterConcat(ys, [x], keep);
  }

  lemma CoveredStep(list: seq<Node>, j: nat, p: Pass)
    requires Distinct(list) && j < |list| && Filter(p.returned, p.stayed) == Filter(list[..j], p.stayed)
    ensures Covered(list, Some(list[j]), Pass(p.returned + [list[j]], p.stayed))
  {
    forall k | 0 <= k < |list| && list[k] == list[j]
      ensures Filter(p.returned + [list[j]], p.stayed) == Filter(list[..k + 1], p.stayed)
    {
      assert k == j && list[..j + 1] == list[..j] + [list[j]];
      FilterSnoc(p.returned, list[..j], list[j], p.stayed);
    }
  }

  /** The scan skips only dead nodes, so the pass advances by at most the node it stops on. */
  lemma CoveredAdvance(s: State, i: IterId)
    requires Inv(s) && i in s.iters && (s.iters[i].cur.Some? ==> s.iters[i].cur.value in s.list)
    requires PassSoFar(s, i).Some?
    ensures
      var p, j := PassSoFar(s, i).value, NextAlive(s, ScanFrom(s, i));
      && p.stayed <= Alive(s)
      && (j < |s.list| ==> Covered(s.list, Some(s.list[j]), Pass(p.returned + [s.list[j]], p.stayed)))
      && (j == |s.list| ==> Covered(s.list, None, p))
  {
    var p, j := PassSoFar(s, i).value, NextAlive(s, ScanFrom(s, i));
    PassReached(s, i);
    SkipDead(s.list, ScanFrom(s, i), j, p.stayed);
    if j < |s.list| { CoveredStep(s.list, j, p); } else { assert s.list[..j] == s.list; }
  }

  // ---- every step keeps the invariant

  /** Passes survive a change of the list that inserts a new node or removes a dead one. */
  lemma PassKept(s: State, s': State, it: Iter)
    requires Counts(s) && PassOk(s, it) && (it.cur.Some? ==> it.cur.value in s.list && it.cur.value in s'.list)
    requires forall m :: m in Alive(s) ==> m in Alive(s')
    requires
      || s'.list == s.list
      || (exists n :: n in s.list && n in s.dead && n !in s'.list && s'.list == Without(s.list, n))
      || (exists n, k :: n !in s.list && 0 <= k <= |s.list| && s'.list == InsertAt(s.list, k, n))
    ensures PassOk(s', it)
  {
    if it.pass.Some? {
      var p := it.pass.value;
      if s'.list == s.list {
      } else if n, k :| n !in s.list && 0 <= k <= |s.list| && s'.list == InsertAt(s.list, k, n) {
        CoveredInsert(s.list, k, n, it.cur, p);
      } else {
        var n :| n in s.list && n in s.dead && n !in s'.list && s'.list == Without(s.list, n);
        CoveredRemove(s.list, n, it.cur, p);
      }
    }
  }

  ghost predicate WaitersOk(s: State) {
    forall w :: w in s.waiters ==> WaiterOk(s, s.waiters[w])
  }

  /** A waiter is woken exactly when its node leaves the list; otherwise it is as before. */
  ghost predicate WakesExactly(s: State, s': State, w: WaiterId)
    requires w in s.waiters && w in s'.waiters
  {
    var a, b := s.waiters[w], s'.waiters[w];
    b.node == a.node && (b.woken <==> a.woken || (a.node in s.list && a.node !in s'.list))
  }

  /** Releasing a node wakes exactly its waiters; everyone else's node is still linked. */
  lemma DropWaiters(t: State, n: Node)
    requires OneExtra(t, n)
    ensures WaitersOk(t) ==> WaitersOk(Drop(t, n))
    ensures Drop(t, n).waiters.Keys == t.waiters.Keys
    ensures forall w :: w in t.waiters ==> WakesExactly(t, Drop(t, n), w)
  {
    var s := Drop(t, n);
    if t.ref[n] == 1 {
      WithoutElements(t.list, n);
      forall x ensures x in s.list <==> x in t.list && x != n {
        assert x in Elements(s.list) <==> x in Elements(t.list) - {n};
      }
    }
    if WaitersOk(t) {
      forall w | w in s.waiters ensures WaiterOk(s, s.waiters[w]) { assert WaiterOk(t, t.waiters[w]); }
    }
  }

  lemma AddStep(s: State, n: Node, k: nat)
    requires Inv(s) && n !in s.list && k <= |s.list|
    ensures Inv(Add(s, n, k))
  {
    var s' := Add(s, n, k);
    AddKeeps(s, n, k);
    forall x | x in s.list ensures x in s'.list {
      var j := Index(s.list, x);
      assert s'.list[if j < k then j else j + 1] == x;
    }
    forall i | i in s'.iters ensures PassOk(s', s'.iters[i]) { PassKept(s, s', s.iters[i]); }
    forall w | w in s'.waiters ensures WaiterOk(s', s'.waiters[w]) { assert WaiterOk(s, s.waiters[w]); }
  }

  function Killed(s: State, n: Node): State {
    s.(dead := s.dead + {n}, iters := map i | i in s.iters :: Forget(s.iters[i], n))
  }

  lemma KilledExtra(s: State, n: Node)
    requires Counts(s) && n in s.list && n !in s.dead
    ensures OneExtra(Killed(s, n), n) && Kill(s, n) == Drop(Killed(s, n), n)
  {
    var t := Killed(s, n);
    forall m | m in s.list ensures ParkedOn(t.iters, m) == ParkedOn(s.iters, m) && RefOk(s, m) { }
  }

  lemma KillPass(s: State, n: Node, i: IterId)
    requires Counts(s) && i in s.iters && PassOk(s, s.iters[i]) && n in s.list && n !in s.dead
    ensures i in Kill(s, n).iters && PassOk(Kill(s, n), Kill(s, n).iters[i])
  {
    var it, t, s' := s.iters[i], Killed(s, n), Kill(s, n);
    KilledExtra(s, n);
    DropKeeps(t, n);
    if it.pass.Some? {
      var p := Pass(it.pass.value.returned, it.pass.value.stayed - {n});
      CoveredForget(s.list, it.cur, it.pass.value, n);
      if t.ref[n] == 1 {
        WithoutElements(s.list, n);
        assert i !in ParkedOn(t.iters, n);
        CoveredRemove(s.list, n, it.cur, p);
      }
    }
  }

  lemma KillStep(s: State, n: Node)
    requires Counts(s) && (forall i :: i in s.iters ==> PassOk(s, s.iters[i])) && n in s.list && n !in s.dead
    requires forall w :: w in s.waiters ==> WaiterOk(s, s.waiters[w]) || s.waiters[w].node == n
    ensures Inv(Kill(s, n))
  {
    var t, s' := Killed(s, n), Kill(s, n);
    KilledExtra(s, n);
    DropKeeps(t, n);
    forall i | i in s'.iters ensures PassOk(s', s'.iters[i]) { KillPass(s, n, i); }
    forall w | w in t.waiters ensures WaiterOk(t, t.waiters[w]) {
      assert WaiterOk(s, s.waiters[w]) || s.waiters[w].node == n;
    }
    DropWaiters(t, n);
  }

  /** After an iterator lets go, everyone else's pass and every waiter are as before. */
  lemma UnparkStep(s: State, i: IterId)
    requires Inv(s) && i in s.iters
    ensures Inv(Unpark(s, i))
  {
    UnparkKeeps(s, i);
    var s' := Unpark(s, i);
    var t := s.(iters := s.iters[i := Iter(None, None)]);
    forall j | j in s'.iters ensures PassOk(s', s'.iters[j]) {
      if j != i { PassKept(s, s', s.iters[j]); }
    }
    if s.iters[i].cur.Some? { UnparkWaiters(s, i, s.iters[i].cur.value); }
    else { forall w | w in s'.waiters ensures WaiterOk(s', s'.waiters[w]) { assert WaiterOk(s, s.waiters[w]); } }
  }

  /** An iterator that has let go leaves its reference behind for a moment. */
  lemma UnparkExtra(s: State, i: IterId, c: Node)
    requires Counts(s) && i in s.iters && s.iters[i].cur == Some(c)
    ensures OneExtra(s.(iters := s.iters[i := Iter(None, None)]), c)
  {
    var t := s.(iters := s.iters[i := Iter(None, None)]);
    forall m | m in s.list ensures RefOk(s, m) { }
    forall m | m in s.list && m != c ensures RefOk(t, m) { MoveCounts(s.iters, i, Iter(None, None), m); }
    MoveCounts(s.iters, i, Iter(None, None), c);
    assert i in ParkedOn(s.iters, c);
  }

  lemma UnparkWaiters(s: State, i: IterId, c: Node)
    requires Inv(s) && i in s.iters && s.iters[i].cur == Some(c)
    ensures WaitersOk(Unpark(s, i))
  {
    var t := s.(iters := s.iters[i := Iter(None, None)]);
    UnparkExtra(s, i, c);
    forall w | w in t.waiters ensures WaiterOk(t, t.waiters[w]) { assert WaiterOk(s, s.waiters[w]); }
    DropWaiters(t, c);
  }

  /** The advanced pass still covers the list from which the old current node may have been released. */
  lemma AdvanceSurvives(s: State, i: IterId, cur: Option<Node>, p: Pass)
    requires Inv(s) && i in s.iters && p.stayed <= Alive(s) && Covered(s.list, cur, p)
    requires cur.Some? ==> cur.value in s.list && cur != s.iters[i].cur
    ensures p.stayed <= Alive(Unpark(s, i)) && Covered(Unpark(s, i).list, cur, p)
  {
    UnparkKeeps(s, i);
    if Unpark(s, i).list != s.list {
      var c := s.iters[i].cur.value;
      CoveredRemove(s.list, c, cur, p);
    }
  }

  lemma NextKeeps(s: State, i: IterId)
    requires Inv(s) && Enabled(s, IterNext(i))
    ensures Inv(NextStep(s, i))
  {
    var j, p, u := NextAlive(s, ScanFrom(s, i)), PassSoFar(s, i), Unpark(s, i);
    UnparkStep(s, i);
    UnparkKeeps(s, i);
    if p.Some? { CoveredAdvance(s, i); }
    var s' := NextStep(s, i);
    if j < |s.list| {
      var n := s.list[j];
      assert s.iters[i].cur != Some(n);
      ParkKeeps(u, i, n, Extend(p, n));
      if p.Some? { AdvanceSurvives(s, i, Some(n), Extend(p, n).value); }
    } else {
      ParkNowhere(u, i, p);
      if p.Some? { AdvanceSurvives(s, i, None, p.value); }
    }
    forall k | k in s'.iters ensures PassOk(s', s'.iters[k]) { assert k != i ==> PassOk(u, u.iters[k]); }
    forall w | w in s'.waiters ensures WaiterOk(s', s'.waiters[w]) { assert WaiterOk(u, u.waiters[w]); }
  }

  lemma ParkNowhere(u: State, i: IterId, p: Option<Pass>)
    requires Counts(u) && (i in u.iters ==> u.iters[i].cur == None)
    ensures Counts(u.(iters := u.iters[i := Iter(None, p)]))
  {
    var t := u.(iters := u.iters[i := Iter(None, p)]);
    forall m | m in t.list ensures RefOk(t, m) && t.ref[m] > 0 {
      assert RefOk(u, m);
      MoveCounts(u.iters, i, Iter(None, p), m);
    }
  }

  lemma InitKeeps(s: State, i: IterId, start: Option<Node>)
    requires Inv(s) && i !in s.iters
    ensures Inv(Apply(s, IterInit(i, start)))
  {
    var s' := Apply(s, IterInit(i, start));
    if start.Some? && start.value in s.ref && s.ref[start.value] > 0 {
      ParkKeeps(s, i, start.value, None);
    } else {
      ParkNowhere(s, i, None);
    }
    forall k | k in s'.iters ensures PassOk(s', s'.iters[k]) { assert k != i ==> PassOk(s, s.iters[k]); }
    forall w | w in s'.waiters ensures WaiterOk(s', s'.waiters[w]) { assert WaiterOk(s, s.waiters[w]); }
  }

  lemma ExitKeeps(s: State, i: IterId)
    requires Inv(s) && i in s.iters
    ensures Inv(Apply(s, IterExit(i)))
  {
    UnparkStep(s, i);
    UnparkKeeps(s, i);
    var u := Unpark(s, i);
    var s' := Apply(s, IterExit(i));
    forall m | m in s'.list ensures RefOk(s', m) && s'.ref[m] > 0 {
      assert RefOk(u, m);
      RemoveCounts(u.iters, i, m);
    }
    forall k | k in s'.iters ensures PassOk(s', s'.iters[k]) { assert PassOk(u, u.iters[k]); }
    forall w | w in s'.waiters ensures WaiterOk(s', s'.waiters[w]) { assert WaiterOk(u, u.waiters[w]); }
  }

  lemma StepKeeps(s: State, step: Step)
    requires Inv(s) && Enabled(s, step)
    ensures Inv(Apply(s, step))
  {
    match step
    case AddHead(n) => AddStep(s, n, 0);
    case AddTail(n) => AddStep(s, n, |s.list|);
    case AddBehind(n, pos) => AddStep(s, n, Index(s.list, pos) + 1);
    case AddBefore(n, pos) => AddStep(s, n, Index(s.list, pos));
    case Del(n) => KillStep(s, n);
    case RemoveRegister(w, n) => WaiterStep(s, Apply(s, step), w);
    case RemoveDel(w) => RemoveDelKeeps(s, w);
    case RemoveReturn(w) => WaiterStep(s, Apply(s, step), w);
    case IterInit(i, start) => InitKeeps(s, i, start);
    case IterNext(i) => NextKeeps(s, i);
    case IterExit(i) => ExitKeeps(s, i);
  }

  lemma WaiterStep(s: State, s': State, w: WaiterId)
    requires Inv(s) && s' == s.(waiters := s'.waiters)
    requires forall v :: v in s'.waiters && v != w ==> v in s.waiters && s'.waiters[v] == s.waiters[v]
    requires w in s'.waiters ==> !s'.waiters[w].deleted
    ensures Inv(s')
  {
    forall i | i in s'.iters ensures PassOk(s', s'.iters[i]) { assert PassOk(s, s.iters[i]); }
    forall m | m in s'.list ensures RefOk(s', m) && s'.ref[m] > 0 { assert RefOk(s, m); }
    forall v | v in s'.waiters ensures WaiterOk(s', s'.waiters[v]) { assert v != w ==> WaiterOk(s, s.waiters[v]); }
  }

  lemma RemoveDelKeeps(s: State, w: WaiterId)
    requires Inv(s) && Enabled(s, RemoveDel(w))
    ensures Inv(Apply(s, RemoveDel(w)))
  {
    var t := s.(waiters := s.waiters[w := s.waiters[w].(deleted := true)]);
    forall i | i in t.iters ensures PassOk(t, t.iters[i]) { assert PassOk(s, s.iters[i]); }
    forall m | m in t.list ensures RefOk(t, m) && t.ref[m] > 0 { assert RefOk(s, m); }
    forall v | v in t.waiters ensures WaiterOk(t, t.waiters[v]) || t.waiters[v].node == s.waiters[w].node {
      assert WaiterOk(s, s.waiters[v]);
    }
    KillStep(t, s.waiters[w].node);
  }

  // ---- klist_remove

  lemma KillWakes(s: State, n: Node, w: WaiterId)
    requires Counts(s) && n in s.list && n !in s.dead && w in s.waiters
    ensures w in Kill(s, n).waiters && WakesExactly(s, Kill(s, n), w)
  {
    KilledExtra(s, n);
    DropWaiters(Killed(s, n), n);
  }

  lemma UnparkWakes(s: State, i: IterId, w: WaiterId)
    requires Inv(s) && i in s.iters && w in s.waiters
    ensures w in Unpark(s, i).waiters && WakesExactly(s, Unpark(s, i), w)
  {
    if s.iters[i].cur.Some? {
      UnparkExtra(s, i, s.iters[i].cur.value);
      DropWaiters(s.(iters := s.iters[i := Iter(None, None)]), s.iters[i].cur.value);
    }
  }

  /** In every step, the waiters whose node leaves the list are woken, and no others. */
  lemma StepWakes(s: State, step: Step, w: WaiterId)
    requires Inv(s) && Enabled(s, step) && w in s.waiters && w in Apply(s, step).waiters
    ensures WakesExactly(s, Apply(s, step), w)
  {
    match step
    case AddHead(n) => InsertContains(s.list, 0, n);
    case AddTail(n) => InsertContains(s.list, |s.list|, n);
    case AddBehind(n, pos) => InsertContains(s.list, Index(s.list, pos) + 1, n);
    case AddBefore(n, pos) => InsertContains(s.list, Index(s.list, pos), n);
    case Del(n) => KillWakes(s, n, w);
    case RemoveRegister(_, _) =>
    case RemoveDel(v) =>
      var t := s.(waiters := s.waiters[v := s.waiters[v].(deleted := true)]);
      forall m | m in t.list ensures RefOk(t, m) && t.ref[m] > 0 { assert RefOk(s, m); }
      KillWakes(t, s.waiters[v].node, w);
    case RemoveReturn(_) =>
    case IterInit(_, _) =>
    case IterNext(i) => UnparkWakes(s, i, w);
    case IterExit(i) => UnparkWakes(s, i, w);
  }

  lemma InsertContains(xs: seq<Node>, k: nat, n: Node)
    requires k <= |xs|
    ensures forall x :: x in xs ==> x in InsertAt(xs, k, n)
  {
    forall x | x in xs ensures x in InsertAt(xs, k, n) {
      var j := Index(xs, x);
      assert InsertAt(xs, k, n)[if j < k then j else j + 1] == x;
    }
  }

  // ---- runs

  ghost predicate Init(s: State) {
    s.list == [] && s.ref == map[] && s.dead == {} && s.iters == map[] && s.waiters == map[]
  }

  predicate IsRun(s: State, steps: seq<Step>)
    decreases |steps|
  {
    steps == [] || (Enabled(s, steps[0]) && IsRun(Apply(s, steps[0]), steps[1..]))
  }

  function Final(s: State, steps: seq<Step>): State
    requires IsRun(s, steps)
    decreases |steps|
  {
    if steps == [] then s else Final(Apply(s, steps[0]), steps[1..])
  }

  lemma {:induction false} RunKeeps(s: State, steps: seq<Step>)
    requires Inv(s) && IsRun(s, steps)
    ensures Inv(Final(s, steps))
    decreases |steps|
  {
    if steps != [] {
      StepKeeps(s, steps[0]);
      RunKeeps(Apply(s, steps[0]), steps[1..]);
    }
  }

  lemma {:induction false} DistinctCount(xs: seq<Node>, x: Node)
    requires Distinct(xs) && x in xs
    ensures multiset(xs)[x] == 1
  {
    var p, y := xs[..|xs| - 1], xs[|xs| - 1];
    assert xs == p + [y];
    if x == y {
      assert x !in p;
    } else {
      DistinctCount(p, x);
    }
  }

  /**
   * In every interleaving: a node is linked exactly while it holds references, its count is one if not killed plus
   * the iterators parked on it, and a pass that has reached NULL returned every node that stayed linked and unkilled
   * since the pass began exactly once, in list order. A klist_remove past its delete and not woken yet has its node
   * still linked, and dead.
   */
  lemma EveryInterleaving(s0: State, steps: seq<Step>)
    requires Init(s0) && IsRun(s0, steps)
    ensures
      var s := Final(s0, steps);
      && (forall n :: n in s.list <==> n in s.ref)
      && (forall n :: n in s.list ==> s.ref[n] > 0 && RefOk(s, n))
      && (forall i :: i in s.iters && s.iters[i].cur.None? && s.iters[i].pass.Some? ==>
            var p := s.iters[i].pass.value;
            && Filter(p.returned, p.stayed) == Filter(s.list, p.stayed)
            && (forall n :: n in p.stayed ==> n in s.list && multiset(p.returned)[n] == 1))
      && (forall w :: w in s.waiters && s.waiters[w].deleted && !s.waiters[w].woken ==>
            s.waiters[w].node in s.list && s.waiters[w].node in s.dead)
  {
    RunKeeps(s0, steps);
    var s := Final(s0, steps);
    forall w | w in s.waiters ensures WaiterOk(s, s.waiters[w]) {}
    forall i | i in s.iters && s.iters[i].cur.None? && s.iters[i].pass.Some?
      ensures
        var p := s.iters[i].pass.value;
        && Filter(p.returned, p.stayed) == Filter(s.list, p.stayed)
        && (forall n :: n in p.stayed ==> n in s.list && multiset(p.returned)[n] == 1)
    {
      var p := s.iters[i].pass.value;
      assert PassOk(s, s.iters[i]);
      forall n | n in p.stayed ensures n in s.list && multiset(p.returned)[n] == 1 {
        FilterCount(p.returned, p.stayed, n);
        FilterCount(s.list, p.stayed, n);
        DistinctCount(s.list, n);
      }
    }
  }
}
