/** Stable sorting of node sequences: the insertion-sort reference and the merge that refines it. */
module StableSort {
  import opened Sequences

  type Node = nat
  type Cmp = (Node, Node) -> int

  /** cmp(a, b) <= 0 is a total preorder. */
  ghost predicate Preorder(cmp: Cmp) {
    && (forall a, b :: cmp(a, b) <= 0 || cmp(b, a) <= 0)
    && (forall a, b, c :: cmp(a, b) <= 0 && cmp(b, c) <= 0 ==> cmp(a, c) <= 0)
  }

  /** x goes behind everything it does not precede. */
  function Insert(cmp: Cmp, s: seq<Node>, x: Node): (r: seq<Node>) {
    if s == [] then [x] else if cmp(s[0], x) <= 0 then [s[0]] + Insert(cmp, s[1..], x) else [x] + s
  }

  /** Insertion sort, oldest element first. */
  function Sort(cmp: Cmp, s: seq<Node>): (r: seq<Node>) {
    if s == [] then [] else Insert(cmp, Sort(cmp, s[..|s| - 1]), s[|s| - 1])
  }

  /** Ties take from a. */
  function Merge(cmp: Cmp, a: seq<Node>, b: seq<Node>): (r: seq<Node>)
    decreases |a| + |b|
  {
    if a == [] then b
    else if b == [] then a
    else if cmp(a[0], b[0]) <= 0 then [a[0]] + Merge(cmp, a[1..], b)
    else [b[0]] + Merge(cmp, a, b[1..])
  }

  // ---- merging sorted halves is sorting

  lemma {:induction false} MergeSingle(cmp: Cmp, a: seq<Node>, x: Node)
    ensures Merge(cmp, a, [x]) == Insert(cmp, a, x)
    decreases |a|
  {
    if a != [] {
      MergeSingle(cmp, a[1..], x);
      assert [x][1..] == [];
    }
  }

  /** Inserting into the second list commutes with the merge. */
  lemma {:induction false} MergeInsert(cmp: Cmp, a: seq<Node>, b: seq<Node>, x: Node)
    requires Preorder(cmp)
    ensures Merge(cmp, a, Insert(cmp, b, x)) == Insert(cmp, Merge(cmp, a, b), x)
    decreases |a| + |b|
  {
    if a == [] {
    } else if b == [] {
      MergeSingle(cmp, a, x);
    } else if cmp(a[0], b[0]) <= 0 {
      MergeInsert(cmp, a[1..], b, x);
      MergeInsertA(cmp, a, b, x);
    } else {
      MergeInsert(cmp, a, b[1..], x);
      MergeInsertB(cmp, a, b, x);
    }
  }

  lemma MergeInsertA(cmp: Cmp, a: seq<Node>, b: seq<Node>, x: Node)
    requires Preorder(cmp) && a != [] && b != [] && cmp(a[0], b[0]) <= 0
    requires Merge(cmp, a[1..], Insert(cmp, b, x)) == Insert(cmp, Merge(cmp, a[1..], b), x)
    ensures Merge(cmp, a, Insert(cmp, b, x)) == Insert(cmp, Merge(cmp, a, b), x)
  {
    var m := Merge(cmp, a, b);
    assert m[0] == a[0] && m[1..] == Merge(cmp, a[1..], b);
    var b' := Insert(cmp, b, x);
    if cmp(a[0], x) > 0 {
      assert b' == [x] + b && b'[1..] == b;
    }
  }

  lemma MergeInsertB(cmp: Cmp, a: seq<Node>, b: seq<Node>, x: Node)
    requires Preorder(cmp) && a != [] && b != [] && cmp(a[0], b[0]) > 0
    requires Merge(cmp, a, Insert(cmp, b[1..], x)) == Insert(cmp, Merge(cmp, a, b[1..]), x)
    ensures Merge(cmp, a, Insert(cmp, b, x)) == Insert(cmp, Merge(cmp, a, b), x)
  {
    var m := Merge(cmp, a, b);
    assert m[0] == b[0] && m[1..] == Merge(cmp, a, b[1..]);
    var b' := Insert(cmp, b, x);
    if cmp(b[0], x) <= 0 {
      assert b'[0] == b[0] && b'[1..] == Insert(cmp, b[1..], x);
    } else {
      assert b' == [x] + b && b'[1..] == b;
    }
  }

  /** Merging the sorted forms of two consecutive stretches sorts the whole, stably. */
  lemma {:induction false} MergeSorts(cmp: Cmp, a: seq<Node>, b: seq<Node>)
    requires Preorder(cmp)
    ensures Merge(cmp, Sort(cmp, a), Sort(cmp, b)) == Sort(cmp, a + b)
    decreases |b|
  {
    if b == [] {
      assert a + b == a;
    } else {
      var b0, x := b[..|b| - 1], b[|b| - 1];
      MergeSorts(cmp, a, b0);
      MergeInsert(cmp, Sort(cmp, a), Sort(cmp, b0), x);
      assert (a + b)[..|a + b| - 1] == a + b0 && (a + b)[|a + b| - 1] == x;
    }
  }

  lemma {:induction false} MergeMultiset(cmp: Cmp, a: seq<Node>, b: seq<Node>)
    ensures multiset(Merge(cmp, a, b)) == multiset(a) + multiset(b)
    decreases |a| + |b|
  {
    if a != [] && b != [] {
      if cmp(a[0], b[0]) <= 0 {
        MergeMultiset(cmp, a[1..], b);
        assert a == [a[0]] + a[1..];
      } else {
        MergeMultiset(cmp, a, b[1..]);
        assert b == [b[0]] + b[1..];
      }
    }
  }

  // ---- what sorted means

  ghost predicate Sorted(cmp: Cmp, s: seq<Node>) {
    forall i, j :: 0 <= i < j < |s| ==> cmp(s[i], s[j]) <= 0
  }

  /** Where insertion puts x, and what stays around it. */
  lemma {:induction false} InsertAt(cmp: Cmp, s: seq<Node>, x: Node) returns (k: nat)
    ensures k <= |s| && Insert(cmp, s, x) == s[..k] + [x] + s[k..]
    ensures (forall i :: 0 <= i < k ==> cmp(s[i], x) <= 0) && (k < |s| ==> cmp(s[k], x) > 0)
    decreases |s|
  {
    if s == [] || cmp(s[0], x) > 0 {
      k := 0;
    } else {
      var m := InsertAt(cmp, s[1..], x);
      k := m + 1;
      assert [s[0]] + (s[1..][..m] + [x] + s[1..][m..]) == s[..k] + [x] + s[k..];
      forall i | 0 <= i < k ensures cmp(s[i], x) <= 0 { if i > 0 { assert s[i] == s[1..][i - 1]; } }
    }
  }

  lemma BeforeSlot(s: seq<Node>, k: nat, n: Node, x: Node, y: Node)
    requires k <= |s| && Before(s, x, y)
    ensures Before(s[..k] + [n] + s[k..], x, y)
  {
    var r := s[..k] + [n] + s[k..];
    var i, j :| 0 <= i < j < |s| && s[i] == x && s[j] == y;
    var i', j' := if i < k then i else i + 1, if j < k then j else j + 1;
    assert r[i'] == x && r[j'] == y;
  }

  lemma Behind(cmp: Cmp, t: seq<Node>, x: Node, k: nat, q: nat)
    requires Preorder(cmp) && Sorted(cmp, t) && k <= q < |t| && cmp(t[k], x) > 0
    ensures cmp(t[q], x) > 0 && cmp(x, t[q]) <= 0
  {
    assert k == q || cmp(t[k], t[q]) <= 0;
    assert cmp(x, t[k]) <= 0;
  }

  lemma InsertSorted(cmp: Cmp, s: seq<Node>, x: Node)
    requires Preorder(cmp) && Sorted(cmp, s)
    ensures Sorted(cmp, Insert(cmp, s, x)) && multiset(Insert(cmp, s, x)) == multiset(s) + multiset{x}
  {
    var k := InsertAt(cmp, s, x);
    forall q | k <= q < |s| ensures cmp(x, s[q]) <= 0 { Behind(cmp, s, x, k, q); }
    SlotSorted(cmp, s, k, x, Insert(cmp, s, x));
  }

  lemma SlotSorted(cmp: Cmp, s: seq<Node>, k: nat, x: Node, r: seq<Node>)
    requires Sorted(cmp, s) && k <= |s| && r == s[..k] + [x] + s[k..]
    requires (forall i :: 0 <= i < k ==> cmp(s[i], x) <= 0) && (forall q :: k <= q < |s| ==> cmp(x, s[q]) <= 0)
    ensures Sorted(cmp, r) && multiset(r) == multiset(s) + multiset{x}
  {
    forall i | 0 <= i < |r| ensures r[i] == if i < k then s[i] else if i == k then x else s[i - 1] {}
    assert s == s[..k] + s[k..];
  }

  lemma {:induction false} SortSorts(cmp: Cmp, s: seq<Node>)
    requires Preorder(cmp)
    ensures Sorted(cmp, Sort(cmp, s)) && multiset(Sort(cmp, s)) == multiset(s)
    decreases |s|
  {
    if s != [] {
      var p := s[..|s| - 1];
      SortSorts(cmp, p);
      InsertSorted(cmp, Sort(cmp, p), s[|s| - 1]);
      assert s == p + [s[|s| - 1]];
    }
  }

  /** A newcomer lands behind an equivalent node that is already there. */
  lemma InsertBehind(cmp: Cmp, t: seq<Node>, x: Node, y: Node)
    requires Preorder(cmp) && Sorted(cmp, t) && x in t && cmp(x, y) <= 0
    ensures Before(Insert(cmp, t, y), x, y)
  {
    var k := InsertAt(cmp, t, y);
    var q :| 0 <= q < |t| && t[q] == x;
    forall p | k <= p < |t| ensures cmp(t[p], y) > 0 { Behind(cmp, t, y, k, p); }
    var r := Insert(cmp, t, y);
    assert r[q] == x && r[k] == y;
  }

  /** Equivalent nodes keep their order. */
  lemma {:induction false} SortStable(cmp: Cmp, s: seq<Node>, i: nat, j: nat)
    requires Preorder(cmp) && i < j < |s| && cmp(s[i], s[j]) <= 0
    ensures Before(Sort(cmp, s), s[i], s[j])
    decreases |s|
  {
    var p, last := s[..|s| - 1], s[|s| - 1];
    var t := Sort(cmp, p);
    SortSorts(cmp, p);
    if j < |p| {
      SortStable(cmp, p, i, j);
      var k := InsertAt(cmp, t, last);
      BeforeSlot(t, k, last, s[i], s[j]);
    } else {
      assert p[i] in multiset(p);
      assert s[i] in multiset(t);
      InsertBehind(cmp, t, s[i], last);
    }
  }
}

/** Chains of nodes in an array of links; -1 is NULL. */
module Chains {
  import opened StableSort

  function First(s: seq<Node>, end: int): int {
    if s == [] then end else s[0]
  }

  /** Following nx from the first node visits s and arrives at end. */
  ghost predicate Chain(nx: seq<int>, s: seq<Node>, end: int) {
    s == [] || (s[0] < |nx| && nx[s[0]] == First(s[1..], end) && Chain(nx, s[1..], end))
  }

  lemma {:induction false} ChainConcat(nx: seq<int>, a: seq<Node>, b: seq<Node>, end: int)
    requires Chain(nx, a, First(b, end)) && Chain(nx, b, end)
    ensures Chain(nx, a + b, end)
    decreases |a|
  {
    if a == [] {
      assert a + b == b;
    } else {
      ChainConcat(nx, a[1..], b, end);
      assert (a + b)[1..] == a[1..] + b;
    }
  }

  lemma ChainSnoc(nx: seq<int>, s: seq<Node>, x: Node, end: int)
    requires Chain(nx, s, x) && x < |nx| && nx[x] == end
    ensures Chain(nx, s + [x], end)
  {
    assert [x][1..] == [];
    ChainConcat(nx, s, [x], end);
  }

  /** Writes to other nodes leave a chain alone. */
  lemma {:induction false} ChainFrame(nx: seq<int>, nx': seq<int>, s: seq<Node>, end: int)
    requires Chain(nx, s, end) && |nx'| == |nx| && forall i :: 0 <= i < |nx| && nx'[i] != nx[i] ==> i !in s
    ensures Chain(nx', s, end)
    decreases |s|
  {
    if s != [] {
      ChainFrame(nx, nx', s[1..], end);
      assert s[0] in s;
    }
  }

  /** No node twice. */
  ghost predicate Once(m: multiset<Node>) {
    forall x :: m[x] <= 1
  }

  /** The nodes of s, each linked to the next; the link of the last one is open. */
  ghost predicate Path(nx: seq<int>, s: seq<Node>) {
    s == [] || (s[|s| - 1] < |nx| && Chain(nx, s[..|s| - 1], s[|s| - 1]))
  }

  /** tail->next = to */
  function Attach(nx: seq<int>, done: seq<Node>, to: int): seq<int>
    requires done == [] || done[|done| - 1] < |nx|
  {
    if done == [] then nx else nx[done[|done| - 1] := to]
  }

  /** A merge under way over the nodes of m: the finished path and the two remaining chains. */
  ghost predicate Merging(nx: seq<int>, m: multiset<Node>, done: seq<Node>, a: seq<Node>, b: seq<Node>) {
    && Once(m) && multiset(done) + multiset(a) + multiset(b) == m
    && Path(nx, done) && Chain(nx, a, -1) && Chain(nx, b, -1)
  }

  lemma TailApart(m: multiset<Node>, done: seq<Node>, a: seq<Node>, b: seq<Node>)
    requires Once(m) && multiset(done) + multiset(a) + multiset(b) == m && done != []
    ensures var t := done[|done| - 1]; t !in done[..|done| - 1] && t !in a && t !in b
  {
    var t, p := done[|done| - 1], done[..|done| - 1];
    assert done == p + [t];
    assert m[t] == multiset(p)[t] + 1 + multiset(a)[t] + multiset(b)[t];
  }

  /** Setting the tail's link closes the path and leaves the remaining chains alone. */
  lemma AttachTo(nx: seq<int>, m: multiset<Node>, done: seq<Node>, a: seq<Node>, b: seq<Node>, to: int)
    requires Merging(nx, m, done, a, b)
    ensures var nx' := Attach(nx, done, to); Chain(nx', done, to) && Chain(nx', a, -1) && Chain(nx', b, -1)
  {
    if done != [] {
      TailApart(m, done, a, b);
      var t, p, nx' := done[|done| - 1], done[..|done| - 1], Attach(nx, done, to);
      ChainFrame(nx, nx', p, t);
      ChainFrame(nx, nx', a, -1);
      ChainFrame(nx, nx', b, -1);
      ChainSnoc(nx', p, t, to);
      assert done == p + [t];
    }
  }

  /** Moving the head of one chain behind the tail. */
  lemma TakeHead(nx: seq<int>, m: multiset<Node>, done: seq<Node>, a: seq<Node>, b: seq<Node>)
    requires Merging(nx, m, done, a, b) && a != []
    ensures var nx' := Attach(nx, done, a[0]);
      Merging(nx', m, done + [a[0]], a[1..], b) && a[0] < |nx| && nx'[a[0]] == First(a[1..], -1)
  {
    AttachTo(nx, m, done, a, b, a[0]);
    assert a == [a[0]] + a[1..];
    var done' := done + [a[0]];
    assert done'[..|done' | - 1] == done;
  }

  lemma MergingSwap(nx: seq<int>, m: multiset<Node>, done: seq<Node>, a: seq<Node>, b: seq<Node>)
    requires Merging(nx, m, done, a, b)
    ensures Merging(nx, m, done, b, a)
  {}

  /** Attaching a whole chain finishes the list. */
  lemma AttachRest(nx: seq<int>, m: multiset<Node>, done: seq<Node>, a: seq<Node>, b: seq<Node>)
    requires Merging(nx, m, done, a, b)
    ensures Chain(Attach(nx, done, First(a, -1)), done + a, -1)
  {
    AttachTo(nx, m, done, a, b, First(a, -1));
    ChainConcat(Attach(nx, done, First(a, -1)), done, a, -1);
  }

  /** Links of nodes outside m are the same. */
  ghost predicate SameOff(nx: seq<int>, nx': seq<int>, m: multiset<Node>) {
    |nx'| == |nx| && forall i: nat :: i < |nx| && i !in m ==> nx'[i] == nx[i]
  }

  lemma AttachSame(nx0: seq<int>, nx: seq<int>, m: multiset<Node>, done: seq<Node>, to: int)
    requires SameOff(nx0, nx, m) && multiset(done) <= m && (done == [] || done[|done| - 1] < |nx|)
    ensures SameOff(nx0, Attach(nx, done, to), m)
  {
    if done != [] { assert done[|done| - 1] in multiset(done); }
  }

  lemma {:induction false} ChainSplit(nx: seq<int>, a: seq<Node>, b: seq<Node>, end: int)
    requires Chain(nx, a + b, end)
    ensures Chain(nx, a, First(b, end)) && Chain(nx, b, end)
    decreases |a|
  {
    if a == [] {
      assert a + b == b;
    } else {
      assert (a + b)[1..] == a[1..] + b;
      ChainSplit(nx, a[1..], b, end);
    }
  }

  function Last(s: seq<Node>): int {
    if s == [] then -1 else s[|s| - 1]
  }

  /** Where the link of the last node before a cut leads. */
  lemma LinkAtCut(nx: seq<int>, a: seq<Node>, b: seq<Node>, end: int)
    requires Chain(nx, a + b, end) && a != []
    ensures 0 <= Last(a) < |nx| && nx[Last(a)] == First(b, end)
  {
    var p, x := a[..|a| - 1], a[|a| - 1];
    assert a + b == p + ([x] + b);
    ChainSplit(nx, p, [x] + b, end);
    assert ([x] + b)[1..] == b;
  }

  /** Closing the ring: the last link is redirected. */
  lemma Redirect(nx: seq<int>, s: seq<Node>, end: int, to: int)
    requires Chain(nx, s, end) && s != [] && Once(multiset(s))
    ensures 0 <= Last(s) < |nx| && Chain(nx[Last(s) := to], s, to)
  {
    var p, x := s[..|s| - 1], s[|s| - 1];
    assert s == p + [x];
    ChainSplit(nx, p, [x], end);
    assert multiset(s)[x] == multiset(p)[x] + 1;
    ChainFrame(nx, nx[x := to], p, x);
    ChainSnoc(nx[x := to], p, x, to);
  }

  /** Every node of s points back to the one before it, the first one to from. */
  ghost predicate Back(pv: seq<int>, s: seq<Node>, from: Node) {
    s == [] ||
    var p, x := s[..|s| - 1], s[|s| - 1];
    x < |pv| && pv[x] == (if p == [] then from else p[|p| - 1]) && Back(pv, p, from)
  }

  lemma {:induction false} BackFrame(pv: seq<int>, s: seq<Node>, from: Node, x: nat, v: int)
    requires Back(pv, s, from) && x < |pv| && x !in s
    ensures Back(pv[x := v], s, from)
    decreases |s|
  {
    if s != [] { BackFrame(pv, s[..|s| - 1], from, x, v); }
  }

  /** The path [from] + s grows by x. */
  lemma BackSnoc(pv: seq<int>, s: seq<Node>, from: Node, x: Node)
    requires Back(pv, s, from) && x < |pv| && x !in s
    ensures Back(pv[x := Last([from] + s)], s + [x], from)
  {
    BackFrame(pv, s, from, x, Last([from] + s));
    assert (s + [x])[..|s|] == s;
  }
}

/** list_sort on link arrays: next[i] and prev[i] are the links of node i. */
module ListSort {
  import opened Bits
  import opened StableSort
  import opened Chains

  /** Loop state of a merge that is to produce goal. */
  ghost predicate MergeLoop(cmp: Cmp, nx0: seq<int>, nx: seq<int>, m: multiset<Node>, goal: seq<Node>,
      done: seq<Node>, ra: seq<Node>, rb: seq<Node>) {
    Merging(nx, m, done, ra, rb) && SameOff(nx0, nx, m) && goal == done + Merge(cmp, ra, rb)
  }

  lemma GoalA(cmp: Cmp, goal: seq<Node>, done: seq<Node>, ra: seq<Node>, rb: seq<Node>)
    requires goal == done + Merge(cmp, ra, rb) && ra != [] && rb != [] && cmp(ra[0], rb[0]) <= 0
    ensures goal == done + [ra[0]] + Merge(cmp, ra[1..], rb)
  {
    assert done + ([ra[0]] + Merge(cmp, ra[1..], rb)) == done + [ra[0]] + Merge(cmp, ra[1..], rb);
  }

  lemma GoalB(cmp: Cmp, goal: seq<Node>, done: seq<Node>, ra: seq<Node>, rb: seq<Node>)
    requires goal == done + Merge(cmp, ra, rb) && ra != [] && rb != [] && cmp(ra[0], rb[0]) > 0
    ensures goal == done + [rb[0]] + Merge(cmp, ra, rb[1..])
  {
    assert done + ([rb[0]] + Merge(cmp, ra, rb[1..])) == done + [rb[0]] + Merge(cmp, ra, rb[1..]);
  }

  lemma DoneWithin(nx: seq<int>, m: multiset<Node>, done: seq<Node>, a: seq<Node>, b: seq<Node>)
    requires Merging(nx, m, done, a, b)
    ensures multiset(done) <= m && (done == [] || done[|done| - 1] < |nx|)
  {}

  /** One round that takes from the first chain. */
  lemma TakeA(cmp: Cmp, nx0: seq<int>, nx: seq<int>, m: multiset<Node>, goal: seq<Node>,
      done: seq<Node>, ra: seq<Node>, rb: seq<Node>)
    requires MergeLoop(cmp, nx0, nx, m, goal, done, ra, rb) && ra != [] && rb != [] && cmp(ra[0], rb[0]) <= 0
    ensures MergeLoop(cmp, nx0, Attach(nx, done, ra[0]), m, goal, done + [ra[0]], ra[1..], rb)
    ensures ra[0] < |nx| && Attach(nx, done, ra[0])[ra[0]] == First(ra[1..], -1)
  {
    DoneWithin(nx, m, done, ra, rb);
    TakeHead(nx, m, done, ra, rb);
    AttachSame(nx0, nx, m, done, ra[0]);
    GoalA(cmp, goal, done, ra, rb);
  }

  /** One round that takes from the second chain. */
  lemma TakeB(cmp: Cmp, nx0: seq<int>, nx: seq<int>, m: multiset<Node>, goal: seq<Node>,
      done: seq<Node>, ra: seq<Node>, rb: seq<Node>)
    requires MergeLoop(cmp, nx0, nx, m, goal, done, ra, rb) && ra != [] && rb != [] && cmp(ra[0], rb[0]) > 0
    ensures MergeLoop(cmp, nx0, Attach(nx, done, rb[0]), m, goal, done + [rb[0]], ra, rb[1..])
    ensures rb[0] < |nx| && Attach(nx, done, rb[0])[rb[0]] == First(rb[1..], -1)
  {
    DoneWithin(nx, m, done, ra, rb);
    MergingSwap(nx, m, done, ra, rb);
    TakeHead(nx, m, done, rb, ra);
    MergingSwap(Attach(nx, done, rb[0]), m, done + [rb[0]], rb[1..], ra);
    AttachSame(nx0, nx, m, done, rb[0]);
    GoalB(cmp, goal, done, ra, rb);
  }

  /** One chain has run out; the other is attached whole. */
  lemma Finish(cmp: Cmp, nx0: seq<int>, nx: seq<int>, m: multiset<Node>, goal: seq<Node>,
      done: seq<Node>, ra: seq<Node>, rb: seq<Node>)
    requires MergeLoop(cmp, nx0, nx, m, goal, done, ra, rb) && (ra == [] || rb == [])
    ensures var rest := if ra != [] then ra else rb; var nx' := Attach(nx, done, First(rest, -1));
      Chain(nx', goal, -1) && SameOff(nx0, nx', m) && goal == done + rest
  {
    DoneWithin(nx, m, done, ra, rb);
    MergingSwap(nx, m, done, ra, rb);
    var rest := if ra != [] then ra else rb;
    AttachRest(nx, m, done, rest, if ra != [] then rb else ra);
    AttachSame(nx0, nx, m, done, First(rest, -1));
  }

  /** tail->next = x, where an empty path's tail is the local list head. */
  method Link(next: array<int>, first: int, tail: int, x: int, ghost done: seq<Node>) returns (r: int)
    requires tail == Last(done) < next.Length && first == First(done, -1)
    modifies next
    ensures next[..] == Attach(old(next[..]), done, x) && r == First(done, x)
  {
    r := first;
    if tail == -1 { r := x; } else { next[tail] := x; }
  }

  /** The loop state together with the program's variables. */
  ghost predicate LoopOk(cmp: Cmp, nx0: seq<int>, nx: seq<int>, m: multiset<Node>, goal: seq<Node>,
      done: seq<Node>, ra: seq<Node>, rb: seq<Node>, a: int, b: int, tail: int, r: int) {
    && MergeLoop(cmp, nx0, nx, m, goal, done, ra, rb)
    && a == First(ra, -1) && b == First(rb, -1) && tail == Last(done) && r == First(done, -1)
  }

  lemma LoopStart(cmp: Cmp, nx: seq<int>, sa: seq<Node>, sb: seq<Node>)
    requires Chain(nx, sa, -1) && Chain(nx, sb, -1) && Once(multiset(sa) + multiset(sb))
    ensures LoopOk(cmp, nx, nx, multiset(sa) + multiset(sb), Merge(cmp, sa, sb), [], sa, sb,
                   First(sa, -1), First(sb, -1), -1, -1)
  {
    var none: seq<Node>, m := [], multiset(sa) + multiset(sb);
    assert Merging(nx, m, none, sa, sb) by { assert multiset(none) + multiset(sa) + multiset(sb) == m; }
    assert none + Merge(cmp, sa, sb) == Merge(cmp, sa, sb);
  }

  lemma LoopRange(cmp: Cmp, nx0: seq<int>, nx: seq<int>, m: multiset<Node>, goal: seq<Node>,
      done: seq<Node>, ra: seq<Node>, rb: seq<Node>, a: int, b: int, tail: int, r: int)
    requires LoopOk(cmp, nx0, nx, m, goal, done, ra, rb, a, b, tail, r)
    ensures -1 <= tail < |nx| && -1 <= a < |nx| && -1 <= b < |nx|
    ensures (a == -1 <==> ra == []) && (b == -1 <==> rb == [])
  {}

  lemma RoundA(cmp: Cmp, nx0: seq<int>, nx: seq<int>, m: multiset<Node>, goal: seq<Node>,
      done: seq<Node>, ra: seq<Node>, rb: seq<Node>, a: nat, b: nat, tail: int, r: int)
    requires LoopOk(cmp, nx0, nx, m, goal, done, ra, rb, a, b, tail, r) && cmp(a, b) <= 0
    ensures ra != [] && (done == [] || done[|done| - 1] < |nx|)
    ensures var nx' := Attach(nx, done, a);
      a < |nx'| && LoopOk(cmp, nx0, nx', m, goal, done + [ra[0]], ra[1..], rb, nx'[a], b, a, First(done, a))
  {
    TakeA(cmp, nx0, nx, m, goal, done, ra, rb);
  }

  lemma RoundB(cmp: Cmp, nx0: seq<int>, nx: seq<int>, m: multiset<Node>, goal: seq<Node>,
      done: seq<Node>, ra: seq<Node>, rb: seq<Node>, a: nat, b: nat, tail: int, r: int)
    requires LoopOk(cmp, nx0, nx, m, goal, done, ra, rb, a, b, tail, r) && cmp(a, b) > 0
    ensures rb != [] && (done == [] || done[|done| - 1] < |nx|)
    ensures var nx' := Attach(nx, done, b);
      b < |nx'| && LoopOk(cmp, nx0, nx', m, goal, done + [rb[0]], ra, rb[1..], a, nx'[b], b, First(done, b))
  {
    TakeB(cmp, nx0, nx, m, goal, done, ra, rb);
  }

  lemma LastRound(cmp: Cmp, nx0: seq<int>, nx: seq<int>, m: multiset<Node>, goal: seq<Node>,
      done: seq<Node>, ra: seq<Node>, rb: seq<Node>, a: int, b: int, tail: int, r: int)
    requires LoopOk(cmp, nx0, nx, m, goal, done, ra, rb, a, b, tail, r) && (a == -1 || b == -1)
    ensures done == [] || done[|done| - 1] < |nx|
    ensures var rest := if a != -1 then a else b; var nx' := Attach(nx, done, rest);
      Chain(nx', goal, -1) && SameOff(nx0, nx', m) && First(done, rest) == First(goal, -1)
  {
    Finish(cmp, nx0, nx, m, goal, done, ra, rb);
  }

  /** tail->next = a; tail = a; a = a->next */
  method LinkA(cmp: Cmp, next: array<int>, r: int, tail: int, a: nat, b: nat, ghost nx0: seq<int>,
      ghost m: multiset<Node>, ghost goal: seq<Node>, ghost done: seq<Node>, ghost ra: seq<Node>, ghost rb: seq<Node>)
    returns (r': int, tail': int, a': int)
    requires LoopOk(cmp, nx0, next[..], m, goal, done, ra, rb, a, b, tail, r) && cmp(a, b) <= 0
    modifies next
    ensures ra != []
    ensures LoopOk(cmp, nx0, next[..], m, goal, done + [ra[0]], ra[1..], rb, a', b, tail', r')
    ensures -1 <= tail' < next.Length && -1 <= a' < next.Length
  {
    LoopRange(cmp, nx0, next[..], m, goal, done, ra, rb, a, b, tail, r);
    RoundA(cmp, nx0, next[..], m, goal, done, ra, rb, a, b, tail, r);
    r' := Link(next, r, tail, a, done);
    tail', a' := a, next[a];
    LoopRange(cmp, nx0, next[..], m, goal, done + [ra[0]], ra[1..], rb, a', b, tail', r');
  }

  /** tail->next = b; tail = b; b = b->next */
  method LinkB(cmp: Cmp, next: array<int>, r: int, tail: int, a: nat, b: nat, ghost nx0: seq<int>,
      ghost m: multiset<Node>, ghost goal: seq<Node>, ghost done: seq<Node>, ghost ra: seq<Node>, ghost rb: seq<Node>)
    returns (r': int, tail': int, b': int)
    requires LoopOk(cmp, nx0, next[..], m, goal, done, ra, rb, a, b, tail, r) && cmp(a, b) > 0
    modifies next
    ensures rb != []
    ensures LoopOk(cmp, nx0, next[..], m, goal, done + [rb[0]], ra, rb[1..], a, b', tail', r')
    ensures -1 <= tail' < next.Length && -1 <= b' < next.Length
  {
    LoopRange(cmp, nx0, next[..], m, goal, done, ra, rb, a, b, tail, r);
    RoundB(cmp, nx0, next[..], m, goal, done, ra, rb, a, b, tail, r);
    r' := Link(next, r, tail, b, done);
    tail', b' := b, next[b];
    LoopRange(cmp, nx0, next[..], m, goal, done + [rb[0]], ra, rb[1..], a, b', tail', r');
  }

  /** merge: the two chains become one, in stable order; no other link changes. */
  method MergeChains(cmp: Cmp, next: array<int>, a0: int, b0: int, ghost sa: seq<Node>, ghost sb: seq<Node>)
    returns (r: int)
    requires Chain(next[..], sa, -1) && Chain(next[..], sb, -1) && Once(multiset(sa) + multiset(sb))
    requires a0 == First(sa, -1) && b0 == First(sb, -1)
    modifies next
    ensures Chain(next[..], Merge(cmp, sa, sb), -1) && r == First(Merge(cmp, sa, sb), -1)
    ensures SameOff(old(next[..]), next[..], multiset(sa) + multiset(sb))
  {
    var a, b, tail := a0, b0, -1;
    r := -1;
    ghost var m, nx, goal := multiset(sa) + multiset(sb), next[..], Merge(cmp, sa, sb);
    ghost var nx0 := nx;
    ghost var done: seq<Node>, ra, rb := [], sa, sb;
    LoopStart(cmp, nx, sa, sb);
    LoopRange(cmp, nx0, nx, m, goal, done, ra, rb, a, b, tail, r);
    while a != -1 && b != -1
      invariant nx == next[..] && LoopOk(cmp, nx0, nx, m, goal, done, ra, rb, a, b, tail, r)
      invariant -1 <= tail < |nx| && -1 <= a < |nx| && -1 <= b < |nx|
      decreases |ra| + |rb|
    {
      if cmp(a, b) <= 0 {
        r, tail, a := LinkA(cmp, next, r, tail, a, b, nx0, m, goal, done, ra, rb);
        done, ra := done + [ra[0]], ra[1..];
      } else {
        r, tail, b := LinkB(cmp, next, r, tail, a, b, nx0, m, goal, done, ra, rb);
        done, rb := done + [rb[0]], rb[1..];
      }
      nx := next[..];
    }
    LastRound(cmp, nx0, nx, m, goal, done, ra, rb, a, b, tail, r);
    r := Link(next, r, tail, if a != -1 then a else b, done);
  }

  /** A doubly linked ring: head, then s, then head again, with prev the inverse of next. */
  ghost predicate Ring(nx: seq<int>, pv: seq<int>, head: Node, s: seq<Node>) {
    && |nx| == |pv| && Chain(nx, [head] + s, head)
    && Back(pv, s, head) && pv[head] == Last([head] + s)
  }

  /** done is [head] followed by nodes already linked both ways. */
  ghost predicate BothWays(pv: seq<int>, head: Node, done: seq<Node>) {
    done != [] && done[0] == head && Back(pv, done[1..], head)
  }

  lemma BothWaysSnoc(pv: seq<int>, head: Node, done: seq<Node>, x: Node)
    requires BothWays(pv, head, done) && x < |pv| && x !in done
    ensures BothWays(pv[x := Last(done)], head, done + [x])
  {
    assert done == [head] + done[1..];
    BackSnoc(pv, done[1..], head, x);
    assert (done + [x])[1..] == done[1..] + [x];
  }

  lemma RestoreStart(cmp: Cmp, nx: seq<int>, head: Node, sa: seq<Node>, sb: seq<Node>)
    requires Chain(nx, sa, -1) && Chain(nx, sb, -1) && Once(multiset{head} + multiset(sa) + multiset(sb)) && head < |nx|
    ensures LoopOk(cmp, nx, nx, multiset{head} + multiset(sa) + multiset(sb), [head] + Merge(cmp, sa, sb), [head],
                   sa, sb, First(sa, -1), First(sb, -1), head, head)
  {
    assert multiset([head]) == multiset{head};
    assert [head][..0] == [];
  }

  /** The head of a remaining chain is not on the finished path. */
  lemma HeadApart(nx: seq<int>, m: multiset<Node>, done: seq<Node>, a: seq<Node>, b: seq<Node>)
    requires Merging(nx, m, done, a, b)
    ensures (a != [] ==> a[0] !in done && a[0] in m) && (b != [] ==> b[0] !in done && b[0] in m)
  {
    if a != [] { assert m[a[0]] == multiset(done)[a[0]] + multiset(a)[a[0]] + multiset(b)[a[0]]; }
    if b != [] { assert m[b[0]] == multiset(done)[b[0]] + multiset(a)[b[0]] + multiset(b)[b[0]]; }
  }

  /** tail->next = x; x->prev = tail */
  method LinkBoth(next: array<int>, prev: array<int>, tail: int, x: nat, ghost head: Node, ghost done: seq<Node>,
      ghost m: multiset<Node>)
    requires next != prev && next.Length == prev.Length && x < prev.Length && x in m && x !in done
    requires tail == Last(done) && 0 <= tail < next.Length && BothWays(prev[..], head, done)
    modifies next, prev
    ensures next[..] == Attach(old(next[..]), done, x)
    ensures BothWays(prev[..], head, done + [x]) && SameOff(old(prev[..]), prev[..], m)
  {
    BothWaysSnoc(prev[..], head, done, x);
    next[tail] := x;
    prev[x] := tail;
  }

  /** First half of merge_and_restore_back_links: merge with back links until one chain runs out. */
  method MergeBothWays(cmp: Cmp, next: array<int>, prev: array<int>, head: Node, a0: int, b0: int,
      ghost sa: seq<Node>, ghost sb: seq<Node>) returns (tail: int, ghost done: seq<Node>, ghost left: seq<Node>)
    requires next != prev && next.Length == prev.Length && head < next.Length && (sa != [] || sb != [])
    requires Chain(next[..], sa, -1) && Chain(next[..], sb, -1) && Once(multiset{head} + multiset(sa) + multiset(sb))
    requires a0 == First(sa, -1) && b0 == First(sb, -1)
    modifies next, prev
    ensures [head] + Merge(cmp, sa, sb) == done + left && tail == Last(done) && left != []
    ensures Chain(next[..], done + left, -1) && BothWays(prev[..], head, done)
    ensures SameOff(old(next[..]), next[..], multiset{head} + multiset(sa) + multiset(sb))
    ensures SameOff(old(prev[..]), prev[..], multiset{head} + multiset(sa) + multiset(sb))
  {
    var a, b := a0, b0;
    tail := head;
    ghost var m, nx, goal := multiset{head} + multiset(sa) + multiset(sb), next[..], [head] + Merge(cmp, sa, sb);
    ghost var nx0, pv0 := nx, prev[..];
    ghost var ra, rb := sa, sb;
    done := [head];
    RestoreStart(cmp, nx, head, sa, sb);
    LoopRange(cmp, nx0, nx, m, goal, done, ra, rb, a, b, tail, head);
    while a != -1 && b != -1
      invariant nx == next[..] && LoopOk(cmp, nx0, nx, m, goal, done, ra, rb, a, b, tail, head)
      invariant 0 <= tail < |nx| && -1 <= a < |nx| && -1 <= b < |nx| && (ra != [] || rb != [])
      invariant BothWays(prev[..], head, done) && SameOff(pv0, prev[..], m)
      decreases |ra| + |rb|
    {
      HeadApart(nx, m, done, ra, rb);
      if cmp(a, b) <= 0 {
        RoundA(cmp, nx0, nx, m, goal, done, ra, rb, a, b, tail, head);
        LinkBoth(next, prev, tail, a, head, done, m);
        nx := next[..];
        tail, a := a, next[a];
        done, ra := done + [ra[0]], ra[1..];
      } else {
        RoundB(cmp, nx0, nx, m, goal, done, ra, rb, a, b, tail, head);
        LinkBoth(next, prev, tail, b, head, done, m);
        nx := next[..];
        tail, b := b, next[b];
        done, rb := done + [rb[0]], rb[1..];
      }
      LoopRange(cmp, nx0, nx, m, goal, done, ra, rb, a, b, tail, head);
    }
    Finish(cmp, nx0, nx, m, goal, done, ra, rb);
    next[tail] := if a != -1 then a else b;
    left := if ra != [] then ra else rb;
  }

  lemma LinkApart(s: seq<Node>, done: seq<Node>, left: seq<Node>)
    requires Once(multiset(s)) && s == done + left && left != []
    ensures left[0] !in done
  {
    assert multiset(s)[left[0]] == multiset(done)[left[0]] + multiset(left)[left[0]];
  }

  /** Nodes written to while walking are nodes of the list. */
  lemma InGoal(m: multiset<Node>, goal: seq<Node>, done: seq<Node>, left: seq<Node>)
    requires multiset(goal) == m && goal == done + left
    ensures left != [] ==> left[0] in m
    ensures done != [] ==> done[|done| - 1] in m && done[0] in m
  {
    if left != [] { assert left[0] == goal[|done|]; }
    if done != [] { assert done[|done| - 1] == goal[|done| - 1] && done[0] == goal[0]; }
  }

  lemma HeadOnce(head: Node, s: seq<Node>)
    requires Once(multiset([head] + s))
    ensures head !in s
  {
    assert multiset([head] + s)[head] == 1 + multiset(s)[head];
  }

  /** Walking back links in: done is finished, left still has its old prev links. */
  ghost predicate Walking(nx: seq<int>, pv0: seq<int>, pv: seq<int>, head: Node, goal: seq<Node>,
      done: seq<Node>, left: seq<Node>, tail: int) {
    && Once(multiset(goal)) && Chain(nx, goal, -1) && goal == done + left && tail == Last(done)
    && BothWays(pv, head, done) && SameOff(pv0, pv, multiset(goal)) && |nx| == |pv|
  }

  lemma WalkStep(nx: seq<int>, pv0: seq<int>, pv: seq<int>, head: Node, goal: seq<Node>,
      done: seq<Node>, left: seq<Node>, tail: int)
    requires Walking(nx, pv0, pv, head, goal, done, left, tail)
    ensures 0 <= tail < |nx| && nx[tail] == First(left, -1)
    ensures left != [] ==> left[0] < |nx|
    ensures left != [] ==> Walking(nx, pv0, pv[left[0] := tail], head, goal, done + [left[0]], left[1..], left[0])
  {
    LinkAtCut(nx, done, left, -1);
    if left != [] {
      LinkApart(goal, done, left);
      ChainSplit(nx, done, left, -1);
      BothWaysSnoc(pv, head, done, left[0]);
      InGoal(multiset(goal), goal, done, left);
      assert done + left == done + [left[0]] + left[1..];
    }
  }

  /** Second half of merge_and_restore_back_links: set the back links of the attached rest. */
  method WalkBack(next: array<int>, prev: array<int>, head: Node, tail0: int, ghost goal: seq<Node>,
      ghost done0: seq<Node>, ghost left0: seq<Node>) returns (tail: int)
    requires next != prev && Walking(next[..], prev[..], prev[..], head, goal, done0, left0, tail0) && left0 != []
    modifies prev
    ensures Walking(next[..], old(prev[..]), prev[..], head, goal, goal, [], tail)
  {
    tail := tail0;
    ghost var nx, pv0, pv, done, left := next[..], prev[..], prev[..], done0, left0;
    WalkStep(nx, pv0, pv, head, goal, done, left, tail);
    assert next[tail] != -1; // the do-while dereferences tail->next before testing it
    while next[tail] != -1
      invariant next[..] == nx && prev[..] == pv && Walking(nx, pv0, pv, head, goal, done, left, tail)
      invariant 0 <= tail < |nx| && nx[tail] == First(left, -1)
      decreases |left|
    {
      WalkStep(nx, pv0, pv, head, goal, done, left, tail);
      prev[next[tail]] := tail;
      pv := prev[..];
      tail := next[tail];
      done, left := done + [left[0]], left[1..];
      WalkStep(nx, pv0, pv, head, goal, done, left, tail);
    }
    assert left == [] && done == goal;
  }

  /** tail->next = head; head->prev = tail */
  lemma Close(nx: seq<int>, pv0: seq<int>, pv: seq<int>, head: Node, s: seq<Node>, tail: int)
    requires Walking(nx, pv0, pv, head, [head] + s, [head] + s, [], tail) && head < |nx|
    ensures 0 <= tail < |nx| && Ring(nx[tail := head], pv[head := tail], head, s)
    ensures forall nx0 :: SameOff(nx0, nx, multiset([head] + s)) ==>
              SameOff(nx0, nx[tail := head], multiset([head] + s))
    ensures SameOff(pv0, pv[head := tail], multiset([head] + s))
  {
    var goal := [head] + s;
    assert goal[1..] == s;
    InGoal(multiset(goal), goal, goal, []);
    Redirect(nx, goal, -1, head);
    HeadOnce(head, s);
    BackFrame(pv, s, head, head, tail);
  }

  /** merge_and_restore_back_links: the merged list as a ring around head. */
  method MergeAndRestore(cmp: Cmp, next: array<int>, prev: array<int>, head: Node, a0: int, b0: int,
      ghost sa: seq<Node>, ghost sb: seq<Node>)
    requires next != prev && next.Length == prev.Length && head < next.Length && (sa != [] || sb != [])
    requires Chain(next[..], sa, -1) && Chain(next[..], sb, -1) && Once(multiset{head} + multiset(sa) + multiset(sb))
    requires a0 == First(sa, -1) && b0 == First(sb, -1)
    modifies next, prev
    ensures Ring(next[..], prev[..], head, Merge(cmp, sa, sb))
    ensures SameOff(old(next[..]), next[..], multiset{head} + multiset(sa) + multiset(sb))
    ensures SameOff(old(prev[..]), prev[..], multiset{head} + multiset(sa) + multiset(sb))
  {
    ghost var s, pv0 := Merge(cmp, sa, sb), prev[..];
    MergeMultiset(cmp, sa, sb);
    assert multiset([head] + s) == multiset{head} + multiset(sa) + multiset(sb);
    var tail, done, left := MergeBothWays(cmp, next, prev, head, a0, b0, sa, sb);
    ghost var pv1 := prev[..];
    tail := WalkBack(next, prev, head, tail, [head] + s, done, left);
    Close(next[..], pv1, prev[..], head, s, tail);
    next[tail] := head;
    prev[head] := tail;
  }

  // ---- stretches of the original list

  /** t has the nodes of x, whatever cmp says; if cmp is a preorder, in the order of the stable sort. */
  ghost predicate Arranges(cmp: Cmp, x: seq<Node>, t: seq<Node>) {
    multiset(t) == multiset(x) && (Preorder(cmp) ==> t == Sort(cmp, x))
  }

  ghost predicate HeldAs(cmp: Cmp, nx: seq<int>, s: seq<Node>, lo: int, hi: int, p: int, t: seq<Node>) {
    0 <= lo <= hi <= |s| && Arranges(cmp, s[lo..hi], t) && p == First(t, -1) && Chain(nx, t, -1)
  }

  /** p heads the chain into which the nodes lo..hi of the original list have been merged. */
  ghost predicate Held(cmp: Cmp, nx: seq<int>, s: seq<Node>, lo: int, hi: int, p: int) {
    exists t :: HeldAs(cmp, nx, s, lo, hi, p, t)
  }

  lemma ArrangesMerge(cmp: Cmp, x: seq<Node>, y: seq<Node>, a: seq<Node>, b: seq<Node>)
    requires Arranges(cmp, x, a) && Arranges(cmp, y, b)
    ensures Arranges(cmp, x + y, Merge(cmp, a, b))
  {
    MergeMultiset(cmp, a, b);
    if Preorder(cmp) { MergeSorts(cmp, x, y); }
  }

  lemma SliceSplit(s: seq<Node>, lo: nat, mid: nat, hi: nat)
    requires lo <= mid <= hi <= |s|
    ensures s[lo..hi] == s[lo..mid] + s[mid..hi]
    ensures multiset(s[lo..hi]) == multiset(s[lo..mid]) + multiset(s[mid..hi])
  {
    assert s[lo..hi] == s[lo..mid] + s[mid..hi];
  }

  lemma SliceOnce(s: seq<Node>, lo: nat, hi: nat)
    requires Once(multiset(s)) && lo <= hi <= |s|
    ensures Once(multiset(s[lo..hi]))
  {
    assert s == s[..lo] + s[lo..hi] + s[hi..];
    forall x ensures multiset(s[lo..hi])[x] <= 1 {
      assert multiset(s)[x] == multiset(s[..lo])[x] + multiset(s[lo..hi])[x] + multiset(s[hi..])[x];
    }
  }

  lemma SlicesApart(s: seq<Node>, a: nat, b: nat, c: nat, d: nat, x: Node)
    requires Once(multiset(s)) && a <= b <= |s| && c <= d <= |s| && (b <= c || d <= a) && x in s[a..b]
    ensures x !in s[c..d]
  {
    if b <= c {
      SliceOnce(s, a, d);
      SliceSplit(s, a, b, d);
      SliceSplit(s, b, c, d);
      assert multiset(s[a..d])[x] == multiset(s[a..b])[x] + multiset(s[b..c])[x] + multiset(s[c..d])[x];
    } else {
      SliceOnce(s, c, b);
      SliceSplit(s, c, d, b);
      SliceSplit(s, d, a, b);
      assert multiset(s[c..b])[x] == multiset(s[c..d])[x] + multiset(s[d..a])[x] + multiset(s[a..b])[x];
    }
  }

  lemma SameNodes(x: seq<Node>, t: seq<Node>, n: Node)
    requires multiset(t) == multiset(x) && n in t
    ensures n in x
  {
    assert n in multiset(t);
  }

  /** Relinking one stretch leaves the chain of another alone. */
  lemma HeldFrame(cmp: Cmp, nx: seq<int>, nx': seq<int>, s: seq<Node>, lo: nat, hi: nat, p: int, c: nat, d: nat)
    requires Once(multiset(s)) && Held(cmp, nx, s, lo, hi, p) && c <= d <= |s| && (hi <= c || d <= lo)
    requires SameOff(nx, nx', multiset(s[c..d]))
    ensures Held(cmp, nx', s, lo, hi, p)
  {
    var t :| HeldAs(cmp, nx, s, lo, hi, p, t);
    forall i | 0 <= i < |nx| && nx'[i] != nx[i] ensures i !in t {
      if i in t {
        SameNodes(s[lo..hi], t, i);
        SlicesApart(s, lo, hi, c, d, i);
      }
    }
    ChainFrame(nx, nx', t, -1);
    assert HeldAs(cmp, nx', s, lo, hi, p, t);
  }

  lemma ArrangedLength(cmp: Cmp, x: seq<Node>, t: seq<Node>)
    requires Arranges(cmp, x, t)
    ensures |t| == |x|
  {
    assert |multiset(t)| == |multiset(x)|;
  }

  /** merge applied to the chains of two consecutive stretches. */
  method MergeStretches(cmp: Cmp, next: array<int>, a: int, b: int, ghost s: seq<Node>, ghost lo: nat,
      ghost mid: nat, ghost hi: nat)
    returns (r: int)
    requires Once(multiset(s))
    requires Held(cmp, next[..], s, lo, mid, a) && Held(cmp, next[..], s, mid, hi, b)
    modifies next
    ensures Held(cmp, next[..], s, lo, hi, r) && SameOff(old(next[..]), next[..], multiset(s[lo..hi]))
  {
    ghost var sa :| HeldAs(cmp, next[..], s, lo, mid, a, sa);
    ghost var sb :| HeldAs(cmp, next[..], s, mid, hi, b, sb);
    SliceSplit(s, lo, mid, hi);
    SliceOnce(s, lo, hi);
    ArrangesMerge(cmp, s[lo..mid], s[mid..hi], sa, sb);
    r := MergeChains(cmp, next, a, b, sa, sb);
    assert HeldAs(cmp, next[..], s, lo, hi, r, Merge(cmp, sa, sb));
  }

  // ---- the partial lists

  /** Slot l holds the nodes cut[l+1]..cut[l] of the original list. */
  ghost predicate Slot(cmp: Cmp, nx: seq<int>, s: seq<Node>, cut: seq<nat>, part: seq<int>, l: int) {
    0 <= l < |part| && l + 1 < |cut| && Held(cmp, nx, s, cut[l + 1], cut[l], part[l])
  }

  ghost predicate Descends(cut: seq<nat>) {
    forall i, j :: 0 <= i <= j < |cut| ==> cut[j] <= cut[i]
  }

  /** Older nodes are in higher slots; the last slot is the sentinel and stays empty. */
  ghost predicate Parts(cmp: Cmp, nx: seq<int>, s: seq<Node>, cut: seq<nat>, part: seq<int>, bits: nat) {
    && bits > 0 && |part| == bits + 1 && |cut| == bits + 2 && Descends(cut) && cut[bits] == 0
    && (forall l :: 0 <= l <= bits ==> Slot(cmp, nx, s, cut, part, l))
  }

  lemma SlotEmpty(cmp: Cmp, nx: seq<int>, s: seq<Node>, cut: seq<nat>, part: seq<int>, l: int)
    requires Slot(cmp, nx, s, cut, part, l)
    ensures part[l] == -1 <==> cut[l] == cut[l + 1]
  {
    var t :| HeldAs(cmp, nx, s, cut[l + 1], cut[l], part[l], t);
    ArrangedLength(cmp, s[cut[l + 1]..cut[l]], t);
  }

  /** All slots below l emptied into the list being carried. */
  ghost function Collapse(cut: seq<nat>, l: nat): seq<nat>
    requires l + 1 < |cut|
  {
    seq(|cut|, i requires 0 <= i < |cut| => if i <= l then cut[l + 1] else cut[i])
  }

  /** Slot l takes everything down to n. */
  ghost function Store(cut: seq<nat>, l: nat, n: nat): seq<nat> {
    seq(|cut|, i requires 0 <= i < |cut| => if i <= l then n else cut[i])
  }

  /** A node being carried: cur is the merged chain of everything not in the slots, up to node n. */
  ghost predicate Carrying(cmp: Cmp, nx: seq<int>, s: seq<Node>, cut: seq<nat>, part: seq<int>, bits: nat,
      lev: nat, cur: int, n: nat) {
    && Parts(cmp, nx, s, cut, part, bits) && lev <= bits && cut[lev] == cut[0]
    && Held(cmp, nx, s, cut[0], n, cur)
  }

  lemma EmptyHeld(cmp: Cmp, nx: seq<int>, s: seq<Node>, at: nat)
    requires at <= |s|
    ensures Held(cmp, nx, s, at, at, -1)
  {
    assert s[at..at] == [];
    assert HeldAs(cmp, nx, s, at, at, -1, []);
  }

  /** One round of the carry loop: slot lev is merged in and emptied. */
  lemma CarryStep(cmp: Cmp, nx: seq<int>, nx': seq<int>, s: seq<Node>, cut: seq<nat>, part: seq<int>, bits: nat,
      lev: nat, cur: int, n: nat, cur': int)
    requires Once(multiset(s)) && Carrying(cmp, nx, s, cut, part, bits, lev, cur, n) && lev < bits
    requires Held(cmp, nx', s, cut[lev + 1], n, cur') && SameOff(nx, nx', multiset(s[cut[lev + 1]..n]))
    ensures Carrying(cmp, nx', s, Collapse(cut, lev), part[lev := -1], bits, lev + 1, cur', n)
  {
    var cut', part' := Collapse(cut, lev), part[lev := -1];
    forall l | 0 <= l <= bits ensures Slot(cmp, nx', s, cut', part', l) {
      assert Slot(cmp, nx, s, cut, part, l);
      if l > lev {
        HeldFrame(cmp, nx, nx', s, cut[l + 1], cut[l], part[l], cut[lev + 1], n);
      } else {
        EmptyHeld(cmp, nx', s, cut[lev + 1]);
        if l < lev { SlotEmpty(cmp, nx, s, cut, part, l); }
      }
    }
  }

  /** The carried list is stored in an empty slot above emptied ones. */
  lemma StoreStep(cmp: Cmp, nx: seq<int>, s: seq<Node>, cut: seq<nat>, part: seq<int>, bits: nat, lev: nat,
      cur: int, n: nat)
    requires Carrying(cmp, nx, s, cut, part, bits, lev, cur, n) && cut[0] == cut[lev + 1] && lev < bits
    ensures Parts(cmp, nx, s, Store(cut, lev, n), part[lev := cur], bits)
  {
    var cut', part' := Store(cut, lev, n), part[lev := cur];
    forall l | 0 <= l <= bits ensures Slot(cmp, nx, s, cut', part', l) {
      assert Slot(cmp, nx, s, cut, part, l);
      if l < lev {
        EmptyHeld(cmp, nx, s, n);
        SlotEmpty(cmp, nx, s, cut, part, l);
      }
    }
  }

  // ---- sizes

  ghost predicate Multiple(x: nat, u: nat)
    requires u > 0
  {
    x == 0 || (x >= u && Multiple(x - u, u))
  }

  /** Slot l below the top holds 2^l nodes or none, the top slot a multiple of its size. */
  ghost predicate Binary(cut: seq<nat>, bits: nat) {
    && bits > 0 && |cut| == bits + 2 && Descends(cut)
    && (forall l :: 0 <= l < bits - 1 ==> cut[l] == cut[l + 1] || cut[l] == cut[l + 1] + Shl(1, l))
    && Shl(1, bits - 1) > 0 && Multiple(cut[bits - 1], Shl(1, bits - 1)) && cut[bits] == 0
  }

  /** Size of the list carried into slot lev. */
  ghost predicate Weight(size: int, lev: nat, bits: nat) {
    if lev < bits then size == Shl(1, lev)
    else size >= 0 && bits > 0 && Shl(1, bits - 1) > 0 && Multiple(size, Shl(1, bits - 1))
  }

  lemma BinaryCarry(cut: seq<nat>, bits: nat, lev: nat, n: nat)
    requires Binary(cut, bits) && lev < bits && cut[lev] == cut[0] <= n && Weight(n - cut[0], lev, bits)
    requires cut[lev] != cut[lev + 1]
    ensures Binary(Collapse(cut, lev), bits) && Weight(n - cut[lev + 1], lev + 1, bits)
  {
    var cut' := Collapse(cut, lev);
    if lev == bits - 1 {
      assert cut[lev + 1] == 0;
      assert Multiple(0, Shl(1, bits - 1));
    }
  }

  lemma BinaryStore(cut: seq<nat>, bits: nat, lev: nat, n: nat)
    requires Binary(cut, bits) && lev < bits && cut[0] == cut[lev] == cut[lev + 1] <= n
    requires Weight(n - cut[0], lev, bits) || (lev == bits - 1 && Weight(n - cut[0], bits, bits))
    ensures Binary(Store(cut, lev, n), bits)
  {
    assert Multiple(0, Shl(1, bits - 1));
  }

  // ---- the main loop

  /** After k nodes: the slots hold them, maxLev is the highest slot in use, the rest is untouched. */
  ghost predicate Sorting(cmp: Cmp, nx0: seq<int>, nx: seq<int>, s: seq<Node>, cut: seq<nat>, part: seq<int>, bits: nat,
      maxLev: nat, k: nat) {
    && Once(multiset(s)) && cut != [] && cut[0] == k <= |s|
    && Parts(cmp, nx, s, cut, part, bits) && Binary(cut, bits)
    && maxLev < bits && cut[maxLev + 1] == 0 && (if k == 0 then maxLev == 0 else cut[maxLev] > 0)
    && Rest(nx0, nx, s, k)
  }

  /** A node on its way into the slots. */
  ghost predicate Inserting(cmp: Cmp, nx0: seq<int>, nx: seq<int>, s: seq<Node>, cut: seq<nat>, part: seq<int>,
      bits: nat,
      maxLev: nat, k: nat, lev: nat, cur: int) {
    && Once(multiset(s)) && k < |s|
    && Carrying(cmp, nx, s, cut, part, bits, lev, cur, k + 1) && Sizes(cut, bits, maxLev, k, lev)
    && Rest(nx0, nx, s, k + 1)
  }

  /** maxLev is the highest slot in use, unless the carry has just emptied it. */
  ghost predicate TopSlot(cut: seq<nat>, bits: nat, maxLev: nat, k: nat, lev: nat) {
    && maxLev < bits && |cut| == bits + 2 && cut[maxLev + 1] == 0 && lev <= maxLev + 1
    && (if k == 0 then maxLev == 0 else lev <= maxLev ==> cut[maxLev] > 0)
  }

  ghost predicate Sizes(cut: seq<nat>, bits: nat, maxLev: nat, k: nat, lev: nat) {
    Binary(cut, bits) && Weight(k + 1 - cut[0], lev, bits) && TopSlot(cut, bits, maxLev, k, lev)
  }

  /** The nodes from k on are still in their original chain, and only nodes of the list were relinked. */
  ghost predicate Rest(nx0: seq<int>, nx: seq<int>, s: seq<Node>, k: nat) {
    k <= |s| && Chain(nx, s[k..], -1) && SameOff(nx0, nx, multiset(s))
  }

  lemma TopCarry(cut: seq<nat>, bits: nat, maxLev: nat, k: nat, lev: nat)
    requires TopSlot(cut, bits, maxLev, k, lev) && Descends(cut) && lev < bits && cut[lev] != cut[lev + 1]
    ensures TopSlot(Collapse(cut, lev), bits, maxLev, k, lev + 1)
  {
    assert cut[lev] > 0;
    assert lev <= maxLev;
  }

  lemma SizesCarry(cut: seq<nat>, bits: nat, maxLev: nat, k: nat, lev: nat)
    requires Sizes(cut, bits, maxLev, k, lev) && lev < bits && cut[0] == cut[lev] != cut[lev + 1] && cut[0] <= k + 1
    ensures Sizes(Collapse(cut, lev), bits, maxLev, k, lev + 1)
  {
    BinaryCarry(cut, bits, lev, k + 1);
    TopCarry(cut, bits, maxLev, k, lev);
  }

  lemma SliceWithin(nx0: seq<int>, nx: seq<int>, nx': seq<int>, s: seq<Node>, lo: nat, hi: nat)
    requires lo <= hi <= |s| && SameOff(nx0, nx, multiset(s)) && SameOff(nx, nx', multiset(s[lo..hi]))
    ensures SameOff(nx0, nx', multiset(s))
  {
    assert s == s[..lo] + s[lo..hi] + s[hi..];
    assert multiset(s) == multiset(s[..lo]) + multiset(s[lo..hi]) + multiset(s[hi..]);
  }

  /** Relinking nodes before k leaves the unsorted rest alone. */
  lemma RestFrame(nx0: seq<int>, nx: seq<int>, nx': seq<int>, s: seq<Node>, lo: nat, k: nat)
    requires Once(multiset(s)) && lo <= k && Rest(nx0, nx, s, k) && SameOff(nx, nx', multiset(s[lo..k]))
    ensures Rest(nx0, nx', s, k)
  {
    SliceWithin(nx0, nx, nx', s, lo, k);
    assert s[k..] == s[k..|s|];
    forall i | 0 <= i < |nx| && nx'[i] != nx[i] ensures i !in s[k..] {
      if i in s[k..|s|] { SlicesApart(s, k, |s|, lo, k, i); }
    }
    ChainFrame(nx, nx', s[k..], -1);
  }

  /** The part of a round that concerns the slots. */
  lemma SlotsRound(cmp: Cmp, nx: seq<int>, nx': seq<int>, s: seq<Node>, cut: seq<nat>, part: seq<int>, bits: nat,
      n: nat, lev: nat, cur: int, cur': int)
    requires Once(multiset(s)) && lev < bits && Carrying(cmp, nx, s, cut, part, bits, lev, cur, n)
    requires part[lev] != -1
    requires Held(cmp, nx', s, cut[lev + 1], n, cur') && SameOff(nx, nx', multiset(s[cut[lev + 1]..n]))
    ensures cut[0] == cut[lev] != cut[lev + 1] && cut[0] <= n
    ensures Carrying(cmp, nx', s, Collapse(cut, lev), part[lev := -1], bits, lev + 1, cur', n)
  {
    assert Slot(cmp, nx, s, cut, part, lev);
    SlotEmpty(cmp, nx, s, cut, part, lev);
    CarryStep(cmp, nx, nx', s, cut, part, bits, lev, cur, n, cur');
  }

  lemma InsertRound(cmp: Cmp, nx0: seq<int>, nx: seq<int>, nx': seq<int>, s: seq<Node>, cut: seq<nat>,
      part: seq<int>, bits: nat,
      maxLev: nat, k: nat, lev: nat, cur: int, cur': int)
    requires Inserting(cmp, nx0, nx, s, cut, part, bits, maxLev, k, lev, cur) && part[lev] != -1 && lev < bits
    requires Held(cmp, nx', s, cut[lev + 1], k + 1, cur') && SameOff(nx, nx', multiset(s[cut[lev + 1]..k + 1]))
    ensures Inserting(cmp, nx0, nx', s, Collapse(cut, lev), part[lev := -1], bits, maxLev, k, lev + 1, cur')
  {
    SlotsRound(cmp, nx, nx', s, cut, part, bits, k + 1, lev, cur, cur');
    SizesCarry(cut, bits, maxLev, k, lev);
    RestFrame(nx0, nx, nx', s, cut[lev + 1], k + 1);
  }

  /** The sentinel slot is empty, so the carry stops before or at it. */
  lemma SentinelEmpty(cmp: Cmp, nx: seq<int>, s: seq<Node>, cut: seq<nat>, part: seq<int>, bits: nat, lev: nat)
    requires Parts(cmp, nx, s, cut, part, bits) && lev <= bits
    ensures part[lev] == -1 <==> cut[lev] == cut[lev + 1]
    ensures part[lev] != -1 ==> lev < bits
  {
    assert Slot(cmp, nx, s, cut, part, lev);
    SlotEmpty(cmp, nx, s, cut, part, lev);
  }

  /** Storing ends the insertion; past the last real slot the list goes back one level. */
  lemma InsertDone(cmp: Cmp, nx0: seq<int>, nx: seq<int>, s: seq<Node>, cut: seq<nat>, part: seq<int>, bits: nat,
      maxLev: nat, k: nat, lev: nat, cur: int)
    requires Inserting(cmp, nx0, nx, s, cut, part, bits, maxLev, k, lev, cur) && part[lev] == -1
    ensures var at := if lev >= bits then lev - 1 else lev; var top := if lev > maxLev then at else maxLev;
      Sorting(cmp, nx0, nx, s, Store(cut, at, k + 1), part[at := cur], bits, top, k + 1)
  {
    SentinelEmpty(cmp, nx, s, cut, part, bits, lev);
    var at := if lev >= bits then lev - 1 else lev;
    assert cut[at + 1] <= cut[at] <= cut[0];
    StoreStep(cmp, nx, s, cut, part, bits, at, cur, k + 1);
    BinaryStore(cut, bits, at, k + 1);
  }

  /** cur = merge(part[lev], cur); part[lev] = NULL */
  method CarryRound(cmp: Cmp, next: array<int>, part: array<int>, bits: nat, maxLev: nat, lev: nat, cur: int,
      ghost nx0: seq<int>, ghost s: seq<Node>, ghost cut: seq<nat>, ghost k: nat) returns (merged: int)
    requires next != part && part.Length == bits + 1 && lev < bits && part[lev] != -1
    requires Inserting(cmp, nx0, next[..], s, cut, part[..], bits, maxLev, k, lev, cur)
    modifies next, part
    ensures Inserting(cmp, nx0, next[..], s, Collapse(cut, lev), part[..], bits, maxLev, k, lev + 1, merged)
  {
    ghost var nx, pt := next[..], part[..];
    assert Slot(cmp, nx, s, cut, pt, lev);
    merged := MergeStretches(cmp, next, part[lev], cur, s, cut[lev + 1], cut[lev], k + 1);
    InsertRound(cmp, nx0, nx, next[..], s, cut, pt, bits, maxLev, k, lev, cur, merged);
    part[lev] := -1;
    assert part[..] == pt[lev := -1];
  }

  lemma CarryStops(cmp: Cmp, nx0: seq<int>, nx: seq<int>, s: seq<Node>, cut: seq<nat>, part: seq<int>, bits: nat,
      maxLev: nat, k: nat, lev: nat, cur: int)
    requires Inserting(cmp, nx0, nx, s, cut, part, bits, maxLev, k, lev, cur)
    ensures lev <= bits && (part[lev] != -1 ==> lev < bits)
  {
    SentinelEmpty(cmp, nx, s, cut, part, bits, lev);
  }

  /** The carry loop: merge while slots are taken. */
  method Carry(cmp: Cmp, next: array<int>, part: array<int>, bits: nat, x: int, maxLev: nat,
      ghost nx0: seq<int>, ghost s: seq<Node>, ghost cut0: seq<nat>, ghost k: nat)
    returns (lev: nat, cur: int, ghost cut: seq<nat>)
    requires next != part && part.Length == bits + 1
    requires Inserting(cmp, nx0, next[..], s, cut0, part[..], bits, maxLev, k, 0, x)
    modifies next, part
    ensures Inserting(cmp, nx0, next[..], s, cut, part[..], bits, maxLev, k, lev, cur) && lev <= bits && part[lev] == -1
  {
    lev, cur, cut := 0, x, cut0;
    CarryStops(cmp, nx0, next[..], s, cut, part[..], bits, maxLev, k, lev, cur);
    while part[lev] != -1
      invariant lev <= bits && (part[lev] != -1 ==> lev < bits)
      invariant Inserting(cmp, nx0, next[..], s, cut, part[..], bits, maxLev, k, lev, cur)
      decreases bits - lev
    {
      cur := CarryRound(cmp, next, part, bits, maxLev, lev, cur, nx0, s, cut, k);
      cut, lev := Collapse(cut, lev), lev + 1;
      CarryStops(cmp, nx0, next[..], s, cut, part[..], bits, maxLev, k, lev, cur);
    }
  }

  /** One node into the slots: carry, then store; a list past the last real slot stays in that slot. */
  method AddNode(cmp: Cmp, next: array<int>, part: array<int>, bits: nat, x: int, maxLev: nat,
      ghost nx0: seq<int>, ghost s: seq<Node>, ghost cut0: seq<nat>, ghost k: nat)
    returns (top: nat, ghost cut: seq<nat>)
    requires next != part && part.Length == bits + 1
    requires Inserting(cmp, nx0, next[..], s, cut0, part[..], bits, maxLev, k, 0, x)
    modifies next, part
    ensures Sorting(cmp, nx0, next[..], s, cut, part[..], bits, top, k + 1)
  {
    var lev, cur;
    lev, cur, cut := Carry(cmp, next, part, bits, x, maxLev, nx0, s, cut0, k);
    ghost var pt := part[..];
    InsertDone(cmp, nx0, next[..], s, cut, pt, bits, maxLev, k, lev, cur);
    top := maxLev;
    if lev > maxLev {
      if lev >= bits { lev := lev - 1; }
      top := lev;
    }
    part[lev] := cur;
    assert part[..] == pt[lev := cur];
    cut := Store(cut, lev, k + 1);
  }

  // ---- before and after the main loop

  /** The next node is cut off the rest and starts as a list of one. */
  lemma Detach(cmp: Cmp, nx0: seq<int>, nx: seq<int>, s: seq<Node>, cut: seq<nat>, part: seq<int>, bits: nat,
      maxLev: nat, k: nat)
    requires Sorting(cmp, nx0, nx, s, cut, part, bits, maxLev, k) && k < |s|
    ensures s[k] < |nx| && nx[s[k]] == First(s[k + 1..], -1)
    ensures Inserting(cmp, nx0, nx[s[k] := -1], s, cut, part, bits, maxLev, k, 0, s[k])
  {
    var x := s[k];
    assert s[k..][1..] == s[k + 1..];
    var nx' := nx[x := -1];
    assert s[k..k + 1] == [x];
    assert SameOff(nx, nx', multiset(s[k..k + 1])) by { assert x in multiset([x]); }
    assert Rest(nx0, nx, s, k + 1);
    RestFrame(nx0, nx, nx', s, k, k + 1);
    forall l | 0 <= l <= bits ensures Slot(cmp, nx', s, cut, part, l) {
      assert Slot(cmp, nx, s, cut, part, l);
      HeldFrame(cmp, nx, nx', s, cut[l + 1], cut[l], part[l], k, k + 1);
    }
    SingleHeld(cmp, nx', s, k);
    assert Shl(1, 0) == 1;
  }

  lemma SingleHeld(cmp: Cmp, nx: seq<int>, s: seq<Node>, k: nat)
    requires k < |s| && s[k] < |nx| && nx[s[k]] == -1
    ensures Held(cmp, nx, s, k, k + 1, s[k])
  {
    var x := s[k];
    assert s[k..k + 1] == [x] && [x][..0] == [] && [x][1..] == [];
    assert Sort(cmp, [x]) == Insert(cmp, [], x);
    assert HeldAs(cmp, nx, s, k, k + 1, x, [x]);
  }

  lemma StartSorting(cmp: Cmp, nx0: seq<int>, nx: seq<int>, s: seq<Node>, bits: nat)
    requires Once(multiset(s)) && bits > 0 && Chain(nx, s, -1) && SameOff(nx0, nx, multiset(s))
    ensures Sorting(cmp, nx0, nx, s, seq(bits + 2, _ => 0), seq(bits + 1, _ => -1), bits, 0, 0)
  {
    var cut, part := seq(bits + 2, _ => 0), seq(bits + 1, _ => -1);
    forall l | 0 <= l <= bits ensures Slot(cmp, nx, s, cut, part, l) { EmptyHeld(cmp, nx, s, 0); }
    ShlGrows(1, bits - 1);
    assert s[0..] == s;
  }

  /** The slots from lev on, and the merged list of everything below them. */
  ghost predicate Collecting(cmp: Cmp, nx0: seq<int>, nx: seq<int>, s: seq<Node>, cut: seq<nat>, part: seq<int>,
      bits: nat,
      lev: nat, list: int) {
    && Once(multiset(s)) && |part| == bits + 1 && |cut| == bits + 2 && Descends(cut) && lev <= bits
    && (forall l :: lev <= l <= bits ==> Slot(cmp, nx, s, cut, part, l))
    && Held(cmp, nx, s, cut[lev], |s|, list) && SameOff(nx0, nx, multiset(s))
  }

  lemma CollectStep(cmp: Cmp, nx0: seq<int>, nx: seq<int>, nx': seq<int>, s: seq<Node>, cut: seq<nat>,
      part: seq<int>, bits: nat,
      lev: nat, list: int, list': int)
    requires Collecting(cmp, nx0, nx, s, cut, part, bits, lev, list) && lev < bits
    requires Held(cmp, nx', s, cut[lev + 1], |s|, list') && SameOff(nx, nx', multiset(s[cut[lev + 1]..|s|]))
    ensures Collecting(cmp, nx0, nx', s, cut, part, bits, lev + 1, list')
  {
    forall l | lev + 1 <= l <= bits ensures Slot(cmp, nx', s, cut, part, l) {
      assert Slot(cmp, nx, s, cut, part, l);
      HeldFrame(cmp, nx, nx', s, cut[l + 1], cut[l], part[l], cut[lev + 1], |s|);
    }
    SliceWithin(nx0, nx, nx', s, cut[lev + 1], |s|);
  }

  lemma CollectSkip(cmp: Cmp, nx0: seq<int>, nx: seq<int>, s: seq<Node>, cut: seq<nat>, part: seq<int>, bits: nat,
      lev: nat, list: int)
    requires Collecting(cmp, nx0, nx, s, cut, part, bits, lev, list) && lev < bits && part[lev] == -1
    ensures Collecting(cmp, nx0, nx, s, cut, part, bits, lev + 1, list)
  {
    assert Slot(cmp, nx, s, cut, part, lev);
    SlotEmpty(cmp, nx, s, cut, part, lev);
  }

  /** Merge the slots below maxLev, from the lowest up. */
  method Collect(cmp: Cmp, next: array<int>, part: array<int>, bits: nat, maxLev: nat,
      ghost nx0: seq<int>, ghost s: seq<Node>, ghost cut: seq<nat>) returns (list: int)
    requires next != part && part.Length == bits + 1 && Sorting(cmp, nx0, next[..], s, cut, part[..], bits, maxLev, |s|)
    modifies next
    ensures Collecting(cmp, nx0, next[..], s, cut, part[..], bits, maxLev, list)
  {
    list := -1;
    EmptyHeld(cmp, next[..], s, |s|);
    var lev := 0;
    ghost var pt := part[..];
    while lev < maxLev
      invariant 0 <= lev <= maxLev < bits && part[..] == pt
      invariant Collecting(cmp, nx0, next[..], s, cut, pt, bits, lev, list)
    {
      ghost var nx := next[..];
      assert Slot(cmp, nx, s, cut, pt, lev);
      if part[lev] != -1 {
        var merged := MergeStretches(cmp, next, part[lev], list, s, cut[lev + 1], cut[lev], |s|);
        CollectStep(cmp, nx0, nx, next[..], s, cut, pt, bits, lev, list, merged);
        list := merged;
      } else {
        CollectSkip(cmp, nx0, nx, s, cut, pt, bits, lev, list);
      }
      lev := lev + 1;
    }
  }

  /** Opening the ring: head->prev->next = NULL. */
  lemma OpenRing(nx: seq<int>, pv: seq<int>, head: Node, s: seq<Node>)
    requires Ring(nx, pv, head, s) && s != [] && Once(multiset([head] + s))
    ensures 0 <= pv[head] < |nx| && nx[head] == s[0] && Once(multiset(s))
    ensures Chain(nx[pv[head] := -1], s, -1) && SameOff(nx, nx[pv[head] := -1], multiset(s))
    ensures nx[pv[head] := -1][head] == s[0]
  {
    assert ([head] + s)[1..] == s;
    assert Last([head] + s) == Last(s);
    assert multiset([head] + s) == multiset{head} + multiset(s);
    HeadOnce(head, s);
    forall x ensures multiset(s)[x] <= 1 { assert multiset([head] + s)[x] >= multiset(s)[x]; }
    Redirect(nx, s, head, -1);
    assert s[|s| - 1] in s;
  }

  /** The collected list and the top slot make up everything. */
  lemma Halves(cmp: Cmp, nx0: seq<int>, nx: seq<int>, head: Node, s: seq<Node>, cut: seq<nat>, part: seq<int>,
      bits: nat, lev: nat, list: int)
    returns (sa: seq<Node>, sb: seq<Node>)
    requires Collecting(cmp, nx0, nx, s, cut, part, bits, lev, list) && cut[lev + 1] == 0 < cut[lev] && lev < bits
    requires Once(multiset([head] + s))
    ensures Chain(nx, sa, -1) && Chain(nx, sb, -1) && part[lev] == First(sa, -1) && list == First(sb, -1)
    ensures multiset{head} + multiset(sa) + multiset(sb) == multiset([head] + s)
    ensures sa != [] && Arranges(cmp, s, Merge(cmp, sa, sb))
  {
    assert Slot(cmp, nx, s, cut, part, lev);
    var c := cut[lev];
    sa :| HeldAs(cmp, nx, s, 0, c, part[lev], sa);
    sb :| HeldAs(cmp, nx, s, c, |s|, list, sb);
    SliceSplit(s, 0, c, |s|);
    assert s[0..|s|] == s;
    assert multiset([head] + s) == multiset{head} + multiset(s);
    ArrangedLength(cmp, s[0..c], sa);
    ArrangesMerge(cmp, s[0..c], s[c..|s|], sa, sb);
  }

  /** The main loop: every node goes into the slots. */
  method Distribute(cmp: Cmp, next: array<int>, part: array<int>, bits: nat, list0: int, ghost nx0: seq<int>,
      ghost s: seq<Node>)
    returns (maxLev: nat, ghost cut: seq<nat>)
    requires next != part && bits > 0 && part[..] == seq(bits + 1, _ => -1) && list0 == First(s, -1)
    requires Once(multiset(s)) && Chain(next[..], s, -1) && SameOff(nx0, next[..], multiset(s))
    modifies next, part
    ensures Sorting(cmp, nx0, next[..], s, cut, part[..], bits, maxLev, |s|)
  {
    var list := list0;
    maxLev := 0;
    cut := seq(bits + 2, _ => 0);
    ghost var k: nat := 0;
    StartSorting(cmp, nx0, next[..], s, bits);
    assert s[0..] == s;
    while list != -1
      invariant Sorting(cmp, nx0, next[..], s, cut, part[..], bits, maxLev, k) && list == First(s[k..], -1)
      decreases |s| - k
    {
      Detach(cmp, nx0, next[..], s, cut, part[..], bits, maxLev, k);
      var cur := list;
      list := next[list];
      next[cur] := -1;
      maxLev, cut := AddNode(cmp, next, part, bits, cur, maxLev, nx0, s, cut, k);
      k := k + 1;
    }
  }

  /** The ring is empty exactly when head points to itself. */
  lemma RingStart(nx: seq<int>, pv: seq<int>, head: Node, s: seq<Node>)
    requires Ring(nx, pv, head, s) && head < |nx| && Once(multiset([head] + s))
    ensures nx[head] == First(s, head) && (nx[head] == head <==> s == [])
  {
    HeadOnce(head, s);
    assert ([head] + s)[1..] == s;
  }

  /** Changes inside the list and then anywhere in the ring stay in the ring. */
  lemma RingFrame(nx0: seq<int>, nx: seq<int>, nx': seq<int>, head: Node, s: seq<Node>)
    requires SameOff(nx0, nx, multiset(s)) && SameOff(nx, nx', multiset([head] + s))
    ensures SameOff(nx0, nx', multiset([head] + s))
  {
    assert multiset([head] + s) == multiset{head} + multiset(s);
  }

  /** list_sort after the test for an empty list. */
  method SortNonempty(cmp: Cmp, next: array<int>, prev: array<int>, head: Node, bits: nat, ghost s: seq<Node>)
    returns (ghost r: seq<Node>)
    requires next != prev && head < next.Length && bits > 0 && s != []
    requires Ring(next[..], prev[..], head, s) && Once(multiset([head] + s))
    modifies next, prev
    ensures Ring(next[..], prev[..], head, r) && multiset(r) == multiset(s) && (Preorder(cmp) ==> r == Sort(cmp, s))
    ensures SameOff(old(next[..]), next[..], multiset([head] + s))
    ensures SameOff(old(prev[..]), prev[..], multiset([head] + s))
  {
    ghost var nx0 := next[..];
    OpenRing(nx0, prev[..], head, s);
    var part := new int[bits + 1](_ => -1);
    next[prev[head]] := -1;
    var maxLev, cut := Distribute(cmp, next, part, bits, next[head], nx0, s);
    var list := Collect(cmp, next, part, bits, maxLev, nx0, s, cut);
    ghost var nx := next[..];
    ghost var sa, sb := Halves(cmp, nx0, nx, head, s, cut, part[..], bits, maxLev, list);
    MergeAndRestore(cmp, next, prev, head, part[maxLev], list, sa, sb);
    r := Merge(cmp, sa, sb);
    RingFrame(nx0, nx, next[..], head, s);
  }

  /**
   * list_sort: whatever cmp answers, the ring around head becomes a closed ring of the same nodes; if cmp is a
   * preorder, the ring of the stably sorted nodes. bits is MAX_LIST_LENGTH_BITS; the list may be longer than 2^bits.
   */
  method SortList(cmp: Cmp, next: array<int>, prev: array<int>, head: Node, bits: nat, ghost s: seq<Node>)
    returns (ghost r: seq<Node>)
    requires next != prev && head < next.Length && bits > 0
    requires Ring(next[..], prev[..], head, s) && Once(multiset([head] + s))
    modifies next, prev
    ensures Ring(next[..], prev[..], head, r) && multiset(r) == multiset(s) && (Preorder(cmp) ==> r == Sort(cmp, s))
    ensures SameOff(old(next[..]), next[..], multiset([head] + s))
    ensures SameOff(old(prev[..]), prev[..], multiset([head] + s))
  {
    RingStart(next[..], prev[..], head, s);
    r := [];
    if next[head] != head {
      r := SortNonempty(cmp, next, prev, head, bits, s);
    }
  }

  // ---- reading the results

  lemma {:induction false} ChainAt(nx: seq<int>, s: seq<Node>, end: int, i: nat)
    requires Chain(nx, s, end) && i < |s|
    ensures s[i] < |nx| && nx[s[i]] == if i + 1 < |s| then s[i + 1] else end
    decreases i
  {
    if i > 0 { ChainAt(nx, s[1..], end, i - 1); }
  }

  lemma {:induction false} BackAt(pv: seq<int>, s: seq<Node>, from: Node, i: nat)
    requires Back(pv, s, from) && i < |s|
    ensures s[i] < |pv| && pv[s[i]] == if i == 0 then from else s[i - 1]
    decreases |s|
  {
    if i < |s| - 1 { BackAt(pv, s[..|s| - 1], from, i); }
  }

  /** In a ring, prev undoes next at every node. */
  lemma PrevInvertsNext(nx: seq<int>, pv: seq<int>, head: Node, s: seq<Node>, i: nat)
    requires Ring(nx, pv, head, s) && i <= |s|
    ensures var x := ([head] + s)[i]; x < |nx| && 0 <= nx[x] < |pv| && pv[nx[x]] == x
  {
    var t := [head] + s;
    ChainAt(nx, t, head, i);
    ChainAt(nx, t, head, 0);
    if i < |s| { BackAt(pv, s, head, i); }
  }

  lemma {:induction false} MultipleShl(x: nat, k: nat) returns (q: nat)
    requires Shl(1, k) > 0 && Multiple(x, Shl(1, k))
    ensures x == Shl(q, k)
    decreases x
  {
    if x == 0 {
      q := 0;
      ShlZero(k);
    } else {
      var p := MultipleShl(x - Shl(1, k), k);
      q := p + 1;
      ShlAdd(p, 1, k);
    }
  }

  /** What is in slot l and above is a multiple of 2^l. */
  lemma {:induction false} AboveIsMultiple(cut: seq<nat>, bits: nat, l: nat) returns (q: nat)
    requires Binary(cut, bits) && l < bits
    ensures cut[l] == Shl(q, l)
    ensures l < bits - 1 ==>
              exists h: nat :: cut[l + 1] == Shl(h, l + 1) && q == 2 * h + if cut[l] == cut[l + 1] then 0 else 1
    decreases bits - l
  {
    if l == bits - 1 {
      q := MultipleShl(cut[l], l);
    } else {
      var h := AboveIsMultiple(cut, bits, l + 1);
      ShlShl(h, 1, l);
      assert Shl(h, 1) == 2 * h by { assert Shl(h, 0) == h; }
      ShlAdd(2 * h, 1, l);
      q := 2 * h + if cut[l] == cut[l + 1] then 0 else 1;
      assert cut[l + 1] == Shl(2 * h, l) by { ShlDouble(h, l); }
    }
  }

  lemma ShlInjective(a: nat, b: nat, k: nat)
    requires Shl(a, k) == Shl(b, k)
    ensures a == b
  {
    ShlOrder(a, b, k);
    ShlOrder(b, a, k);
  }

  /** The nodes in slot l and above, counted in units of 2^l, are the count shifted right by l. */
  lemma {:induction false} CountAbove(cut: seq<nat>, bits: nat, l: nat)
    requires Binary(cut, bits) && l < bits
    ensures cut[l] == Shl(Shr(cut[0], l), l)
    decreases l
  {
    if l > 0 {
      CountAbove(cut, bits, l - 1);
      var q := AboveIsMultiple(cut, bits, l - 1);
      var h: nat :| cut[l] == Shl(h, l) && q == 2 * h + if cut[l - 1] == cut[l] then 0 else 1;
      ShlInjective(q, Shr(cut[0], l - 1), l - 1);
      assert Shr(cut[0], l) == q / 2;
    }
  }

  /** Below the top slot, a slot is in use exactly when that bit of the node count is one. */
  lemma SlotsAreBinaryDigits(cut: seq<nat>, bits: nat, l: nat)
    requires Binary(cut, bits) && l < bits - 1
    ensures cut[l] != cut[l + 1] <==> Shr(cut[0], l) % 2 == 1
  {
    CountAbove(cut, bits, l);
    var q := AboveIsMultiple(cut, bits, l);
    ShlInjective(q, Shr(cut[0], l), l);
  }
}
