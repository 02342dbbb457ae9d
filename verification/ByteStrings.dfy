/** Byte strings under lexicographic order, and the uniqueness of a sorted arrangement. */
module ByteStrings {
  import opened Bytes

  type Str = seq<Byte>

  predicate Leq(a: Str, b: Str) {
    a == [] || (b != [] && (a[0] < b[0] || (a[0] == b[0] && Leq(a[1..], b[1..]))))
  }

  lemma {:induction false} LeqTotal(a: Str, b: Str)
    ensures Leq(a, b) || Leq(b, a)
  {
    if a != [] && b != [] && a[0] == b[0] {
      LeqTotal(a[1..], b[1..]);
    }
  }

  lemma {:induction false} LeqAntisymmetric(a: Str, b: Str)
    requires Leq(a, b) && Leq(b, a)
    ensures a == b
  {
    if a != [] {
      LeqAntisymmetric(a[1..], b[1..]);
      assert a == [a[0]] + a[1..] && b == [b[0]] + b[1..];
    }
  }

  lemma {:induction false} LeqTransitive(a: Str, b: Str, c: Str)
    requires Leq(a, b) && Leq(b, c)
    ensures Leq(a, c)
  {
    if a != [] && a[0] == b[0] && b[0] == c[0] {
      LeqTransitive(a[1..], b[1..], c[1..]);
    }
  }

  /** Equally long prefixes keep the order. */
  lemma {:induction false} LeqTake(a: Str, b: Str, k: nat)
    requires Leq(a, b) && k <= |a| && k <= |b|
    ensures Leq(a[..k], b[..k])
  {
    if k > 0 && a[0] == b[0] {
      LeqTake(a[1..], b[1..], k - 1);
      assert a[..k][1..] == a[1..][..k - 1] && b[..k][1..] == b[1..][..k - 1];
    }
  }

  predicate Sorted(rows: seq<Str>) {
    forall i, j :: 0 <= i < j < |rows| ==> Leq(rows[i], rows[j])
  }

  lemma HeadIsLeast(rows: seq<Str>, x: Str)
    requires Sorted(rows) && x in multiset(rows)
    ensures Leq(rows[0], x)
  {
    var i :| 0 <= i < |rows| && rows[i] == x;
    LeqTotal(x, x);
  }

  lemma TailMultiset<T>(s: seq<T>)
    requires s != []
    ensures multiset(s[1..]) == multiset(s) - multiset{s[0]}
  {
    assert s == [s[0]] + s[1..];
  }

  /** Two sorted arrangements of the same rows are the same sequence. */
  lemma {:induction false} SortedUnique(a: seq<Str>, b: seq<Str>)
    requires Sorted(a) && Sorted(b) && multiset(a) == multiset(b)
    ensures a == b
  {
    assert |multiset(a)| == |a| && |multiset(b)| == |b|;
    if a != [] {
      assert a[0] in multiset(b) && b[0] in multiset(a);
      HeadIsLeast(a, b[0]);
      HeadIsLeast(b, a[0]);
      LeqAntisymmetric(a[0], b[0]);
      TailMultiset(a);
      TailMultiset(b);
      SortedUnique(a[1..], b[1..]);
      assert a == [a[0]] + a[1..] && b == [b[0]] + b[1..];
    }
  }

  function Insert(x: Str, rows: seq<Str>): seq<Str> {
    if rows == [] then [x] else if Leq(x, rows[0]) then [x] + rows else [rows[0]] + Insert(x, rows[1..])
  }

  lemma {:induction false} InsertMultiset(x: Str, rows: seq<Str>)
    ensures multiset(Insert(x, rows)) == multiset(rows) + multiset{x}
    decreases |rows|
  {
    if rows != [] {
      InsertMultiset(x, rows[1..]);
      assert rows == [rows[0]] + rows[1..];
    }
  }

  lemma ConsSorted(x: Str, rows: seq<Str>)
    requires Sorted(rows) && forall k :: 0 <= k < |rows| ==> Leq(x, rows[k])
    ensures Sorted([x] + rows)
  {}

  lemma {:induction false} InsertSorted(x: Str, rows: seq<Str>)
    requires Sorted(rows)
    ensures Sorted(Insert(x, rows))
    decreases |rows|
  {
    if rows == [] {
    } else if Leq(x, rows[0]) {
      forall k | 0 <= k < |rows| ensures Leq(x, rows[k]) {
        if k > 0 { LeqTransitive(x, rows[0], rows[k]); }
      }
      ConsSorted(x, rows);
    } else {
      var t := Insert(x, rows[1..]);
      InsertSorted(x, rows[1..]);
      InsertMultiset(x, rows[1..]);
      LeqTotal(x, rows[0]);
      forall k | 0 <= k < |t| ensures Leq(rows[0], t[k]) {
        assert t[k] in multiset(t);
        assert t[k] == x || t[k] in rows[1..];
      }
      ConsSorted(rows[0], t);
    }
  }

  function SortRows(rows: seq<Str>): seq<Str> {
    if rows == [] then [] else Insert(rows[0], SortRows(rows[1..]))
  }

  lemma {:induction false} SortRowsSorts(rows: seq<Str>)
    ensures multiset(SortRows(rows)) == multiset(rows) && Sorted(SortRows(rows))
    decreases |rows|
  {
    if rows != [] {
      SortRowsSorts(rows[1..]);
      InsertMultiset(rows[0], SortRows(rows[1..]));
      InsertSorted(rows[0], SortRows(rows[1..]));
      assert rows == [rows[0]] + rows[1..];
    }
  }
}

/** Counting sort: where each entry of a byte string lands, and the order it defines. */
module CountingSort {
  import opened Bytes
  import opened Sequences
  import opened Ranges
  import opened ByteStrings

  function CountOf(l: Str, c: int): nat {
    if 0 <= c < 256 then multiset(l)[c] else 0
  }

  /** One more entry. */
  lemma CountOfTake(l: Str, i: nat, c: int)
    requires i < |l|
    ensures CountOf(l[..i + 1], c) == CountOf(l[..i], c) + if l[i] == c then 1 else 0
  {
    assert l[..i + 1] == l[..i] + [l[i]];
  }

  lemma CountOfSnoc(l: Str, c: int)
    requires l != []
    ensures CountOf(l, c) == CountOf(l[..|l| - 1], c) + if l[|l| - 1] == c then 1 else 0
  {
    CountOfTake(l, |l| - 1, c);
    assert l[..|l|] == l;
  }

  /** Number of entries smaller than c. */
  function CountBelow(l: Str, c: nat): nat {
    if c == 0 then 0 else CountBelow(l, c - 1) + CountOf(l, c - 1)
  }

  function Landing(l: Str, i: nat): nat
    requires i < |l|
  {
    CountBelow(l, l[i]) + CountOf(l[..i], l[i])
  }

  lemma {:induction false} CountBelowStep(l: Str, x: Byte, c: nat)
    ensures CountBelow(l + [x], c) == CountBelow(l, c) + if x < c then 1 else 0
  {
    if c > 0 {
      CountBelowStep(l, x, c - 1);
    }
  }

  lemma {:induction false} CountBelowAll(l: Str, top: nat)
    requires forall i :: 0 <= i < |l| ==> l[i] < top
    ensures CountBelow(l, top) == |l|
  {
    if l == [] {
      CountBelowEmpty(top);
    } else {
      CountBelowAll(l[..|l| - 1], top);
      assert l == l[..|l| - 1] + [l[|l| - 1]];
      CountBelowStep(l[..|l| - 1], l[|l| - 1], top);
    }
  }

  lemma {:induction false} CountBelowEmpty(c: nat)
    ensures CountBelow([], c) == 0
  {
    if c > 0 { CountBelowEmpty(c - 1); }
  }

  lemma {:induction false} CountBelowMonotone(l: Str, c: nat, d: nat)
    requires c <= d
    ensures CountBelow(l, c) <= CountBelow(l, d)
  {
    if c < d { CountBelowMonotone(l, c, d - 1); }
  }

  /** Occurrences before i number strictly fewer than those before j when l[i] is c. */
  lemma {:induction false} CountOfPrefix(l: Str, i: nat, j: nat, c: int)
    requires i <= j <= |l|
    ensures CountOf(l[..i], c) <= CountOf(l[..j], c)
    ensures i < j && l[i] == c ==> CountOf(l[..i], c) < CountOf(l[..j], c)
  {
    if i < j {
      CountOfPrefix(l, i, j - 1, c);
      CountOfTake(l, j - 1, c);
    }
  }

  lemma LandingInRange(l: Str, i: nat)
    requires i < |l|
    ensures Landing(l, i) < CountBelow(l, l[i] as int + 1) <= |l|
  {
    CountOfPrefix(l, i, |l|, l[i]);
    assert l[..|l|] == l;
    var top := l[i] as int + 256;
    CountBelowMonotone(l, l[i] as int + 1, top);
    CountBelowAll(l, top);
  }

  /** Landing is strictly increasing in (byte, index): the counting pass is a stable sort. */
  lemma LandingOrder(l: Str, i: nat, j: nat)
    requires i < |l| && j < |l|
    requires l[i] < l[j] || (l[i] == l[j] && i < j)
    ensures Landing(l, i) < Landing(l, j)
  {
    if l[i] < l[j] {
      LandingInRange(l, i);
      CountBelowMonotone(l, l[i] as int + 1, l[j]);
    } else {
      CountOfPrefix(l, i, j, l[i]);
    }
  }

  /** t lists the indices of l in stable sorted order: slot Landing(i) holds i. */
  ghost predicate IsStableOrder(l: Str, t: seq<nat>) {
    && |t| == |l|
    && (forall i :: 0 <= i < |l| ==> Landing(l, i) < |t| && t[Landing(l, i)] == i)
  }

  // ---- finite counting facts

  lemma {:induction false} DistinctCard(s: seq<nat>)
    requires forall i, j :: 0 <= i < j < |s| ==> s[i] != s[j]
    ensures |Elements(s)| == |s|
  {
    if s != [] {
      var p, x := s[..|s| - 1], s[|s| - 1];
      DistinctCard(p);
      assert s == p + [x];
      assert Elements(s) == Elements(p) + {x};
    }
  }

  /** An injection of 0..n into itself is onto. */
  lemma InjectionIsOnto(s: seq<nat>, k: nat)
    requires forall i :: 0 <= i < |s| ==> s[i] < |s|
    requires forall i, j :: 0 <= i < j < |s| ==> s[i] != s[j]
    requires k < |s|
    ensures k in s
  {
    DistinctCard(s);
    RangeCard(0, |s|);
    if k !in s {
      assert Elements(s) <= Range(0, |s|) - {k};
      SubsetCard(Elements(s), Range(0, |s|) - {k});
    }
  }

  /** A stable order is a permutation: every slot is some entry's landing place. */
  lemma OrderIsPermutation(l: Str, t: seq<nat>, j: nat)
    requires IsStableOrder(l, t) && j < |l|
    ensures t[j] < |l| && Landing(l, t[j]) == j
  {
    var landings := seq(|l|, i requires 0 <= i < |l| => Landing(l, i));
    forall i, k | 0 <= i < k < |l| ensures landings[i] != landings[k] {
      if l[i] <= l[k] { LandingOrder(l, i, k); } else { LandingOrder(l, k, i); }
    }
    forall i | 0 <= i < |l| ensures landings[i] < |l| { LandingInRange(l, i); }
    InjectionIsOnto(landings, j);
    var i :| 0 <= i < |l| && landings[i] == j;
  }

  lemma OrderInRange(l: Str, t: seq<nat>)
    requires IsStableOrder(l, t)
    ensures forall j :: 0 <= j < |t| ==> t[j] < |t|
  {
    forall j | 0 <= j < |t| ensures t[j] < |t| { OrderIsPermutation(l, t, j); }
  }

  lemma LandingDistinct(l: Str, i: nat, k: nat)
    requires k < i < |l|
    ensures Landing(l, k) != Landing(l, i) < |l|
  {
    LandingInRange(l, i);
    if l[k] <= l[i] { LandingOrder(l, k, i); } else { LandingOrder(l, i, k); }
  }

  /** The first i entries are linked, every other slot is still untouched. */
  ghost predicate Linked(l: Str, t: seq<nat>, i: nat) {
    && |t| == |l| && i <= |l|
    && (forall k :: 0 <= k < i ==> Landing(l, k) < |l| && t[Landing(l, k)] == k)
    && (forall x :: 0 <= x < |l| && t[x] != 0 ==> t[x] < i && Landing(l, t[x]) == x)
  }

  lemma LinkStep(l: Str, t: seq<nat>, i: nat)
    requires Linked(l, t, i) && i < |l|
    ensures Landing(l, i) < |l| && t[Landing(l, i)] == 0
    ensures Linked(l, t[Landing(l, i) := i], i + 1)
  {
    LandingInRange(l, i);
    forall k | 0 <= k < i ensures Landing(l, k) != Landing(l, i) { LandingDistinct(l, i, k); }
  }
}
