/** The Burrows-Wheeler transform, defined by sorting all rotations, and the vector that undoes it. */
module BurrowsWheeler {
  import opened Bytes
  import opened ByteStrings
  import opened CountingSort

  function Rotation(s: Str, k: nat): (r: Str)
    requires k <= |s|
    ensures |r| == |s|
  {
    s[k..] + s[..k]
  }

  function Rotations(s: Str): (r: seq<Str>) {
    seq(|s|, k requires 0 <= k < |s| => Rotation(s, k))
  }

  function LastColumn(rows: seq<Str>): (col: Str)
    requires forall i :: 0 <= i < |rows| ==> rows[i] != []
    ensures |col| == |rows|
    ensures forall i :: 0 <= i < |rows| ==> col[i] == rows[i][|rows[i]| - 1]
  {
    seq(|rows|, i requires 0 <= i < |rows| => rows[i][|rows[i]| - 1])
  }

  /** rows is the sorted matrix of all rotations of s. */
  ghost predicate IsRotationMatrix(s: Str, rows: seq<Str>) {
    Sorted(rows) && multiset(rows) == multiset(Rotations(s))
  }

  lemma RowShape(s: Str, rows: seq<Str>)
    requires s != [] && IsRotationMatrix(s, rows)
    ensures |rows| == |s|
    ensures forall i :: 0 <= i < |rows| ==> |rows[i]| == |s|
  {
    assert |multiset(rows)| == |rows| && |multiset(Rotations(s))| == |s|;
    forall i | 0 <= i < |rows| ensures |rows[i]| == |s| {
      assert rows[i] in multiset(rows);
      assert rows[i] in Rotations(s);
    }
  }

  /** The transform itself: the last column of the matrix, and a row that holds s. */
  ghost predicate IsTransform(s: Str, column: Str, orig: nat) {
    exists rows :: IsTransformVia(s, rows, column, orig)
  }

  ghost predicate IsTransformVia(s: Str, rows: seq<Str>, column: Str, orig: nat) {
    && s != []
    && IsRotationMatrix(s, rows)
    && (forall i :: 0 <= i < |rows| ==> rows[i] != [])
    && column == LastColumn(rows)
    && orig < |rows|
    && rows[orig] == s
  }

  /** Every non-empty string has a transform, so statements about transforms are not vacuous. */
  lemma TransformExists(s: Str) returns (column: Str, orig: nat)
    requires s != []
    ensures IsTransform(s, column, orig)
  {
    var rows := SortRows(Rotations(s));
    SortRowsSorts(Rotations(s));
    RowShape(s, rows);
    column := LastColumn(rows);
    assert Rotation(s, 0) == s;
    assert s == Rotations(s)[0];
    assert s in multiset(rows);
    orig :| 0 <= orig < |rows| && rows[orig] == s;
    assert IsTransformVia(s, rows, column, orig);
  }

  // ---- mapping a sequence through a permutation keeps its multiset

  function Gather<T>(s: seq<T>, t: seq<nat>): (r: seq<T>)
    requires forall j :: 0 <= j < |t| ==> t[j] < |s|
    ensures |r| == |t|
    ensures forall j :: 0 <= j < |t| ==> r[j] == s[t[j]]
  {
    seq(|t|, j requires 0 <= j < |t| => s[t[j]])
  }

  lemma {:induction false} GatherMultiset<T>(s: seq<T>, t: seq<nat>)
    requires |t| == |s|
    requires forall j :: 0 <= j < |t| ==> t[j] < |s|
    requires forall j, k :: 0 <= j < k < |t| ==> t[j] != t[k]
    ensures multiset(Gather(s, t)) == multiset(s)
  {
    if s != [] {
      var n := |s| - 1;
      var p, t' := CutLargest(t);
      GatherMultiset(s[..n], t');
      GatherRemove(s, t, p, t');
      SnocMultiset(s);
    }
  }

  lemma SnocMultiset<T>(s: seq<T>)
    requires s != []
    ensures multiset(s) == multiset(s[..|s| - 1]) + multiset{s[|s| - 1]}
  {
    assert s == s[..|s| - 1] + [s[|s| - 1]];
  }

  lemma CutLargest(t: seq<nat>) returns (p: nat, t': seq<nat>)
    requires t != [] && forall j :: 0 <= j < |t| ==> t[j] < |t|
    requires forall j, k :: 0 <= j < k < |t| ==> t[j] != t[k]
    ensures p < |t| && t[p] == |t| - 1 && t' == t[..p] + t[p + 1..]
    ensures forall j :: 0 <= j < |t'| ==> t'[j] < |t| - 1
    ensures forall j, k :: 0 <= j < k < |t'| ==> t'[j] != t'[k]
  {
    InjectionIsOnto(t, |t| - 1);
    p :| p < |t| && t[p] == |t| - 1;
    t' := t[..p] + t[p + 1..];
    CutInjective(t, p, t');
  }

  /** An injection into 0..|t| without the place of its largest value is an injection into 0..|t| - 1. */
  lemma CutInjective(t: seq<nat>, p: nat, t': seq<nat>)
    requires p < |t| && t[p] == |t| - 1 && t' == t[..p] + t[p + 1..]
    requires forall j :: 0 <= j < |t| ==> t[j] < |t|
    requires forall j, k :: 0 <= j < k < |t| ==> t[j] != t[k]
    ensures forall j :: 0 <= j < |t'| ==> t'[j] < |t| - 1
    ensures forall j, k :: 0 <= j < k < |t'| ==> t'[j] != t'[k]
  {
    assert forall j :: 0 <= j < |t'| ==> t'[j] == t[if j < p then j else j + 1];
  }

  lemma GatherRemove<T>(s: seq<T>, t: seq<nat>, p: nat, t': seq<nat>)
    requires p < |t| && t' == t[..p] + t[p + 1..] && s != []
    requires forall j :: 0 <= j < |t| ==> t[j] < |s|
    requires forall j :: 0 <= j < |t'| ==> t'[j] < |s| - 1
    ensures multiset(Gather(s, t)) == multiset(Gather(s[..|s| - 1], t')) + multiset{s[t[p]]}
  {
    RemoveAt(Gather(s, t), p);
    assert Gather(s[..|s| - 1], t') == Gather(s, t)[..p] + Gather(s, t)[p + 1..];
  }

  lemma RemoveAt<T>(s: seq<T>, p: nat)
    requires p < |s|
    ensures multiset(s) == multiset(s[..p] + s[p + 1..]) + multiset{s[p]}
  {
    assert s == s[..p] + [s[p]] + s[p + 1..];
  }

  // ---- the key step: following the vector rotates the row by one

  function Unrotate(r: Str): Str {
    if r == [] then [] else [r[|r| - 1]] + r[..|r| - 1]
  }

  function Image<T, U>(f: T -> U, s: seq<T>): (m: seq<U>)
    ensures |m| == |s|
    ensures forall i :: 0 <= i < |s| ==> m[i] == f(s[i])
  {
    seq(|s|, i requires 0 <= i < |s| => f(s[i]))
  }

  lemma ImageRemove<T, U>(f: T -> U, s: seq<T>, p: nat)
    requires p < |s|
    ensures multiset(Image(f, s)) == multiset(Image(f, s[..p] + s[p + 1..])) + multiset{f(s[p])}
  {
    RemoveAt(Image(f, s), p);
    assert Image(f, s[..p] + s[p + 1..]) == Image(f, s)[..p] + Image(f, s)[p + 1..];
  }

  /** The head of one arrangement can be taken out of the other. */
  lemma TakeOut<T>(a: seq<T>, b: seq<T>) returns (p: nat)
    requires multiset(a) == multiset(b) && a != []
    ensures p < |b| && b[p] == a[0] && multiset(b[..p] + b[p + 1..]) == multiset(a[1..])
  {
    assert a[0] in multiset(b);
    p :| p < |b| && b[p] == a[0];
    RemoveAt(b, p);
    TailMultiset(a);
  }

  lemma ImageHead<T, U>(f: T -> U, a: seq<T>)
    requires a != []
    ensures multiset(Image(f, a)) == multiset(Image(f, a[1..])) + multiset{f(a[0])}
  {
    ImageRemove(f, a, 0);
    assert a[..0] + a[1..] == a[1..];
  }

  /** Mapping a function over two arrangements of the same rows gives two arrangements of the same images. */
  lemma {:induction false} ImageMultiset<T, U>(f: T -> U, a: seq<T>, b: seq<T>)
    requires multiset(a) == multiset(b)
    ensures multiset(Image(f, a)) == multiset(Image(f, b))
    decreases |a|
  {
    if a == [] {
      assert |multiset(b)| == |b|;
    } else {
      var p := TakeOut(a, b);
      ImageMultiset(f, a[1..], b[..p] + b[p + 1..]);
      ImageRemove(f, b, p);
      ImageHead(f, a);
    }
  }

  lemma UnrotateRotation(s: Str, k: nat)
    requires 0 < k <= |s|
    ensures Unrotate(Rotation(s, k)) == Rotation(s, k - 1)
  {
    var x, y := Unrotate(Rotation(s, k)), Rotation(s, k - 1);
    forall m | 0 <= m < |s| ensures x[m] == y[m] {
      assert y[m] == s[if m < |s| - (k - 1) then k - 1 + m else m - (|s| - (k - 1))];
    }
  }

  lemma CyclicShiftMultiset<T>(u: seq<T>, r: seq<T>)
    requires |u| == |r| > 0 && u[0] == r[|r| - 1]
    requires forall k :: 0 < k < |u| ==> u[k] == r[k - 1]
    ensures multiset(u) == multiset(r)
  {
    var n := |r| - 1;
    assert u == [r[n]] + r[..n];
    assert r == r[..n] + [r[n]];
  }

  /** Unrotating every rotation of s yields the rotations of s again, shifted by one. */
  lemma RotationsClosed(s: Str)
    requires s != []
    ensures multiset(Image(Unrotate, Rotations(s))) == multiset(Rotations(s))
  {
    forall k | 0 < k <= |s| ensures Unrotate(Rotation(s, k)) == Rotation(s, k - 1) { UnrotateRotation(s, k); }
    assert Rotation(s, |s|) == Rotation(s, 0);
    CyclicShiftMultiset(Image(Unrotate, Rotations(s)), Rotations(s));
  }

  lemma UnrotateOrder(rows: seq<Str>, i: nat, j: nat)
    requires Sorted(rows) && i < |rows| && j < |rows| && rows[i] != [] && |rows[i]| == |rows[j]|
    requires
      var a, b := rows[i][|rows[i]| - 1], rows[j][|rows[j]| - 1];
      a < b || (a == b && i < j)
    ensures Leq(Unrotate(rows[i]), Unrotate(rows[j]))
  {
    var n := |rows[i]| - 1;
    if rows[i][n] == rows[j][n] {
      LeqTake(rows[i], rows[j], n);
      assert Unrotate(rows[i])[1..] == rows[i][..n];
      assert Unrotate(rows[j])[1..] == rows[j][..n];
    }
  }

  /** Taking the unrotated rows in vector order lists them sorted. */
  lemma GatheredSorted(rows: seq<Str>, n: nat, t: seq<nat>)
    requires Sorted(rows) && n > 0 && forall i :: 0 <= i < |rows| ==> |rows[i]| == n
    requires IsStableOrder(LastColumn(rows), t)
    requires forall j :: 0 <= j < |t| ==> t[j] < |rows| && Landing(LastColumn(rows), t[j]) == j
    ensures Sorted(Gather(Image(Unrotate, rows), t))
  {
    var l := LastColumn(rows);
    var h := Gather(Image(Unrotate, rows), t);
    forall j, k | 0 <= j < k < |h| ensures Leq(h[j], h[k]) {
      var a, b := t[j], t[k];
      if !(l[a] < l[b] || (l[a] == l[b] && a < b)) && a != b { LandingOrder(l, b, a); }
      UnrotateOrder(rows, a, b);
    }
  }

  /** Row t[j] of the sorted matrix is row j rotated left by one. Holds for periodic strings too, where rows repeat. */
  lemma VectorRotates(s: Str, rows: seq<Str>, t: seq<nat>)
    requires s != [] && IsRotationMatrix(s, rows)
    requires |rows| == |s| && forall i :: 0 <= i < |rows| ==> |rows[i]| == |s|
    requires IsStableOrder(LastColumn(rows), t)
    ensures forall j :: 0 <= j < |t| ==> t[j] < |rows| && rows[j] == Unrotate(rows[t[j]])
  {
    forall j | 0 <= j < |t| ensures t[j] < |rows| && Landing(LastColumn(rows), t[j]) == j {
      OrderIsPermutation(LastColumn(rows), t, j);
    }
    var u := Image(Unrotate, rows);
    GatheredSorted(rows, |s|, t);
    GatherMultiset(u, t);
    ImageMultiset(Unrotate, rows, Rotations(s));
    RotationsClosed(s);
    SortedUnique(Gather(u, t), rows);
  }

  // ---- the walk

  /** Slot reached after k + 1 hops along t from orig. */
  ghost function Hop(t: seq<nat>, orig: nat, k: nat): (p: nat)
    requires orig < |t| && forall j :: 0 <= j < |t| ==> t[j] < |t|
    ensures p < |t|
  {
    if k == 0 then t[orig] else t[Hop(t, orig, k - 1)]
  }

  lemma RotateStep(s: Str, x: Str, k: nat)
    requires k < |s| == |x| && Unrotate(x) == Rotation(s, k)
    ensures x == Rotation(s, k + 1)
    ensures x[|s| - 1] == s[k]
  {
    var n := |s|;
    assert x[n - 1] == Unrotate(x)[0] && x[..n - 1] == Unrotate(x)[1..];
    assert s[..k + 1] == s[..k] + [s[k]];
    assert x == x[..n - 1] + [x[n - 1]];
  }

  lemma {:induction false} HopRow(s: Str, rows: seq<Str>, t: seq<nat>, orig: nat, k: nat)
    requires s != [] && orig < |rows| && rows[orig] == s
    requires |t| == |rows| == |s| && k < |s|
    requires forall j :: 0 <= j < |t| ==> t[j] < |rows| && |rows[t[j]]| == |s| && rows[j] == Unrotate(rows[t[j]])
    ensures rows[Hop(t, orig, k)] == Rotation(s, k + 1)
    ensures rows[Hop(t, orig, k)][|s| - 1] == s[k]
  {
    if k == 0 {
      assert Rotation(s, 0) == s;
      RotateStep(s, rows[t[orig]], 0);
    } else {
      HopRow(s, rows, t, orig, k - 1);
      RotateStep(s, rows[t[Hop(t, orig, k - 1)]], k);
    }
  }

  /** The column has one entry per byte of s. */
  lemma TransformShape(s: Str, column: Str, orig: nat)
    requires IsTransform(s, column, orig)
    ensures |column| == |s| > 0 && orig < |s|
  {
    var rows :| IsTransformVia(s, rows, column, orig);
    RowShape(s, rows);
  }

  lemma WalkSpellsVia(s: Str, rows: seq<Str>, column: Str, orig: nat, t: seq<nat>, k: nat)
    requires IsTransformVia(s, rows, column, orig) && IsStableOrder(column, t) && k < |s|
    requires orig < |t| && forall j :: 0 <= j < |t| ==> t[j] < |t|
    ensures column[Hop(t, orig, k)] == s[k]
  {
    RowShape(s, rows);
    VectorRotates(s, rows, t);
    HopRow(s, rows, t, orig, k);
  }

  /** Inverse transform: the bytes met on the walk are exactly s, in order. */
  lemma WalkSpells(s: Str, column: Str, orig: nat, t: seq<nat>, k: nat)
    requires IsTransform(s, column, orig) && IsStableOrder(column, t) && k < |s|
    requires orig < |t| && forall j :: 0 <= j < |t| ==> t[j] < |t|
    ensures column[Hop(t, orig, k)] == s[k]
  {
    var rows :| IsTransformVia(s, rows, column, orig);
    WalkSpellsVia(s, rows, column, orig, t, k);
  }
}
