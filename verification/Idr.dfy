/** Ids as strings of 8-bit digits: shifting by whole digits. */
module Radix {
  /** id >> (IDR_BITS * k) */
  function Up(id: nat, k: nat): nat {
    if k == 0 then id else Up(id, k - 1) / 256
  }

  /** x << (IDR_BITS * k) */
  function Down(x: nat, k: nat): nat {
    if k == 0 then x else 256 * Down(x, k - 1)
  }

  lemma {:induction false} DownShift(x: nat, k: nat)
    ensures Down(x, k + 1) == Down(256 * x, k)
  {
    if k > 0 { DownShift(x, k - 1); } else { assert Down(x, 0) == x; }
  }

  /** Shifting up and down are adjoint: the ids above digit k of q are those from q shifted down on. */
  lemma {:induction false} UpDown(id: nat, q: nat, k: nat)
    ensures Up(id, k) >= q <==> id >= Down(q, k)
    decreases k
  {
    if k > 0 {
      UpDown(id, 256 * q, k - 1);
      DownShift(q, k - 1);
    }
  }

  lemma UpOfDown(q: nat, k: nat)
    ensures Up(Down(q, k), k) == q
  {
    UpDown(Down(q, k), q, k);
    UpDown(Down(q, k), q + 1, k);
    DownGrows(q, k);
  }

  lemma {:induction false} DownGrows(q: nat, k: nat)
    ensures Down(q, k) < Down(q + 1, k)
  {
    if k > 0 { DownGrows(q, k - 1); }
  }

  lemma {:induction false} UpZero(id: nat, k: nat, n: nat)
    requires k <= n && Up(id, k) == 0
    ensures Up(id, n) == 0
    decreases n
  {
    if k < n { UpZero(id, k, n - 1); }
  }

  lemma {:induction false} DownDown(x: nat, a: nat, b: nat)
    ensures Down(Down(x, a), b) == Down(x, a + b)
  {
    if b > 0 { DownDown(x, a, b - 1); }
  }

  lemma {:induction false} DownMonotone(x: nat, y: nat, k: nat)
    requires x <= y
    ensures Down(x, k) <= Down(y, k)
  {
    if k > 0 { DownMonotone(x, y, k - 1); }
  }

  /** The next multiple of 256^l after an id below 256^n is at most 256^n. */
  lemma NextBound(id: nat, l: nat, n: nat)
    requires l <= n && id < Down(1, n)
    ensures id < Down(Up(id, l) + 1, l) <= Down(1, n)
  {
    var x := Down(1, n - l);
    DownDown(1, n - l, l);
    UpDown(id, x, l);
    UpDown(id, Up(id, l) + 1, l);
    DownMonotone(Up(id, l) + 1, x, l);
  }
}

/** idr: layers of a radix tree, each known by its level and by the id prefix it stands for. */
module IdrTree {
  import opened Options
  import opened Radix

  type Ptr = nat
  const NULL: Ptr := 0
  const SIZE: nat := 256
  const MAX_LEVEL: nat := 4
  const MAX_BIT: nat := 0x8000_0000

  /** Level 0 is the leaf level; the layer covers the ids whose digits above level are prefix. */
  datatype Key = Key(level: nat, prefix: nat)

  /** A set bit means "no space here"; ary is used for user pointers, in leaves. */
  datatype Layer = Layer(count: nat, bitmap: seq<bool>, ary: seq<Ptr>)

  type Tree = map<Key, Layer>

  function EmptyLayer(): Layer { Layer(0, seq(SIZE, _ => false), seq(SIZE, _ => NULL)) }

  function KeyOf(id: nat, level: nat): Key { Key(level, Up(id, level + 1)) }

  function Digit(id: nat, level: nat): (d: nat)
    ensures d < SIZE
  {
    Up(id, level) % 256
  }

  function ChildKey(k: Key, m: nat): Key { Key(if k.level == 0 then 0 else k.level - 1, 256 * k.prefix + m) }

  function Parent(k: Key): Key { Key(k.level + 1, k.prefix / 256) }

  predicate Full(bitmap: seq<bool>) { forall m :: 0 <= m < |bitmap| ==> bitmap[m] }

  /** The layer is there and has no space. */
  ghost predicate FullLayer(t: Tree, k: Key) { k in t && Full(t[k].bitmap) }

  /** One more than the largest id the tree can hold. */
  function Capacity(layers: nat): nat {
    if layers < MAX_LEVEL then Down(1, layers) else MAX_BIT
  }

  function CountTrue(s: seq<bool>): nat {
    if s == [] then 0 else CountTrue(s[..|s| - 1]) + if s[|s| - 1] then 1 else 0
  }

  /** Which children a layer has. */
  function Present(t: Tree, k: Key): (s: seq<bool>)
    ensures |s| == SIZE
  {
    seq(SIZE, m requires 0 <= m < SIZE => ChildKey(k, m) in t)
  }

  // ---- well-formed trees, layer by layer

  /** A leaf bit says that its id is taken; an inner bit that the child is there and full. */
  ghost predicate BitsOk(t: Tree, k: Key)
    requires k in t
  {
    && |t[k].bitmap| == SIZE && |t[k].ary| == SIZE
    && (k.level > 0 ==> forall m: nat :: m < SIZE ==> t[k].bitmap[m] == FullLayer(t, ChildKey(k, m)))
    && (k.level == 0 ==> forall m: nat :: m < SIZE && t[k].ary[m] != NULL ==> t[k].bitmap[m])
    && (k.level == 0 ==> forall m: nat :: m < SIZE && t[k].bitmap[m] ==> 256 * k.prefix + m < MAX_BIT)
  }

  ghost predicate CountOk(t: Tree, k: Key)
    requires k in t
  {
    t[k].count == CountTrue(if k.level == 0 then t[k].bitmap else Present(t, k))
  }

  ghost predicate Attached(t: Tree, layers: nat, k: Key) {
    k.level < layers && if k.level == layers - 1 then k.prefix == 0 else Parent(k) in t
  }

  ghost predicate Shape(t: Tree, layers: nat) {
    && layers <= MAX_LEVEL && (layers == 0 ==> t == map[]) && (layers > 0 ==> Key(layers - 1, 0) in t)
    && (forall k {:trigger Attached(t, layers, k)} :: k in t ==> Attached(t, layers, k))
  }

  ghost predicate WellFormed(t: Tree, layers: nat) {
    && Shape(t, layers) && (forall k {:trigger BitsOk(t, k)} :: k in t ==> BitsOk(t, k))
    && (forall k {:trigger CountOk(t, k)} :: k in t ==> CountOk(t, k))
  }

  // ---- the map a tree stands for

  ghost predicate Used(t: Tree, id: nat) {
    var k := KeyOf(id, 0);
    k in t && |t[k].bitmap| == |t[k].ary| == SIZE && t[k].bitmap[Digit(id, 0)]
  }

  ghost function Lookup(t: Tree, id: nat): Option<Ptr> {
    if Used(t, id) then Some(t[KeyOf(id, 0)].ary[Digit(id, 0)]) else None
  }

  /** Ancestors of a layer are there. */
  lemma {:induction false} AncestorsPresent(t: Tree, layers: nat, id: nat, l: nat, m: nat)
    requires Shape(t, layers) && KeyOf(id, l) in t && l <= m < layers
    ensures KeyOf(id, m) in t
    decreases m
  {
    if l < m {
      AncestorsPresent(t, layers, id, l, m - 1);
      assert Attached(t, layers, KeyOf(id, m - 1));
      assert Parent(KeyOf(id, m - 1)) == KeyOf(id, m);
    }
  }

  /** Ids at or above the capacity have no layer. */
  lemma LayerInRange(t: Tree, layers: nat, id: nat, l: nat)
    requires Shape(t, layers) && KeyOf(id, l) in t
    ensures l < layers && Up(id, layers) == 0 && id < Down(1, layers)
  {
    assert Attached(t, layers, KeyOf(id, l));
    AncestorsPresent(t, layers, id, l, layers - 1);
    assert Attached(t, layers, KeyOf(id, layers - 1));
    UpDown(id, 1, layers);
  }

  /** A set bit at level l means that every id below it is taken. */
  lemma {:induction false} SetBitCovers(t: Tree, layers: nat, id: nat, l: nat)
    requires WellFormed(t, layers) && KeyOf(id, l) in t && Digit(id, l) < |t[KeyOf(id, l)].bitmap|
    requires t[KeyOf(id, l)].bitmap[Digit(id, l)]
    ensures Used(t, id)
    decreases l
  {
    var k := KeyOf(id, l);
    assert BitsOk(t, k);
    if l > 0 {
      assert ChildKey(k, Digit(id, l)) == KeyOf(id, l - 1);
      assert FullLayer(t, KeyOf(id, l - 1));
      assert BitsOk(t, KeyOf(id, l - 1));
      SetBitCovers(t, layers, id, l - 1);
    }
  }

  /** If every id below a position is taken, its bit is set. */
  lemma {:induction false} CoveredSetsBit(t: Tree, layers: nat, k: Key, m: nat)
    requires WellFormed(t, layers) && k in t && m < SIZE
    requires forall id: nat :: Up(id, k.level) == 256 * k.prefix + m ==> Used(t, id)
    ensures |t[k].bitmap| == SIZE && t[k].bitmap[m]
    decreases k.level
  {
    assert BitsOk(t, k);
    var q := 256 * k.prefix + m;
    if k.level == 0 {
      assert Up(q, 0) == q;
      assert KeyOf(q, 0) == k by { assert Up(q, 1) == Up(q, 0) / 256; }
    } else {
      var c := ChildKey(k, m);
      var first := Down(q, k.level);
      UpOfDown(q, k.level);
      assert Used(t, first);
      assert Attached(t, layers, k);
      AncestorsPresent(t, layers, first, 0, k.level - 1);
      assert KeyOf(first, k.level - 1) == c;
      assert BitsOk(t, c);
      forall d: nat | d < SIZE ensures t[c].bitmap[d] {
        forall id: nat | Up(id, c.level) == 256 * c.prefix + d ensures Used(t, id) {
          assert Up(id, k.level) == Up(id, c.level) / 256;
        }
        CoveredSetsBit(t, layers, c, d);
      }
    }
  }

  /** The index is right: a bit is set exactly when every id below it is taken. */
  lemma BitMeansFull(t: Tree, layers: nat, k: Key, m: nat)
    requires WellFormed(t, layers) && k in t && m < SIZE
    ensures |t[k].bitmap| == SIZE
    ensures t[k].bitmap[m] <==> forall id: nat :: Up(id, k.level) == 256 * k.prefix + m ==> Used(t, id)
  {
    assert BitsOk(t, k);
    if t[k].bitmap[m] {
      forall id: nat | Up(id, k.level) == 256 * k.prefix + m ensures Used(t, id) {
        assert KeyOf(id, k.level) == k && Digit(id, k.level) == m;
        SetBitCovers(t, layers, id, k.level);
      }
    } else if forall id: nat :: Up(id, k.level) == 256 * k.prefix + m ==> Used(t, id) {
      CoveredSetsBit(t, layers, k, m);
    }
  }

  // ---- counting

  lemma {:induction false} CountUpdate(s: seq<bool>, i: nat, b: bool)
    requires i < |s|
    ensures CountTrue(s[i := b]) == CountTrue(s) - (if s[i] then 1 else 0) + (if b then 1 else 0)
    decreases |s|
  {
    var p, n := s[..|s| - 1], |s| - 1;
    if i < n {
      CountUpdate(p, i, b);
      assert s[i := b][..n] == p[i := b];
    } else {
      assert s[i := b][..n] == p;
    }
  }

  lemma {:induction false} CountPositive(s: seq<bool>, i: nat)
    requires i < |s| && s[i]
    ensures CountTrue(s) > 0
    decreases |s|
  {
    if i < |s| - 1 { CountPositive(s[..|s| - 1], i); }
  }

  lemma {:induction false} CountNone(s: seq<bool>)
    requires forall i :: 0 <= i < |s| ==> !s[i]
    ensures CountTrue(s) == 0
    decreases |s|
  {
    if s != [] { CountNone(s[..|s| - 1]); }
  }

  lemma CountOne(s: seq<bool>, i: nat, j: nat)
    requires CountTrue(s) == 1 && i < |s| && s[i] && j < |s| && s[j]
    ensures i == j
  {
    CountUpdate(s, i, false);
    if i != j { CountPositive(s[i := false], j); }
  }

  // ---- changing one layer

  /** Both trees stand for the same map. */
  ghost predicate SameMap(t: Tree, t': Tree) { forall id: nat :: Lookup(t', id) == Lookup(t, id) }

  lemma ChildOf(k: Key, m: nat, c: Key)
    requires k.level > 0 && m < SIZE
    ensures ChildKey(k, m) == c <==> Parent(c) == k && c.prefix % 256 == m
  {}

  /** A layer without a place in the tree has no children either. */
  lemma OrphanFree(t: Tree, layers: nat, c: Key, m: nat)
    requires Shape(t, layers) && c !in t && c.level > 0 && c.level < layers && m < SIZE
    ensures ChildKey(c, m) !in t
  {
    assert ChildKey(c, m) !in t || Attached(t, layers, ChildKey(c, m));
  }

  /** Creating a missing empty layer below k. */
  function AddChild(t: Tree, k: Key, m: nat): Tree
    requires k in t
  {
    t[k := t[k].(count := t[k].count + 1)][ChildKey(k, m) := EmptyLayer()]
  }

  lemma AddChildBits(t: Tree, layers: nat, k: Key, m: nat, j: Key)
    requires WellFormed(t, layers) && k in t && k.level > 0 && m < SIZE && ChildKey(k, m) !in t
    requires j in AddChild(t, k, m)
    ensures BitsOk(AddChild(t, k, m), j)
  {
    var c, t' := ChildKey(k, m), AddChild(t, k, m);
    assert Attached(t, layers, k);
    if j == c {
      if c.level > 0 {
        forall x: nat | x < SIZE ensures !FullLayer(t', ChildKey(c, x)) { OrphanFree(t, layers, c, x); }
      }
    } else {
      assert BitsOk(t, j);
      if j.level > 0 {
        forall x: nat | x < SIZE ensures FullLayer(t', ChildKey(j, x)) == FullLayer(t, ChildKey(j, x)) {
          if ChildKey(j, x) == c { assert !t'[c].bitmap[0]; }
        }
      }
    }
  }

  lemma AddChildCount(t: Tree, layers: nat, k: Key, m: nat, j: Key)
    requires WellFormed(t, layers) && k in t && k.level > 0 && m < SIZE && ChildKey(k, m) !in t
    requires j in AddChild(t, k, m)
    ensures CountOk(AddChild(t, k, m), j)
  {
    var c, t' := ChildKey(k, m), AddChild(t, k, m);
    assert Attached(t, layers, k);
    if j == c {
      if c.level > 0 { forall x: nat | x < SIZE ensures ChildKey(c, x) !in t' { OrphanFree(t, layers, c, x); } }
      CountNone(if c.level == 0 then t'[c].bitmap else Present(t', c));
    } else {
      assert CountOk(t, j);
      if j == k {
        assert Present(t', k) == Present(t, k)[m := true];
        CountUpdate(Present(t, k), m, true);
      } else if j.level > 0 {
        forall x: nat | x < SIZE ensures ChildKey(j, x) in t' <==> ChildKey(j, x) in t {
          ChildOf(j, x, c);
          ChildOf(k, m, c);
        }
        assert Present(t', j) == Present(t, j);
      }
    }
  }

  lemma AddChildKeeps(t: Tree, layers: nat, k: Key, m: nat)
    requires WellFormed(t, layers) && k in t && k.level > 0 && m < SIZE && ChildKey(k, m) !in t
    ensures WellFormed(AddChild(t, k, m), layers) && SameMap(t, AddChild(t, k, m))
  {
    var t' := AddChild(t, k, m);
    AddChildShape(t, layers, k, m);
    forall j | j in t' ensures BitsOk(t', j) { AddChildBits(t, layers, k, m, j); }
    forall j | j in t' ensures CountOk(t', j) { AddChildCount(t, layers, k, m, j); }
    forall id: nat ensures Lookup(t', id) == Lookup(t, id) { AddChildLookup(t, layers, k, m, id); }
  }

  lemma AddChildShape(t: Tree, layers: nat, k: Key, m: nat)
    requires Shape(t, layers) && k in t && k.level > 0 && m < SIZE && ChildKey(k, m) !in t
    ensures Shape(AddChild(t, k, m), layers)
  {
    var c, t' := ChildKey(k, m), AddChild(t, k, m);
    assert Attached(t, layers, k);
    forall j | j in t' ensures Attached(t', layers, j) { if j != c { assert Attached(t, layers, j); } }
  }

  lemma AddChildLookup(t: Tree, layers: nat, k: Key, m: nat, id: nat)
    requires WellFormed(t, layers) && k in t && k.level > 0 && m < SIZE && ChildKey(k, m) !in t
    ensures Lookup(AddChild(t, k, m), id) == Lookup(t, id)
  {}

  // ---- growing at the top

  /** A tree whose top layer is empty has no other layer, and no bit set. */
  lemma EmptyTop(t: Tree, layers: nat, k: Key)
    requires WellFormed(t, layers) && layers > 0 && t[Key(layers - 1, 0)].count == 0 && k in t
    ensures k == Key(layers - 1, 0)
    ensures |t[k].bitmap| == SIZE && forall m: nat :: m < SIZE ==> !t[k].bitmap[m]
  {
    var top := Key(layers - 1, 0);
    assert CountOk(t, top) && BitsOk(t, top) && Attached(t, layers, k);
    forall m: nat | m < SIZE ensures !t[top].bitmap[m] {
      if t[top].bitmap[m] { CountPositive(if top.level == 0 then t[top].bitmap else Present(t, top), m); }
    }
    if k.level < layers - 1 {
      var id := Down(k.prefix, k.level + 1);
      UpOfDown(k.prefix, k.level + 1);
      AncestorsPresent(t, layers, id, k.level, layers - 2);
      var c := KeyOf(id, layers - 2);
      assert Attached(t, layers, c);
      assert Parent(c) == KeyOf(id, layers - 1);
      assert Attached(t, layers, Parent(c));
      CountPositive(Present(t, top), c.prefix);
    }
  }

  /** p->layer++ on an empty top. */
  function MoveTop(t: Tree, layers: nat): Tree
    requires layers > 0 && Key(layers - 1, 0) in t
  {
    map[Key(layers, 0) := t[Key(layers - 1, 0)]]
  }

  lemma MoveTopKeeps(t: Tree, layers: nat)
    requires WellFormed(t, layers) && 0 < layers < MAX_LEVEL && t[Key(layers - 1, 0)].count == 0
    ensures WellFormed(MoveTop(t, layers), layers + 1) && SameMap(t, MoveTop(t, layers))
  {
    var top, t' := Key(layers, 0), MoveTop(t, layers);
    EmptyTop(t, layers, Key(layers - 1, 0));
    assert BitsOk(t, Key(layers - 1, 0));
    assert BitsOk(t', top) by { forall m: nat | m < SIZE ensures !FullLayer(t', ChildKey(top, m)) {} }
    CountNone(Present(t', top));
    assert CountOk(t', top);
    forall id: nat ensures !Used(t, id) && !Used(t', id) {
      if KeyOf(id, 0) in t { EmptyTop(t, layers, KeyOf(id, 0)); }
    }
  }

  /** A new top with the old one as its first child. */
  function AddTop(t: Tree, layers: nat): Tree
    requires layers > 0 && Key(layers - 1, 0) in t
  {
    var e := EmptyLayer();
    t[Key(layers, 0) := e.(count := 1, bitmap := e.bitmap[0 := Full(t[Key(layers - 1, 0)].bitmap)])]
  }

  lemma AddTopShape(t: Tree, layers: nat)
    requires Shape(t, layers) && 0 < layers < MAX_LEVEL
    ensures Shape(AddTop(t, layers), layers + 1) && Key(layers, 0) !in t
  {
    var top, t' := Key(layers, 0), AddTop(t, layers);
    assert top !in t || Attached(t, layers, top);
    forall j | j in t' ensures Attached(t', layers + 1, j) { if j != top { assert Attached(t, layers, j); } }
  }

  /** The new top has exactly one child. */
  lemma AddTopPresent(t: Tree, layers: nat, m: nat)
    requires Shape(t, layers) && 0 < layers < MAX_LEVEL && m < SIZE
    ensures ChildKey(Key(layers, 0), m) in AddTop(t, layers) <==> m == 0
  {
    var c := ChildKey(Key(layers, 0), m);
    assert c !in t || Attached(t, layers, c);
  }

  lemma AddTopBits(t: Tree, layers: nat, j: Key)
    requires WellFormed(t, layers) && 0 < layers < MAX_LEVEL && j in AddTop(t, layers)
    ensures BitsOk(AddTop(t, layers), j)
  {
    var top, t' := Key(layers, 0), AddTop(t, layers);
    if j == top {
      forall m: nat | m < SIZE ensures t'[top].bitmap[m] == FullLayer(t', ChildKey(top, m)) {
        AddTopPresent(t, layers, m);
      }
    } else {
      assert BitsOk(t, j) && Attached(t, layers, j);
      forall m: nat | m < SIZE ensures FullLayer(t', ChildKey(j, m)) == FullLayer(t, ChildKey(j, m)) {}
    }
  }

  lemma AddTopCount(t: Tree, layers: nat, j: Key)
    requires WellFormed(t, layers) && 0 < layers < MAX_LEVEL && j in AddTop(t, layers)
    ensures CountOk(AddTop(t, layers), j)
  {
    var top, t' := Key(layers, 0), AddTop(t, layers);
    if j == top {
      var none := seq(SIZE, _ => false);
      CountNone(none);
      CountUpdate(none, 0, true);
      forall m: nat | m < SIZE ensures Present(t', top)[m] == none[0 := true][m] { AddTopPresent(t, layers, m); }
      assert Present(t', top) == none[0 := true];
    } else {
      assert CountOk(t, j) && Attached(t, layers, j);
      assert Present(t', j) == Present(t, j);
    }
  }

  lemma AddTopKeeps(t: Tree, layers: nat)
    requires WellFormed(t, layers) && 0 < layers < MAX_LEVEL
    ensures WellFormed(AddTop(t, layers), layers + 1) && SameMap(t, AddTop(t, layers))
  {
    AddTopShape(t, layers);
    forall j | j in AddTop(t, layers) ensures BitsOk(AddTop(t, layers), j) { AddTopBits(t, layers, j); }
    forall j | j in AddTop(t, layers) ensures CountOk(AddTop(t, layers), j) { AddTopCount(t, layers, j); }
  }

  // ---- searching

  lemma UpMonotone(id: nat, j: nat, k: nat)
    requires id <= j
    ensures Up(id, k) <= Up(j, k)
  {
    UpDown(id, Up(id, k), k);
    UpDown(j, Up(id, k), k);
  }

  /** Bits set from the current digit up to m rule out every id up to the start of child m. */
  lemma SkipFull(t: Tree, layers: nat, id: nat, l: nat, m: nat, j: nat)
    requires WellFormed(t, layers) && KeyOf(id, l) in t && Digit(id, l) <= m <= SIZE == |t[KeyOf(id, l)].bitmap|
    requires forall d :: Digit(id, l) <= d < m ==> t[KeyOf(id, l)].bitmap[d]
    requires id <= j < Down(Up(id, l) - Digit(id, l) + m, l)
    ensures Used(t, j)
  {
    UpMonotone(id, j, l);
    UpDown(j, Up(id, l) - Digit(id, l) + m, l);
    assert Up(id, l) == 256 * Up(id, l + 1) + Digit(id, l);
    assert KeyOf(j, l) == KeyOf(id, l);
    SetBitCovers(t, layers, j, l);
  }

  // ---- taking an id

  /** The layer's bits are right except bit d, which is clear and may have to be set. */
  ghost predicate BitsBut(t: Tree, k: Key, d: nat)
    requires k in t
  {
    && |t[k].bitmap| == SIZE && |t[k].ary| == SIZE && d < SIZE && !t[k].bitmap[d] && k.level > 0
    && forall m: nat :: m < SIZE && m != d ==> t[k].bitmap[m] == FullLayer(t, ChildKey(k, m))
  }

  ghost predicate Counted(t: Tree) {
    forall k {:trigger CountOk(t, k)} :: k in t ==> CountOk(t, k)
  }

  /** Well-formed, except that a bit of layer k (if there is such a layer) may lag behind its child. */
  ghost predicate Lagging(t: Tree, layers: nat, k: Key, d: nat) {
    && Shape(t, layers) && Counted(t)
    && (forall j {:trigger BitsOk(t, j)} :: j in t && j != k ==> BitsOk(t, j))
    && (k in t ==> BitsBut(t, k, d))
  }

  lemma CaughtUp(t: Tree, layers: nat, id: nat, l: nat)
    requires Lagging(t, layers, KeyOf(id, l + 1), Digit(id, l + 1)) && (l + 1 >= layers || !FullLayer(t, KeyOf(id, l)))
    ensures WellFormed(t, layers)
  {
    var k := KeyOf(id, l + 1);
    assert k in t ==> Attached(t, layers, k);
    assert ChildKey(k, Digit(id, l + 1)) == KeyOf(id, l);
    forall j | j in t ensures BitsOk(t, j) {}
  }

  function SetBit(t: Tree, k: Key, d: nat): Tree
    requires k in t && d < |t[k].bitmap|
  {
    t[k := t[k].(bitmap := t[k].bitmap[d := true])]
  }

  /** Only a layer's own bits and its parent's view of it depend on its bitmap. */
  lemma SetBitElsewhere(t: Tree, k: Key, d: nat, j: Key)
    requires k in t && d < |t[k].bitmap| && j in t && j != k && j != Parent(k) && BitsOk(t, j)
    ensures BitsOk(SetBit(t, k, d), j)
  {
    var t' := SetBit(t, k, d);
    if j.level > 0 {
      forall m: nat | m < SIZE ensures FullLayer(t', ChildKey(j, m)) == FullLayer(t, ChildKey(j, m)) {
        ChildOf(j, m, k);
      }
    }
  }

  /** One round of idr_mark_full: the full child's bit is set, and the question moves one level up. */
  lemma MarkStep(t: Tree, layers: nat, id: nat, l: nat)
    requires Lagging(t, layers, KeyOf(id, l + 1), Digit(id, l + 1)) && KeyOf(id, l + 1) in t
    requires FullLayer(t, KeyOf(id, l))
    ensures Lagging(SetBit(t, KeyOf(id, l + 1), Digit(id, l + 1)), layers, KeyOf(id, l + 2), Digit(id, l + 2))
  {
    var k, d := KeyOf(id, l + 1), Digit(id, l + 1);
    var t', up := SetBit(t, k, d), KeyOf(id, l + 2);
    assert Parent(k) == up && ChildKey(k, d) == KeyOf(id, l) && ChildKey(up, Digit(id, l + 2)) == k;
    SetBitShape(t, layers, k, d);
    assert BitsOk(t', k) by {
      forall m: nat | m < SIZE ensures FullLayer(t', ChildKey(k, m)) == FullLayer(t, ChildKey(k, m)) {}
    }
    forall j | j in t' && j != up ensures BitsOk(t', j) { if j != k { SetBitElsewhere(t, k, d, j); } }
    if up in t {
      assert BitsOk(t, up);
      forall m: nat | m < SIZE && m != Digit(id, l + 2) ensures t'[up].bitmap[m] == FullLayer(t', ChildKey(up, m)) {
        ChildOf(up, m, k);
      }
    }
  }

  lemma SetBitShape(t: Tree, layers: nat, k: Key, d: nat)
    requires Shape(t, layers) && Counted(t) && k in t && d < |t[k].bitmap| && k.level > 0
    ensures Shape(SetBit(t, k, d), layers) && Counted(SetBit(t, k, d)) && SameLeaves(t, SetBit(t, k, d))
  {
    var t' := SetBit(t, k, d);
    forall j | j in t' ensures Attached(t', layers, j) { assert Attached(t, layers, j); }
    forall j | j in t' ensures CountOk(t', j) { assert CountOk(t, j) && Present(t', j) == Present(t, j); }
  }

  /** The leaves, and so the map, are the same. */
  ghost predicate SameLeaves(t: Tree, t': Tree) {
    forall p: nat :: (Key(0, p) in t <==> Key(0, p) in t') && (Key(0, p) in t ==> t'[Key(0, p)] == t[Key(0, p)])
  }

  lemma SameLeavesSameMap(t: Tree, t': Tree)
    requires SameLeaves(t, t')
    ensures SameMap(t, t')
  {
    forall id: nat ensures Lookup(t', id) == Lookup(t, id) {
      assert Key(0, Up(id, 1)) in t <==> Key(0, Up(id, 1)) in t';
    }
  }

  /** The user pointer goes into the leaf and the leaf's bit is set. */
  function FillLeaf(t: Tree, id: nat, ptr: Ptr): Tree
    requires KeyOf(id, 0) in t && |t[KeyOf(id, 0)].bitmap| == |t[KeyOf(id, 0)].ary| == SIZE
  {
    var k, d := KeyOf(id, 0), Digit(id, 0);
    t[k := Layer(t[k].count + 1, t[k].bitmap[d := true], t[k].ary[d := ptr])]
  }

  lemma FillLeafCounts(t: Tree, layers: nat, id: nat, ptr: Ptr)
    requires WellFormed(t, layers) && KeyOf(id, 0) in t && !Used(t, id)
    ensures |t[KeyOf(id, 0)].bitmap| == |t[KeyOf(id, 0)].ary| == SIZE
    ensures Shape(FillLeaf(t, id, ptr), layers) && Counted(FillLeaf(t, id, ptr))
  {
    var k, d := KeyOf(id, 0), Digit(id, 0);
    assert BitsOk(t, k) && CountOk(t, k);
    var t' := FillLeaf(t, id, ptr);
    CountUpdate(t[k].bitmap, d, true);
    forall j | j in t' ensures Attached(t', layers, j) { assert Attached(t, layers, j); }
    forall j | j in t' ensures CountOk(t', j) { assert CountOk(t, j) && Present(t', j) == Present(t, j); }
  }

  lemma FillLeafBits(t: Tree, layers: nat, id: nat, ptr: Ptr, j: Key)
    requires WellFormed(t, layers) && KeyOf(id, 0) in t && !Used(t, id) && id < MAX_BIT && j in t && j != KeyOf(id, 1)
    ensures |t[KeyOf(id, 0)].bitmap| == |t[KeyOf(id, 0)].ary| == SIZE
    ensures BitsOk(FillLeaf(t, id, ptr), j)
  {
    var k := KeyOf(id, 0);
    assert BitsOk(t, k) && BitsOk(t, j);
    var t' := FillLeaf(t, id, ptr);
    assert id == 256 * k.prefix + Digit(id, 0);
    if j.level > 0 {
      forall m: nat | m < SIZE ensures FullLayer(t', ChildKey(j, m)) == FullLayer(t, ChildKey(j, m)) {
        ChildOf(j, m, k);
      }
    }
  }

  lemma FillLeafLags(t: Tree, layers: nat, id: nat, ptr: Ptr)
    requires WellFormed(t, layers) && KeyOf(id, 0) in t && !Used(t, id) && id < MAX_BIT
    ensures |t[KeyOf(id, 0)].bitmap| == |t[KeyOf(id, 0)].ary| == SIZE
    ensures Lagging(FillLeaf(t, id, ptr), layers, KeyOf(id, 1), Digit(id, 1))
  {
    var k, up := KeyOf(id, 0), KeyOf(id, 1);
    FillLeafCounts(t, layers, id, ptr);
    var t' := FillLeaf(t, id, ptr);
    assert Parent(k) == up && ChildKey(up, Digit(id, 1)) == k;
    forall j | j in t' && j != up ensures BitsOk(t', j) { FillLeafBits(t, layers, id, ptr, j); }
    if up in t {
      assert BitsOk(t, up);
      forall m: nat | m < SIZE && m != Digit(id, 1) ensures t'[up].bitmap[m] == FullLayer(t', ChildKey(up, m)) {
        ChildOf(up, m, k);
      }
    }
  }

  /** The new map: id stands for ptr, everything else as before. */
  lemma FillLeafMaps(t: Tree, layers: nat, id: nat, ptr: Ptr, j: nat)
    requires WellFormed(t, layers) && KeyOf(id, 0) in t && |t[KeyOf(id, 0)].bitmap| == |t[KeyOf(id, 0)].ary| == SIZE
    ensures Lookup(FillLeaf(t, id, ptr), j) == if j == id then Some(ptr) else Lookup(t, j)
  {
    assert j == 256 * Up(j, 1) + Digit(j, 0) && id == 256 * Up(id, 1) + Digit(id, 0) by {
      assert Up(j, 1) == Up(j, 0) / 256 && Up(id, 1) == Up(id, 0) / 256;
    }
  }

  /** The first layer of an empty idr. */
  lemma FirstLayer()
    ensures WellFormed(map[Key(0, 0) := EmptyLayer()], 1) && SameMap(map[], map[Key(0, 0) := EmptyLayer()])
  {
    var t := map[Key(0, 0) := EmptyLayer()];
    CountNone(t[Key(0, 0)].bitmap);
    assert BitsOk(t, Key(0, 0)) && CountOk(t, Key(0, 0)) && Attached(t, 1, Key(0, 0));
  }

  function ReplacePtr(t: Tree, id: nat, ptr: Ptr): Tree
    requires KeyOf(id, 0) in t && Digit(id, 0) < |t[KeyOf(id, 0)].ary|
  {
    var k := KeyOf(id, 0);
    t[k := t[k].(ary := t[k].ary[Digit(id, 0) := ptr])]
  }

  lemma ReplacePtrKeeps(t: Tree, layers: nat, id: nat, ptr: Ptr)
    requires WellFormed(t, layers) && Used(t, id)
    ensures WellFormed(ReplacePtr(t, id, ptr), layers)
    ensures forall j: nat :: Lookup(ReplacePtr(t, id, ptr), j) == if j == id then Some(ptr) else Lookup(t, j)
  {
    var t' := ReplacePtr(t, id, ptr);
    forall j | j in t' ensures Attached(t', layers, j) { assert Attached(t, layers, j); }
    forall j | j in t' ensures BitsOk(t', j) {
      assert BitsOk(t, j);
      forall m: nat | m < SIZE ensures FullLayer(t', ChildKey(j, m)) == FullLayer(t, ChildKey(j, m)) {}
    }
    forall j | j in t' ensures CountOk(t', j) { assert CountOk(t, j) && Present(t', j) == Present(t, j); }
    forall j: nat ensures Lookup(t', j) == if j == id then Some(ptr) else Lookup(t, j) {
      ReplacePtrMaps(t, id, ptr, j);
    }
  }

  lemma ReplacePtrMaps(t: Tree, id: nat, ptr: Ptr, j: nat)
    requires Used(t, id)
    ensures Lookup(ReplacePtr(t, id, ptr), j) == if j == id then Some(ptr) else Lookup(t, j)
  {
    assert Up(j, 1) == Up(j, 0) / 256 && Up(id, 1) == Up(id, 0) / 256;
  }

  // ---- giving an id back

  /** Layer k of a tree whose path bits for id on the levels lo..hi have been cleared. */
  function ClearedLayer(layer: Layer, k: Key, id: nat, lo: nat, hi: nat): Layer {
    if k == KeyOf(id, k.level) && lo <= k.level < hi && Digit(id, k.level) < |layer.bitmap|
    then layer.(bitmap := layer.bitmap[Digit(id, k.level) := false]) else layer
  }

  function Cleared(t: Tree, id: nat, lo: nat, hi: nat): Tree {
    map k | k in t :: ClearedLayer(t[k], k, id, lo, hi)
  }

  /** Clearing one more level down the path. */
  lemma ClearedStep(t: Tree, layers: nat, id: nat, lo: nat, hi: nat)
    requires WellFormed(t, layers) && KeyOf(id, lo) in t && lo < hi
    ensures Digit(id, lo) < |t[KeyOf(id, lo)].bitmap| && Cleared(t, id, lo + 1, hi)[KeyOf(id, lo)] == t[KeyOf(id, lo)]
    ensures var k := KeyOf(id, lo); var c := Cleared(t, id, lo + 1, hi);
      Cleared(t, id, lo, hi) == c[k := c[k].(bitmap := c[k].bitmap[Digit(id, lo) := false])]
  {
    assert BitsOk(t, KeyOf(id, lo));
  }

  /** Along the path of an id that is not taken there is nothing to clear. */
  lemma NothingToClear(t: Tree, layers: nat, id: nat, lo: nat, hi: nat)
    requires WellFormed(t, layers) && !Used(t, id)
    ensures Cleared(t, id, lo, hi) == t
  {
    forall k | k in t ensures ClearedLayer(t[k], k, id, lo, hi) == t[k] {
      assert BitsOk(t, k);
      if k == KeyOf(id, k.level) && t[k].bitmap[Digit(id, k.level)] { SetBitCovers(t, layers, id, k.level); }
    }
  }

  /** The path bits and the leaf's bit are cleared, the pointer is gone; the leaf's count is not yet adjusted. */
  function EmptySlot(t: Tree, id: nat, layers: nat): Tree
    requires KeyOf(id, 0) in t && Digit(id, 0) < |t[KeyOf(id, 0)].ary|
  {
    var c, k := Cleared(t, id, 0, layers), KeyOf(id, 0);
    c[k := c[k].(ary := c[k].ary[Digit(id, 0) := NULL])]
  }

  function RealCount(t: Tree, k: Key): nat
    requires k in t
  {
    CountTrue(if k.level == 0 then t[k].bitmap else Present(t, k))
  }

  /** Well-formed, except that layer k counts one too many. */
  ghost predicate OverCounted(t: Tree, layers: nat, k: Key) {
    && Shape(t, layers) && (forall j {:trigger BitsOk(t, j)} :: j in t ==> BitsOk(t, j))
    && (forall j {:trigger CountOk(t, j)} :: j in t && j != k ==> CountOk(t, j))
    && k in t && t[k].count == RealCount(t, k) + 1
  }

  lemma EmptySlotLayer(t: Tree, layers: nat, id: nat, k: Key)
    requires WellFormed(t, layers) && Used(t, id) && k in t
    ensures Digit(id, 0) < |t[KeyOf(id, 0)].ary|
    ensures
      var t' := EmptySlot(t, id, layers);
      && k in t' && t'[k].count == t[k].count && |t'[k].bitmap| == SIZE == |t[k].bitmap|
      && forall m: nat :: m < SIZE ==>
        t'[k].bitmap[m] == (t[k].bitmap[m] && !(k == KeyOf(id, k.level) && m == Digit(id, k.level)))
  {
    assert BitsOk(t, k) && Attached(t, layers, k);
    assert BitsOk(t, KeyOf(id, 0));
  }

  /** A layer off the path is as full as before; one on the path no longer is. */
  lemma EmptySlotFull(t: Tree, layers: nat, id: nat, k: Key)
    requires WellFormed(t, layers) && Used(t, id)
    ensures Digit(id, 0) < |t[KeyOf(id, 0)].ary|
    ensures FullLayer(EmptySlot(t, id, layers), k) == (FullLayer(t, k) && k != KeyOf(id, k.level))
  {
    EmptySlotLayer(t, layers, id, KeyOf(id, 0));
    if k in t {
      EmptySlotLayer(t, layers, id, k);
      var t' := EmptySlot(t, id, layers);
      if k == KeyOf(id, k.level) { assert !t'[k].bitmap[Digit(id, k.level)]; }
    }
  }

  lemma EmptySlotBits(t: Tree, layers: nat, id: nat, k: Key)
    requires WellFormed(t, layers) && Used(t, id) && k in t
    ensures Digit(id, 0) < |t[KeyOf(id, 0)].ary|
    ensures k in EmptySlot(t, id, layers) && BitsOk(EmptySlot(t, id, layers), k)
  {
    EmptySlotLayer(t, layers, id, k);
    assert BitsOk(t, k);
    var t' := EmptySlot(t, id, layers);
    if k.level > 0 {
      forall m: nat | m < SIZE ensures t'[k].bitmap[m] == FullLayer(t', ChildKey(k, m)) {
        EmptySlotFull(t, layers, id, ChildKey(k, m));
        var c := ChildKey(k, m);
        assert Up(id, k.level) == Up(id, c.level + 1);
        assert c == KeyOf(id, c.level) <==> k == KeyOf(id, k.level) && m == Digit(id, k.level);
      }
    }
  }

  lemma EmptySlotKeeps(t: Tree, layers: nat, id: nat)
    requires WellFormed(t, layers) && Used(t, id)
    ensures Digit(id, 0) < |t[KeyOf(id, 0)].ary|
    ensures OverCounted(EmptySlot(t, id, layers), layers, KeyOf(id, 0))
  {
    var k := KeyOf(id, 0);
    EmptySlotLayer(t, layers, id, k);
    var t' := EmptySlot(t, id, layers);
    assert t'.Keys == t.Keys;
    forall j | j in t' ensures Attached(t', layers, j) { assert Attached(t, layers, j); }
    forall j | j in t' ensures BitsOk(t', j) { EmptySlotBits(t, layers, id, j); }
    forall j | j in t' && j != k ensures CountOk(t', j) {
      EmptySlotLayer(t, layers, id, j);
      assert CountOk(t, j) && Present(t', j) == Present(t, j);
      if j.level == 0 { assert t'[j].bitmap == t[j].bitmap; }
    }
    assert CountOk(t, k) && Attached(t, layers, k);
    assert t'[k].bitmap == t[k].bitmap[Digit(id, 0) := false];
    CountUpdate(t[k].bitmap, Digit(id, 0), false);
  }

  lemma EmptySlotMaps(t: Tree, layers: nat, id: nat, j: nat)
    requires WellFormed(t, layers) && Used(t, id)
    ensures Digit(id, 0) < |t[KeyOf(id, 0)].ary|
    ensures Lookup(EmptySlot(t, id, layers), j) == if j == id then None else Lookup(t, j)
  {
    EmptySlotLayer(t, layers, id, KeyOf(id, 0));
    assert j == 256 * Up(j, 1) + Digit(j, 0) && id == 256 * Up(id, 1) + Digit(id, 0) by {
      assert Up(j, 1) == Up(j, 0) / 256 && Up(id, 1) == Up(id, 0) / 256;
    }
    if KeyOf(j, 0) in t { EmptySlotLayer(t, layers, id, KeyOf(j, 0)); }
  }

  lemma EmptySlotOffPath(t: Tree, layers: nat, id: nat)
    requires WellFormed(t, layers) && Used(t, id) && Digit(id, 0) < |t[KeyOf(id, 0)].ary|
    ensures OffPathSame(t, EmptySlot(t, id, layers), id)
  {
    forall k | k in t && k != KeyOf(id, k.level) ensures EmptySlot(t, id, layers)[k] == t[k] {
      EmptySlotLayer(t, layers, id, k);
    }
  }

  lemma EmptySlotAll(t: Tree, layers: nat, id: nat)
    requires WellFormed(t, layers) && Used(t, id)
    ensures KeyOf(id, 0) in t && Digit(id, 0) < |t[KeyOf(id, 0)].ary|
    ensures
      var e := EmptySlot(t, id, layers);
      && OverCounted(e, layers, KeyOf(id, 0)) && OffPathSame(t, e, id)
      && forall j: nat :: Lookup(e, j) == if j == id then None else Lookup(t, j)
  {
    EmptySlotKeeps(t, layers, id);
    EmptySlotOffPath(t, layers, id);
    forall j: nat ensures Lookup(EmptySlot(t, id, layers), j) == if j == id then None else Lookup(t, j) {
      EmptySlotMaps(t, layers, id, j);
    }
  }

  // ---- dropping empty layers

  function Decrement(t: Tree, k: Key): Tree
    requires k in t && t[k].count > 0
  {
    t[k := t[k].(count := t[k].count - 1)]
  }

  lemma DecrementKeeps(t: Tree, layers: nat, k: Key)
    requires OverCounted(t, layers, k)
    ensures WellFormed(Decrement(t, k), layers) && SameMap(t, Decrement(t, k))
  {
    var t' := Decrement(t, k);
    forall j | j in t' ensures Attached(t', layers, j) { assert Attached(t, layers, j); }
    forall j | j in t' ensures BitsOk(t', j) {
      assert BitsOk(t, j);
      forall m: nat | m < SIZE ensures FullLayer(t', ChildKey(j, m)) == FullLayer(t, ChildKey(j, m)) {}
    }
    forall j | j in t' ensures CountOk(t', j) {
      assert Present(t', j) == Present(t, j);
      assert j == k || CountOk(t, j);
    }
  }

  /** A layer that counts nothing has no child and no bit set. */
  lemma CountsNothing(t: Tree, layers: nat, k: Key, m: nat)
    requires WellFormed(t, layers) && k in t && t[k].count == 0 && m < SIZE
    ensures |t[k].bitmap| == SIZE && !t[k].bitmap[m] && (k.level > 0 ==> ChildKey(k, m) !in t)
  {
    assert BitsOk(t, k) && CountOk(t, k);
    var s := if k.level == 0 then t[k].bitmap else Present(t, k);
    if s[m] { CountPositive(s, m); }
  }

  /** Freeing an empty layer below the top leaves its parent counting one too many, and the map as it was. */
  lemma DropLayer(t: Tree, layers: nat, k: Key)
    requires WellFormed(t, layers) && k in t && t[k].count == 0 && k.level + 1 < layers
    ensures OverCounted(t - {k}, layers, Parent(k)) && SameMap(t, t - {k})
  {
    var t', up := t - {k}, Parent(k);
    assert Attached(t, layers, k);
    CountsNothing(t, layers, k, 0);
    forall m: nat | m < SIZE ensures k.level > 0 ==> ChildKey(k, m) !in t { CountsNothing(t, layers, k, m); }
    forall j | j in t' ensures Attached(t', layers, j) {
      assert Attached(t, layers, j);
      assert Parent(j) == k ==> ChildKey(k, j.prefix % 256) == j;
    }
    forall j | j in t' ensures BitsOk(t', j) {
      assert BitsOk(t, j);
      forall m: nat | m < SIZE ensures FullLayer(t', ChildKey(j, m)) == FullLayer(t, ChildKey(j, m)) {}
    }
    DropLayerCounts(t, layers, k);
    forall id: nat ensures Lookup(t', id) == Lookup(t, id) {
      if KeyOf(id, 0) == k { CountsNothing(t, layers, k, Digit(id, 0)); }
    }
  }

  lemma DropLayerCounts(t: Tree, layers: nat, k: Key)
    requires WellFormed(t, layers) && k in t && k.level + 1 < layers
    ensures
      var t' := t - {k};
      && Parent(k) in t' && t'[Parent(k)].count == RealCount(t', Parent(k)) + 1
      && forall j {:trigger CountOk(t', j)} :: j in t' && j != Parent(k) ==> CountOk(t', j)
  {
    var t', up := t - {k}, Parent(k);
    assert Attached(t, layers, k) && CountOk(t, up);
    var m := k.prefix % 256;
    assert ChildKey(up, m) == k;
    forall x: nat | x < SIZE ensures Present(t', up)[x] == Present(t, up)[m := false][x] { ChildOf(up, x, k); }
    assert Present(t', up) == Present(t, up)[m := false];
    CountUpdate(Present(t, up), m, false);
    forall j | j in t' && j != up ensures CountOk(t', j) {
      assert CountOk(t, j);
      if j.level > 0 {
        forall x: nat | x < SIZE ensures ChildKey(j, x) != k { ChildOf(j, x, k); }
        assert Present(t', j) == Present(t, j);
      }
    }
  }

  /** Layers of other ids are as they were. */
  ghost predicate OffPathSame(t: Tree, t': Tree, id: nat) {
    forall k: Key {:trigger k in t'} :: k != KeyOf(id, k.level) ==> (k in t' <==> k in t) && (k in t ==> t'[k] == t[k])
  }

  /** No layer on the way to id counts nothing. */
  ghost predicate PathTidy(t: Tree, layers: nat, id: nat) {
    forall l :: 0 <= l < layers && KeyOf(id, l) in t ==> t[KeyOf(id, l)].count > 0
  }

  /** A layer that counts something keeps the layers above it counting something. */
  lemma TidyAbove(t: Tree, layers: nat, id: nat, l: nat)
    requires WellFormed(t, layers) && KeyOf(id, l) in t && t[KeyOf(id, l)].count > 0 && l < layers
    requires forall x :: 0 <= x < l ==> KeyOf(id, x) !in t
    ensures PathTidy(t, layers, id)
  {
    forall m | l < m < layers && KeyOf(id, m) in t ensures t[KeyOf(id, m)].count > 0 {
      var k := KeyOf(id, m);
      AncestorsPresent(t, layers, id, l, m - 1);
      assert CountOk(t, k) && ChildKey(k, Digit(id, m)) == KeyOf(id, m - 1);
      CountPositive(Present(t, k), Digit(id, m));
    }
  }

  /** Part of the way up: what is below level l on the path is gone, the layer at l counts one too many. */
  ghost predicate Freeing(t0: Tree, t: Tree, layers: nat, id: nat, l: nat) {
    && l < layers && OverCounted(t, layers, KeyOf(id, l)) && SameMap(t0, t) && OffPathSame(t0, t, id)
    && forall x :: 0 <= x < l ==> KeyOf(id, x) !in t
  }

  /** One level up: the count is put right, and a layer that counts nothing is freed. */
  lemma FreeingStep(t0: Tree, t: Tree, layers: nat, id: nat, l: nat)
    requires Freeing(t0, t, layers, id, l)
    ensures
      var k := KeyOf(id, l);
      && k in t && t[k].count > 0
      && var d := Decrement(t, k);
      if d[k].count > 0 then
        WellFormed(d, layers) && SameMap(t0, d) && OffPathSame(t0, d, id) && PathTidy(d, layers, id)
      else if l + 1 < layers then Freeing(t0, d - {k}, layers, id, l + 1)
      else d - {k} == map[] && SameMap(t0, map[]) && OffPathSame(t0, map[], id)
  {
    var k := KeyOf(id, l);
    DecrementKeeps(t, layers, k);
    var d := Decrement(t, k);
    if d[k].count > 0 {
      TidyAbove(d, layers, id, l);
    } else {
      assert Attached(d, layers, k);
      if l + 1 < layers {
        DropLayer(d, layers, k);
        assert Parent(k) == KeyOf(id, l + 1);
      } else {
        DropTop(d, layers);
      }
    }
  }

  /** Shrinking takes away a layer of the path. */
  lemma ShrinkTidy(t0: Tree, t: Tree, layers: nat, id: nat)
    requires WellFormed(t, layers) && layers > 1 && id < Down(1, layers)
    requires PathTidy(t, layers, id) && OffPathSame(t0, t, id)
    ensures PathTidy(t - {Key(layers - 1, 0)}, layers - 1, id) && OffPathSame(t0, t - {Key(layers - 1, 0)}, id)
  {
    UpDown(id, 1, layers);
    assert KeyOf(id, layers - 1) == Key(layers - 1, 0);
  }

  /** A top whose only child is the first. */
  predicate Shrinkable(t: Tree, layers: nat) {
    layers > 1 && Key(layers - 1, 0) in t && t[Key(layers - 1, 0)].count == 1 && Key(layers - 2, 0) in t
  }

  /** Freeing an empty top layer leaves nothing. */
  lemma DropTop(t: Tree, layers: nat)
    requires WellFormed(t, layers) && layers > 0 && t[Key(layers - 1, 0)].count == 0
    ensures t - {Key(layers - 1, 0)} == map[] && SameMap(t, map[])
  {
    forall k | k in t ensures k == Key(layers - 1, 0) { EmptyTop(t, layers, k); }
    forall id: nat ensures !Used(t, id) {
      if KeyOf(id, 0) in t { EmptyTop(t, layers, KeyOf(id, 0)); }
    }
  }

  /** A top with a single child at the leftmost slot is not needed. */
  lemma ShrinkShape(t: Tree, layers: nat)
    requires WellFormed(t, layers) && layers > 1 && t[Key(layers - 1, 0)].count == 1 && Key(layers - 2, 0) in t
    ensures Shape(t - {Key(layers - 1, 0)}, layers - 1)
  {
    var top := Key(layers - 1, 0);
    var t' := t - {top};
    assert CountOk(t, top);
    assert ChildKey(top, 0) == Key(layers - 2, 0);
    forall j | j in t' ensures Attached(t', layers - 1, j) {
      assert Attached(t, layers, j);
      if j.level == layers - 2 {
        assert Parent(j) in t && Attached(t, layers, Parent(j));
        assert ChildKey(top, j.prefix) == j && Present(t, top)[0] && Present(t, top)[j.prefix];
        CountOne(Present(t, top), 0, j.prefix);
      }
    }
  }

  lemma ShrinkKeeps(t: Tree, layers: nat)
    requires WellFormed(t, layers) && layers > 1 && t[Key(layers - 1, 0)].count == 1 && Key(layers - 2, 0) in t
    ensures WellFormed(t - {Key(layers - 1, 0)}, layers - 1) && SameMap(t, t - {Key(layers - 1, 0)})
  {
    var t' := t - {Key(layers - 1, 0)};
    ShrinkShape(t, layers);
    forall j | j in t' ensures BitsOk(t', j) {
      assert BitsOk(t, j) && Attached(t, layers, j);
      forall m: nat | m < SIZE ensures FullLayer(t', ChildKey(j, m)) == FullLayer(t, ChildKey(j, m)) {}
    }
    forall j | j in t' ensures CountOk(t', j) {
      assert CountOk(t, j) && Attached(t, layers, j);
      assert Present(t', j) == Present(t, j);
    }
  }
}

/** The idr object. */
module Idr {
  import opened Options
  import opened Radix
  import opened IdrTree

  /** find_next_zero_bit */
  function NextZero(bitmap: seq<bool>, n: nat): (m: nat)
    requires n <= |bitmap|
    ensures n <= m <= |bitmap| && (m < |bitmap| ==> !bitmap[m]) && forall d :: n <= d < m ==> bitmap[d]
    decreases |bitmap| - n
  {
    if n == |bitmap| || !bitmap[n] then n else NextZero(bitmap, n + 1)
  }

  datatype Slot = Found(id: nat) | Again(next: nat) | NoSpace
  datatype Result<T> = Ok(value: T) | ENOSPC | EINVAL | ENOENT

  /** Every id of [lo, hi) is taken. */
  ghost predicate Taken(t: Tree, lo: int, hi: int) {
    forall id: nat :: lo <= id < hi ==> Used(t, id)
  }

  lemma TakenSame(t: Tree, t': Tree, lo: int, hi: int)
    requires SameMap(t, t') && Taken(t, lo, hi)
    ensures Taken(t', lo, hi)
  {
    forall id: nat | lo <= id < hi ensures Used(t', id) { assert Lookup(t', id) == Lookup(t, id); }
  }

  lemma SmallCapacity(layers: nat)
    requires layers <= MAX_LEVEL
    ensures Down(1, 0) == 1 && Down(1, 1) == 256 && Down(1, 2) == 65536 && Down(1, 3) == 16777216
    ensures Down(1, 4) == 0x1_0000_0000
    ensures 0 < Capacity(layers) <= MAX_BIT && Capacity(layers) <= Down(1, layers)
    ensures Capacity(layers) == MAX_BIT <==> layers == MAX_LEVEL
  {}

  /** Ids in range have the top layer as their top. */
  lemma TopOfAll(id: nat, layers: nat)
    requires 0 < layers && id < Down(1, layers)
    ensures KeyOf(id, layers - 1) == Key(layers - 1, 0)
  {
    UpDown(id, 1, layers);
  }

  /** No space in this layer from the current digit on: the search goes on after it. */
  lemma StepUp(t: Tree, layers: nat, start: nat, id: nat, l: nat)
    requires WellFormed(t, layers) && KeyOf(id, l) in t && Taken(t, start, id) && start <= id
    requires |t[KeyOf(id, l)].bitmap| == SIZE && NextZero(t[KeyOf(id, l)].bitmap, Digit(id, l)) == SIZE
    ensures l < layers && id < Down(Up(id, l + 1) + 1, l + 1) <= Down(1, layers)
    ensures Taken(t, start, Down(Up(id, l + 1) + 1, l + 1))
  {
    LayerInRange(t, layers, id, l);
    NextBound(id, l + 1, layers);
    DownShift(Up(id, l + 1) + 1, l);
    assert Up(id, l) - Digit(id, l) + SIZE == 256 * (Up(id, l + 1) + 1);
    forall j: nat | id <= j < Down(Up(id, l + 1) + 1, l + 1) ensures Used(t, j) { SkipFull(t, layers, id, l, SIZE, j); }
  }

  /** ((id >> sh) ^ n ^ m) << sh when the digit changes from n to m; id itself when it does not */
  function WithDigit(id: nat, l: nat, m: nat): nat {
    if m == Digit(id, l) then id else Down(256 * Up(id, l + 1) + m, l)
  }

  /** The next child with space: everything before it is taken. */
  lemma StepOver(t: Tree, layers: nat, start: nat, id: nat, l: nat, m: nat)
    requires WellFormed(t, layers) && KeyOf(id, l) in t && Taken(t, start, id) && start <= id
    requires |t[KeyOf(id, l)].bitmap| == SIZE && m == NextZero(t[KeyOf(id, l)].bitmap, Digit(id, l)) < SIZE
    ensures id <= WithDigit(id, l, m) && Taken(t, start, WithDigit(id, l, m)) && WithDigit(id, l, m) < Down(1, layers)
    ensures KeyOf(WithDigit(id, l, m), l) == KeyOf(id, l) && Digit(WithDigit(id, l, m), l) == m
  {
    var n, next := Digit(id, l), WithDigit(id, l, m);
    assert Up(id, l) == 256 * Up(id, l + 1) + n;
    if m != n {
      UpOfDown(256 * Up(id, l + 1) + m, l);
      UpDown(id, 256 * Up(id, l + 1) + m, l);
      forall j: nat | id <= j < next ensures Used(t, j) { SkipFull(t, layers, id, l, m, j); }
    }
    LayerInRange(t, layers, next, l);
  }

  /** A clear leaf bit is a free id. */
  lemma FreeAtLeaf(t: Tree, layers: nat, id: nat, m: nat)
    requires WellFormed(t, layers) && KeyOf(id, 0) in t && Digit(id, 0) == m < |t[KeyOf(id, 0)].bitmap|
    requires !t[KeyOf(id, 0)].bitmap[m]
    ensures !Used(t, id)
  {}

  /** No id of [lo, hi) has a pointer other than NULL. */
  ghost predicate NoPointer(t: Tree, lo: int, hi: int) {
    forall id: nat :: lo <= id < hi ==> Lookup(t, id) == None || Lookup(t, id) == Some(NULL)
  }

  /** Where the way down ended at level l with nothing to return, there is nothing up to the next multiple of 256^l. */
  lemma PassGap(t: Tree, layers: nat, id: nat, l: nat, j: nat)
    requires WellFormed(t, layers) && KeyOf(id, l) in t && id <= j < Down(Up(id, l) + 1, l)
    requires if l == 0 then Lookup(t, id) == None || Lookup(t, id) == Some(NULL) else KeyOf(id, l - 1) !in t
    ensures Lookup(t, j) == None || Lookup(t, j) == Some(NULL)
  {
    UpMonotone(id, j, l);
    UpDown(j, Up(id, l) + 1, l);
    if l > 0 && KeyOf(j, 0) in t {
      assert Attached(t, layers, KeyOf(id, l));
      AncestorsPresent(t, layers, j, 0, l - 1);
    }
  }

  /** The layer that covers both the old and the next id is on the way already walked. */
  lemma ClimbStays(t: Tree, layers: nat, id: nat, l: nat, next: nat, up: nat)
    requires Shape(t, layers) && KeyOf(id, l) in t && id <= next < Down(1, layers)
    requires l < up && Up(next, up) == 0 && Up(next, up - 1) != 0
    ensures up <= layers && KeyOf(next, up - 1) in t
  {
    UpDown(next, 1, layers);
    if layers <= up - 1 { UpZero(next, layers, up - 1); }
    UpMonotone(id, next, up);
    AncestorsPresent(t, layers, id, l, up - 1);
  }

  class Idr {
    var layers: nat
    var nodes: Tree

    ghost predicate Valid()
      reads this
    {
      WellFormed(nodes, layers)
    }

    constructor ()
      ensures Valid() && forall id: nat :: Lookup(nodes, id) == None
    {
      layers, nodes := 0, map[];
    }

    /** idr_find_slowpath */
    method Find(id: int) returns (p: Ptr)
      requires Valid()
      ensures p == if id >= 0 && Lookup(nodes, id).Some? then Lookup(nodes, id).value else NULL
    {
      if id < 0 || layers == 0 { return NULL; }
      SmallCapacity(layers);
      if id >= Capacity(layers) {
        if KeyOf(id, 0) in nodes { OutOfRange(id); }
        return NULL;
      }
      TopOfAll(id, layers);
      var l := layers - 1;
      while l > 0
        invariant 0 <= l < layers && KeyOf(id, l) in nodes
      {
        if KeyOf(id, l - 1) !in nodes {
          if KeyOf(id, 0) in nodes { AncestorsPresent(nodes, layers, id, 0, l - 1); }
          return NULL;
        }
        l := l - 1;
      }
      assert BitsOk(nodes, KeyOf(id, 0));
      p := nodes[KeyOf(id, 0)].ary[Digit(id, 0)];
    }

    /** No id beyond the capacity is taken. */
    lemma OutOfRange(id: nat)
      requires Valid() && id >= Capacity(layers)
      ensures !Used(nodes, id)
    {
      if KeyOf(id, 0) in nodes {
        LayerInRange(nodes, layers, id, 0);
        assert BitsOk(nodes, KeyOf(id, 0));
      }
    }

    /** idr_get_next: the first id from start on that has a pointer other than NULL. */
    method GetNext(start: int) returns (r: Option<nat>, p: Ptr)
      requires Valid()
      ensures r.None? ==> p == NULL
      ensures r.None? && start >= 0 ==> NoPointer(nodes, start, MAX_BIT)
      ensures r.Some? ==>
                && 0 <= start <= r.value && p != NULL && Lookup(nodes, r.value) == Some(p)
                && NoPointer(nodes, start, r.value)
    {
      if layers == 0 { return None, NULL; }
      if start < 0 { return None, NULL; }
      SmallCapacity(layers);
      var id: nat, l: nat := start, layers;
      if id < Capacity(layers) { TopOfAll(id, layers); }
      while id < Capacity(layers)
        invariant start <= id && 0 < l && NoPointer(nodes, start, id)
        invariant id < Capacity(layers) ==> l <= layers && KeyOf(id, l - 1) in nodes
        decreases MAX_BIT - id
      {
        l, p := Descend(id, l);
        if p != NULL { return Some(id), p; }
        var next := Down(Up(id, l) + 1, l); // round_up(id + 1, 1 << n)
        forall j: nat | id <= j < next ensures Lookup(nodes, j) == None || Lookup(nodes, j) == Some(NULL) {
          PassGap(nodes, layers, id, l, j);
        }
        UpDown(id, Up(id, l) + 1, l);
        UpOfDown(Up(id, l) + 1, l);
        var up := Climb(next, l);
        if next < Capacity(layers) { ClimbStays(nodes, layers, id, l, next, up); }
        id, l := next, up;
      }
      forall j: nat | id <= j ensures Lookup(nodes, j) == None { OutOfRange(j); }
      return None, NULL;
    }

    /** The inner loop of idr_get_next: down from level l until a layer is missing or a pointer is reached. */
    method Descend(id: nat, l0: nat) returns (l: nat, p: Ptr)
      requires Valid() && 0 < l0 <= layers && KeyOf(id, l0 - 1) in nodes
      ensures l < l0 && KeyOf(id, l) in nodes
      ensures l == 0 ==> (if Lookup(nodes, id).Some? then Lookup(nodes, id).value else NULL) == p
      ensures l > 0 ==> p == NULL && KeyOf(id, l - 1) !in nodes
    {
      l := l0 - 1;
      while l > 0 && KeyOf(id, l - 1) in nodes
        invariant l < l0 && KeyOf(id, l) in nodes
      {
        l := l - 1;
      }
      if l > 0 { return l, NULL; }
      assert BitsOk(nodes, KeyOf(id, 0));
      p := nodes[KeyOf(id, 0)].ary[Digit(id, 0)];
    }

    /** while (n < fls(id)) n += IDR_BITS */
    method Climb(id: nat, l: nat) returns (up: nat)
      requires Up(id, l) != 0
      ensures l < up && Up(id, up) == 0 && Up(id, up - 1) != 0
    {
      up := l;
      while Up(id, up) != 0
        invariant l <= up && (up > l ==> Up(id, up - 1) != 0)
        decreases Up(id, up)
      {
        up := up + 1;
      }
    }

    /** sub_alloc: the least free id from start on, without growing the tree in height. */
    method SubAlloc(start: nat) returns (r: Slot)
      requires Valid() && layers > 0 && start < Capacity(layers)
      modifies this`nodes
      ensures Valid() && SameMap(old(nodes), nodes)
      ensures r.Found? ==>
                && start <= r.id < MAX_BIT && KeyOf(r.id, 0) in nodes && !Used(nodes, r.id)
                && Taken(nodes, start, r.id)
      ensures r.Again? ==> layers < MAX_LEVEL && Capacity(layers) <= r.next < MAX_BIT && Taken(nodes, start, r.next)
      ensures r.NoSpace? ==> Taken(nodes, start, MAX_BIT)
    {
      SmallCapacity(layers);
      TopOfAll(start, layers);
      var id, l := start, layers - 1;
      while true
        invariant Valid() && SameMap(old(nodes), nodes) && 0 <= l < layers
        invariant start <= id < Capacity(layers) && KeyOf(id, l) in nodes && Taken(nodes, start, id)
        decreases MAX_BIT - id, l
      {
        var k := KeyOf(id, l);
        assert BitsOk(nodes, k);
        var m := NextZero(nodes[k].bitmap, Digit(id, l));
        if m == SIZE {
          StepUp(nodes, layers, start, id, l);
          var next := Down(Up(id, l + 1) + 1, l + 1); // (id | low bits) + 1
          if layers < MAX_LEVEL && next >= Capacity(layers) { return Again(next); }
          if next >= MAX_BIT { return NoSpace; } // the int has wrapped to a negative value
          if l + 1 < layers && Up(next, l + 2) == Up(id, l + 2) {
            AncestorsPresent(nodes, layers, id, l, l + 1);
            l := l + 1;
          } else {
            TopOfAll(next, layers);
            l := layers - 1;
          }
          id := next;
        } else {
          StepOver(nodes, layers, start, id, l, m);
          id := WithDigit(id, l, m);
          if id >= MAX_BIT { return NoSpace; }
          if l == 0 {
            FreeAtLeaf(nodes, layers, id, m);
            return Found(id);
          }
          assert ChildKey(k, m) == KeyOf(id, l - 1);
          if ChildKey(k, m) !in nodes { CreateLayer(k, m, start, id); }
          l := l - 1;
        }
      }
    }

    /** On the way down, a layer that was never created is added empty. */
    method CreateLayer(k: Key, m: nat, ghost start: nat, ghost id: nat)
      requires Valid() && k in nodes && k.level > 0 && m < SIZE && ChildKey(k, m) !in nodes && Taken(nodes, start, id)
      modifies this`nodes
      ensures Valid() && SameMap(old(nodes), nodes) && ChildKey(k, m) in nodes && Taken(nodes, start, id)
    {
      AddChildKeeps(nodes, layers, k, m);
      TakenSame(nodes, AddChild(nodes, k, m), start, id);
      nodes := AddChild(nodes, k, m);
    }

    /** The first part of idr_get_empty_slot: enough layers for id. */
    method BuildUp(id: nat)
      requires Valid() && id < MAX_BIT
      modifies this
      ensures Valid() && SameMap(old(nodes), nodes) && 0 < layers && id < Capacity(layers)
      ensures layers == old(layers) || layers == 1 || Capacity(layers - 1) <= id
      ensures old(layers) > 0 && id < Capacity(old(layers)) ==> layers == old(layers) && nodes == old(nodes)
    {
      if layers == 0 {
        FirstLayer();
        layers, nodes := 1, map[Key(0, 0) := EmptyLayer()];
      }
      while id >= Capacity(layers)
        invariant Valid() && SameMap(old(nodes), nodes) && 0 < layers <= MAX_LEVEL
        invariant layers == old(layers) || layers == 1 || Capacity(layers - 1) <= id
        invariant old(layers) > 0 && id < Capacity(old(layers)) ==> layers == old(layers) && nodes == old(nodes)
        decreases MAX_LEVEL - layers
      {
        if nodes[Key(layers - 1, 0)].count == 0 {
          MoveTopKeeps(nodes, layers);
          nodes := MoveTop(nodes, layers);
        } else {
          AddTopKeeps(nodes, layers);
          nodes := AddTop(nodes, layers);
        }
        layers := layers + 1;
      }
    }

    /** idr_get_empty_slot: grow and search until a slot is found or the id space is exhausted. */
    method GetEmptySlot(start: nat) returns (r: Slot)
      requires Valid() && start < MAX_BIT
      modifies this
      ensures Valid() && SameMap(old(nodes), nodes) && !r.Again?
      ensures r.Found? ==>
                && start <= r.id < MAX_BIT && KeyOf(r.id, 0) in nodes && !Used(nodes, r.id)
                && Taken(nodes, start, r.id)
      ensures r.NoSpace? ==> Taken(nodes, start, MAX_BIT)
    {
      var id := start;
      while true
        invariant Valid() && SameMap(old(nodes), nodes) && start <= id < MAX_BIT && Taken(nodes, start, id)
        decreases MAX_BIT - id
      {
        ghost var t := nodes;
        BuildUp(id);
        ghost var grown := nodes;
        r := SubAlloc(id);
        TakenSame(t, grown, start, id);
        TakenSame(grown, nodes, start, id);
        if !r.Again? { return; }
        id := r.next;
      }
    }

    /** idr_fill_slot with idr_mark_full. */
    method FillSlot(id: nat, ptr: Ptr)
      requires Valid() && id < MAX_BIT && KeyOf(id, 0) in nodes && !Used(nodes, id)
      modifies this`nodes
      ensures Valid() && forall j: nat :: Lookup(nodes, j) == if j == id then Some(ptr) else Lookup(old(nodes), j)
    {
      FillLeafLags(nodes, layers, id, ptr);
      forall j: nat ensures Lookup(FillLeaf(nodes, id, ptr), j) == if j == id then Some(ptr) else Lookup(nodes, j) {
        FillLeafMaps(nodes, layers, id, ptr, j);
      }
      nodes := FillLeaf(nodes, id, ptr);
      MarkFull(id);
    }

    method MarkFull(id: nat)
      requires KeyOf(id, 0) in nodes && Lagging(nodes, layers, KeyOf(id, 1), Digit(id, 1))
      modifies this`nodes
      ensures Valid() && SameMap(old(nodes), nodes)
    {
      var l := 0;
      assert Attached(nodes, layers, KeyOf(id, 0));
      while Full(nodes[KeyOf(id, l)].bitmap)
        invariant 0 <= l < layers && KeyOf(id, l) in nodes && Lagging(nodes, layers, KeyOf(id, l + 1), Digit(id, l + 1))
        invariant SameLeaves(old(nodes), nodes)
        decreases layers - l
      {
        if l + 1 == layers { break; }
        AncestorsPresent(nodes, layers, id, l, l + 1);
        MarkStep(nodes, layers, id, l);
        SetBitShape(nodes, layers, KeyOf(id, l + 1), Digit(id, l + 1));
        nodes := SetBit(nodes, KeyOf(id, l + 1), Digit(id, l + 1));
        l := l + 1;
      }
      CaughtUp(nodes, layers, id, l);
      SameLeavesSameMap(old(nodes), nodes);
    }

    /** idr_alloc: the least free id of [start, end), or of [start, 2^31) when end is not positive. */
    method Alloc(ptr: Ptr, start: int, end: int) returns (r: Result<nat>)
      requires Valid() && start < MAX_BIT && end < MAX_BIT
      modifies this
      ensures Valid() && (r.Ok? || r.EINVAL? || r.ENOSPC?)
      ensures r.EINVAL? <==> start < 0
      ensures !r.Ok? ==> SameMap(old(nodes), nodes)
      ensures r.ENOSPC? ==> Taken(old(nodes), start, if end > 0 then end else MAX_BIT)
      ensures r.Ok? ==>
        && start <= r.value < (if end > 0 then end else MAX_BIT)
        && Taken(old(nodes), start, r.value) && Lookup(old(nodes), r.value) == None
        && forall j: nat :: Lookup(nodes, j) == if j == r.value then Some(ptr) else Lookup(old(nodes), j)
    {
      var max := if end > 0 then end - 1 else MAX_BIT - 1;
      if start < 0 { return EINVAL; }
      if max < start { return ENOSPC; }
      var slot := GetEmptySlot(start);
      TakenSameBack(old(nodes), nodes, start);
      if slot.NoSpace? || slot.id > max { return ENOSPC; }
      assert Lookup(nodes, slot.id) == None;
      FillSlot(slot.id, ptr);
      return Ok(slot.id);
    }

    lemma TakenSameBack(t: Tree, t': Tree, lo: int)
      requires SameMap(t, t')
      ensures forall hi: int :: Taken(t', lo, hi) ==> Taken(t, lo, hi)
    {
      forall hi: int | Taken(t', lo, hi) ensures Taken(t, lo, hi) { TakenSame(t', t, lo, hi); }
    }

    /** idr_replace */
    method Replace(ptr: Ptr, id: int) returns (r: Result<Ptr>)
      requires Valid()
      modifies this`nodes
      ensures Valid() && (r.EINVAL? <==> id < 0)
      ensures id >= 0 ==> (r == if Lookup(old(nodes), id).Some? then Ok(Lookup(old(nodes), id).value) else ENOENT)
      ensures !r.Ok? ==> nodes == old(nodes)
      ensures r.Ok? ==> forall j: nat :: Lookup(nodes, j) == if j == id then Some(ptr) else Lookup(old(nodes), j)
    {
      if id < 0 { return EINVAL; }
      if layers == 0 { return ENOENT; }
      if id >= Capacity(layers) {
        OutOfRange(id);
        return ENOENT;
      }
      SmallCapacity(layers);
      TopOfAll(id, layers);
      var l := layers - 1;
      while l > 0 && KeyOf(id, l) in nodes
        invariant 0 <= l < layers && (KeyOf(id, 0) in nodes ==> KeyOf(id, l) in nodes) && nodes == old(nodes)
      {
        if KeyOf(id, 0) in nodes { AncestorsPresent(nodes, layers, id, 0, l - 1); }
        l := l - 1;
      }
      if l > 0 || KeyOf(id, l) !in nodes { return ENOENT; }
      assert BitsOk(nodes, KeyOf(id, 0));
      var leaf := nodes[KeyOf(id, 0)];
      if !leaf.bitmap[Digit(id, 0)] { return ENOENT; }
      ReplacePtrKeeps(nodes, layers, id, ptr);
      nodes := ReplacePtr(nodes, id, ptr);
      return Ok(leaf.ary[Digit(id, 0)]);
    }

    /** The walk down in sub_remove: clear the path bits above the leaf, as far as there are layers. */
    method ClearInner(id: nat) returns (l: nat)
      requires Valid() && 0 < layers && id < Capacity(layers)
      modifies this`nodes
      ensures l < layers && nodes == Cleared(old(nodes), id, l + 1, layers)
      ensures KeyOf(id, 0) in old(nodes) ==> l == 0
    {
      ghost var t := nodes;
      SmallCapacity(layers);
      TopOfAll(id, layers);
      l := layers - 1;
      assert Cleared(t, id, layers, layers) == t;
      while l > 0 && KeyOf(id, l) in nodes
        invariant l < layers && nodes == Cleared(t, id, l + 1, layers) && (KeyOf(id, 0) in t ==> KeyOf(id, l) in t)
      {
        ClearedStep(t, layers, id, l, layers);
        if KeyOf(id, 0) in t { AncestorsPresent(t, layers, id, 0, l - 1); }
        var k := KeyOf(id, l);
        nodes := nodes[k := nodes[k].(bitmap := nodes[k].bitmap[Digit(id, l) := false])];
        l := l - 1;
      }
    }

    /** Then the leaf's own bit and pointer; nothing at all changes if the id is not taken. */
    method ClearPath(id: nat) returns (found: bool)
      requires Valid() && id < Capacity(layers)
      modifies this`nodes
      ensures found == Used(old(nodes), id)
      ensures !found ==> nodes == old(nodes)
      ensures found ==> KeyOf(id, 0) in old(nodes) && Digit(id, 0) < |old(nodes)[KeyOf(id, 0)].ary|
      ensures found ==> nodes == EmptySlot(old(nodes), id, layers)
    {
      if layers == 0 { return false; }
      ghost var t := nodes;
      var l := ClearInner(id);
      var k := KeyOf(id, 0);
      if l == 0 && k in nodes {
        ClearedStep(t, layers, id, 0, layers);
        assert BitsOk(t, k);
        if nodes[k].bitmap[Digit(id, 0)] {
          nodes := nodes[k := nodes[k].(bitmap := nodes[k].bitmap[Digit(id, 0) := false])];
          nodes := nodes[k := nodes[k].(ary := nodes[k].ary[Digit(id, 0) := NULL])];
          return true;
        }
      }
      NothingToClear(t, layers, id, l + 1, layers);
      return false;
    }

    /** The walk up in sub_remove: layers that count nothing any more are freed. */
    method FreeEmpty(id: nat)
      requires OverCounted(nodes, layers, KeyOf(id, 0))
      modifies this
      ensures Valid() && SameMap(old(nodes), nodes)
      ensures layers == old(layers) || layers == 0
      ensures PathTidy(nodes, layers, id) && OffPathSame(old(nodes), nodes, id)
    {
      var l := 0;
      ghost var t0 := nodes;
      assert Attached(nodes, layers, KeyOf(id, 0));
      while true
        invariant layers == old(layers) && Freeing(t0, nodes, layers, id, l)
        decreases layers - l
      {
        FreeingStep(t0, nodes, layers, id, l);
        var k := KeyOf(id, l);
        nodes := Decrement(nodes, k);
        if nodes[k].count != 0 { return; }
        nodes := nodes - {k};
        l := l + 1;
        if l == layers {
          layers := 0;
          return;
        }
      }
    }

    /** A top with the first child alone is not needed; tidy: the path to id has been cleaned up. */
    method ShrinkTop(ghost tidy: bool, ghost t0: Tree, ghost id: nat)
      requires Valid() && (layers > 1 ==> id < Down(1, layers))
      requires tidy ==> PathTidy(nodes, layers, id) && OffPathSame(t0, nodes, id)
      modifies this
      ensures Valid() && SameMap(old(nodes), nodes)
      ensures if Shrinkable(old(nodes), old(layers))
              then layers == old(layers) - 1 && nodes == old(nodes) - {Key(layers, 0)}
              else layers == old(layers) && nodes == old(nodes)
      ensures tidy ==> PathTidy(nodes, layers, id) && OffPathSame(t0, nodes, id)
    {
      if layers > 1 && nodes[Key(layers - 1, 0)].count == 1 && Key(layers - 2, 0) in nodes {
        ShrinkKeeps(nodes, layers);
        if tidy { ShrinkTidy(t0, nodes, layers, id); }
        layers, nodes := layers - 1, nodes - {Key(layers - 1, 0)};
      }
    }

    /** idr_remove: the id is given back; every other id keeps its pointer. */
    method Remove(id: int)
      requires Valid()
      modifies this
      ensures Valid()
      ensures forall j: nat :: Lookup(nodes, j) == if j == id then None else Lookup(old(nodes), j)
      ensures id >= 0 && Used(old(nodes), id) ==> PathTidy(nodes, layers, id) && OffPathSame(old(nodes), nodes, id)
      ensures layers == old(layers) || layers == old(layers) - 1 || layers == 0
      ensures 0 <= id < Capacity(old(layers)) && layers == old(layers) ==> !Shrinkable(nodes, layers)
    {
      if id < 0 { return; }
      if id >= Capacity(layers) {
        OutOfRange(id);
        return;
      }
      ghost var t := nodes;
      SmallCapacity(layers);
      var found := ClearPath(id);
      if found {
        EmptySlotAll(t, layers, id);
        FreeEmpty(id);
      }
      ShrinkTop(found, t, id);
    }
  }
}
