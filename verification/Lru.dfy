/** Doubly linked lists as sequences: unlinking an element. */
module Unlinking {
  import opened Sequences

  function Remove(s: seq<nat>, x: nat): (r: seq<nat>) {
    if s == [] then [] else if s[0] == x then s[1..] else [s[0]] + Remove(s[1..], x)
  }

  lemma {:induction false} RemoveAbsent(s: seq<nat>, x: nat)
    requires x !in s
    ensures Remove(s, x) == s
  {
    if s != [] { RemoveAbsent(s[1..], x); }
  }

  /** Removing keeps everything else, once each. */
  lemma {:induction false} RemoveMembers(s: seq<nat>, x: nat)
    requires Distinct(s)
    ensures Distinct(Remove(s, x)) && |Remove(s, x)| == |s| - (if x in s then 1 else 0)
    ensures forall y :: y in Remove(s, x) <==> y in s && y != x
  {
    if s != [] {
      var t := s[1..];
      assert forall y :: y in s <==> y == s[0] || y in t;
      assert s[0] !in t;
      RemoveMembers(t, x);
    }
  }

  /** Labels go down along the list. */
  ghost predicate Descending(s: seq<nat>, stamp: seq<nat>) {
    && (forall i :: 0 <= i < |s| ==> s[i] < |stamp|)
    && (forall i, j :: 0 <= i < j < |s| ==> stamp[s[i]] > stamp[s[j]])
  }

  /** Removal cuts one position out. */
  lemma {:induction false} RemoveIsCut(s: seq<nat>, x: nat) returns (k: nat)
    requires x in s
    ensures k < |s| && s[k] == x && Remove(s, x) == s[..k] + s[k + 1..]
  {
    if s[0] == x {
      k := 0;
    } else {
      var m := RemoveIsCut(s[1..], x);
      k := m + 1;
      assert [s[0]] + (s[1..][..m] + s[1..][m + 1..]) == s[..k] + s[k + 1..];
    }
  }

  lemma CutDescending(s: seq<nat>, stamp: seq<nat>, k: nat, r: seq<nat>)
    requires Descending(s, stamp) && k < |s| && r == s[..k] + s[k + 1..]
    ensures Descending(r, stamp)
  {
    forall i | 0 <= i < |r| ensures r[i] == if i < k then s[i] else s[i + 1] {}
  }

  lemma RemoveDescending(s: seq<nat>, stamp: seq<nat>, x: nat)
    requires Descending(s, stamp)
    ensures Descending(Remove(s, x), stamp)
  {
    if x in s {
      var k := RemoveIsCut(s, x);
      CutDescending(s, stamp, k, Remove(s, x));
    } else {
      RemoveAbsent(s, x);
    }
  }
}

/** lru_cache: the active set as a table of elements on four lists, and what every operation does to it. */
module LruModel {
  import opened Options
  import opened Sequences
  import opened Unlinking

  const LC_FREE: nat := 0xFFFF_FFFF

  datatype Elem = Elem(refcnt: nat, number: nat, newNumber: nat)

  /** The list an element belongs on, told from its fields. */
  datatype Kind = Free | Idle | Used | Changing | Broken

  function KindOf(e: Elem): Kind {
    if e.number == e.newNumber then
      if e.number == LC_FREE then (if e.refcnt == 0 then Free else Broken) else if e.refcnt == 0 then Idle else Used
    else if e.newNumber != LC_FREE && e.refcnt > 0 then Changing else Broken
  }

  /** The heads free, lru, in_use and to_be_changed; list heads (next) come first. */
  datatype Lists = Lists(free: seq<nat>, lru: seq<nat>, inUse: seq<nat>, changing: seq<nat>)
  {
    function On(k: Kind): seq<nat> {
      match k
      case Free => free
      case Idle => lru
      case Used => inUse
      case Changing => changing
      case Broken => []
    }
  }

  datatype Stats = Stats(hits: nat, misses: nat, starving: nat, locked: nat, changed: nat)

  datatype Flags = Flags(dirty: bool, locked: bool, starving: bool)

  datatype Cache = Cache(elems: seq<Elem>, lists: Lists, max: nat, used: int, pending: nat, stats: Stats, flags: Flags)

  /** list_move: off whatever list it is on, to the head of another. */
  function Move(l: Lists, e: nat, k: Kind): Lists {
    Lists((if k.Free? then [e] else []) + Remove(l.free, e),
          (if k.Idle? then [e] else []) + Remove(l.lru, e),
          (if k.Used? then [e] else []) + Remove(l.inUse, e),
          (if k.Changing? then [e] else []) + Remove(l.changing, e))
  }

  predicate Hashed(elems: seq<Elem>, enr: nat, i: nat) {
    i < |elems| && elems[i].newNumber == enr
  }

  /** The element carrying a label, settled or pending. */
  ghost function Hit(elems: seq<Elem>, enr: nat): (r: Option<nat>)
    ensures r.Some? ==> Hashed(elems, enr, r.value)
    ensures r.None? ==> forall i :: !Hashed(elems, enr, i)
  {
    if exists i :: Hashed(elems, enr, i) then var i :| Hashed(elems, enr, i); Some(i) else None
  }

  /** The head of free, else the tail of lru. */
  function Victim(l: Lists): Option<nat> {
    if l.free != [] then Some(l.free[0]) else if l.lru != [] then Some(l.lru[|l.lru| - 1]) else None
  }

  /** Replace element e and move it to the list its new fields call for. */
  function Place(c: Cache, e: nat, x: Elem): Cache
    requires e < |c.elems|
  {
    c.(elems := c.elems[e := x], lists := Move(c.lists, e, KindOf(x)))
  }

  function CountHit(c: Cache): Cache { c.(stats := c.stats.(hits := c.stats.hits + 1)) }

  function GetHit(c: Cache, e: nat, mayUseUncommitted: bool): (Cache, Option<nat>)
    requires e < |c.elems|
  {
    var x := c.elems[e];
    if x.newNumber != x.number then
      if !mayUseUncommitted then (c, None)
      else (CountHit(c.(elems := c.elems[e := x.(refcnt := x.refcnt + 1)])), Some(e))
    else
      var used := if x.refcnt == 0 then c.used + 1 else c.used;
      (CountHit(Place(c.(used := used), e, x.(refcnt := x.refcnt + 1))), Some(e))
  }

  /** Element e starts to change its label. */
  function PullIn(c: Cache, e: nat, enr: nat): Cache
    requires e < |c.elems|
  {
    var x := c.elems[e];
    Place(c.(used := c.used + 1, pending := c.pending + 1, flags := c.flags.(starving := false)), e,
          x.(newNumber := enr, refcnt := x.refcnt + 1))
  }

  function GetMiss(c: Cache, enr: nat, mayChange: bool): (Cache, Option<nat>) {
    var m := c.(stats := c.stats.(misses := c.stats.misses + 1));
    var d := m.(flags := m.flags.(dirty := true));
    if !mayChange then (m, None)
    else if d.flags.locked then (d.(stats := d.stats.(locked := d.stats.locked + 1)), None)
    else match Victim(c.lists)
      case None => (d.(flags := d.flags.(starving := true)), None)
      case Some(e) =>
        if c.pending >= c.max || e >= |c.elems| then (d, None) // listed elements are always in range
        else (PullIn(d, e, enr), Some(e))
  }

  ghost function Get(c: Cache, enr: nat, mayChange: bool, mayUseUncommitted: bool): (Cache, Option<nat>) {
    if c.flags.starving then (c.(stats := c.stats.(starving := c.stats.starving + 1)), None)
    else match Hit(c.elems, enr)
      case Some(e) => GetHit(c, e, mayUseUncommitted)
      case None => GetMiss(c, enr, mayChange)
  }

  function Put(c: Cache, e: nat): Cache
    requires e < |c.elems| && c.elems[e].refcnt > 0
  {
    var x := c.elems[e].(refcnt := c.elems[e].refcnt - 1);
    if x.refcnt == 0 then Place(c.(used := c.used - 1, flags := c.flags.(starving := false)), e, x)
    else c.(elems := c.elems[e := x])
  }

  /** The commit loop: to_be_changed empties from its head onto the head of in_use. */
  function Settle(elems: seq<Elem>, l: Lists): (r: (seq<Elem>, Lists))
    decreases |l.changing|
  {
    if l.changing == [] || l.changing[0] >= |elems| then (elems, l)
    else var e := l.changing[0]; Settle(elems[e := elems[e].(number := elems[e].newNumber)], Move(l, e, Used))
  }

  function Committed(c: Cache): Cache {
    var r := Settle(c.elems, c.lists);
    c.(elems := r.0, lists := r.1, pending := 0, stats := c.stats.(changed := c.stats.changed + |c.lists.changing|))
  }

  function Del(c: Cache, e: nat): Cache
    requires e < |c.elems|
  {
    Place(c, e, c.elems[e].(number := LC_FREE, newNumber := LC_FREE))
  }

  function SetLabel(c: Cache, enr: nat, index: int): Cache {
    if index < 0 || index >= |c.elems| then c else Place(c, index, c.elems[index].(number := enr, newNumber := enr))
  }

  function TryLock(c: Cache): (Cache, bool) {
    if c.flags == Flags(false, false, false) then (c.(flags := c.flags.(locked := true)), true) else (c, false)
  }

  function TryLockForTransaction(c: Cache): (Cache, bool) {
    (c.(flags := c.flags.(locked := true)), !c.flags.locked)
  }

  function Unlock(c: Cache): Cache { c.(flags := c.flags.(dirty := false, locked := false)) }

  /** lc_create: all elements free, the last one created first in line. */
  function Countdown(n: nat): (s: seq<nat>) {
    if n == 0 then [] else [n - 1] + Countdown(n - 1)
  }

  function Fresh(n: nat, max: nat): Cache {
    Cache(seq(n, _ => Elem(0, LC_FREE, LC_FREE)), Lists(Countdown(n), [], [], []), max, 0, 0,
          Stats(0, 0, 0, 0, 0), Flags(false, false, false))
  }

  // ---- the invariant

  predicate Is(elems: seq<Elem>, i: nat, k: Kind) { i < |elems| && KindOf(elems[i]) == k }

  /** Every element is on the list its fields call for, once, and on no other. */
  ghost predicate Placed(elems: seq<Elem>, l: Lists) {
    && (forall i: nat, k :: i in l.On(k) <==> Is(elems, i, k))
    && (forall k :: Distinct(l.On(k)))
    && |l.free| + |l.lru| + |l.inUse| + |l.changing| == |elems|
  }

  ghost predicate UniqueLabels(elems: seq<Elem>) {
    forall i, j ::
      0 <= i < |elems| && 0 <= j < |elems| && elems[i].newNumber == elems[j].newNumber != LC_FREE ==> i == j
  }

  ghost predicate Counted(c: Cache) {
    && c.used == |c.lists.inUse| + |c.lists.changing|
    && c.pending == |c.lists.changing| <= c.max
    && (c.flags.starving ==> c.lists.free == [] && c.lists.lru == [])
  }

  ghost predicate Inv(c: Cache) {
    |c.elems| > 0 && Placed(c.elems, c.lists) && UniqueLabels(c.elems) && Counted(c)
  }

  lemma NotBroken(elems: seq<Elem>, l: Lists, i: nat)
    requires Placed(elems, l) && i < |elems|
    ensures !KindOf(elems[i]).Broken? && i in l.On(KindOf(elems[i]))
  {
    assert i in l.On(Broken) <==> KindOf(elems[i]) == Broken;
  }

  /** One list of the four after a move. */
  lemma MoveOn(elems: seq<Elem>, l: Lists, e: nat, k: Kind, at: Kind)
    requires Placed(elems, l) && e < |elems| && !k.Broken?
    ensures Move(l, e, k).On(at) == (if at == k then [e] else []) + Remove(l.On(at), e)
    ensures Distinct(Move(l, e, k).On(at))
    ensures |Move(l, e, k).On(at)|
      == |l.On(at)| + (if at == k then 1 else 0) - (if KindOf(elems[e]) == at then 1 else 0)
    ensures forall i :: i in Move(l, e, k).On(at) <==> if i == e then at == k else i in l.On(at)
  {
    RemoveMembers(l.On(at), e);
    var r := Remove(l.On(at), e);
    assert e !in r;
    assert e in l.On(at) <==> KindOf(elems[e]) == at;
  }

  /** Replacing an element's fields and moving it to the matching list keeps every element in its place. */
  lemma MoveKeeps(elems: seq<Elem>, l: Lists, e: nat, x: Elem)
    requires Placed(elems, l) && e < |elems| && !KindOf(x).Broken?
    ensures Placed(elems[e := x], Move(l, e, KindOf(x)))
  {
    var elems', l' := elems[e := x], Move(l, e, KindOf(x));
    forall k ensures Distinct(l'.On(k)) { MoveOn(elems, l, e, KindOf(x), k); }
    forall i: nat, k ensures i in l'.On(k) <==> Is(elems', i, k) {
      MoveOn(elems, l, e, KindOf(x), k);
      assert i in l.On(k) <==> Is(elems, i, k);
    }
    MoveSizes(elems, l, e, KindOf(x));
  }

  /** List lengths after a move: one more where it goes, one less where it came from. */
  lemma MoveSizes(elems: seq<Elem>, l: Lists, e: nat, k: Kind)
    requires Placed(elems, l) && e < |elems| && !k.Broken?
    ensures var l' := Move(l, e, k); var was := KindOf(elems[e]);
      && |l'.free| == |l.free| + (if k.Free? then 1 else 0) - (if was.Free? then 1 else 0)
      && |l'.lru| == |l.lru| + (if k.Idle? then 1 else 0) - (if was.Idle? then 1 else 0)
      && |l'.inUse| == |l.inUse| + (if k.Used? then 1 else 0) - (if was.Used? then 1 else 0)
      && |l'.changing| == |l.changing| + (if k.Changing? then 1 else 0) - (if was.Changing? then 1 else 0)
      && |l'.free| + |l'.lru| + |l'.inUse| + |l'.changing| == |elems|
  {
    MoveOn(elems, l, e, k, Free);
    MoveOn(elems, l, e, k, Idle);
    MoveOn(elems, l, e, k, Used);
    MoveOn(elems, l, e, k, Changing);
    NotBroken(elems, l, e);
  }

  // ---- every operation keeps the invariant

  /** Which list an element is on decides which lists can be empty. */
  lemma KindNonempty(c: Cache, i: nat)
    requires Inv(c) && i < |c.elems|
    ensures c.elems[i].refcnt == 0 ==> !c.flags.starving
    ensures !KindOf(c.elems[i]).Broken?
  {
    NotBroken(c.elems, c.lists, i);
  }

  lemma RelabelUnique(elems: seq<Elem>, e: nat, x: Elem)
    requires UniqueLabels(elems) && e < |elems|
    requires x.newNumber == LC_FREE || forall i: nat :: i != e ==> !Hashed(elems, x.newNumber, i)
    ensures UniqueLabels(elems[e := x])
  {
    var elems' := elems[e := x];
    forall i, j | 0 <= i < |elems'| && 0 <= j < |elems'| && elems'[i].newNumber == elems'[j].newNumber != LC_FREE
      ensures i == j
    {
      assert i != e ==> Hashed(elems, elems'[i].newNumber, i);
      assert j != e ==> Hashed(elems, elems'[j].newNumber, j);
    }
  }

  lemma SameLabel(elems: seq<Elem>, e: nat, x: Elem)
    requires UniqueLabels(elems) && e < |elems| && x.newNumber == elems[e].newNumber
    ensures UniqueLabels(elems[e := x])
  {}

  lemma PlaceKeeps(c: Cache, e: nat, x: Elem)
    requires |c.elems| > 0 && Placed(c.elems, c.lists) && e < |c.elems| && !KindOf(x).Broken?
    requires UniqueLabels(c.elems[e := x]) && Counted(Place(c, e, x))
    ensures Inv(Place(c, e, x))
  {
    MoveKeeps(c.elems, c.lists, e, x);
  }

  /** A reference taken or dropped that does not change the list. */
  lemma RecountKeeps(c: Cache, e: nat, refcnt: nat)
    requires Inv(c) && e < |c.elems| && refcnt > 0 && c.elems[e].refcnt > 0
    ensures Inv(c.(elems := c.elems[e := c.elems[e].(refcnt := refcnt)]))
  {
    var elems' := c.elems[e := c.elems[e].(refcnt := refcnt)];
    forall i: nat, k ensures i in c.lists.On(k) <==> Is(elems', i, k) {
      assert i in c.lists.On(k) <==> Is(c.elems, i, k);
      NotBrokenSame(c, e, refcnt);
    }
    SameLabel(c.elems, e, elems'[e]);
  }

  lemma NotBrokenSame(c: Cache, e: nat, refcnt: nat)
    requires Inv(c) && e < |c.elems| && refcnt > 0 && c.elems[e].refcnt > 0
    ensures KindOf(c.elems[e].(refcnt := refcnt)) == KindOf(c.elems[e])
  {
    NotBroken(c.elems, c.lists, e);
  }

  lemma HitKeeps(c: Cache, enr: nat, e: nat, mayUseUncommitted: bool)
    requires Inv(c) && enr != LC_FREE && Hashed(c.elems, enr, e) && !c.flags.starving
    ensures Inv(GetHit(c, e, mayUseUncommitted).0)
  {
    var x := c.elems[e];
    NotBroken(c.elems, c.lists, e);
    if x.newNumber != x.number {
      RecountKeeps(c, e, x.refcnt + 1);
    } else {
      var x' := x.(refcnt := x.refcnt + 1);
      MoveSizes(c.elems, c.lists, e, Used);
      SameLabel(c.elems, e, x');
      PlaceKeeps(c.(used := if x.refcnt == 0 then c.used + 1 else c.used), e, x');
    }
  }

  /** What lc_prepare_for_change picks is unreferenced, settled and not labelled like anything wanted. */
  lemma VictimUnused(c: Cache)
    requires Inv(c) && Victim(c.lists).Some?
    ensures var e := Victim(c.lists).value;
      e < |c.elems| && c.elems[e].refcnt == 0 && c.elems[e].number == c.elems[e].newNumber
      && KindOf(c.elems[e]) == (if c.lists.free != [] then Free else Idle)
  {
    var e, k := Victim(c.lists).value, if c.lists.free != [] then Free else Idle;
    assert e in c.lists.On(k);
    assert Is(c.elems, e, k);
  }

  lemma PullInKeeps(c: Cache, enr: nat)
    requires Inv(c) && enr != LC_FREE && forall i: nat :: !Hashed(c.elems, enr, i)
    requires Victim(c.lists).Some? && Victim(c.lists).value < |c.elems| && c.pending < c.max
    ensures Inv(PullIn(c, Victim(c.lists).value, enr))
  {
    VictimUnused(c);
    var e := Victim(c.lists).value;
    var x := c.elems[e];
    var x' := x.(newNumber := enr, refcnt := x.refcnt + 1);
    assert !Hashed(c.elems, enr, e);
    assert KindOf(x') == Changing;
    RelabelUnique(c.elems, e, x');
    MoveSizes(c.elems, c.lists, e, Changing);
    PlaceKeeps(c.(used := c.used + 1, pending := c.pending + 1, flags := c.flags.(starving := false)), e, x');
  }

  lemma MissKeeps(c: Cache, enr: nat, mayChange: bool)
    requires Inv(c) && enr != LC_FREE && !c.flags.starving && forall i: nat :: !Hashed(c.elems, enr, i)
    ensures Inv(GetMiss(c, enr, mayChange).0)
  {
    if mayChange && !c.flags.locked && Victim(c.lists).Some? && c.pending < c.max {
      VictimUnused(c);
      PullInKeeps(c.(stats := c.stats.(misses := c.stats.misses + 1), flags := c.flags.(dirty := true)), enr);
    }
  }

  lemma GetKeeps(c: Cache, enr: nat, mayChange: bool, mayUseUncommitted: bool)
    requires Inv(c) && enr != LC_FREE
    ensures Inv(Get(c, enr, mayChange, mayUseUncommitted).0)
  {
    if !c.flags.starving {
      match Hit(c.elems, enr)
      case Some(e) => HitKeeps(c, enr, e, mayUseUncommitted);
      case None => MissKeeps(c, enr, mayChange);
    }
  }

  lemma PutKeeps(c: Cache, e: nat)
    requires Inv(c) && e < |c.elems| && c.elems[e].refcnt > 0 && c.elems[e].number == c.elems[e].newNumber
    ensures Inv(Put(c, e))
  {
    KindNonempty(c, e);
    NotBroken(c.elems, c.lists, e);
    var x := c.elems[e].(refcnt := c.elems[e].refcnt - 1);
    if x.refcnt == 0 {
      MoveSizes(c.elems, c.lists, e, Idle);
      SameLabel(c.elems, e, x);
      PlaceKeeps(c.(used := c.used - 1, flags := c.flags.(starving := false)), e, x);
    } else {
      RecountKeeps(c, e, x.refcnt);
    }
  }

  /** lc_del and lc_set: an unreferenced element gets another label, or none. */
  lemma RelabelKeeps(c: Cache, e: nat, enr: nat)
    requires Inv(c) && e < |c.elems| && c.elems[e].refcnt == 0
    requires enr == LC_FREE || forall i: nat :: i != e ==> !Hashed(c.elems, enr, i)
    ensures Inv(Place(c, e, c.elems[e].(number := enr, newNumber := enr)))
  {
    var x := c.elems[e].(number := enr, newNumber := enr);
    KindNonempty(c, e);
    NotBroken(c.elems, c.lists, e);
    RelabelUnique(c.elems, e, x);
    MoveSizes(c.elems, c.lists, e, KindOf(x));
    PlaceKeeps(c, e, x);
  }

  /** One round of the commit loop. */
  lemma SettleStep(elems: seq<Elem>, l: Lists)
    requires Placed(elems, l) && UniqueLabels(elems) && l.changing != []
    ensures var e := l.changing[0];
      && e < |elems| && elems[e].newNumber != LC_FREE
      && var elems' := elems[e := elems[e].(number := elems[e].newNumber)]; var l' := Move(l, e, Used);
      && Placed(elems', l') && UniqueLabels(elems')
      && l'.changing == l.changing[1..] && l'.free == l.free && l'.lru == l.lru && l'.inUse == [e] + l.inUse
  {
    var e := l.changing[0];
    assert e in l.On(Changing);
    assert Is(elems, e, Changing);
    var x := elems[e].(number := elems[e].newNumber);
    MoveKeeps(elems, l, e, x);
    SameLabel(elems, e, x);
    assert !Is(elems, e, Free) && !Is(elems, e, Idle) && !Is(elems, e, Used);
    assert e !in l.On(Free) && e !in l.On(Idle) && e !in l.On(Used);
    RemoveAbsent(l.free, e);
    RemoveAbsent(l.lru, e);
    RemoveAbsent(l.inUse, e);
  }

  /** Committing settles every label under its new number and moves all pending elements into use. */
  lemma {:induction false} SettleAll(elems: seq<Elem>, l: Lists)
    requires Placed(elems, l) && UniqueLabels(elems)
    ensures var r := Settle(elems, l);
      && Placed(r.0, r.1) && UniqueLabels(r.0) && r.1.changing == [] && r.1.free == l.free && r.1.lru == l.lru
      && |r.1.inUse| == |l.inUse| + |l.changing| && |r.0| == |elems|
      && forall i :: 0 <= i < |elems| ==> r.0[i] == elems[i].(number := elems[i].newNumber)
    decreases |l.changing|
  {
    if l.changing == [] {
      forall i | 0 <= i < |elems| ensures elems[i].number == elems[i].newNumber {
        NotBroken(elems, l, i);
        assert i in l.On(Changing) <==> Is(elems, i, Changing);
      }
    } else {
      SettleStep(elems, l);
      var e := l.changing[0];
      SettleAll(elems[e := elems[e].(number := elems[e].newNumber)], Move(l, e, Used));
    }
  }

  lemma CommittedKeeps(c: Cache)
    requires Inv(c)
    ensures Inv(Committed(c))
  {
    SettleAll(c.elems, c.lists);
  }

  lemma {:induction false} CountdownMembers(n: nat)
    ensures |Countdown(n)| == n && Distinct(Countdown(n)) && forall i: nat :: i in Countdown(n) <==> i < n
  {
    if n > 0 {
      CountdownMembers(n - 1);
      assert n - 1 !in Countdown(n - 1);
    }
  }

  lemma FreshOk(n: nat, max: nat)
    requires n > 0
    ensures Inv(Fresh(n, max))
  {
    CountdownMembers(n);
    var c := Fresh(n, max);
    forall i: nat, k ensures i in c.lists.On(k) <==> Is(c.elems, i, k) {}
  }

  // ---- runs

  datatype Step =
    | GetStep(enr: nat, mayChange: bool, mayUseUncommitted: bool)
    | PutStep(e: nat)
    | CommitStep
    | DelStep(e: nat)
    | SetStep(enr: nat, index: int)
    | TryLockStep
    | TryLockTxStep
    | UnlockStep

  /** What the BUG_ONs and the label discipline ask of callers. */
  ghost predicate Enabled(c: Cache, step: Step) {
    match step
    case GetStep(enr, _, _) => enr != LC_FREE
    case PutStep(e) => e < |c.elems| && c.elems[e].refcnt > 0 && c.elems[e].number == c.elems[e].newNumber
    case DelStep(e) => e < |c.elems| && c.elems[e].refcnt == 0
    case SetStep(enr, index) =>
      0 <= index < |c.elems| ==>
        && c.elems[index].refcnt == 0
        && (enr == LC_FREE || forall i: nat :: i != index ==> !Hashed(c.elems, enr, i))
    case CommitStep => true
    case TryLockStep => true
    case TryLockTxStep => true
    case UnlockStep => true
  }

  ghost function Next(c: Cache, step: Step): Cache
    requires Enabled(c, step)
  {
    match step
    case GetStep(enr, mayChange, mayUse) => Get(c, enr, mayChange, mayUse).0
    case PutStep(e) => Put(c, e)
    case CommitStep => Committed(c)
    case DelStep(e) => Del(c, e)
    case SetStep(enr, index) => SetLabel(c, enr, index)
    case TryLockStep => TryLock(c).0
    case TryLockTxStep => TryLockForTransaction(c).0
    case UnlockStep => Unlock(c)
  }

  lemma NextKeeps(c: Cache, step: Step)
    requires Inv(c) && Enabled(c, step)
    ensures Inv(Next(c, step))
  {
    match step
    case GetStep(enr, mayChange, mayUse) => GetKeeps(c, enr, mayChange, mayUse);
    case PutStep(e) => PutKeeps(c, e);
    case CommitStep => CommittedKeeps(c);
    case DelStep(e) => RelabelKeeps(c, e, LC_FREE);
    case SetStep(enr, index) => if 0 <= index < |c.elems| { RelabelKeeps(c, index, enr); }
    case TryLockStep =>
    case TryLockTxStep =>
    case UnlockStep =>
  }

  /**
   * A run with its history: when each element last dropped to zero references (or was set), how many gets were made,
   * how many were refused for a pending label, whether the set was unlocked with changes that are still pending, and
   * for every element how many gets returned it and how many puts it has had.
   */
  datatype Run = Run(c: Cache, clock: nat, stamp: seq<nat>, calls: nat, refused: nat, early: bool,
                     gets: seq<nat>, puts: seq<nat>)

  predicate Dropped(c: Cache, c': Cache, step: Step, i: nat) {
    || (i < |c.elems| && i < |c'.elems| && c.elems[i].refcnt > 0 && c'.elems[i].refcnt == 0)
    || (step.SetStep? && step.index == i)
  }

  /** A get of a label whose change is still pending, by a caller that cannot use it. */
  ghost predicate Refused(c: Cache, step: Step) {
    && step.GetStep? && !step.mayUseUncommitted && !c.flags.starving
    && var h := Hit(c.elems, step.enr); h.Some? && c.elems[h.value].number != step.enr
  }

  /** The element a get returns. */
  ghost function Returned(c: Cache, step: Step): Option<nat> {
    if step.GetStep? then Get(c, step.enr, step.mayChange, step.mayUseUncommitted).1 else None
  }

  ghost function After(r: Run, step: Step): Run
    requires Enabled(r.c, step)
  {
    var c' := Next(r.c, step);
    Run(c', r.clock + 1,
        seq(|r.stamp|, i requires 0 <= i < |r.stamp| => if Dropped(r.c, c', step, i) then r.clock else r.stamp[i]),
        r.calls + (if step.GetStep? then 1 else 0),
        r.refused + (if Refused(r.c, step) then 1 else 0),
        !step.CommitStep? && (r.early || (step.UnlockStep? && r.c.pending > 0)),
        seq(|r.gets|, i requires 0 <= i < |r.gets| => r.gets[i] + if Returned(r.c, step) == Some(i) then 1 else 0),
        seq(|r.puts|, i requires 0 <= i < |r.puts| => r.puts[i] + if step == PutStep(i) then 1 else 0))
  }

  ghost predicate Timed(r: Run) {
    && |r.stamp| == |r.c.elems|
    && (forall i :: 0 <= i < |r.stamp| ==> r.stamp[i] < r.clock)
    && Descending(r.c.lists.lru, r.stamp)
  }

  ghost predicate Accounted(r: Run) {
    var s := r.c.stats;
    && r.calls == s.starving + s.hits + s.misses + r.refused
    && s.locked + s.changed + r.c.pending <= s.misses
    && (r.c.pending > 0 ==> r.c.flags.dirty || r.early) && (r.early ==> r.c.pending > 0)
  }

  /** The recency order survives taking an element out, and putting it in front with the current time. */
  lemma StampKeeps(lru: seq<nat>, stamp: seq<nat>, stamp': seq<nat>, e: nat, clock: nat, lru': seq<nat>)
    requires Descending(lru, stamp) && Distinct(lru) && e < |stamp| == |stamp'|
    requires forall i :: 0 <= i < |stamp| ==> stamp[i] < clock && (i != e ==> stamp'[i] == stamp[i])
    requires lru' == Remove(lru, e) || (lru' == [e] + Remove(lru, e) && stamp'[e] == clock)
    ensures Descending(lru', stamp')
  {
    RemoveDescending(lru, stamp, e);
    RemoveMembers(lru, e);
    var r := Remove(lru, e);
    assert forall i :: 0 <= i < |r| ==> r[i] in r;
    assert Descending(r, stamp');
  }

  /** A step acts on one element's place in the lru list, or none. */
  ghost predicate LruEffect(c: Cache, step: Step, e: nat)
    requires Enabled(c, step)
  {
    var c' := Next(c, step);
    && |c'.elems| == |c.elems|
    && (forall i: nat :: Dropped(c, c', step, i) && i < |c.elems| ==> i == e < |c.elems|)
    && (|| (c'.lists.lru == c.lists.lru && (e < |c.elems| && Dropped(c, c', step, e) ==> e !in c.lists.lru))
        || (e < |c.elems| && c'.lists.lru == Remove(c.lists.lru, e))
        || (e < |c.elems| && c'.lists.lru == [e] + Remove(c.lists.lru, e) && Dropped(c, c', step, e)))
  }

  lemma GetLruEffect(c: Cache, step: Step) returns (e: nat)
    requires Inv(c) && Enabled(c, step) && step.GetStep?
    ensures LruEffect(c, step, e)
  {
    e := |c.elems|;
    if !c.flags.starving {
      var h := Hit(c.elems, step.enr);
      if h.Some? {
        e := h.value;
        NotBroken(c.elems, c.lists, e);
      } else if Victim(c.lists).Some? {
        VictimUnused(c);
        e := Victim(c.lists).value;
      }
    }
  }

  lemma OtherLruEffect(c: Cache, step: Step) returns (e: nat)
    requires Inv(c) && Enabled(c, step) && !step.GetStep? && !step.SetStep?
    ensures LruEffect(c, step, e)
  {
    e := |c.elems|;
    match step
    case PutStep(x) =>
      e := x;
      KindNonempty(c, e);
      assert Is(c.elems, e, Used);
      assert !Is(c.elems, e, Idle);
      assert e !in c.lists.On(Idle);
    case CommitStep => SettleAll(c.elems, c.lists);
    case DelStep(x) => e := x;
    case TryLockStep =>
    case TryLockTxStep =>
    case UnlockStep =>
  }

  lemma SetLruEffect(c: Cache, step: Step) returns (e: nat)
    requires Inv(c) && Enabled(c, step) && step.SetStep?
    ensures LruEffect(c, step, e)
  {
    e := if 0 <= step.index < |c.elems| then step.index else |c.elems|;
  }

  /** Only the element the step acts on can get a new time. */
  lemma StampsAfter(r: Run, step: Step, e: nat)
    requires Timed(r) && Enabled(r.c, step) && LruEffect(r.c, step, e)
    ensures
      var r' := After(r, step);
      && |r'.stamp| == |r.stamp| && (forall i: nat :: i < |r.stamp| && i != e ==> r'.stamp[i] == r.stamp[i])
      && (e < |r.stamp| ==> r'.stamp[e] == if Dropped(r.c, Next(r.c, step), step, e) then r.clock else r.stamp[e])
  {
    var c', r' := Next(r.c, step), After(r, step);
    forall i: nat | i < |r.stamp| && i != e ensures r'.stamp[i] == r.stamp[i] {
      assert !Dropped(r.c, c', step, i);
    }
  }

  lemma TimedKeeps(r: Run, step: Step, e: nat)
    requires Inv(r.c) && Timed(r) && Enabled(r.c, step) && LruEffect(r.c, step, e)
    ensures Timed(After(r, step))
  {
    var c', r' := Next(r.c, step), After(r, step);
    var lru, lru' := r.c.lists.lru, c'.lists.lru;
    assert Distinct(r.c.lists.On(Idle));
    StampsAfter(r, step, e);
    if e < |r.stamp| && (lru' != lru || Dropped(r.c, c', step, e)) {
      if e !in lru { RemoveAbsent(lru, e); }
      StampKeeps(lru, r.stamp, r'.stamp, e, r.clock, lru');
    }
  }

  lemma AccountedKeeps(r: Run, step: Step)
    requires Inv(r.c) && Accounted(r) && Enabled(r.c, step)
    ensures Accounted(After(r, step))
  {
    if step.CommitStep? {
      SettleAll(r.c.elems, r.c.lists);
    } else if step.GetStep? && Victim(r.c.lists).Some? {
      VictimUnused(r.c);
    }
  }

  /** References are the gets that returned the element, less its puts. */
  ghost predicate Referenced(r: Run) {
    && |r.gets| == |r.puts| == |r.c.elems|
    && forall i :: 0 <= i < |r.gets| ==> r.c.elems[i].refcnt + r.puts[i] == r.gets[i]
  }

  /** What a step does to the reference counts: a get that returns an element takes one, a put gives one back. */
  lemma StepReferences(c: Cache, step: Step, i: nat)
    requires Inv(c) && Enabled(c, step) && i < |c.elems|
    ensures var c' := Next(c, step);
      && |c'.elems| == |c.elems|
      && c'.elems[i].refcnt == c.elems[i].refcnt + (if Returned(c, step) == Some(i) then 1 else 0)
                               - (if step == PutStep(i) then 1 else 0)
  {
    if step.CommitStep? { SettleAll(c.elems, c.lists); }
    if step.GetStep? && Victim(c.lists).Some? { VictimUnused(c); }
  }

  lemma ReferencedKeeps(r: Run, step: Step)
    requires Inv(r.c) && Referenced(r) && Enabled(r.c, step)
    ensures Referenced(After(r, step))
  {
    var r' := After(r, step);
    StepReferences(r.c, step, 0);
    forall i | 0 <= i < |r'.gets| ensures r'.c.elems[i].refcnt + r'.puts[i] == r'.gets[i] {
      StepReferences(r.c, step, i);
    }
  }

  ghost predicate RunInv(r: Run) { Inv(r.c) && Timed(r) && Accounted(r) && Referenced(r) }

  lemma AfterKeeps(r: Run, step: Step)
    requires RunInv(r) && Enabled(r.c, step)
    ensures RunInv(After(r, step))
  {
    NextKeeps(r.c, step);
    AccountedKeeps(r, step);
    ReferencedKeeps(r, step);
    var e;
    if step.GetStep? {
      e := GetLruEffect(r.c, step);
    } else if step.SetStep? {
      e := SetLruEffect(r.c, step);
    } else {
      e := OtherLruEffect(r.c, step);
    }
    TimedKeeps(r, step, e);
  }

  ghost function Start(n: nat, max: nat): Run {
    Run(Fresh(n, max), 1, seq(n, _ => 0), 0, 0, false, seq(n, _ => 0), seq(n, _ => 0))
  }

  ghost predicate IsRun(r: Run, steps: seq<Step>)
    decreases |steps|
  {
    steps == [] || (Enabled(r.c, steps[0]) && IsRun(After(r, steps[0]), steps[1..]))
  }

  ghost function Final(r: Run, steps: seq<Step>): Run
    requires IsRun(r, steps)
    decreases |steps|
  {
    if steps == [] then r else Final(After(r, steps[0]), steps[1..])
  }

  lemma {:induction false} RunKeeps(r: Run, steps: seq<Step>)
    requires RunInv(r) && IsRun(r, steps)
    ensures RunInv(Final(r, steps))
    decreases |steps|
  {
    if steps != [] {
      AfterKeeps(r, steps[0]);
      RunKeeps(After(r, steps[0]), steps[1..]);
    }
  }

  /** Every run of operations on a cache just created keeps the whole invariant, its history included. */
  lemma EveryRun(n: nat, max: nat, steps: seq<Step>)
    requires n > 0 && IsRun(Start(n, max), steps)
    ensures RunInv(Final(Start(n, max), steps))
  {
    StartOk(n, max);
    RunKeeps(Start(n, max), steps);
  }

  lemma StartOk(n: nat, max: nat)
    requires n > 0
    ensures RunInv(Start(n, max))
  {
    FreshOk(n, max);
  }

  /** At any moment an element has as many references as gets have returned it, less its puts. */
  lemma ReferencesInRuns(n: nat, max: nat, steps: seq<Step>, i: nat)
    requires n > 0 && IsRun(Start(n, max), steps) && i < n
    ensures
      var r := Final(Start(n, max), steps);
      && |r.c.elems| == |r.gets| == |r.puts| == n
      && r.c.elems[i].refcnt + r.puts[i] == r.gets[i]
  {
    StartOk(n, max);
    RunKeeps(Start(n, max), steps);
    SameSize(Start(n, max), steps);
  }

  lemma {:induction false} SameSize(r: Run, steps: seq<Step>)
    requires RunInv(r) && IsRun(r, steps)
    ensures |Final(r, steps).c.elems| == |r.c.elems|
    decreases |steps|
  {
    if steps != [] {
      StepReferences(r.c, steps[0], 0);
      AfterKeeps(r, steps[0]);
      SameSize(After(r, steps[0]), steps[1..]);
    }
  }

  /** A label that lc_find would return. */
  ghost predicate Findable(c: Cache, enr: nat) {
    exists i: nat :: Hashed(c.elems, enr, i) && c.elems[i].number == enr
  }

  /** What a step does to the labels of an element: a get gives its label to what it recycles, a commit settles. */
  lemma StepLabels(c: Cache, step: Step, i: nat)
    requires Inv(c) && Enabled(c, step) && i < |c.elems|
    ensures
      var x, c' := c.elems[i], Next(c, step);
      && i < |c'.elems|
      && (c'.elems[i].number, c'.elems[i].newNumber) ==
           if step == DelStep(i) then (LC_FREE, LC_FREE)
           else if step.SetStep? && step.index == i then (step.enr, step.enr)
           else if step.CommitStep? then (x.newNumber, x.newNumber)
           else if Returned(c, step) == Some(i) then (x.number, step.enr)
           else (x.number, x.newNumber)
  {
    if step.CommitStep? { SettleAll(c.elems, c.lists); }
    if step.GetStep? && Victim(c.lists).Some? { VictimUnused(c); }
  }

  ghost predicate Missing(c: Cache, enr: nat) { forall i: nat :: !Hashed(c.elems, enr, i) }

  /** What a step does to the statistics: every get but a refused one is counted once, for what it was. */
  lemma StepStats(c: Cache, step: Step)
    requires Inv(c) && Enabled(c, step)
    ensures
      var t, t', get := c.stats, Next(c, step).stats, step.GetStep? && !c.flags.starving;
      && t'.starving == t.starving + (if step.GetStep? && c.flags.starving then 1 else 0)
      && t'.misses == t.misses + (if get && Missing(c, step.enr) then 1 else 0)
      && t'.hits == t.hits + (if get && !Missing(c, step.enr) && Returned(c, step).Some? then 1 else 0)
      && t'.locked == t.locked + (if get && Missing(c, step.enr) && step.mayChange && c.flags.locked then 1 else 0)
      && t'.changed == t.changed + (if step.CommitStep? then c.pending else 0)
  {
    if Victim(c.lists).Some? { VictimUnused(c); }
    if step.GetStep? { HitOrMissing(c, step.enr); }
  }

  lemma HitOrMissing(c: Cache, enr: nat)
    ensures Hit(c.elems, enr).None? <==> Missing(c, enr)
  {}

  /** What a step does to the flags. */
  lemma StepFlags(c: Cache, step: Step)
    requires Inv(c) && Enabled(c, step)
    ensures
      var f, f' := c.flags, Next(c, step).flags;
      var changing := step.GetStep? && step.mayChange && !f.starving && Missing(c, step.enr);
      && f'.dirty == (if step.UnlockStep? then false else f.dirty || changing)
      && f'.locked == (if step.UnlockStep? then false
                       else f.locked || step.TryLockTxStep? || (step.TryLockStep? && !f.dirty && !f.starving))
      && f'.starving == if step.PutStep? then f.starving && c.elems[step.e].refcnt > 1
                        else f.starving
                             || (changing && !f.locked && forall i: nat :: i < |c.elems| ==> c.elems[i].refcnt > 0)
  {
    var l := c.lists;
    if Victim(l).Some? { VictimUnused(c); }
    forall i: nat | i < |c.elems| && c.elems[i].refcnt == 0 ensures Victim(l).Some? { NotBroken(c.elems, l, i); }
    assert Victim(l).Some? ==> c.elems[Victim(l).value].refcnt == 0;
  }

  /** lc_try_lock takes the lock exactly when no flag is set, the lock for a transaction exactly when it is free. */
  lemma LockReturns(c: Cache)
    ensures TryLock(c).1 <==> !c.flags.dirty && !c.flags.locked && !c.flags.starving
    ensures TryLockForTransaction(c).1 <==> !c.flags.locked
    ensures TryLock(c).1 ==> TryLock(c).0.flags.locked
    ensures TryLock(c).0.elems == c.elems && TryLock(c).0.lists == c.lists
  {}

  /**
   * A get returns an element exactly when the set is not starving and the label is there, settled or usable as it is,
   * or may be given to an unreferenced element; what it returns carries the label.
   */
  lemma GetReturns(c: Cache, step: Step)
    requires Inv(c) && Enabled(c, step) && step.GetStep?
    ensures
      Returned(c, step).Some? <==>
        && !c.flags.starving
        && if exists i: nat :: Hashed(c.elems, step.enr, i)
           then step.mayUseUncommitted || Findable(c, step.enr)
           else step.mayChange && !c.flags.locked && c.pending < c.max
                && exists i: nat :: i < |c.elems| && c.elems[i].refcnt == 0
    ensures
      var r := Returned(c, step);
      r.Some? ==> Hashed(Next(c, step).elems, step.enr, r.value)
                  && ((exists i: nat :: Hashed(c.elems, step.enr, i)) ==> Hashed(c.elems, step.enr, r.value))
  {
    var l := c.lists;
    if Victim(l).Some? { VictimUnused(c); }
    forall i: nat | i < |c.elems| && c.elems[i].refcnt == 0 ensures Victim(l).Some? { NotBroken(c.elems, l, i); }
    assert Victim(l).Some? ==> c.elems[Victim(l).value].refcnt == 0;
  }

  /**
   * A get that recycles an element takes a free one if there is any, otherwise the one that has been unreferenced
   * longest; nothing with a reference is touched.
   */
  lemma EvictsOldest(r: Run, enr: nat, mayUse: bool)
    requires RunInv(r) && enr != LC_FREE && !r.c.flags.starving && Hit(r.c.elems, enr).None?
    ensures var g := Get(r.c, enr, true, mayUse);
      && g.1.Some? == (&& !r.c.flags.locked && r.c.pending < r.c.max
                       && exists i: nat :: i < |r.c.elems| && r.c.elems[i].refcnt == 0)
      && (g.1.Some? ==>
        var e := g.1.value;
        && e < |r.c.elems| && r.c.elems[e].refcnt == 0 && g.0.elems == r.c.elems[e := Elem(1, r.c.elems[e].number, enr)]
        && ((exists i: nat :: Is(r.c.elems, i, Free)) ==> Is(r.c.elems, e, Free))
        && (Is(r.c.elems, e, Free) || forall i: nat :: i != e && Is(r.c.elems, i, Idle) ==> r.stamp[e] < r.stamp[i]))
  {
    var l := r.c.lists;
    if Victim(l).Some? {
      VictimUnused(r.c);
      assert r.c.elems[Victim(l).value].refcnt == 0;
    }
    forall i: nat | i < |r.c.elems| && r.c.elems[i].refcnt == 0 ensures Victim(l).Some? {
      NotBroken(r.c.elems, l, i);
    }
    if Victim(l).Some? && l.free == [] {
      var e := Victim(l).value;
      forall i: nat | i != e && Is(r.c.elems, i, Idle) ensures r.stamp[e] < r.stamp[i] {
        assert i in l.On(Idle);
        var k :| 0 <= k < |l.lru| && l.lru[k] == i;
      }
    }
    forall i: nat | Is(r.c.elems, i, Free) ensures l.free != [] { assert i in l.On(Free); }
  }

  /** A referenced element keeps its label: it is relabelled by nothing, and settled only by a commit. */
  lemma ReferencedStays(c: Cache, step: Step, i: nat)
    requires Inv(c) && Enabled(c, step) && i < |c.elems| && c.elems[i].refcnt > 0
    ensures var c' := Next(c, step);
      i < |c'.elems| && c'.elems[i].newNumber == c.elems[i].newNumber
      && (c'.elems[i].number == c.elems[i].number || (step.CommitStep? && c'.elems[i].number == c.elems[i].newNumber))
  {
    if step.CommitStep? { SettleAll(c.elems, c.lists); }
    else if step.GetStep? && Victim(c.lists).Some? { VictimUnused(c); }
  }

  /** A commit makes exactly the pending labels findable; all others stay as they were. */
  lemma CommitPublishes(c: Cache, enr: nat)
    requires Inv(c)
    ensures Findable(Committed(c), enr) <==> exists i: nat :: Hashed(c.elems, enr, i)
  {
    SettleAll(c.elems, c.lists);
    var c' := Committed(c);
    forall i: nat | Hashed(c.elems, enr, i) ensures Hashed(c'.elems, enr, i) && c'.elems[i].number == enr {}
    forall i: nat | Hashed(c'.elems, enr, i) ensures Hashed(c.elems, enr, i) {}
  }

  /** Until its change is committed, a get only ever removes the recycled element's old label from view. */
  lemma GetHides(c: Cache, enr: nat, mayChange: bool, mayUse: bool, other: nat)
    requires Inv(c) && enr != LC_FREE && other != LC_FREE
    ensures var g := Get(c, enr, mayChange, mayUse);
      Findable(g.0, other) <==>
        Findable(c, other) && !(g.1.Some? && Hit(c.elems, enr).None? && c.elems[g.1.value].number == other)
  {
    var g := Get(c, enr, mayChange, mayUse);
    if Victim(c.lists).Some? { VictimUnused(c); }
    forall i: nat | Hashed(c.elems, other, i) && c.elems[i].number == other
      ensures (Hashed(g.0.elems, other, i) && g.0.elems[i].number == other)
           || (g.1 == Some(i) && Hit(c.elems, enr).None? && c.elems[i].number == other) {}
    forall i: nat | Hashed(g.0.elems, other, i) && g.0.elems[i].number == other
      ensures Hashed(c.elems, other, i) && c.elems[i].number == other {}
  }

  /** A successful lc_try_lock means that no change is pending, exactly unless someone unlocked before committing. */
  lemma TryLockMeansClean(r: Run)
    requires RunInv(r) && TryLock(r.c).1
    ensures !r.early <==> r.c.lists.changing == []
    ensures !r.early <==> forall i: nat :: !Is(r.c.elems, i, Changing)
  {
    if r.c.lists.changing != [] {
      var i := r.c.lists.changing[0];
      assert i in r.c.lists.On(Changing);
      assert Is(r.c.elems, i, Changing);
    }
    forall i: nat | r.c.lists.changing == [] ensures !Is(r.c.elems, i, Changing) {
      assert i in r.c.lists.On(Changing) <==> Is(r.c.elems, i, Changing);
    }
  }

  /** One change, unlocked without a commit: lc_try_lock succeeds with the change pending. */
  lemma LockedWhilePending()
    ensures var steps := [GetStep(5, true, false), UnlockStep];
      && IsRun(Start(1, 1), steps)
      && var c := Final(Start(1, 1), steps).c;
      TryLock(c).1 && c.pending == 1
  {
    var r0 := Start(1, 1);
    assert Countdown(1) == [0] by { assert Countdown(0) == []; }
    assert !Hashed(r0.c.elems, 5, 0);
    var r1 := After(r0, GetStep(5, true, false));
    assert r1.c.elems == [Elem(1, LC_FREE, 5)];
    var r2 := After(r1, UnlockStep);
    assert [GetStep(5, true, false), UnlockStep][1..] == [UnlockStep] && [UnlockStep][1..] == [];
    assert Final(r2, []) == r2 && Final(r1, [UnlockStep]) == r2;
  }

  /** Two gets of one label, the second refused: one call is in none of the three counters. */
  lemma RefusalUncounted()
    ensures var g := GetStep(5, true, false);
      && IsRun(Start(1, 1), [g, g])
      && var r := Final(Start(1, 1), [g, g]);
      r.calls == 2 && r.c.stats.starving + r.c.stats.hits + r.c.stats.misses == 1
  {
    var g := GetStep(5, true, false);
    var r0 := Start(1, 1);
    var r1 := After(r0, g);
    assert Countdown(1) == [0] by { assert Countdown(0) == []; }
    assert !Hashed(r0.c.elems, 5, 0);
    assert r1.c.elems == [Elem(1, LC_FREE, 5)];
    assert Hashed(r1.c.elems, 5, 0);
    var r2 := After(r1, g);
    assert [g, g][1..] == [g] && [g][1..] == [];
    assert Final(r2, []) == r2 && Final(r1, [g]) == r2;
  }
}

/** The cache object: the same operations on fields, with hash chains for lookup. */
module Lru {
  import opened Options
  import opened Sequences
  import opened Unlinking
  import opened LruModel

  function Bucket(enr: nat, n: nat): (h: nat)
    requires n > 0
    ensures h < n
  {
    enr % n
  }

  /** Every labelled element is on the chain of its (new) label, once, and on no other. */
  ghost predicate Chained(elems: seq<Elem>, slots: seq<seq<nat>>) {
    && |slots| == |elems| > 0
    && (forall h, i: nat :: 0 <= h < |slots| ==> (i in slots[h] <==> OnChain(elems, i, h)))
    && (forall h :: 0 <= h < |slots| ==> Distinct(slots[h]))
  }

  predicate OnChain(elems: seq<Elem>, i: nat, h: int) {
    i < |elems| && elems[i].newNumber != LC_FREE && Bucket(elems[i].newNumber, |elems|) == h
  }

  /** hlist_del: off whatever chain it is on. */
  function Unhash(slots: seq<seq<nat>>, e: nat): (r: seq<seq<nat>>)
    ensures |r| == |slots|
  {
    seq(|slots|, h requires 0 <= h < |slots| => Remove(slots[h], e))
  }

  /** hlist_add_head on the chain of a label. */
  function Hash(slots: seq<seq<nat>>, e: nat, enr: nat): (r: seq<seq<nat>>)
    requires |slots| > 0
    ensures |r| == |slots|
  {
    var h := Bucket(enr, |slots|);
    slots[h := [e] + slots[h]]
  }

  lemma UnhashChained(elems: seq<Elem>, slots: seq<seq<nat>>, e: nat, h: nat)
    requires Chained(elems, slots) && h < |slots|
    ensures Distinct(Unhash(slots, e)[h])
    ensures forall i: nat :: i in Unhash(slots, e)[h] <==> i != e && OnChain(elems, i, h)
  {
    RemoveMembers(slots[h], e);
  }

  /** Relabelling an element and rehashing it accordingly keeps the chains right. */
  lemma Rehashed(elems: seq<Elem>, slots: seq<seq<nat>>, e: nat, x: Elem, slots': seq<seq<nat>>)
    requires Chained(elems, slots) && e < |elems|
    requires slots' == if x.newNumber == LC_FREE then Unhash(slots, e) else Hash(Unhash(slots, e), e, x.newNumber)
    ensures Chained(elems[e := x], slots')
  {
    var elems' := elems[e := x];
    forall h, i: nat | 0 <= h < |slots'| ensures i in slots'[h] <==> OnChain(elems', i, h) {
      UnhashChained(elems, slots, e, h);
      assert i != e ==> (OnChain(elems, i, h) <==> OnChain(elems', i, h));
    }
    forall h | 0 <= h < |slots'| ensures Distinct(slots'[h]) {
      UnhashChained(elems, slots, e, h);
      assert e !in Unhash(slots, e)[h];
    }
  }

  lemma SameLabelChained(elems: seq<Elem>, slots: seq<seq<nat>>, e: nat, x: Elem)
    requires Chained(elems, slots) && e < |elems| && x.newNumber == elems[e].newNumber
    ensures Chained(elems[e := x], slots)
  {
    var elems' := elems[e := x];
    forall h, i: nat | 0 <= h < |slots| ensures i in slots[h] <==> OnChain(elems', i, h) {
      assert OnChain(elems, i, h) <==> OnChain(elems', i, h);
    }
  }

  class LruCache {
    var elems: seq<Elem>
    var lists: Lists
    var slots: seq<seq<nat>>
    var maxPendingChanges: nat
    var used: int
    var pendingChanges: nat
    var stats: Stats
    var flags: Flags

    ghost function View(): Cache
      reads this
    {
      Cache(elems, lists, maxPendingChanges, used, pendingChanges, stats, flags)
    }

    ghost predicate Valid()
      reads this
    {
      Inv(View()) && Chained(elems, slots)
    }

    /** lc_create, lc_reset */
    constructor (count: nat, max: nat)
      requires count > 0
      ensures Valid() && View() == Fresh(count, max)
    {
      elems := seq(count, _ => Elem(0, LC_FREE, LC_FREE));
      slots := seq(count, _ => []);
      lists := Lists([], [], [], []);
      maxPendingChanges, used, pendingChanges := max, 0, 0;
      stats := Stats(0, 0, 0, 0, 0);
      flags := Flags(false, false, false);
      new;
      var i := 0;
      while i < count
        modifies this`lists
        invariant 0 <= i <= count && lists == Lists(Countdown(i), [], [], [])
      {
        lists := lists.(free := [i] + lists.free);
        i := i + 1;
      }
      FreshOk(count, max);
    }

    /** __lc_find: walk the chain; a pending label stops the search unless it may be returned. */
    method Find(enr: nat, includeChanging: bool) returns (r: Option<nat>)
      requires Valid()
      ensures r.Some? ==> Hashed(elems, enr, r.value) && (includeChanging || elems[r.value].number == enr)
      ensures r.None? <== enr == LC_FREE
      ensures r.None? && enr != LC_FREE ==>
        forall i: nat :: Hashed(elems, enr, i) ==> !includeChanging && elems[i].number != enr
    {
      var chain := slots[Bucket(enr, |elems|)];
      var k := 0;
      while k < |chain|
        invariant 0 <= k <= |chain|
        invariant forall j :: 0 <= j < k ==> !Hashed(elems, enr, chain[j])
      {
        var e := chain[k];
        assert OnChain(elems, e, Bucket(enr, |elems|));
        if elems[e].newNumber == enr {
          if elems[e].newNumber == elems[e].number || includeChanging { return Some(e); }
          return None;
        }
        k := k + 1;
      }
      forall i: nat | enr != LC_FREE ensures !Hashed(elems, enr, i) {
        assert i in chain <==> OnChain(elems, i, Bucket(enr, |elems|));
      }
      return None;
    }

    /** The plain lookup result is the only element with that label. */
    lemma HitIs(enr: nat, e: nat)
      requires Valid() && enr != LC_FREE && Hashed(elems, enr, e)
      ensures Hit(elems, enr) == Some(e)
    {}

    /** lc_find: the committed label, or nothing. */
    method LcFind(enr: nat) returns (r: Option<nat>)
      requires Valid() && enr != LC_FREE
      ensures r.Some? <==> Findable(View(), enr)
      ensures r.Some? ==> Hashed(elems, enr, r.value) && elems[r.value].number == enr
    {
      r := Find(enr, false);
    }

    /** lc_is_used: referenced under that label, pending or not. */
    method IsUsed(enr: nat) returns (b: bool)
      requires Valid() && enr != LC_FREE
      ensures b <==> exists i: nat :: Hashed(elems, enr, i) && elems[i].refcnt > 0
    {
      var r := Find(enr, true);
      b := r.Some? && elems[r.value].refcnt > 0;
      if r.Some? { HitIs(enr, r.value); }
    }

    method TakeHit(e: nat, mayUseUncommitted: bool) returns (r: Option<nat>)
      requires Valid() && e < |elems| && elems[e].newNumber != LC_FREE && !flags.starving
      modifies this`elems, this`lists, this`used, this`stats
      ensures Valid() && (View(), r) == old(GetHit(View(), e, mayUseUncommitted))
    {
      HitKeeps(View(), elems[e].newNumber, e, mayUseUncommitted);
      SameLabelChained(elems, slots, e, elems[e].(refcnt := elems[e].refcnt + 1));
      if elems[e].newNumber != elems[e].number {
        if !mayUseUncommitted { return None; }
        elems := elems[e := elems[e].(refcnt := elems[e].refcnt + 1)];
        stats := stats.(hits := stats.hits + 1);
        return Some(e);
      }
      stats := stats.(hits := stats.hits + 1);
      if elems[e].refcnt == 0 { used := used + 1; }
      elems := elems[e := elems[e].(refcnt := elems[e].refcnt + 1)];
      lists := Move(lists, e, Used);
      return Some(e);
    }

    /** lc_prepare_for_change: recycle the head of free or the tail of lru under a new label. */
    method PrepareForChange(enr: nat) returns (e: nat)
      requires Valid() && enr != LC_FREE && Victim(lists).Some?
      modifies this`elems, this`lists, this`slots
      ensures e == old(Victim(lists).value) < old(|elems|) && old(elems[e].refcnt) == 0
      ensures elems == old(elems[e := elems[e].(newNumber := enr)]) && lists == old(Move(lists, e, Changing))
      ensures Chained(elems, slots)
    {
      VictimUnused(View());
      if lists.free != [] { e := lists.free[0]; } else { e := lists.lru[|lists.lru| - 1]; }
      var x := elems[e].(newNumber := enr);
      Rehashed(elems, slots, e, x, Hash(Unhash(slots, e), e, enr));
      elems := elems[e := x];
      slots := Hash(Unhash(slots, e), e, enr);
      lists := Move(lists, e, Changing);
    }

    method Change(enr: nat) returns (e: nat)
      requires Valid() && enr != LC_FREE && forall i: nat :: !Hashed(elems, enr, i)
      requires Victim(lists).Some? && Victim(lists).value < |elems| && pendingChanges < maxPendingChanges
      modifies this`elems, this`lists, this`slots, this`used, this`pendingChanges, this`flags
      ensures Valid() && e == old(Victim(lists).value) && View() == old(PullIn(View(), Victim(lists).value, enr))
    {
      ghost var c := View();
      PullInKeeps(c, enr);
      VictimUnused(c);
      assert !Hashed(elems, enr, Victim(lists).value);
      e := PrepareForChange(enr);
      flags := flags.(starving := false);
      SameLabelChained(elems, slots, e, elems[e].(refcnt := elems[e].refcnt + 1));
      elems := elems[e := elems[e].(refcnt := elems[e].refcnt + 1)];
      assert elems[e].refcnt == 1; // the BUG_ON after the increment
      used := used + 1;
      pendingChanges := pendingChanges + 1;
      assert elems == c.elems[e := c.elems[e].(newNumber := enr, refcnt := 1)];
      assert View() == PullIn(c, e, enr);
    }

    method Recycle(enr: nat, mayChange: bool) returns (r: Option<nat>)
      requires Valid() && enr != LC_FREE && !flags.starving && forall i: nat :: !Hashed(elems, enr, i)
      modifies this`elems, this`lists, this`slots, this`used, this`pendingChanges, this`stats, this`flags
      ensures Valid() && (View(), r) == old(GetMiss(View(), enr, mayChange))
    {
      stats := stats.(misses := stats.misses + 1);
      if !mayChange { return None; }
      flags := flags.(dirty := true);
      if flags.locked {
        stats := stats.(locked := stats.locked + 1);
        return None;
      }
      if lists.free == [] && lists.lru == [] {
        flags := flags.(starving := true);
        return None;
      }
      VictimUnused(View());
      if pendingChanges >= maxPendingChanges { return None; }
      var e := Change(enr);
      return Some(e);
    }

    /** __lc_get, under lc_get, lc_try_get and lc_get_cumulative */
    method LcGet(enr: nat, mayChange: bool, mayUseUncommitted: bool) returns (r: Option<nat>)
      requires Valid() && enr != LC_FREE
      modifies this`elems, this`lists, this`slots, this`used, this`pendingChanges, this`stats, this`flags
      ensures Valid() && (View(), r) == old(Get(View(), enr, mayChange, mayUseUncommitted))
    {
      if flags.starving {
        stats := stats.(starving := stats.starving + 1);
        return None;
      }
      var h := Find(enr, true);
      if h.Some? {
        HitIs(enr, h.value);
        r := TakeHit(h.value, mayUseUncommitted);
      } else {
        r := Recycle(enr, mayChange);
      }
    }

    method LcPut(e: nat) returns (left: nat)
      requires Valid() && e < |elems| && elems[e].refcnt > 0 && elems[e].number == elems[e].newNumber
      modifies this`elems, this`lists, this`used, this`flags
      ensures Valid() && View() == old(Put(View(), e)) && left == old(elems[e].refcnt) - 1
    {
      PutKeeps(View(), e);
      KindNonempty(View(), e);
      NotBroken(elems, lists, e);
      SameLabelChained(elems, slots, e, elems[e].(refcnt := elems[e].refcnt - 1));
      elems := elems[e := elems[e].(refcnt := elems[e].refcnt - 1)];
      if elems[e].refcnt == 0 {
        lists := Move(lists, e, Idle);
        used := used - 1;
        flags := flags.(starving := false);
      }
      left := elems[e].refcnt;
    }

    method LcCommitted()
      requires Valid()
      modifies this`elems, this`lists, this`pendingChanges, this`stats
      ensures Valid() && View() == old(Committed(View()))
    {
      CommittedKeeps(View());
      while lists.changing != []
        invariant Placed(elems, lists) && UniqueLabels(elems) && Chained(elems, slots)
        invariant Settle(elems, lists) == old(Settle(elems, lists))
        invariant stats == old(stats).(changed := stats.changed)
        invariant stats.changed + |lists.changing| == old(stats.changed + |lists.changing|)
        decreases |lists.changing|
      {
        SettleStep(elems, lists);
        var e := lists.changing[0];
        stats := stats.(changed := stats.changed + 1);
        SameLabelChained(elems, slots, e, elems[e].(number := elems[e].newNumber));
        elems := elems[e := elems[e].(number := elems[e].newNumber)];
        lists := Move(lists, e, Used);
      }
      pendingChanges := 0;
    }

    method LcDel(e: nat)
      requires Valid() && e < |elems| && elems[e].refcnt == 0
      modifies this`elems, this`lists, this`slots
      ensures Valid() && View() == old(Del(View(), e))
    {
      RelabelKeeps(View(), e, LC_FREE);
      var x := elems[e].(number := LC_FREE, newNumber := LC_FREE);
      Rehashed(elems, slots, e, x, Unhash(slots, e));
      elems := elems[e := x];
      slots := Unhash(slots, e);
      lists := Move(lists, e, Free);
    }

    method LcSet(enr: nat, index: int)
      requires Valid() && Enabled(View(), SetStep(enr, index))
      modifies this`elems, this`lists, this`slots
      ensures Valid() && View() == old(SetLabel(View(), enr, index))
    {
      if index < 0 || index >= |elems| { return; }
      RelabelKeeps(View(), index, enr);
      var x := elems[index].(number := enr, newNumber := enr);
      Rehashed(elems, slots, index, x,
               if enr == LC_FREE then Unhash(slots, index) else Hash(Unhash(slots, index), index, enr));
      elems := elems[index := x];
      slots := Unhash(slots, index);
      if enr == LC_FREE {
        lists := Move(lists, index, Free);
      } else {
        slots := Hash(slots, index, enr);
        lists := Move(lists, index, Idle);
      }
    }

    method LcTryLock() returns (ok: bool)
      requires Valid()
      modifies this`flags
      ensures Valid() && (View(), ok) == old(TryLock(View()))
    {
      ok := !flags.dirty && !flags.locked && !flags.starving;
      if ok { flags := Flags(false, true, false); }
    }

    method LcTryLockForTransaction() returns (ok: bool)
      requires Valid()
      modifies this`flags
      ensures Valid() && (View(), ok) == old(TryLockForTransaction(View()))
    {
      ok := !flags.locked;
      flags := flags.(locked := true);
    }

    method LcUnlock()
      requires Valid()
      modifies this`flags
      ensures Valid() && View() == old(Unlock(View()))
    {
      flags := flags.(dirty := false, locked := false);
    }
  }
}
