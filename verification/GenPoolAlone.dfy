/** genalloc: what a cmpxchg does, told bit by bit, and what an allocation does when nobody interferes. */
module GenPoolAlone {
  import opened Options
  import opened Division
  import opened Ranges
  import opened GenPool

  /** The bits of the word x is in. */
  ghost function WordOf(bits: set<nat>, width: nat, x: nat): set<nat>
    requires width > 0
  {
    set b | b in bits && b / width == x / width
  }

  lemma WordsAgree(width: nat, x: nat, b: nat)
    requires width > 0
    ensures WordStart(width, x) <= b < WordStart(width, x) + width <==> b / width == x / width
  {
    WordStartIsFloor(width, x);
    Parts(x, width);
    Parts(b, width);
    var ws, k := WordStart(width, x), x / width;
    assert ws == k * width;
    if ws <= b < ws + width { Split(b, k, b - ws, width); }
  }

  lemma WordIsWordOf(bits: set<nat>, width: nat, x: nat)
    requires width > 0
    ensures Word(bits, width, x) == WordOf(bits, width, x)
  {
    forall b | b in bits ensures b in Word(bits, width, x) <==> b in WordOf(bits, width, x) {
      WordsAgree(width, x, b);
    }
  }

  /** The bits a cmpxchg at x is to change: those of the range up to end that are in the word of x. */
  ghost predicate InPiece(width: nat, x: nat, end: nat, b: nat)
    requires width > 0
  {
    x <= b < end && b / width == x / width
  }

  lemma PieceIs(width: nat, x: nat, nr: nat, end: nat)
    requires width > 0 && nr > 0 && end == x + nr
    ensures forall b: nat :: InPiece(width, x, end, b) <==> x <= b < PieceEnd(width, x, nr)
  {
    forall b: nat ensures InPiece(width, x, end, b) <==> x <= b < PieceEnd(width, x, nr) {
      if b >= x { WordsAgree(width, x, b); }
    }
  }

  /** Where the loop of an allocation stands, and where it ends. */
  function At(a: Agent): int
    requires a.phase.Working?
  {
    a.start + a.phase.total - a.phase.nr
  }

  function End(a: Agent): nat
    requires a.phase.Working?
  {
    a.start + a.phase.total
  }

  /** A bit the claim wants from this word is set in the value it saw. */
  ghost predicate Blocked(width: nat, a: Agent)
    requires width > 0 && a.phase.Working? && a.phase.seen.Some? && At(a) >= 0
  {
    a.phase.op.Claim? && exists b :: InPiece(width, At(a), End(a), b) && b in a.phase.seen.value
  }

  lemma InRange(p: Pool, id: Id)
    requires Inv(p) && id in p.agents && p.agents[id].phase.Working?
    ensures var a := p.agents[id];
      && 0 <= a.start <= At(a) < End(a) && a.phase.nr > 0 && End(a) <= a.start + a.nbits
      && (!a.phase.op.Undo? ==> End(a) == a.start + a.nbits)
  {
    assert AgentOk(p, p.agents[id]);
  }

  /** A load sees the word as it is. */
  lemma LoadMeans(p: Pool, id: Id)
    requires Inv(p) && Enabled(p, Load(id))
    ensures
      var a := p.agents[id];
      && At(a) >= 0
      && Apply(p, Load(id)) == p.(agents := p.agents[id := a.(phase :=
           a.phase.(seen := Some(WordOf(p.bits, p.width, At(a)))))])
  {
    InRange(p, id);
    WordIsWordOf(p.bits, p.width, At(p.agents[id]));
  }

  lemma CasResult(p: Pool, id: Id)
    requires Enabled(p, Cas(id))
    ensures
      var a, r := p.agents[id], CasStep(p, p.agents[id]);
      Apply(p, Cas(id)) == p.(bits := r.0, agents := p.agents[id := a.(phase := r.1)])
  {}

  lemma RefusesIs(op: Op, seen: set<nat>, width: nat, x: nat, nr: nat, end: nat)
    requires width > 0 && nr > 0 && end == x + nr && op.Claim?
    ensures Refuses(op, seen, x, PieceEnd(width, x, nr)) <==> exists b :: InPiece(width, x, end, b) && b in seen
  {
    PieceIs(width, x, nr, end);
    if b: nat :| InPiece(width, x, end, b) && b in seen { assert x <= b < PieceEnd(width, x, nr); }
    if Refuses(op, seen, x, PieceEnd(width, x, nr)) {
      var b :| x <= b < PieceEnd(width, x, nr) && b in seen;
      assert InPiece(width, x, end, b);
    }
  }

  lemma BlockedIs(p: Pool, id: Id)
    requires Inv(p) && Enabled(p, Cas(id))
    ensures
      var a := p.agents[id];
      && At(a) >= 0
      && (Blocked(p.width, a) <==> Refuses(a.phase.op, a.phase.seen.value, At(a), PieceEnd(p.width, At(a), a.phase.nr)))
  {
    var a := p.agents[id];
    InRange(p, id);
    assert AgentOk(p, a);
    if a.phase.op.Claim? { RefusesIs(a.phase.op, a.phase.seen.value, p.width, At(a), a.phase.nr, End(a)); }
  }

  /** A blocked claim gives back what it has taken so far, or searches again at once. */
  lemma CasBlocked(p: Pool, id: Id)
    requires Inv(p) && Enabled(p, Cas(id)) && At(p.agents[id]) >= 0 && Blocked(p.width, p.agents[id])
    ensures
      var a := p.agents[id];
      var taken := At(a) - a.start;
      && taken >= 0
      && Apply(p, Cas(id)) == p.(agents := p.agents[id := a.(phase :=
           if taken == 0 then Searching else Working(Undo, taken, taken, None))])
  {
    InRange(p, id);
    BlockedIs(p, id);
    CasResult(p, id);
  }

  /** If the word has changed, the next attempt compares with its new value. */
  lemma CasStale(p: Pool, id: Id)
    requires Inv(p) && Enabled(p, Cas(id)) && At(p.agents[id]) >= 0 && !Blocked(p.width, p.agents[id])
    requires WordOf(p.bits, p.width, At(p.agents[id])) != p.agents[id].phase.seen.value
    ensures
      var a := p.agents[id];
      Apply(p, Cas(id)) == p.(agents := p.agents[id := a.(phase :=
        a.phase.(seen := Some(WordOf(p.bits, p.width, At(a)))))])
  {
    BlockedIs(p, id);
    WordIsWordOf(p.bits, p.width, At(p.agents[id]));
    CasResult(p, id);
  }

  /** What a finished loop leaves the allocation in. */
  function Done(op: Op): Phase {
    match op
    case Claim => Claimed
    case Undo => Searching
    case Release => Freed
  }

  /** Set by a claim, cleared by the others. */
  ghost predicate Exchanged(op: Op, bits: set<nat>, bits': set<nat>, width: nat, x: nat, end: nat)
    requires width > 0
  {
    forall b: nat :: b in bits' <==> if InPiece(width, x, end, b) then op.Claim? else b in bits
  }

  lemma NewBitsIs(op: Op, bits: set<nat>, width: nat, x: nat, nr: nat, end: nat)
    requires width > 0 && nr > 0 && end == x + nr
    ensures Exchanged(op, bits, NewBits(op, bits, x, PieceEnd(width, x, nr)), width, x, end)
  {
    PieceIs(width, x, nr, end);
  }

  /** The allocation behind a word, and at the end. */
  function Behind(a: Agent, e: nat): Agent
    requires a.phase.Working? && e < End(a)
  {
    a.(phase := a.phase.(nr := End(a) - e, seen := None))
  }

  function Finished(a: Agent): Agent
    requires a.phase.Working?
  {
    a.(phase := Done(a.phase.op))
  }

  /** Otherwise the bits of the piece are set by a claim, cleared by the others, and the loop goes on behind them. */
  lemma CasTakes(p: Pool, id: Id)
    requires Inv(p) && Enabled(p, Cas(id)) && At(p.agents[id]) >= 0 && !Blocked(p.width, p.agents[id])
    requires WordOf(p.bits, p.width, At(p.agents[id])) == p.agents[id].phase.seen.value
    ensures
      var a, p' := p.agents[id], Apply(p, Cas(id));
      var e := PieceEnd(p.width, At(a), a.phase.nr);
      && Exchanged(a.phase.op, p.bits, p'.bits, p.width, At(a), End(a))
      && At(a) < e <= End(a) && (e == End(a) || (e % p.width == 0 && e / p.width == At(a) / p.width + 1))
      && p' == p.(bits := p'.bits, agents := p.agents[id := if e == End(a) then Finished(a) else Behind(a, e)])
  {
    var a := p.agents[id];
    InRange(p, id);
    BlockedIs(p, id);
    WordIsWordOf(p.bits, p.width, At(a));
    CasResult(p, id);
    NewBitsIs(a.phase.op, p.bits, p.width, At(a), a.phase.nr, End(a));
    PieceEnds(p.width, At(a), a.phase.nr);
  }

  lemma PieceEnds(width: nat, x: nat, nr: nat)
    requires width > 0 && nr > 0
    ensures var e := PieceEnd(width, x, nr); e == x + nr || (e % width == 0 && e / width == x / width + 1)
  {
    var e := PieceEnd(width, x, nr);
    if e != x + nr {
      WordStartIsFloor(width, x);
      Parts(x, width);
      assert e == (x / width + 1) * width by { NextWord(x / width, width); }
      Split(e, x / width + 1, 0, width);
    }
  }

  /** A claim is sent back exactly when a bit it wants from this word was set in the value it saw. */
  lemma CasSendsBack(p: Pool, id: Id)
    requires Inv(p) && Enabled(p, Cas(id)) && p.agents[id].phase.op.Claim?
    ensures
      var a := p.agents[id];
      var now := Apply(p, Cas(id)).agents[id].phase;
      && At(a) >= 0
      && ((now.Searching? || (now.Working? && now.op.Undo?)) <==>
          exists b :: InPiece(p.width, At(a), a.start + a.nbits, b) && b in a.phase.seen.value)
  {
    InRange(p, id);
    var a := p.agents[id];
    if Blocked(p.width, a) {
      CasBlocked(p, id);
    } else if WordOf(p.bits, p.width, At(a)) != a.phase.seen.value {
      CasStale(p, id);
    } else {
      CasTakes(p, id);
    }
  }

  // ---- when nobody interferes

  ghost predicate OnlyLoops(steps: seq<Step>, id: Id) {
    forall k :: 0 <= k < |steps| ==> steps[k] == Load(id) || steps[k] == Cas(id)
  }

  lemma Cons(p: Pool, step: Step, rest: seq<Step>) returns (steps: seq<Step>)
    requires Enabled(p, step) && IsRun(Apply(p, step), rest)
    ensures steps == [step] + rest && IsRun(p, steps) && Final(p, steps) == Final(Apply(p, step), rest)
  {
    steps := [step] + rest;
    assert steps[1..] == rest;
  }

  /** The run of the loop is a load and a cmpxchg for each word. */
  lemma Twice(p: Pool, id: Id, rest: seq<Step>) returns (steps: seq<Step>)
    requires Enabled(p, Load(id)) && Enabled(Apply(p, Load(id)), Cas(id)) && OnlyLoops(rest, id)
    requires IsRun(Apply(Apply(p, Load(id)), Cas(id)), rest)
    ensures OnlyLoops(steps, id) && IsRun(p, steps)
    ensures Final(p, steps) == Final(Apply(Apply(p, Load(id)), Cas(id)), rest)
  {
    steps := Cons(Apply(p, Load(id)), Cas(id), rest);
    steps := Cons(p, Load(id), steps);
  }

  /** The bits still to be taken are clear; those to be given back are set anyway. */
  ghost predicate Clear(bits: set<nat>, op: Op, lo: nat, hi: nat) {
    op.Claim? ==> bits !! Range(lo, hi)
  }

  function Changed(op: Op, bits: set<nat>, lo: nat, hi: nat): set<nat> {
    if op.Claim? then bits + Range(lo, hi) else bits - Range(lo, hi)
  }

  /** As Clear, for the bits of the next cmpxchg alone. */
  ghost predicate WordClear(p: Pool, a: Agent)
    requires p.width > 0 && a.phase.Working? && At(a) >= 0
  {
    Clear(p.bits, a.phase.op, At(a), PieceEnd(p.width, At(a), a.phase.nr))
  }

  /** After the load nothing stands in the way of the cmpxchg. */
  lemma Ready(p: Pool, id: Id) returns (l: Pool)
    requires Inv(p) && Enabled(p, Load(id)) && At(p.agents[id]) >= 0
    requires WordClear(p, p.agents[id])
    ensures l == Apply(p, Load(id)) && Inv(l) && Enabled(l, Cas(id)) && l == p.(agents := p.agents[id := l.agents[id]])
    ensures
      var a, b := p.agents[id], l.agents[id];
      && At(b) == At(a) && End(b) == End(a) && b.phase.op == a.phase.op && b.phase.nr == a.phase.nr
      && Finished(b) == Finished(a) && (forall e: nat :: e < End(a) ==> Behind(b, e) == Behind(a, e))
      && b.phase.seen.Some? && b.phase.seen.value == WordOf(l.bits, l.width, At(b)) && !Blocked(l.width, b)
  {
    InRange(p, id);
    PieceIs(p.width, At(p.agents[id]), p.agents[id].phase.nr, End(p.agents[id]));
    LoadMeans(p, id);
    StepKeeps(p, Load(id));
    l := Apply(p, Load(id));
  }

  /** One word: a load and a cmpxchg that succeeds. */
  lemma OneWord(p: Pool, id: Id) returns (q: Pool, e: nat)
    requires Inv(p) && Enabled(p, Load(id)) && At(p.agents[id]) >= 0
    requires WordClear(p, p.agents[id])
    ensures Enabled(Apply(p, Load(id)), Cas(id)) && q == Apply(Apply(p, Load(id)), Cas(id)) && Inv(q)
    ensures
      var a := p.agents[id];
      && At(a) < e <= End(a) && e == PieceEnd(p.width, At(a), a.phase.nr)
      && q == p.(bits := Changed(a.phase.op, p.bits, At(a), e),
                 agents := p.agents[id := if e == End(a) then Finished(a) else Behind(a, e)])
  {
    var a := p.agents[id];
    var l := Ready(p, id);
    InRange(p, id);
    StepKeeps(l, Cas(id));
    q := Apply(l, Cas(id));
    e := PieceEnd(p.width, At(a), a.phase.nr);
    CasTakes(l, id);
    ExchangedIs(a.phase.op, p.bits, q.bits, p.width, At(a), a.phase.nr, End(a));
    Overwritten(p.agents, id, l.agents[id], q.agents[id]);
  }

  lemma ExchangedIs(op: Op, bits: set<nat>, bits': set<nat>, width: nat, x: nat, nr: nat, end: nat)
    requires width > 0 && nr > 0 && end == x + nr && Exchanged(op, bits, bits', width, x, end)
    ensures bits' == Changed(op, bits, x, PieceEnd(width, x, nr))
  {
    PieceIs(width, x, nr, end);
  }

  lemma GoesOn(p: Pool, id: Id, q: Pool, e: nat)
    requires Inv(p) && Enabled(p, Load(id)) && 0 <= At(p.agents[id]) < e < End(p.agents[id])
    requires Clear(p.bits, p.agents[id].phase.op, At(p.agents[id]), End(p.agents[id]))
    requires
      var a := p.agents[id];
      q == p.(bits := Changed(a.phase.op, p.bits, At(a), e), agents := p.agents[id := Behind(a, e)])
    ensures
      var a, a' := p.agents[id], q.agents[id];
      && Enabled(q, Load(id)) && At(a') == e && End(a') == End(a) && a'.phase.op == a.phase.op
      && a'.phase.nr < a.phase.nr && Clear(q.bits, a.phase.op, e, End(a)) && Finished(a') == Finished(a)
  {}

  lemma ChangedTwice(op: Op, bits: set<nat>, lo: nat, mid: nat, hi: nat)
    requires lo <= mid <= hi
    ensures Changed(op, Changed(op, bits, lo, mid), mid, hi) == Changed(op, bits, lo, hi)
  {}

  lemma Overwritten(m: map<Id, Agent>, id: Id, a: Agent, b: Agent)
    ensures m[id := a][id := b] == m[id := b]
  {}

  /** Left alone, a loop ends, with every bit of its range set or cleared and no other bit changed. */
  lemma {:induction false} LoopAlone(p: Pool, id: Id) returns (steps: seq<Step>)
    requires Inv(p) && Enabled(p, Load(id)) && At(p.agents[id]) >= 0
    requires Clear(p.bits, p.agents[id].phase.op, At(p.agents[id]), End(p.agents[id]))
    ensures OnlyLoops(steps, id) && IsRun(p, steps)
    ensures
      var a := p.agents[id];
      Final(p, steps) == p.(bits := Changed(a.phase.op, p.bits, At(a), End(a)),
                            agents := p.agents[id := Finished(a)])
    decreases p.agents[id].phase.nr
  {
    var a := p.agents[id];
    InRange(p, id);
    var q, e := OneWord(p, id);
    var rest := [];
    if e < End(a) {
      GoesOn(p, id, q, e);
      rest := LoopAlone(q, id);
      ChangedTwice(a.phase.op, p.bits, At(a), e, End(a));
      Overwritten(p.agents, id, q.agents[id], Finished(a));
    }
    steps := Twice(p, id, rest);
  }

  ghost predicate Claiming(a: Agent) {
    a.phase.Working? && a.phase.op.Claim? && a.phase.seen.None?
  }

  function Again(a: Agent): Agent { a.(phase := Searching) }

  function GivingBack(a: Agent): Agent
    requires a.phase.Working? && At(a) >= a.start
  {
    a.(phase := Working(Undo, At(a) - a.start, At(a) - a.start, None))
  }

  /** A bit of the next word that is wanted and set. */
  lemma WantedBit(p: Pool, id: Id) returns (x: nat)
    requires Inv(p) && id in p.agents && Claiming(p.agents[id]) && At(p.agents[id]) >= 0
    requires !WordClear(p, p.agents[id])
    ensures
      var a := p.agents[id];
      InPiece(p.width, At(a), End(a), x) && x in WordOf(p.bits, p.width, At(a))
  {
    var a := p.agents[id];
    InRange(p, id);
    PieceIs(p.width, At(a), a.phase.nr, End(a));
    x :| x in p.bits && x in Range(At(a), PieceEnd(p.width, At(a), a.phase.nr));
    assert InPiece(p.width, At(a), End(a), x);
  }

  lemma SawWanted(p: Pool, id: Id) returns (l: Pool)
    requires Inv(p) && Enabled(p, Load(id)) && Claiming(p.agents[id]) && At(p.agents[id]) >= 0
    requires !WordClear(p, p.agents[id])
    ensures l == Apply(p, Load(id)) && Inv(l) && Enabled(l, Cas(id)) && l == p.(agents := p.agents[id := l.agents[id]])
    ensures
      var a, b := p.agents[id], l.agents[id];
      && At(b) == At(a) >= a.start == b.start && Again(b) == Again(a) && GivingBack(b) == GivingBack(a)
      && b.phase.seen.Some? && Blocked(l.width, b)
  {
    InRange(p, id);
    LoadMeans(p, id);
    StepKeeps(p, Load(id));
    l := Apply(p, Load(id));
    var x := WantedBit(p, id);
    assert InPiece(l.width, At(l.agents[id]), End(l.agents[id]), x);
  }

  lemma SentBack(p: Pool, id: Id) returns (q: Pool)
    requires Inv(p) && Enabled(p, Load(id)) && Claiming(p.agents[id]) && At(p.agents[id]) >= 0
    requires !WordClear(p, p.agents[id])
    ensures Enabled(Apply(p, Load(id)), Cas(id)) && q == Apply(Apply(p, Load(id)), Cas(id)) && Inv(q)
    ensures
      var a := p.agents[id];
      && At(a) >= a.start
      && q == p.(agents := p.agents[id := if At(a) == a.start then Again(a) else GivingBack(a)])
  {
    var l := SawWanted(p, id);
    CasBlocked(l, id);
    StepKeeps(l, Cas(id));
    q := Apply(l, Cas(id));
    Overwritten(p.agents, id, l.agents[id], q.agents[id]);
  }

  lemma GivenBack(p: Pool, id: Id, q: Pool) returns (steps: seq<Step>)
    requires Inv(q) && id in p.agents && Claiming(p.agents[id]) && At(p.agents[id]) > p.agents[id].start
    requires q == p.(agents := p.agents[id := GivingBack(p.agents[id])])
    ensures OnlyLoops(steps, id) && IsRun(q, steps)
    ensures
      var a := p.agents[id];
      Final(q, steps) == p.(bits := p.bits - Range(a.start, At(a)), agents := p.agents[id := Again(a)])
  {
    steps := LoopAlone(q, id);
    Overwritten(p.agents, id, q.agents[id], Again(p.agents[id]));
  }

  /** A word with a wanted bit set turns the claim back; what it had taken is cleared again. */
  lemma TurnedBack(p: Pool, id: Id) returns (steps: seq<Step>)
    requires Inv(p) && Enabled(p, Load(id)) && Claiming(p.agents[id]) && At(p.agents[id]) >= 0
    requires !WordClear(p, p.agents[id])
    ensures OnlyLoops(steps, id) && IsRun(p, steps)
    ensures
      var a := p.agents[id];
      Final(p, steps) == p.(bits := p.bits - Range(a.start, At(a)), agents := p.agents[id := Again(a)])
  {
    var a := p.agents[id];
    var q := SentBack(p, id);
    var rest := [];
    if At(a) > a.start {
      rest := GivenBack(p, id, q);
    } else {
      assert p.bits - Range(a.start, At(a)) == p.bits;
    }
    steps := Twice(p, id, rest);
  }

  lemma StillRefused(p: Pool, id: Id, q: Pool, e: nat)
    requires Inv(p) && Enabled(p, Load(id)) && Claiming(p.agents[id]) && WordClearTo(p, p.agents[id], e)
    requires !(p.bits !! Range(At(p.agents[id]), End(p.agents[id])))
    requires
      var a := p.agents[id];
      q == p.(bits := p.bits + Range(At(a), e), agents := p.agents[id := Behind(a, e)])
    ensures
      var a, a' := p.agents[id], q.agents[id];
      && Enabled(q, Load(id)) && Claiming(a') && At(a') == e && End(a') == End(a) && a'.phase.nr < a.phase.nr
      && a'.start == a.start && Again(a') == Again(a) && !(q.bits !! Range(e, End(a)))
      && q.bits - Range(a.start, e) == p.bits - Range(a.start, At(a))
  {
    var a := p.agents[id];
    InRange(p, id);
    var x :| x in p.bits && x in Range(At(a), End(a));
    assert x in q.bits && x in Range(e, End(a));
  }

  ghost predicate WordClearTo(p: Pool, a: Agent, e: nat) {
    a.phase.Working? && 0 <= At(a) < e < End(a) && p.bits !! Range(At(a), e)
  }

  lemma ClearWhole(p: Pool, id: Id, e: nat)
    requires Inv(p) && Enabled(p, Load(id)) && Claiming(p.agents[id]) && At(p.agents[id]) >= 0
    requires !(p.bits !! Range(At(p.agents[id]), End(p.agents[id])))
    requires WordClear(p, p.agents[id]) && e == PieceEnd(p.width, At(p.agents[id]), p.agents[id].phase.nr)
    ensures WordClearTo(p, p.agents[id], e)
  {
    InRange(p, id);
  }

  /** Left alone, a claim on a range that is not free ends as it began: nothing is taken, and the search goes on. */
  lemma {:induction false} RefusedAlone(p: Pool, id: Id) returns (steps: seq<Step>)
    requires Inv(p) && Enabled(p, Load(id)) && Claiming(p.agents[id]) && At(p.agents[id]) >= 0
    requires !(p.bits !! Range(At(p.agents[id]), End(p.agents[id])))
    ensures OnlyLoops(steps, id) && IsRun(p, steps)
    ensures
      var a := p.agents[id];
      Final(p, steps) == p.(bits := p.bits - Range(a.start, At(a)), agents := p.agents[id := Again(a)])
    decreases p.agents[id].phase.nr
  {
    if WordClear(p, p.agents[id]) {
      var q, e := OneWord(p, id);
      ClearWhole(p, id, e);
      StillRefused(p, id, q, e);
      steps := RefusedAlone(q, id);
      Overwritten(p.agents, id, q.agents[id], Again(p.agents[id]));
      steps := Twice(p, id, steps);
    } else {
      steps := TurnedBack(p, id);
    }
  }

  // ---- a life

  /** n is the least number of bits that covers the bytes. */
  ghost predicate Covers(n: nat, bytes: nat, unit: nat) {
    bytes <= n * unit < bytes + unit
  }

  lemma RoundCovers(bytes: nat, unit: nat)
    requires unit > 0
    ensures Covers(Round(bytes, unit), bytes, unit)
  {
    Parts(bytes + unit - 1, unit);
  }

  lemma CoversOnce(m: nat, n: nat, bytes: nat, unit: nat)
    requires Covers(m, bytes, unit) && Covers(n, bytes, unit)
    ensures m == n
  {
    MulGap(m - n, unit);
    assert (m - n) * unit == m * unit - n * unit;
    MulGap(n - m, unit);
  }

  lemma {:induction false} Append(p: Pool, a: seq<Step>, b: seq<Step>) returns (steps: seq<Step>)
    requires IsRun(p, a) && IsRun(Final(p, a), b)
    ensures steps == a + b && IsRun(p, steps) && Final(p, steps) == Final(Final(p, a), b)
    decreases |a|
  {
    if a == [] {
      steps := b;
      assert a + b == b;
    } else {
      steps := Append(Apply(p, a[0]), a[1..], b);
      steps := Cons(p, a[0], steps);
      assert a + b == [a[0]] + (a[1..] + b);
    }
  }

  lemma Asked(p: Pool, id: Id, bytes: nat, start: nat, n: nat) returns (f: Pool)
    requires Inv(p) && Enabled(p, Request(id, bytes)) && Covers(n, bytes, p.unit) && start + n <= p.size / p.unit
    ensures Enabled(Apply(p, Request(id, bytes)), Found(id, start))
    ensures f == Apply(Apply(p, Request(id, bytes)), Found(id, start)) && Inv(f)
    ensures f == p.(agents := p.agents[id := Agent(bytes, start, n, Working(Claim, n, n, None))])
  {
    RoundCovers(bytes, p.unit);
    CoversOnce(n, Round(bytes, p.unit), bytes, p.unit);
    var r := Apply(p, Request(id, bytes));
    StepKeeps(p, Request(id, bytes));
    StepKeeps(r, Found(id, start));
    f := Apply(r, Found(id, start));
    Overwritten(p.agents, id, r.agents[id], f.agents[id]);
  }

  /** A request for a free place, left alone, ends with exactly its bits taken and charged. */
  lemma AllocateAlone(p: Pool, id: Id, bytes: nat, start: nat, n: nat) returns (steps: seq<Step>)
    requires Inv(p) && Enabled(p, Request(id, bytes)) && Covers(n, bytes, p.unit)
    requires start + n <= p.size / p.unit && p.bits !! Range(start, start + n)
    ensures IsRun(p, steps) && ByOne(steps, id)
    ensures Final(p, steps) == p.(bits := p.bits + Range(start, start + n), avail := p.avail - n * p.unit,
                                  agents := p.agents[id := Agent(bytes, start, n, Live)])
  {
    var f := Asked(p, id, bytes, start, n);
    steps := ClaimAndCharge(p, f, id);
    steps := Cons(Apply(p, Request(id, bytes)), Found(id, start), steps);
    steps := Cons(p, Request(id, bytes), steps);
  }

  ghost predicate ByOne(steps: seq<Step>, id: Id) {
    forall k :: 0 <= k < |steps| ==> steps[k].id == id
  }

  lemma ClaimAndCharge(p: Pool, f: Pool, id: Id) returns (steps: seq<Step>)
    requires Inv(f) && id in f.agents && f == p.(agents := p.agents[id := f.agents[id]])
    requires
      var a := f.agents[id];
      a.phase == Working(Claim, a.nbits, a.nbits, None) && f.bits !! Range(a.start, a.start + a.nbits)
    ensures IsRun(f, steps) && ByOne(steps, id)
    ensures
      var a := f.agents[id];
      Final(f, steps) == p.(bits := p.bits + Range(a.start, a.start + a.nbits), avail := p.avail - a.nbits * p.unit,
                            agents := p.agents[id := a.(phase := Live)])
  {
    var a := f.agents[id];
    var loop := LoopAlone(f, id);
    var c := Final(f, loop);
    steps := Cons(c, Charge(id), []);
    steps := Append(f, loop, steps);
    Overwritten(p.agents, id, a, Finished(a));
    Overwritten(p.agents, id, Finished(a), a.(phase := Live));
  }

  /** gen_pool_free starts on the bits of the allocation. */
  lemma Freeing(p: Pool, id: Id) returns (f: Pool)
    requires Inv(p) && Enabled(p, Free(id))
    ensures f == Apply(p, Free(id)) && Inv(f)
    ensures
      var a := p.agents[id];
      f == p.(agents := p.agents[id := a.(phase := Working(Release, a.nbits, a.nbits, None))])
  {
    assert AgentOk(p, p.agents[id]);
    StepKeeps(p, Free(id));
    f := Apply(p, Free(id));
    assert AgentOk(f, f.agents[id]);
  }

  lemma ClearAndRefund(f: Pool, id: Id) returns (steps: seq<Step>)
    requires Inv(f) && id in f.agents
    requires f.agents[id].phase == Working(Release, f.agents[id].nbits, f.agents[id].nbits, None)
    ensures IsRun(f, steps) && ByOne(steps, id)
    ensures
      var a := f.agents[id];
      Final(f, steps) == f.(bits := f.bits - Range(a.start, a.start + a.nbits), avail := f.avail + a.nbits * f.unit,
                            agents := f.agents - {id})
  {
    var a := f.agents[id];
    assert AgentOk(f, a);
    var loop := LoopAlone(f, id);
    var c := Final(f, loop);
    steps := Cons(c, Refund(id), []);
    steps := Append(f, loop, steps);
    assert f.agents[id := Finished(a)] - {id} == f.agents - {id};
  }

  /** A free, left alone, clears exactly the bits of the allocation and gives its bytes back. */
  lemma FreeAlone(p: Pool, id: Id) returns (steps: seq<Step>)
    requires Inv(p) && Enabled(p, Free(id))
    ensures IsRun(p, steps) && ByOne(steps, id)
    ensures
      var a := p.agents[id];
      Final(p, steps) == p.(bits := p.bits - Range(a.start, a.start + a.nbits), avail := p.avail + a.nbits * p.unit,
                            agents := p.agents - {id})
  {
    var f := Freeing(p, id);
    steps := ClearAndRefund(f, id);
    steps := Cons(p, Free(id), steps);
    assert f.agents - {id} == p.agents - {id};
  }
}
