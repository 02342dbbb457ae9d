/** genalloc: lock-less claiming and freeing of bit ranges, interleaved at every load and cmpxchg. */
module GenPool {
  import opened Options
  import opened Division
  import opened CInt
  import opened Ranges

  type Id = nat

  /** The three uses of the bitmap loops: bitmap_set_ll, its rollback, and bitmap_clear_ll in gen_pool_free. */
  datatype Op = Claim | Undo | Release

  /**
   * Where one allocation is in its life. While a bitmap loop runs, total bits are to be processed, nr of them are
   * left, and seen is the word value the next cmpxchg compares against (None before the first load).
   */
  datatype Phase =
    | Searching
    | Working(op: Op, total: nat, nr: nat, seen: Option<set<nat>>)
    | Claimed
    | Live
    | Freed
    | Bug

  datatype Agent = Agent(bytes: nat, start: nat, nbits: nat, phase: Phase)

  /** One chunk: word width, bytes per bit, size in bytes, the bitmap, the byte counter, everybody using it. */
  datatype Pool = Pool(width: nat, unit: nat, size: nat, bits: set<nat>, avail: int, agents: map<Id, Agent>)

  datatype Step =
    | Request(id: Id, bytes: nat)
    | Found(id: Id, start: nat)
    | GiveUp(id: Id)
    | Load(id: Id)
    | Cas(id: Id)
    | Charge(id: Id)
    | Free(id: Id)
    | Refund(id: Id)

  /** First bit of the word that holds bit x. */
  function WordStart(width: nat, x: nat): (ws: nat)
    requires width > 0
    ensures ws <= x < ws + width
  {
    if x < width then 0 else width + WordStart(width, x - width)
  }

  /** End of the piece the next cmpxchg covers: the end of the word or of the range. */
  function PieceEnd(width: nat, cur: nat, nr: nat): (e: nat)
    requires width > 0
    ensures e <= cur + nr && (nr > 0 ==> cur < e) && e <= WordStart(width, cur) + width
  {
    var next := WordStart(width, cur) + width;
    if cur + nr >= next then next else cur + nr
  }

  function Word(bits: set<nat>, width: nat, x: nat): set<nat>
    requires width > 0
  {
    var ws := WordStart(width, x);
    set b | b in bits && ws <= b < ws + width
  }

  function Round(bytes: nat, unit: nat): nat
    requires unit > 0
  {
    (bytes + unit - 1) / unit
  }

  /** nbits as gen_pool_alloc has it: the sum in a 32-bit size_t, the quotient stored in an int. */
  function IntCount(bytes: nat, unit: nat): Int32
    requires unit > 0
  {
    Wrap((bytes + unit - 1) % SPAN / unit)
  }

  predicate Miscounted(bytes: nat, unit: nat)
    requires unit > 0
  {
    IntCount(bytes, unit) != Round(bytes, unit)
  }

  /** The check against avail, an int compared as unsigned: a negative counter lets huge requests pass. */
  predicate Admitted(p: Pool, bytes: nat) {
    0 < bytes < SPAN && bytes <= if p.avail < 0 then p.avail + SPAN else p.avail
  }

  predicate Enabled(p: Pool, step: Step) {
    p.width > 0 && p.unit > 0 &&
    match step
    case Request(id, bytes) => id !in p.agents && Admitted(p, bytes) && !Miscounted(bytes, p.unit)
    case Found(id, start) =>
      id in p.agents && p.agents[id].phase.Searching? && start + p.agents[id].nbits <= p.size / p.unit
    case GiveUp(id) => id in p.agents && p.agents[id].phase.Searching?
    case Load(id) => id in p.agents && p.agents[id].phase.Working? && p.agents[id].phase.seen.None?
    case Cas(id) => id in p.agents && p.agents[id].phase.Working? && p.agents[id].phase.seen.Some?
    case Charge(id) => id in p.agents && p.agents[id].phase.Claimed?
    case Free(id) => id in p.agents && p.agents[id].phase.Live?
    case Refund(id) => id in p.agents && p.agents[id].phase.Freed?
  }

  /** Bit position of the loop. */
  function Cursor(a: Agent): (c: int)
    requires a.phase.Working?
  {
    a.start + a.phase.total - a.phase.nr
  }

  /** set_bits_ll refuses a word with any wanted bit set, clear_bits_ll one with any missing. */
  predicate Refuses(op: Op, val: set<nat>, lo: nat, hi: nat) {
    if op.Claim? then exists x :: lo <= x < hi && x in val else exists x :: lo <= x < hi && x !in val
  }

  /** What the caller does with bits remaining: roll back and retry for a claim, BUG_ON otherwise. */
  function Refused(a: Agent): Phase
    requires a.phase.Working?
  {
    var taken := a.phase.total - a.phase.nr;
    if !a.phase.op.Claim? || taken < 0 then Bug
    else if taken == 0 then Searching
    else Working(Undo, taken, taken, None)
  }

  /** After a successful cmpxchg up to bit e. */
  function Advanced(a: Agent, e: nat): Phase
    requires a.phase.Working?
  {
    var left := a.start + a.phase.total - e;
    if left > 0 then a.phase.(nr := left, seen := None)
    else match a.phase.op case Claim => Claimed case Undo => Searching case Release => Freed
  }

  function NewBits(op: Op, bits: set<nat>, lo: nat, hi: nat): set<nat> {
    if op.Claim? then bits + Range(lo, hi) else bits - Range(lo, hi)
  }

  function CasStep(p: Pool, a: Agent): (r: (set<nat>, Phase))
    requires p.width > 0 && a.phase.Working? && a.phase.seen.Some?
  {
    var cur := Cursor(a);
    if cur < 0 then (p.bits, Bug)
    else
      var e := PieceEnd(p.width, cur, a.phase.nr);
      var now := Word(p.bits, p.width, cur);
      if Refuses(a.phase.op, a.phase.seen.value, cur, e) then (p.bits, Refused(a))
      else if now == a.phase.seen.value then (NewBits(a.phase.op, p.bits, cur, e), Advanced(a, e))
      else (p.bits, a.phase.(seen := Some(now)))
  }

  function LoadPhase(p: Pool, a: Agent): Phase
    requires p.width > 0 && a.phase.Working?
  {
    if Cursor(a) < 0 then Bug else a.phase.(seen := Some(Word(p.bits, p.width, Cursor(a))))
  }

  /** gen_pool_free finds the bit count again from the byte count and checks the end address. */
  function FreePhase(p: Pool, a: Agent): Phase
    requires p.unit > 0
  {
    if a.start * p.unit + a.bytes > p.size then Bug
    else var n := Round(a.bytes, p.unit); Working(Release, n, n, None)
  }

  /** The stepping agent's new record (None when it is gone), the new bitmap and the change of avail. */
  datatype Effect = Effect(agent: Option<Agent>, bits: set<nat>, gain: int)

  function Act(p: Pool, step: Step): Effect
    requires Enabled(p, step)
  {
    match step
    case Request(id, bytes) => Effect(Some(Agent(bytes, 0, Round(bytes, p.unit), Searching)), p.bits, 0)
    case Found(id, start) =>
      var a := p.agents[id];
      Effect(Some(a.(start := start, phase := Working(Claim, a.nbits, a.nbits, None))), p.bits, 0)
    case GiveUp(id) => Effect(None, p.bits, 0)
    case Load(id) => Effect(Some(p.agents[id].(phase := LoadPhase(p, p.agents[id]))), p.bits, 0)
    case Cas(id) =>
      var r := CasStep(p, p.agents[id]);
      Effect(Some(p.agents[id].(phase := r.1)), r.0, 0)
    case Charge(id) => Effect(Some(p.agents[id].(phase := Live)), p.bits, -(p.agents[id].nbits * p.unit))
    case Free(id) => Effect(Some(p.agents[id].(phase := FreePhase(p, p.agents[id]))), p.bits, 0)
    case Refund(id) => Effect(None, p.bits, Round(p.agents[id].bytes, p.unit) * p.unit)
  }

  function Apply(p: Pool, step: Step): Pool
    requires Enabled(p, step)
  {
    var e := Act(p, step);
    p.(bits := e.bits, avail := p.avail + e.gain,
       agents := if e.agent.Some? then p.agents[step.id := e.agent.value] else p.agents - {step.id})
  }

  // ---- ownership

  /** Bit x is held by this allocation right now: taken and not yet given back. */
  predicate Holds(a: Agent, x: nat) {
    match a.phase
    case Working(op, total, nr, _) =>
      if op.Claim? then a.start <= x < a.start + total - nr else a.start + total - nr <= x < a.start + total
    case Claimed => a.start <= x < a.start + a.nbits
    case Live => a.start <= x < a.start + a.nbits
    case Searching => false
    case Freed => false
    case Bug => false
  }

  predicate Holding(p: Pool, id: Id, x: nat) {
    id in p.agents && Holds(p.agents[id], x)
  }

  /** Progress counters are in range, a pending clear has seen all its bits set, and no BUG_ON has fired. */
  ghost predicate AgentOk(p: Pool, a: Agent)
    requires p.width > 0 && p.unit > 0
  {
    && a.nbits > 0 && a.nbits == Round(a.bytes, p.unit) && !a.phase.Bug?
    && (a.phase.Working? || a.phase.Claimed? || a.phase.Live? ==> a.start + a.nbits <= p.size / p.unit)
    && (a.phase.Working? ==> WorkOk(p.width, a))
  }

  ghost predicate WorkOk(width: nat, a: Agent)
    requires width > 0 && a.phase.Working?
  {
    && 0 < a.phase.nr <= a.phase.total <= a.nbits
    && (!a.phase.op.Undo? ==> a.phase.total == a.nbits)
    && (!a.phase.op.Claim? && a.phase.seen.Some? ==>
          !Refuses(a.phase.op, a.phase.seen.value, Cursor(a), PieceEnd(width, Cursor(a), a.phase.nr)))
  }

  /** The allocation has been subtracted from avail and not yet added back. */
  predicate IsCharged(a: Agent) {
    a.phase.Live? || a.phase.Freed? || (a.phase.Working? && a.phase.op.Release?)
  }

  /** How many bits the allocation holds. */
  function HeldCount(a: Agent): nat {
    match a.phase
    case Working(op, total, nr, _) => if nr > total then 0 else if op.Claim? then total - nr else nr
    case Claimed => a.nbits
    case Live => a.nbits
    case Searching => 0
    case Freed => 0
    case Bug => 0
  }

  /** Three sums over all allocations: bytes charged, bytes held but not charged, bytes given back but not refunded. */
  datatype Ledger = Charges | Uncharged | Owed

  function Entry(a: Agent, ledger: Ledger, unit: nat): nat {
    match ledger
    case Charges => if IsCharged(a) then a.nbits * unit else 0
    case Uncharged => if IsCharged(a) then 0 else HeldCount(a) * unit
    case Owed => if IsCharged(a) && HeldCount(a) <= a.nbits then (a.nbits - HeldCount(a)) * unit else 0
  }

  function Charged(a: Agent, unit: nat): nat { Entry(a, Charges, unit) }

  ghost function Total(agents: map<Id, Agent>, ledger: Ledger, unit: nat): nat {
    if agents == map[] then 0
    else var k :| k in agents; Entry(agents[k], ledger, unit) + Total(agents - {k}, ledger, unit)
  }

  /** Every set bit has exactly one owner, and owners' bits are set. */
  ghost predicate Ownership(agents: map<Id, Agent>, bits: set<nat>) {
    && (forall i, j, x :: i in agents && j in agents && Holds(agents[i], x) && Holds(agents[j], x) ==> i == j)
    && (forall i, x: nat :: i in agents && Holds(agents[i], x) ==> x in bits)
    && (forall x :: x in bits ==> exists i :: i in agents && Holds(agents[i], x))
  }

  ghost predicate AllOk(p: Pool) {
    p.width > 0 && p.unit > 0 && forall i :: i in p.agents ==> AgentOk(p, p.agents[i])
  }

  ghost predicate Inv(p: Pool) {
    AllOk(p) && Ownership(p.agents, p.bits) && p.avail == p.size - Total(p.agents, Charges, p.unit)
  }

  // ---- sums

  lemma {:induction false} TotalRemove(m: map<Id, Agent>, i: Id, ledger: Ledger, unit: nat)
    requires i in m
    ensures Total(m, ledger, unit) == Entry(m[i], ledger, unit) + Total(m - {i}, ledger, unit)
    decreases |m|
  {
    var k :| k in m && Total(m, ledger, unit) == Entry(m[k], ledger, unit) + Total(m - {k}, ledger, unit);
    if k != i {
      TotalRemove(m - {k}, i, ledger, unit);
      TotalRemove(m - {i}, k, ledger, unit);
      assert m - {k} - {i} == m - {i} - {k};
    }
  }

  /** Replacing one agent changes the total by the difference of its charges. */
  lemma TotalReplace(m: map<Id, Agent>, i: Id, a: Agent, unit: nat)
    ensures Total(m[i := a], Charges, unit)
      == Total(m, Charges, unit) + Charged(a, unit) - if i in m then Charged(m[i], unit) else 0
  {
    TotalRemove(m[i := a], i, Charges, unit);
    assert m[i := a] - {i} == m - {i};
    if i in m { TotalRemove(m, i, Charges, unit); } else { assert m - {i} == m; }
  }

  lemma {:induction false} TotalZero(m: map<Id, Agent>, ledger: Ledger, unit: nat)
    requires forall i :: i in m ==> Entry(m[i], ledger, unit) == 0
    ensures Total(m, ledger, unit) == 0
    decreases |m|
  {
    if m != map[] {
      var k :| k in m;
      TotalRemove(m, k, ledger, unit);
      TotalZero(m - {k}, ledger, unit);
    }
  }

  // ---- one agent changes

  /** The new bitmap differs from the old by exactly what one agent took or gave back, and it took only free bits. */
  ghost predicate Exchange(old_: Agent, a: Agent, bits: set<nat>, bits': set<nat>) {
    && (forall x: nat :: x in bits' <==> Holds(a, x) || (x in bits && !Holds(old_, x)))
    && (forall x: nat :: Holds(a, x) && x in bits ==> Holds(old_, x))
  }

  lemma ReplaceOwner(m: map<Id, Agent>, bits: set<nat>, id: Id, a: Agent, bits': set<nat>)
    requires Ownership(m, bits) && id in m && Exchange(m[id], a, bits, bits')
    ensures Ownership(m[id := a], bits')
  {
    var m' := m[id := a];
    forall i, j, x | i in m' && j in m' && Holds(m'[i], x) && Holds(m'[j], x) ensures i == j {
      assert i == id || Holds(m[i], x);
      assert j == id || Holds(m[j], x);
    }
    forall x | x in bits' ensures exists i :: i in m' && Holds(m'[i], x) {
      if Holds(a, x) {
        assert Holds(m'[id], x);
      } else {
        var i :| i in m && Holds(m[i], x);
        assert Holds(m'[i], x);
      }
    }
  }

  /** The shape shared by all steps of an existing agent that stays. */
  lemma Replaced(p: Pool, id: Id, a: Agent, bits': set<nat>, gain: int)
    requires Inv(p) && id in p.agents && AgentOk(p, a) && Exchange(p.agents[id], a, p.bits, bits')
    requires gain == Charged(p.agents[id], p.unit) - Charged(a, p.unit)
    ensures Inv(p.(bits := bits', avail := p.avail + gain, agents := p.agents[id := a]))
  {
    var p' := p.(bits := bits', avail := p.avail + gain, agents := p.agents[id := a]);
    forall i | i in p'.agents ensures AgentOk(p', p'.agents[i]) {
      if i != id { assert AgentOk(p, p.agents[i]); }
    }
    ReplaceOwner(p.agents, p.bits, id, a, bits');
    TotalReplace(p.agents, id, a, p.unit);
  }

  /** An agent that keeps its bits, all of them set. */
  lemma SameBits(p: Pool, id: Id, a: Agent)
    requires Inv(p) && id in p.agents && forall x: nat :: Holds(a, x) <==> Holds(p.agents[id], x)
    ensures Exchange(p.agents[id], a, p.bits, p.bits)
  {}

  /** A piece of a range the agent holds is set, so a word value equal to the current one has it all. */
  lemma OwnPieceSeen(p: Pool, id: Id, op: Op, cur: nat, e: nat)
    requires Inv(p) && id in p.agents && !op.Claim? && e <= WordStart(p.width, cur) + p.width
    requires forall x: nat :: cur <= x < e ==> Holds(p.agents[id], x)
    ensures !Refuses(op, Word(p.bits, p.width, cur), cur, e)
  {}

  lemma LoadOk(p: Pool, id: Id)
    requires Inv(p) && id in p.agents && p.agents[id].phase.Working?
    ensures AgentOk(p, p.agents[id].(phase := LoadPhase(p, p.agents[id])))
  {
    var a := p.agents[id];
    assert AgentOk(p, a);
    var cur := Cursor(a);
    if !a.phase.op.Claim? {
      OwnPieceSeen(p, id, a.phase.op, cur, PieceEnd(p.width, cur, a.phase.nr));
    }
  }

  /** A word that refused nothing and is unchanged at the cmpxchg: the piece is free, or all set. */
  lemma PieceState(p: Pool, op: Op, cur: nat, e: nat)
    requires p.width > 0 && e <= WordStart(p.width, cur) + p.width
    requires !Refuses(op, Word(p.bits, p.width, cur), cur, e)
    ensures forall x: nat :: cur <= x < e ==> (x in p.bits <==> !op.Claim?)
  {
    forall x: nat | cur <= x < e ensures x in p.bits <==> !op.Claim? {
      assert x in Word(p.bits, p.width, cur) <==> x in p.bits;
    }
  }

  /** A successful cmpxchg moves exactly the piece between the bitmap and the agent. */
  lemma AdvanceExchanges(p: Pool, a: Agent, e: nat)
    requires AllOk(p) && AgentOk(p, a) && a.phase.Working? && e == PieceEnd(p.width, Cursor(a), a.phase.nr)
    requires forall x: nat :: Holds(a, x) ==> x in p.bits
    requires forall x: nat :: Cursor(a) <= x < e ==> (x in p.bits <==> !a.phase.op.Claim?)
    ensures AgentOk(p, a.(phase := Advanced(a, e)))
    ensures Exchange(a, a.(phase := Advanced(a, e)), p.bits, NewBits(a.phase.op, p.bits, Cursor(a), e))
    ensures Charged(a, p.unit) == Charged(a.(phase := Advanced(a, e)), p.unit)
  {
    var a' := a.(phase := Advanced(a, e));
    forall x: nat ensures Holds(a', x) <==>
        if a.phase.op.Claim? then Holds(a, x) || Cursor(a) <= x < e else Holds(a, x) && !(Cursor(a) <= x < e) {
    }
  }

  lemma CasOk(p: Pool, id: Id)
    requires Inv(p) && Enabled(p, Cas(id))
    ensures var a := p.agents[id]; var r := CasStep(p, a); var a' := a.(phase := r.1);
      AgentOk(p, a') && Exchange(a, a', p.bits, r.0) && Charged(a, p.unit) == Charged(a', p.unit)
  {
    var a := p.agents[id];
    assert AgentOk(p, a);
    var cur: nat := Cursor(a);
    var e := PieceEnd(p.width, cur, a.phase.nr);
    if Refuses(a.phase.op, a.phase.seen.value, cur, e) {
      SameBits(p, id, a.(phase := Refused(a)));
    } else if Word(p.bits, p.width, cur) == a.phase.seen.value {
      PieceState(p, a.phase.op, cur, e);
      AdvanceExchanges(p, a, e);
    } else {
      LoadOk(p, id);
      SameBits(p, id, a.(phase := LoadPhase(p, a)));
    }
  }

  // ---- agents come and go

  lemma Arrived(p: Pool, id: Id, a: Agent)
    requires Inv(p) && id !in p.agents && AgentOk(p, a) && a.phase.Searching?
    ensures Inv(p.(agents := p.agents[id := a]))
  {
    var m, m' := p.agents, p.agents[id := a];
    var p' := p.(agents := m');
    forall i | i in m' ensures AgentOk(p', m'[i]) {
      if i != id { assert AgentOk(p, m[i]); }
    }
    forall x | x in p.bits ensures exists i :: i in m' && Holds(m'[i], x) {
      var i :| i in m && Holds(m[i], x);
      assert Holds(m'[i], x);
    }
    TotalReplace(m, id, a, p.unit);
  }

  /** An agent that holds no bits can go, taking its charge along. */
  lemma Departed(p: Pool, id: Id, gain: int)
    requires Inv(p) && id in p.agents && (p.agents[id].phase.Searching? || p.agents[id].phase.Freed?)
    requires gain == Charged(p.agents[id], p.unit)
    ensures Inv(p.(avail := p.avail + gain, agents := p.agents - {id}))
  {
    var m, m' := p.agents, p.agents - {id};
    var p' := p.(avail := p.avail + gain, agents := m');
    TotalRemove(m, id, Charges, p.unit);
    forall i | i in m' ensures AgentOk(p', m'[i]) { assert AgentOk(p, m[i]); }
    forall x | x in p.bits ensures exists i :: i in m' && Holds(m'[i], x) {
      var i :| i in m && Holds(m[i], x);
      assert i != id && Holds(m'[i], x);
    }
  }

  /** Rounding up covers the bytes asked for, with at least one bit. */
  lemma RoundUp(bytes: nat, unit: nat)
    requires unit > 0
    ensures bytes <= Round(bytes, unit) * unit && (bytes > 0 ==> Round(bytes, unit) > 0)
  {
    var n := bytes + unit - 1;
    assert n == (n / unit) * unit + n % unit;
  }

  /** A live allocation ends inside the chunk, so the end-address BUG_ON of gen_pool_free stays silent. */
  lemma EndInChunk(start: nat, nbits: nat, size: nat, unit: nat)
    requires unit > 0 && start + nbits <= size / unit
    ensures start * unit + nbits * unit <= size
  {
    var q := size / unit;
    assert size == q * unit + size % unit;
    assert q * unit == (start + nbits) * unit + (q - start - nbits) * unit;
    assert (start + nbits) * unit == start * unit + nbits * unit;
  }

  // ---- every step

  lemma FoundKeeps(p: Pool, id: Id, start: nat)
    requires Inv(p) && Enabled(p, Found(id, start))
    ensures Inv(Apply(p, Found(id, start)))
  {
    var a := p.agents[id];
    assert AgentOk(p, a);
    var a' := Act(p, Found(id, start)).agent.value;
    SameBits(p, id, a');
    Replaced(p, id, a', p.bits, 0);
  }

  lemma LoadKeeps(p: Pool, id: Id)
    requires Inv(p) && Enabled(p, Load(id))
    ensures Inv(Apply(p, Load(id)))
  {
    var a' := p.agents[id].(phase := LoadPhase(p, p.agents[id]));
    LoadOk(p, id);
    SameBits(p, id, a');
    Replaced(p, id, a', p.bits, 0);
  }

  lemma CasKeeps(p: Pool, id: Id)
    requires Inv(p) && Enabled(p, Cas(id))
    ensures Inv(Apply(p, Cas(id)))
  {
    CasOk(p, id);
    var r := CasStep(p, p.agents[id]);
    Replaced(p, id, p.agents[id].(phase := r.1), r.0, 0);
  }

  lemma ChargeKeeps(p: Pool, id: Id)
    requires Inv(p) && Enabled(p, Charge(id))
    ensures Inv(Apply(p, Charge(id)))
  {
    var a' := p.agents[id].(phase := Live);
    assert AgentOk(p, p.agents[id]);
    SameBits(p, id, a');
    Replaced(p, id, a', p.bits, -(a'.nbits * p.unit));
  }

  lemma FreeKeeps(p: Pool, id: Id)
    requires Inv(p) && Enabled(p, Free(id))
    ensures Inv(Apply(p, Free(id)))
  {
    var a := p.agents[id];
    var a' := a.(phase := FreePhase(p, a));
    assert AgentOk(p, a);
    RoundUp(a.bytes, p.unit);
    EndInChunk(a.start, a.nbits, p.size, p.unit);
    SameBits(p, id, a');
    Replaced(p, id, a', p.bits, 0);
  }

  lemma RefundKeeps(p: Pool, id: Id)
    requires Inv(p) && Enabled(p, Refund(id))
    ensures Inv(Apply(p, Refund(id)))
  {
    assert AgentOk(p, p.agents[id]);
    Departed(p, id, Round(p.agents[id].bytes, p.unit) * p.unit);
  }

  lemma StepKeeps(p: Pool, step: Step)
    requires Inv(p) && Enabled(p, step)
    ensures Inv(Apply(p, step))
  {
    match step
    case Request(id, bytes) =>
      RoundUp(bytes, p.unit);
      Arrived(p, id, Act(p, step).agent.value);
    case Found(id, start) => FoundKeeps(p, id, start);
    case GiveUp(id) => Departed(p, id, 0);
    case Load(id) => LoadKeeps(p, id);
    case Cas(id) => CasKeeps(p, id);
    case Charge(id) => ChargeKeeps(p, id);
    case Free(id) => FreeKeeps(p, id);
    case Refund(id) => RefundKeeps(p, id);
  }

  /** A step changes a bit only by its own agent taking it or giving it back. */
  lemma StepTouchesOwnBits(p: Pool, step: Step, x: nat)
    requires Inv(p) && Enabled(p, step) && (x in p.bits) != (x in Apply(p, step).bits)
    ensures step.Cas? && Holding(p, step.id, x) == (x in p.bits)
    ensures Holding(Apply(p, step), step.id, x) == (x in Apply(p, step).bits)
  {
    assert step.Cas?;
    CasOk(p, step.id);
  }

  // ---- runs

  ghost predicate Init(p: Pool) {
    p.width > 0 && p.unit > 0 && p.bits == {} && p.avail == p.size && p.agents == map[]
  }

  predicate IsRun(p: Pool, steps: seq<Step>)
    decreases |steps|
  {
    steps == [] || (Enabled(p, steps[0]) && IsRun(Apply(p, steps[0]), steps[1..]))
  }

  function Final(p: Pool, steps: seq<Step>): Pool
    requires IsRun(p, steps)
    decreases |steps|
  {
    if steps == [] then p else Final(Apply(p, steps[0]), steps[1..])
  }

  lemma {:induction false} RunKeeps(p: Pool, steps: seq<Step>)
    requires Inv(p) && IsRun(p, steps)
    ensures Inv(Final(p, steps)) && Final(p, steps).size == p.size && Final(p, steps).unit == p.unit
    decreases |steps|
  {
    if steps != [] {
      StepKeeps(p, steps[0]);
      RunKeeps(Apply(p, steps[0]), steps[1..]);
    }
  }

  /** Taking one live allocation out of the picture takes exactly its bits out of the bitmap. */
  lemma WithoutOne(m: map<Id, Agent>, bits: set<nat>, k: Id, mine: set<nat>)
    requires Ownership(m, bits) && k in m && forall x: nat :: x in mine <==> Holds(m[k], x)
    ensures Ownership(m - {k}, bits - mine) && mine <= bits
  {
    var rest := m - {k};
    forall x | x in bits - mine ensures exists i :: i in rest && Holds(rest[i], x) {
      var i :| i in m && Holds(m[i], x);
      assert i != k && Holds(rest[i], x);
    }
  }

  /** The bits an allocation holds, as a set. */
  lemma HeldBits(a: Agent) returns (mine: set<nat>)
    requires a.phase.Working? ==> a.phase.nr <= a.phase.total
    ensures |mine| == HeldCount(a) && forall x: nat :: x in mine <==> Holds(a, x)
  {
    var lo := if a.phase.Working? && !a.phase.op.Claim? then a.start + a.phase.total - a.phase.nr else a.start;
    mine := Range(lo, lo + HeldCount(a));
    RangeCard(lo, lo + HeldCount(a));
  }

  /** What one allocation was charged or holds without being charged is what it holds or is owed. */
  lemma EntryBalance(a: Agent, unit: nat)
    requires a.phase.Working? ==> a.phase.nr <= a.phase.total <= a.nbits
    ensures Entry(a, Charges, unit) + Entry(a, Uncharged, unit) == HeldCount(a) * unit + Entry(a, Owed, unit)
  {
    if IsCharged(a) {
      var held, rest := HeldCount(a), a.nbits - HeldCount(a);
      assert (held + rest) * unit == held * unit + rest * unit;
    }
  }

  /** The three sums and the set bits balance, whatever is in flight. */
  lemma {:induction false} LedgersBalance(m: map<Id, Agent>, bits: set<nat>, unit: nat)
    requires Ownership(m, bits)
    requires forall i :: i in m && m[i].phase.Working? ==> m[i].phase.nr <= m[i].phase.total <= m[i].nbits
    ensures Total(m, Charges, unit) + Total(m, Uncharged, unit) == |bits| * unit + Total(m, Owed, unit)
    decreases |m|
  {
    if m == map[] {
      NoOwnersNoBits(m, bits);
    } else {
      var k :| k in m;
      var mine := HeldBits(m[k]);
      WithoutOne(m, bits, k, mine);
      LedgersBalance(m - {k}, bits - mine, unit);
      SplitCard(bits, mine);
      EntryBalance(m[k], unit);
      AddUp(|bits - mine|, |mine|, |bits|, unit);
      TotalRemove(m, k, Charges, unit);
      TotalRemove(m, k, Uncharged, unit);
      TotalRemove(m, k, Owed, unit);
    }
  }

  lemma AddUp(left: nat, mine: nat, all: nat, unit: nat)
    requires all == left + mine
    ensures all * unit == left * unit + mine * unit
  {}

  /** With only live allocations, the charged bytes are the set bits times the bytes per bit. */
  lemma LiveTotal(m: map<Id, Agent>, bits: set<nat>, unit: nat)
    requires Ownership(m, bits) && forall i :: i in m ==> m[i].phase.Live?
    ensures Total(m, Charges, unit) == |bits| * unit
  {
    LedgersBalance(m, bits, unit);
    LiveSettled(m, unit);
  }

  lemma LiveSettled(m: map<Id, Agent>, unit: nat)
    requires forall i :: i in m ==> m[i].phase.Live?
    ensures Total(m, Uncharged, unit) == 0 && Total(m, Owed, unit) == 0
  {
    forall i | i in m ensures Entry(m[i], Owed, unit) == 0 { assert m[i].nbits - HeldCount(m[i]) == 0; }
    TotalZero(m, Uncharged, unit);
    TotalZero(m, Owed, unit);
  }

  lemma NoOwnersNoBits(m: map<Id, Agent>, bits: set<nat>)
    requires Ownership(m, bits) && m == map[]
    ensures bits == {}
  {
    assert forall x :: x in bits ==> exists i :: i in m && Holds(m[i], x);
  }

  /**
   * In every interleaving of any number of allocations and frees: each set bit has exactly one owner, nobody's
   * BUG_ON fires, and when no operation is in flight avail is the size minus the bytes of the set bits.
   */
  lemma EveryInterleaving(p0: Pool, steps: seq<Step>)
    requires Init(p0) && IsRun(p0, steps)
    ensures
      var p := Final(p0, steps);
      && (forall i, j, x :: Holding(p, i, x) && Holding(p, j, x) ==> i == j)
      && (forall x: nat :: x in p.bits <==> exists i :: Holding(p, i, x))
      && (forall i :: i in p.agents ==> !p.agents[i].phase.Bug?)
      && ((forall i :: i in p.agents ==> p.agents[i].phase.Live?) ==> p.avail == p0.size - |p.bits| * p0.unit)
  {
    RunKeeps(p0, steps);
    var p := Final(p0, steps);
    forall x | x in p.bits ensures exists i :: Holding(p, i, x) {
      var i :| i in p.agents && Holds(p.agents[i], x);
      assert Holding(p, i, x);
    }
    forall i | i in p.agents ensures !p.agents[i].phase.Bug? { assert AgentOk(p, p.agents[i]); }
    if forall i :: i in p.agents ==> p.agents[i].phase.Live? {
      LiveTotal(p.agents, p.bits, p.unit);
    }
  }

  // ---- when avail is negative

  /** Set bits lie inside the chunk. */
  lemma BitsBelowEnd(p: Pool)
    requires Inv(p)
    ensures |p.bits| <= p.size / p.unit
  {
    var n := p.size / p.unit;
    forall x | x in p.bits ensures x in Range(0, n) {
      var i :| i in p.agents && Holds(p.agents[i], x);
      assert AgentOk(p, p.agents[i]);
    }
    RangeCard(0, n);
    SubsetCard(p.bits, Range(0, n));
  }

  lemma BitsInChunk(p: Pool)
    requires Inv(p)
    ensures |p.bits| * p.unit <= p.size
  {
    BitsBelowEnd(p);
    EndInChunk(0, |p.bits|, p.size, p.unit);
  }

  /** At any moment: avail is the bytes of the clear bits, plus those claimed and not charged, less those owed. */
  lemma AvailBalance(p: Pool)
    requires Inv(p)
    ensures p.avail == p.size - |p.bits| * p.unit + Total(p.agents, Uncharged, p.unit) - Total(p.agents, Owed, p.unit)
  {
    forall i | i in p.agents && p.agents[i].phase.Working?
      ensures p.agents[i].phase.nr <= p.agents[i].phase.total <= p.agents[i].nbits
    {
      assert AgentOk(p, p.agents[i]);
    }
    LedgersBalance(p.agents, p.bits, p.unit);
  }

  predicate Releasing(a: Agent) {
    a.phase.Freed? || (a.phase.Working? && a.phase.op.Release?)
  }

  lemma NothingOwed(p: Pool)
    requires forall i :: i in p.agents ==> !Releasing(p.agents[i])
    ensures Total(p.agents, Owed, p.unit) == 0
  {
    forall i | i in p.agents ensures Entry(p.agents[i], Owed, p.unit) == 0 {
      assert p.agents[i].phase.Live? ==> p.agents[i].nbits - HeldCount(p.agents[i]) == 0;
    }
    TotalZero(p.agents, Owed, p.unit);
  }

  /** Without a free in flight avail is not negative. */
  lemma NotNegative(p: Pool)
    requires Inv(p) && forall i :: i in p.agents ==> !Releasing(p.agents[i])
    ensures p.avail >= 0
  {
    NothingOwed(p);
    AvailBalance(p);
    BitsInChunk(p);
  }

  /**
   * avail is negative exactly when the bytes given back and not yet refunded exceed the bytes of the clear bits and
   * of the claims not yet charged: others were charged for them first. So only with a free in flight.
   */
  lemma NegativeIff(p: Pool)
    requires Inv(p)
    ensures p.avail < 0 <==>
      Total(p.agents, Owed, p.unit) > (p.size - |p.bits| * p.unit) + Total(p.agents, Uncharged, p.unit)
    ensures p.avail < 0 ==> exists i :: i in p.agents && Releasing(p.agents[i])
  {
    AvailBalance(p);
    if forall i :: i in p.agents ==> !Releasing(p.agents[i]) { NotNegative(p); }
  }

  /** The same for the state after any run of a new chunk. */
  lemma NegativeInRuns(p0: Pool, steps: seq<Step>)
    requires Init(p0) && IsRun(p0, steps)
    ensures var p := Final(p0, steps);
      && (p.avail < 0 <==>
            Total(p.agents, Owed, p.unit) > (p.size - |p.bits| * p.unit) + Total(p.agents, Uncharged, p.unit))
      && (p.avail < 0 ==> exists i :: i in p.agents && Releasing(p.agents[i]))
  {
    RunKeeps(p0, steps);
    NegativeIff(Final(p0, steps));
  }

  lemma {:induction false} RunSnoc(p: Pool, steps: seq<Step>, step: Step)
    requires IsRun(p, steps) && Enabled(Final(p, steps), step)
    ensures IsRun(p, steps + [step]) && Final(p, steps + [step]) == Apply(Final(p, steps), step)
    decreases |steps|
  {
    if steps == [] {
      assert [step][1..] == [] && [] + [step] == [step];
    } else {
      RunSnoc(Apply(p, steps[0]), steps[1..], step);
      assert (steps + [step])[1..] == steps[1..] + [step];
    }
  }

  /** Two allocations, of eight and of seven bytes. */
  function Ask(id: Id): (n: nat)
    ensures 0 < n <= 8
  {
    if id == 0 then 8 else 7
  }

  /** A chunk of eight bytes with the first m bits set, and these allocations, all at its start. */
  function Tiny(m: nat, avail: int, phases: map<Id, Phase>): Pool {
    Pool(32, 1, 8, Range(0, m), avail, map i | i in phases :: Agent(Ask(i), 0, Ask(i), phases[i]))
  }

  lemma TinyWord(m: nat, n: nat)
    requires m <= 8 && 0 < n <= 8
    ensures Word(Range(0, m), 32, 0) == Range(0, m) && PieceEnd(32, 0, n) == n
  {
    assert WordStart(32, 0) == 0;
  }

  lemma TinyCount(n: nat)
    requires 0 < n <= 8
    ensures Round(n, 1) == n && !Miscounted(n, 1)
  {}

  lemma TinyRequest(m: nat, avail: int, phases: map<Id, Phase>, id: Id)
    requires id !in phases && Ask(id) <= avail
    ensures Enabled(Tiny(m, avail, phases), Request(id, Ask(id)))
    ensures Apply(Tiny(m, avail, phases), Request(id, Ask(id))) == Tiny(m, avail, phases[id := Searching])
  {
    TinyCount(Ask(id));
  }

  /** The other steps that only change the phase. */
  lemma TinyPhase(m: nat, avail: int, phases: map<Id, Phase>, id: Id)
    requires id in phases
    ensures phases[id].Searching? ==>
      && Enabled(Tiny(m, avail, phases), Found(id, 0))
      && Apply(Tiny(m, avail, phases), Found(id, 0))
         == Tiny(m, avail, phases[id := Working(Claim, Ask(id), Ask(id), None)])
    ensures phases[id].Claimed? ==>
      && Enabled(Tiny(m, avail, phases), Charge(id))
      && Apply(Tiny(m, avail, phases), Charge(id)) == Tiny(m, avail - Ask(id), phases[id := Live])
    ensures phases[id].Live? ==>
      && Enabled(Tiny(m, avail, phases), Free(id))
      && Apply(Tiny(m, avail, phases), Free(id))
         == Tiny(m, avail, phases[id := Working(Release, Ask(id), Ask(id), None)])
  {
    TinyCount(Ask(id));
  }

  lemma TinyLoad(m: nat, avail: int, phases: map<Id, Phase>, id: Id, op: Op)
    requires m <= 8 && id in phases && phases[id] == Working(op, Ask(id), Ask(id), None)
    ensures Enabled(Tiny(m, avail, phases), Load(id))
    ensures Apply(Tiny(m, avail, phases), Load(id))
      == Tiny(m, avail, phases[id := Working(op, Ask(id), Ask(id), Some(Range(0, m)))])
  {
    TinyWord(m, Ask(id));
  }

  lemma TinyClaim(avail: int, phases: map<Id, Phase>, id: Id)
    requires id in phases && phases[id] == Working(Claim, Ask(id), Ask(id), Some(Range(0, 0)))
    ensures Enabled(Tiny(0, avail, phases), Cas(id))
    ensures Apply(Tiny(0, avail, phases), Cas(id)) == Tiny(Ask(id), avail, phases[id := Claimed])
  {
    TinyWord(0, Ask(id));
    assert Range(0, 0) + Range(0, Ask(id)) == Range(0, Ask(id));
  }

  lemma TinyClear(avail: int, phases: map<Id, Phase>, id: Id)
    requires id in phases && phases[id] == Working(Release, Ask(id), Ask(id), Some(Range(0, Ask(id))))
    ensures Enabled(Tiny(Ask(id), avail, phases), Cas(id))
    ensures Apply(Tiny(Ask(id), avail, phases), Cas(id)) == Tiny(0, avail, phases[id := Freed])
  {
    TinyWord(Ask(id), Ask(id));
    assert Range(0, Ask(id)) - Range(0, Ask(id)) == Range(0, 0);
  }

  lemma Then(p0: Pool, steps: seq<Step>, step: Step, p: Pool) returns (longer: seq<Step>)
    requires IsRun(p0, steps) && Enabled(Final(p0, steps), step) && Apply(Final(p0, steps), step) == p
    ensures longer == steps + [step] && IsRun(p0, longer) && Final(p0, longer) == p
  {
    RunSnoc(p0, steps, step);
    longer := steps + [step];
  }

  function Taking(id: Id): seq<Step> { [Found(id, 0), Load(id), Cas(id), Charge(id)] }

  function Clearing(id: Id): seq<Step> { [Free(id), Load(id), Cas(id)] }

  /** An allocation finds and claims its bytes. */
  lemma ClaimBytes(p0: Pool, before: seq<Step>, avail: int, phases: map<Id, Phase>, id: Id) returns (steps: seq<Step>)
    requires IsRun(p0, before) && id in phases && phases[id].Searching? && Final(p0, before) == Tiny(0, avail, phases)
    ensures steps == before + [Found(id, 0)] + [Load(id)] + [Cas(id)] && IsRun(p0, steps)
    ensures Final(p0, steps) == Tiny(Ask(id), avail, phases[id := Claimed])
  {
    var n := Ask(id);
    var f, l := phases[id := Working(Claim, n, n, None)], phases[id := Working(Claim, n, n, Some(Range(0, 0)))];
    TinyPhase(0, avail, phases, id);
    TinyLoad(0, avail, f, id, Claim);
    TinyClaim(avail, l, id);
    assert f[id := l[id]] == l && l[id := Claimed] == phases[id := Claimed];
    steps := Then(p0, before, Found(id, 0), Tiny(0, avail, f));
    steps := Then(p0, steps, Load(id), Tiny(0, avail, l));
    steps := Then(p0, steps, Cas(id), Tiny(n, avail, phases[id := Claimed]));
  }

  /** And is charged for them. */
  lemma TakeBytes(p0: Pool, before: seq<Step>, avail: int, phases: map<Id, Phase>, id: Id) returns (steps: seq<Step>)
    requires IsRun(p0, before) && id in phases && phases[id].Searching? && Final(p0, before) == Tiny(0, avail, phases)
    ensures steps == before + Taking(id) && IsRun(p0, steps)
    ensures Final(p0, steps) == Tiny(Ask(id), avail - Ask(id), phases[id := Live])
  {
    var c := phases[id := Claimed];
    TinyPhase(Ask(id), avail, c, id);
    assert c[id := Live] == phases[id := Live];
    steps := ClaimBytes(p0, before, avail, phases, id);
    steps := Then(p0, steps, Charge(id), Tiny(Ask(id), avail - Ask(id), phases[id := Live]));
  }

  /** It gives the bits back; the refund is still to come. */
  lemma ClearBytes(p0: Pool, before: seq<Step>, avail: int, phases: map<Id, Phase>, id: Id) returns (steps: seq<Step>)
    requires IsRun(p0, before) && id in phases && phases[id].Live? && Final(p0, before) == Tiny(Ask(id), avail, phases)
    ensures steps == before + Clearing(id) && IsRun(p0, steps)
    ensures Final(p0, steps) == Tiny(0, avail, phases[id := Freed])
  {
    var n := Ask(id);
    var f, l := phases[id := Working(Release, n, n, None)], phases[id := Working(Release, n, n, Some(Range(0, n)))];
    TinyPhase(n, avail, phases, id);
    TinyLoad(n, avail, f, id, Release);
    TinyClear(avail, l, id);
    assert f[id := l[id]] == l && l[id := Freed] == phases[id := Freed];
    steps := Then(p0, before, Free(id), Tiny(n, avail, f));
    steps := Then(p0, steps, Load(id), Tiny(n, avail, l));
    steps := Then(p0, steps, Cas(id), Tiny(0, avail, phases[id := Freed]));
  }

  /** Both allocations are asked for before the first one takes its bytes. */
  lemma TwoRequests(p0: Pool) returns (steps: seq<Step>)
    requires p0 == Tiny(0, 8, map[])
    ensures steps == [Request(0, 8)] + [Request(1, 7)] && IsRun(p0, steps)
    ensures Final(p0, steps) == Tiny(0, 8, map[0 := Searching, 1 := Searching])
  {
    var none: map<Id, Phase> := map[];
    var one := none[0 := Searching];
    TinyRequest(0, 8, none, 0);
    TinyRequest(0, 8, one, 1);
    assert one[1 := Searching] == map[0 := Searching, 1 := Searching];
    steps := [];
    steps := Then(p0, steps, Request(0, 8), Tiny(0, 8, one));
    steps := Then(p0, steps, Request(1, 7), Tiny(0, 8, one[1 := Searching]));
  }

  /** Two allocations charged for the same bytes before the refund: avail is -7. */
  lemma AvailGoesNegative(p0: Pool) returns (steps: seq<Step>)
    requires p0 == Tiny(0, 8, map[])
    ensures steps == [Request(0, 8)] + [Request(1, 7)] + Taking(0) + Clearing(0) + Taking(1)
    ensures Init(p0) && IsRun(p0, steps) && Final(p0, steps) == Tiny(7, -7, map[0 := Freed, 1 := Live])
  {
    var both: map<Id, Phase> := map[0 := Searching, 1 := Searching];
    steps := TwoRequests(p0);
    steps := TakeBytes(p0, steps, 8, both, 0);
    steps := ClearBytes(p0, steps, 0, both[0 := Live], 0);
    steps := TakeBytes(p0, steps, 0, both[0 := Live][0 := Freed], 1);
    assert both[0 := Live][0 := Freed][1 := Live] == map[0 := Freed, 1 := Live];
  }

  // ---- requests too large for an int

  lemma QuotientAtMost(y: nat, u: nat)
    requires u > 0
    ensures y / u <= y
  {
    Parts(y, u);
    MulAtLeast(y / u, u);
  }

  lemma QuotientLess(x: nat, y: nat, u: nat)
    requires u > 0 && x + u <= y
    ensures x / u < y / u
  {
    Parts(x, u);
    Parts(y, u);
    var d := y / u - x / u;
    assert d * u == (y / u) * u - (x / u) * u;
    MulGap(d, u);
  }

  /** A count is wrong exactly when the sum leaves size_t or the quotient leaves int. */
  lemma MiscountedIff(bytes: nat, unit: nat)
    requires 0 < bytes < SPAN && 0 < unit <= SPAN
    ensures Miscounted(bytes, unit) <==> bytes + unit - 1 >= SPAN || Round(bytes, unit) >= 0x8000_0000
  {
    var sum := bytes + unit - 1;
    if sum >= SPAN {
      LowSum(sum, unit);
    } else {
      assert sum % SPAN == sum;
      WrapFits(sum / unit);
    }
  }

  lemma LowSum(sum: nat, unit: nat)
    requires SPAN <= sum < 2 * SPAN && 0 < unit <= SPAN
    ensures Wrap(sum % SPAN / unit) < sum / unit
  {
    var low := sum - SPAN;
    assert sum % SPAN == low;
    QuotientLess(low, sum, unit);
    WrapBelow(low / unit);
  }

  lemma WrapBelow(x: nat)
    ensures Wrap(x) <= x
  {
    if x >= 0x8000_0000 { WrapTurns(x); }
  }

  /** Such a request passes the check only while avail is negative, so only with a free in flight. */
  lemma MiscountedNeedsNegative(p: Pool, bytes: nat)
    requires Inv(p) && p.size < 0x8000_0000 && p.unit < 0x8000_0000
    requires Admitted(p, bytes) && Miscounted(bytes, p.unit)
    ensures p.avail < 0 && exists i :: i in p.agents && Releasing(p.agents[i])
  {
    MiscountedIff(bytes, p.unit);
    RoundAtMost(bytes, p.unit);
    NegativeIff(p);
  }

  lemma RoundAtMost(bytes: nat, unit: nat)
    requires bytes > 0 && unit > 0
    ensures Round(bytes, unit) <= bytes
  {
    Parts(bytes - 1, unit);
    var q, r := (bytes - 1) / unit, (bytes - 1) % unit;
    assert (q + 1) * unit == q * unit + unit;
    Split(bytes + unit - 1, q + 1, r, unit);
    QuotientAtMost(bytes - 1, unit);
  }

  /** End of the mask bitmap_set_ll uses for a count below zero: no whole words, the last-word mask of start + nr. */
  function NegativeEnd(width: nat, start: nat, nr: int): int
    requires width > 0
  {
    WordStart(width, start) + width - -(start + nr) % width
  }

  /** A claim with a count below zero: one cmpxchg on that mask succeeds, and avail goes up. */
  function WildClaim(p: Pool, start: nat, nr: int): Pool
    requires p.width > 0
  {
    var end := NegativeEnd(p.width, start, nr);
    p.(bits := p.bits + Range(start, if end < 0 then 0 else end), avail := p.avail - nr * p.unit)
  }

  /** A count of -n from bit n: the rest of the word is set, and avail goes up by n bytes. */
  lemma WildEffect(p: Pool, n: nat)
    requires 0 < n < p.width && p.bits == Range(0, n)
    ensures WildClaim(p, n, 0 - n).bits == Range(0, p.width) && WildClaim(p, n, 0 - n).avail == p.avail + n * p.unit
  {
    assert WordStart(p.width, n) == 0;
    assert (0 - (n + (0 - n))) % p.width == 0;
    assert Range(0, n) + Range(n, p.width) == Range(0, p.width);
  }

  lemma NegativeCount(n: nat)
    requires 0 < n <= 0x8000_0000
    ensures IntCount(SPAN - n, 1) == 0 - n
  {
    WrapOnce(SPAN - n);
  }

  /**
   * A free of n + 1 bytes is not yet refunded and n of them are taken again, so avail is -n. A request of 2^32 - n
   * bytes is then admitted with a count of -n. The search, whose end wraps to 0, returns bit n. The rest of the word
   * is set, and once the free is refunded avail is the whole chunk, with every bit of it set.
   */
  lemma HugeRequestBreaksBalance(p: Pool, n: nat)
    requires 0 < n < p.width && n < 0x8000_0000 && p.unit == 1 && p.size == n + 1 && p.bits == Range(0, n)
    requires p.avail == 0 - n && 0 in p.agents && p.agents[0] == Agent(n + 1, 0, n + 1, Freed)
    ensures Admitted(p, SPAN - n) && IntCount(SPAN - n, 1) == 0 - n && (n + (SPAN - n)) % SPAN == 0
    ensures
      var q := WildClaim(p, n, 0 - n);
      && q.bits == Range(0, p.width) && Enabled(q, Refund(0))
      && Apply(q, Refund(0)).avail == p.size && Range(0, p.size) <= Apply(q, Refund(0)).bits
  {
    NegativeCount(n);
    WildEffect(p, n);
    assert Round(n + 1, 1) == n + 1;
  }

  /** The state AvailGoesNegative reaches is such a state. */
  lemma HugeRequestReached(p0: Pool) returns (steps: seq<Step>)
    requires p0 == Tiny(0, 8, map[])
    ensures Init(p0) && IsRun(p0, steps) && Final(p0, steps).width > 0
    ensures Admitted(Final(p0, steps), SPAN - 7) && IntCount(SPAN - 7, 1) == -7
    ensures Enabled(WildClaim(Final(p0, steps), 7, -7), Refund(0))
    ensures
      var q := Apply(WildClaim(Final(p0, steps), 7, -7), Refund(0));
      q.avail == q.size && Range(0, q.size) <= q.bits
  {
    steps := AvailGoesNegative(p0);
    HugeRequestBreaksBalance(Final(p0, steps), 7);
  }

  // ---- a failed claim leaves no trace

  function B(b: bool): int { if b then 1 else 0 }

  /** How often the steps of id set bit x, less how often they cleared it. */
  ghost function Net(p: Pool, steps: seq<Step>, id: Id, x: nat): int
    requires IsRun(p, steps)
    decreases |steps|
  {
    if steps == [] then 0
    else
      var p' := Apply(p, steps[0]);
      (if steps[0].id == id then B(x in p'.bits) - B(x in p.bits) else 0) + Net(p', steps[1..], id, x)
  }

  /** What the steps of id added to avail. */
  ghost function NetGain(p: Pool, steps: seq<Step>, id: Id): int
    requires IsRun(p, steps)
    decreases |steps|
  {
    if steps == [] then 0
    else
      var p' := Apply(p, steps[0]);
      (if steps[0].id == id then p'.avail - p.avail else 0) + NetGain(p', steps[1..], id)
  }

  function ChargeOf(p: Pool, id: Id): nat {
    if id in p.agents then Charged(p.agents[id], p.unit) else 0
  }

  lemma OtherStep(p: Pool, step: Step, id: Id)
    requires Enabled(p, step) && step.id != id
    ensures id in Apply(p, step).agents <==> id in p.agents
    ensures id in p.agents ==> Apply(p, step).agents[id] == p.agents[id]
  {}

  /** A step of an allocation changes a bit exactly as it changes what the allocation holds. */
  lemma OwnStepBits(p: Pool, step: Step, x: nat)
    requires Inv(p) && Enabled(p, step)
    ensures var p' := Apply(p, step);
      B(x in p'.bits) - B(x in p.bits) == B(Holding(p', step.id, x)) - B(Holding(p, step.id, x))
  {
    if step.id in p.agents { assert AgentOk(p, p.agents[step.id]); }
    if step.Cas? { CasOk(p, step.id); }
    if step.Free? {
      RoundUp(p.agents[step.id].bytes, p.unit);
      EndInChunk(p.agents[step.id].start, p.agents[step.id].nbits, p.size, p.unit);
    }
  }

  lemma OwnStepGain(p: Pool, step: Step)
    requires Inv(p) && Enabled(p, step)
    ensures Apply(p, step).avail - p.avail == ChargeOf(p, step.id) - ChargeOf(Apply(p, step), step.id)
  {
    if step.id in p.agents { assert AgentOk(p, p.agents[step.id]); }
    if step.Cas? { CasOk(p, step.id); }
    if step.Free? {
      RoundUp(p.agents[step.id].bytes, p.unit);
      EndInChunk(p.agents[step.id].start, p.agents[step.id].nbits, p.size, p.unit);
    }
  }

  /** Over any run, whoever else steps, the bits an allocation set and did not clear are the bits it came to hold. */
  lemma {:induction false} NetIsHolding(p: Pool, steps: seq<Step>, id: Id, x: nat)
    requires Inv(p) && IsRun(p, steps)
    ensures Net(p, steps, id, x) == B(Holding(Final(p, steps), id, x)) - B(Holding(p, id, x))
    decreases |steps|
  {
    if steps != [] {
      StepKeeps(p, steps[0]);
      NetIsHolding(Apply(p, steps[0]), steps[1..], id, x);
      if steps[0].id == id { OwnStepBits(p, steps[0], x); } else { OtherStep(p, steps[0], id); }
    }
  }

  lemma {:induction false} NetGainIsCharge(p: Pool, steps: seq<Step>, id: Id)
    requires Inv(p) && IsRun(p, steps)
    ensures NetGain(p, steps, id) == ChargeOf(p, id) - ChargeOf(Final(p, steps), id)
    decreases |steps|
  {
    if steps != [] {
      StepKeeps(p, steps[0]);
      NetGainIsCharge(Apply(p, steps[0]), steps[1..], id);
      if steps[0].id == id { OwnStepGain(p, steps[0]); } else { OtherStep(p, steps[0], id); }
    }
  }

  /**
   * From one search to the next, with any number of others stepping in between, an allocation has cleared each bit
   * exactly as often as it set it, and its charges and refunds cancel.
   */
  lemma FailedClaimRestores(p: Pool, steps: seq<Step>, id: Id)
    requires Inv(p) && IsRun(p, steps)
    requires id in p.agents && p.agents[id].phase.Searching?
    requires id in Final(p, steps).agents && Final(p, steps).agents[id].phase.Searching?
    ensures forall x: nat :: Net(p, steps, id, x) == 0
    ensures NetGain(p, steps, id) == 0
  {
    forall x: nat ensures Net(p, steps, id, x) == 0 { NetIsHolding(p, steps, id, x); }
    NetGainIsCharge(p, steps, id);
  }

  // ---- words are machine words

  /** Word boundaries are the multiples of the width. */
  lemma {:induction false} WordStartIsFloor(width: nat, x: nat)
    requires width > 0
    ensures WordStart(width, x) == x - x % width
    decreases x
  {
    if x < width {
      Split(x, 0, x, width);
    } else {
      WordStartIsFloor(width, x - width);
      RemainderDown(x, width);
    }
  }

  lemma RemainderDown(x: nat, w: nat)
    requires 0 < w <= x
    ensures (x - w) % w == x % w
  {
    Parts(x, w);
    assert (x / w - 1) * w == (x / w) * w - w;
    Split(x - w, x / w - 1, x % w, w);
  }
}
