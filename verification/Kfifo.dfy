/** Remainders of consecutive positions, for ring buffers whose indices wrap. */
module Ring {
  import opened Division

  /** Indices are unsigned 32-bit numbers. */
  const U32 := 0x1_0000_0000

  /** Adding at most n to a position moves its slot forward with at most one wrap. */
  lemma SlotForward(x: nat, k: nat, n: nat)
    requires n > 0 && k <= n
    ensures (x + k) % n == if x % n + k < n then x % n + k else x % n + k - n
  {
    var q, r := x / n, x % n;
    assert x == q * n + r;
    if r + k < n {
      Split(x + k, q, r + k, n);
    } else {
      assert (q + 1) * n == q * n + n;
      if r + k - n < n { Split(x + k, q + 1, r + k - n, n); }
    }
  }

  /** Positions less than n apart use different slots. */
  lemma SlotsDistinct(i: nat, j: nat, n: nat)
    requires n > 0 && i < j < i + n
    ensures i % n != j % n
  {
    SlotForward(i, j - i, n);
  }

  /** Reducing modulo a multiple first does not change the slot. */
  lemma SlotOfWrapped(x: nat, n: nat, c: nat)
    requires n > 0 && c > 0
    ensures (x % (c * n)) % n == x % n
  {
    var m := c * n;
    assert m > 0;
    var q, r := x / m, x % m;
    assert x == q * m + r;
    assert q * m == (q * c) * n by { assert q * (c * n) == (q * c) * n; }
    var q2, r2 := r / n, r % n;
    assert r == q2 * n + r2;
    assert x == (q * c + q2) * n + r2;
    Split(x, q * c + q2, r2, n);
  }

  /** Unsigned subtraction of wrapped counters gives their true distance. */
  lemma WrappedDistance(a: nat, b: nat)
    requires b <= a < b + U32
    ensures (a % U32 - b % U32) % U32 == a - b
    ensures a % U32 - b % U32 == a - b || a % U32 - b % U32 == a - b - U32
  {}

  lemma WrappedRoom(size: nat, used: nat, d: int)
    requires used <= size < U32 && (d == used || d == used - U32)
    ensures (size - d) % U32 == size - used
  {}

  lemma WrappedAdd(a: nat, k: nat)
    ensures (a % U32 + k) % U32 == (a + k) % U32
  {}
}

/** kfifo with one reader and one writer and no lock, at the granularity of single element copies. */
module Kfifo {
  import opened Bits
  import opened Ring

  datatype Writer<T> = WIdle | WCopying(src: seq<T>, k: nat)
  datatype Reader<T> = RIdle | RCopying(len: nat, dst: seq<T>)

  /** The shared fifo, the two parties' local state, and the history of what was written and read. */
  datatype State<T> = State(
    size: nat, data: seq<T>, inn: nat, out: nat,
    writer: Writer<T>, reader: Reader<T>,
    written: seq<T>, read: seq<T>)

  datatype Step<T> =
    | WriteStart(buf: seq<T>)
    | WriteElement
    | WriteCommit
    | ReadStart(want: nat)
    | ReadElement
    | ReadCommit
    | PeekDone

  function Min(a: nat, b: nat): nat { if a < b then a else b }

  function Unused<T>(s: State<T>): int { (s.size - (s.inn - s.out)) % U32 }

  function Used<T>(s: State<T>): int { (s.inn - s.out) % U32 }

  /** Target of the k-th element of a copy of len elements at index off: two runs, the second from slot 0. */
  function Slot(off: nat, k: nat, len: nat, size: nat): int
    requires size > 0
  {
    var o := off % size;
    var l := Min(len, size - o);
    if k < l then o + k else k - l
  }

  predicate Enabled<T>(s: State<T>, step: Step<T>) {
    match step
    case WriteStart(_) => s.writer.WIdle?
    case WriteElement => s.writer.WCopying? && s.writer.k < |s.writer.src| && s.size > 0
    case WriteCommit => s.writer.WCopying? && s.writer.k == |s.writer.src|
    case ReadStart(_) => s.reader.RIdle?
    case ReadElement => s.reader.RCopying? && |s.reader.dst| < s.reader.len && s.size > 0
    case ReadCommit => s.reader.RCopying? && |s.reader.dst| == s.reader.len
    case PeekDone => s.reader.RCopying? && |s.reader.dst| == s.reader.len
  }

  /** Where a copy step reads or writes. */
  function Touches<T>(s: State<T>, step: Step<T>): int
    requires Enabled(s, step) && (step.WriteElement? || step.ReadElement?)
  {
    if step.WriteElement? then Slot(s.inn, s.writer.k, |s.writer.src|, s.size)
    else Slot(s.out, |s.reader.dst|, s.reader.len, s.size)
  }

  /** The effect of one step; a copy outside the buffer would leave the state unchanged. */
  function Apply<T>(s: State<T>, step: Step<T>): State<T>
    requires Enabled(s, step)
  {
    match step
    case WriteStart(buf) =>
      var len := Min(|buf|, Unused(s));
      s.(writer := WCopying(buf[..len], 0))
    case WriteElement =>
      var slot := Touches(s, step);
      if 0 <= slot < |s.data| then
        s.(data := s.data[slot := s.writer.src[s.writer.k]], writer := s.writer.(k := s.writer.k + 1))
      else s
    case WriteCommit =>
      s.(inn := (s.inn + |s.writer.src|) % U32, written := s.written + s.writer.src, writer := WIdle)
    case ReadStart(want) =>
      s.(reader := RCopying(Min(want, Used(s)), []))
    case ReadElement =>
      var slot := Touches(s, step);
      if 0 <= slot < |s.data| then s.(reader := s.reader.(dst := s.reader.dst + [s.data[slot]])) else s
    case ReadCommit =>
      s.(out := (s.out + s.reader.len) % U32, read := s.read + s.reader.dst, reader := RIdle)
    case PeekDone =>
      s.(reader := RIdle)
  }

  // ---- the invariant

  ghost predicate Shape<T>(s: State<T>, e: nat) {
    && 1 <= e <= 31 && s.size == Shl(1, e) == |s.data|
    && s.inn == |s.written| % U32 && s.out == |s.read| % U32
    && |s.read| <= |s.written| <= |s.read| + s.size
    && s.read == s.written[..|s.read|]
  }

  /** Every element written and not yet read sits in its slot. */
  ghost predicate Stored<T>(s: State<T>)
    requires s.size > 0 && |s.data| == s.size && |s.read| <= |s.written|
  {
    forall p :: |s.read| <= p < |s.written| ==> s.data[p % s.size] == s.written[p]
  }

  ghost predicate WriterOk<T>(s: State<T>)
    requires s.size > 0 && |s.data| == s.size
  {
    s.writer.WCopying? ==>
      && s.writer.k <= |s.writer.src|
      && |s.written| + |s.writer.src| <= |s.read| + s.size
      && forall t :: 0 <= t < s.writer.k ==> s.data[(|s.written| + t) % s.size] == s.writer.src[t]
  }

  ghost predicate ReaderOk<T>(s: State<T>) {
    s.reader.RCopying? ==>
      && |s.reader.dst| <= s.reader.len
      && |s.read| + s.reader.len <= |s.written|
      && s.reader.dst == s.written[|s.read|..|s.read| + |s.reader.dst|]
  }

  ghost predicate Inv<T>(s: State<T>, e: nat) {
    Shape(s, e) && s.size > 0 && Stored(s) && WriterOk(s) && ReaderOk(s)
  }

  lemma PowerOfTwoDivides(e: nat)
    requires 1 <= e <= 31
    ensures Shl(1, e) > 0 && U32 == Shl(1, 32 - e) * Shl(1, e) && Shl(1, 32 - e) > 0 && Shl(1, e) <= 0x8000_0000
  {
    ShlGrows(1, e);
    ShlGrows(1, 32 - e);
    ShlShl(1, e, 32 - e);
    Shl32();
    ShlProduct(Shl(1, e), 32 - e);
    ShlShl(1, e, 31 - e);
    ShlGrows(Shl(1, e), 31 - e);
  }

  lemma {:induction false} ShlProduct(x: nat, k: nat)
    ensures Shl(x, k) == Shl(1, k) * x
  {
    if k > 0 { ShlProduct(x, k - 1); }
  }

  /** The slot of a copied element is its absolute position modulo the size, across index wraparound. */
  lemma SlotMeaning(pos: nat, k: nat, len: nat, e: nat)
    requires 1 <= e <= 31 && k < len <= Shl(1, e)
    ensures Shl(1, e) > 0 && Slot(pos % U32, k, len, Shl(1, e)) == (pos + k) % Shl(1, e)
  {
    var size, c := Shl(1, e), Shl(1, 32 - e);
    PowerOfTwoDivides(e);
    SlotOfWrapped(pos, size, c);
    SlotForward(pos, k, size);
  }

  /** The free space computed from wrapped indices is the true free space. */
  lemma Distances<T>(s: State<T>, e: nat)
    requires Inv(s, e)
    ensures Used(s) == |s.written| - |s.read| && Unused(s) == s.size - (|s.written| - |s.read|)
  {
    PowerOfTwoDivides(e);
    WrappedDistance(|s.written|, |s.read|);
    WrappedRoom(s.size, |s.written| - |s.read|, s.inn - s.out);
  }

  // ---- every step keeps it

  /** The writer only touches slots that hold no unread element. */
  lemma WriterSlotFree<T>(s: State<T>, e: nat, p: nat)
    requires Inv(s, e) && Enabled(s, WriteElement) && |s.read| <= p < |s.written|
    ensures 0 <= Touches(s, WriteElement) < s.size
    ensures Touches(s, WriteElement) == (|s.written| + s.writer.k) % s.size
    ensures Touches(s, WriteElement) != p % s.size
  {
    SlotMeaning(|s.written|, s.writer.k, |s.writer.src|, e);
    SlotsDistinct(p, |s.written| + s.writer.k, s.size);
  }

  lemma WriterSlot<T>(s: State<T>, e: nat)
    requires Inv(s, e) && Enabled(s, WriteElement)
    ensures 0 <= Touches(s, WriteElement) < s.size
    ensures Touches(s, WriteElement) == (|s.written| + s.writer.k) % s.size
  {
    SlotMeaning(|s.written|, s.writer.k, |s.writer.src|, e);
  }

  lemma WriteElementKeeps<T>(s: State<T>, e: nat)
    requires Inv(s, e) && Enabled(s, WriteElement)
    ensures Inv(Apply(s, WriteElement), e)
  {
    var s' := Apply(s, WriteElement);
    WriterSlot(s, e);
    forall p | |s.read| <= p < |s.written| ensures s'.data[p % s.size] == s.written[p] { WriterSlotFree(s, e, p); }
    var k := s.writer.k;
    forall t | 0 <= t < k + 1 ensures s'.data[(|s.written| + t) % s.size] == s.writer.src[t] {
      if t < k { SlotsDistinct(|s.written| + t, |s.written| + k, s.size); }
    }
  }

  lemma ReadElementKeeps<T>(s: State<T>, e: nat)
    requires Inv(s, e) && Enabled(s, ReadElement)
    ensures Inv(Apply(s, ReadElement), e)
    ensures Touches(s, ReadElement) == (|s.read| + |s.reader.dst|) % s.size
  {
    SlotMeaning(|s.read|, |s.reader.dst|, s.reader.len, e);
    var p := |s.read| + |s.reader.dst|;
    assert s.data[p % s.size] == s.written[p];
    assert s.written[|s.read|..p + 1] == s.written[|s.read|..p] + [s.written[p]];
  }

  lemma WriteCommitKeeps<T>(s: State<T>, e: nat)
    requires Inv(s, e) && Enabled(s, WriteCommit)
    ensures Inv(Apply(s, WriteCommit), e)
  {
    var s' := Apply(s, WriteCommit);
    WrappedAdd(|s.written|, |s.writer.src|);
    assert s'.written[..|s.read|] == s.written[..|s.read|];
    forall p | |s.read| <= p < |s'.written| ensures s'.data[p % s.size] == s'.written[p] {
      if p >= |s.written| {
        var t := p - |s.written|;
        assert s.data[(|s.written| + t) % s.size] == s.writer.src[t];
      }
    }
    if s.reader.RCopying? {
      var n := |s.read| + |s.reader.dst|;
      assert s'.written[|s.read|..n] == s.written[|s.read|..n];
    }
  }

  lemma ReadCommitKeeps<T>(s: State<T>, e: nat)
    requires Inv(s, e) && Enabled(s, ReadCommit)
    ensures Inv(Apply(s, ReadCommit), e)
  {
    var s' := Apply(s, ReadCommit);
    WrappedAdd(|s.read|, s.reader.len);
    assert s'.read == s.written[..|s.read|] + s.written[|s.read|..|s'.read|] == s.written[..|s'.read|];
  }

  lemma StepKeeps<T>(s: State<T>, e: nat, step: Step<T>)
    requires Inv(s, e) && Enabled(s, step)
    ensures Inv(Apply(s, step), e)
  {
    Distances(s, e);
    match step
    case WriteStart(_) =>
    case WriteElement => WriteElementKeeps(s, e);
    case WriteCommit => WriteCommitKeeps(s, e);
    case ReadStart(_) =>
    case ReadElement => ReadElementKeeps(s, e);
    case ReadCommit => ReadCommitKeeps(s, e);
    case PeekDone =>
  }

  // ---- runs

  /** __kfifo_alloc with a buffer of 2^e elements. */
  ghost predicate Init<T>(s: State<T>, e: nat) {
    && 1 <= e <= 31 && s.size == Shl(1, e) == |s.data|
    && s.inn == 0 && s.out == 0 && s.writer.WIdle? && s.reader.RIdle?
    && s.written == [] && s.read == []
  }

  /** An interleaving of the two parties' steps. */
  predicate IsRun<T>(s: State<T>, steps: seq<Step<T>>)
    decreases |steps|
  {
    steps == [] || (Enabled(s, steps[0]) && IsRun(Apply(s, steps[0]), steps[1..]))
  }

  function Final<T>(s: State<T>, steps: seq<Step<T>>): State<T>
    requires IsRun(s, steps)
    decreases |steps|
  {
    if steps == [] then s else Final(Apply(s, steps[0]), steps[1..])
  }

  lemma {:induction false} RunKeeps<T>(s: State<T>, e: nat, steps: seq<Step<T>>)
    requires Inv(s, e) && IsRun(s, steps)
    ensures Inv(Final(s, steps), e)
    decreases |steps|
  {
    if steps != [] {
      StepKeeps(s, e, steps[0]);
      RunKeeps(Apply(s, steps[0]), e, steps[1..]);
    }
  }

  /**
   * In every interleaving: what was read is a prefix of what was written, the fill level computed from the wrapped
   * indices is the true one and at most the capacity, and no copy leaves the buffer or overwrites an unread element.
   */
  lemma EveryInterleaving<T>(s0: State<T>, e: nat, steps: seq<Step<T>>)
    requires Init(s0, e) && IsRun(s0, steps)
    ensures
      var s := Final(s0, steps);
      && s.read <= s.written
      && Used(s) == |s.written| - |s.read| <= s.size
      && (Enabled(s, WriteElement) ==>
            0 <= Touches(s, WriteElement) < |s.data|
            && forall p :: |s.read| <= p < |s.written| ==> Touches(s, WriteElement) != p % s.size)
      && (Enabled(s, ReadElement) ==>
            0 <= Touches(s, ReadElement) < |s.data|
            && |s.read| + |s.reader.dst| < |s.written|
            && s.data[Touches(s, ReadElement)] == s.written[|s.read| + |s.reader.dst|])
  {
    PowerOfTwoDivides(e);
    RunKeeps(s0, e, steps);
    var s := Final(s0, steps);
    Distances(s, e);
    if Enabled(s, WriteElement) {
      WriterSlot(s, e);
      forall p | |s.read| <= p < |s.written| ensures Touches(s, WriteElement) != p % s.size { WriterSlotFree(s, e, p); }
    }
    if Enabled(s, ReadElement) { ReadElementKeeps(s, e); }
  }
}
