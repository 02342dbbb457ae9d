/** kfifo: what a whole call copies, whatever the other party does in between. */
module KfifoCalls {
  import opened Kfifo

  // ---- a put

  ghost predicate Writing<T>(s: State<T>, src: seq<T>, written: seq<T>) {
    s.writer.WCopying? && s.writer.src == src && s.written == written
  }

  /** While a put copies, nothing but its own commit changes what counts as written. */
  lemma {:induction false} WritingGoesOn<T>(s: State<T>, e: nat, steps: seq<Step<T>>, src: seq<T>, written: seq<T>)
    requires Inv(s, e) && IsRun(s, steps) && Writing(s, src, written)
    requires forall k :: 0 <= k < |steps| ==> steps[k] != WriteCommit
    ensures Writing(Final(s, steps), src, written)
    decreases |steps|
  {
    if steps != [] {
      assert steps[0] != WriteCommit;
      StepKeeps(s, e, steps[0]);
      WritingGoesOn(Apply(s, steps[0]), e, steps[1..], src, written);
    }
  }

  function Room<T>(s: State<T>): int { s.size - (|s.written| - |s.read|) }

  /**
   * A put of buf, with anything going on between its start and its commit, adds the first elements of buf: as many as
   * were asked for, or as many as there was room for at its start.
   */
  lemma PutCommits<T>(s: State<T>, e: nat, buf: seq<T>, steps: seq<Step<T>>)
    requires Inv(s, e) && s.writer.WIdle? && IsRun(Apply(s, WriteStart(buf)), steps)
    requires forall k :: 0 <= k < |steps| ==> steps[k] != WriteCommit
    requires Enabled(Final(Apply(s, WriteStart(buf)), steps), WriteCommit)
    ensures
      var s' := Apply(Final(Apply(s, WriteStart(buf)), steps), WriteCommit);
      && 0 <= Room(s) && s'.writer.WIdle?
      && s'.written == s.written + if |buf| <= Room(s) then buf else buf[..Room(s)]
  {
    Distances(s, e);
    StepKeeps(s, e, WriteStart(buf));
    WritingGoesOn(Apply(s, WriteStart(buf)), e, steps, buf[..Min(|buf|, Unused(s))], s.written);
    assert |buf| <= Room(s) ==> buf[..|buf|] == buf;
  }

  /** Left alone, a put gets to its commit. */
  lemma {:induction false} PutAlone<T>(s: State<T>, e: nat) returns (steps: seq<Step<T>>)
    requires Inv(s, e) && s.writer.WCopying?
    ensures IsRun(s, steps) && Enabled(Final(s, steps), WriteCommit)
    ensures forall k :: 0 <= k < |steps| ==> steps[k] == WriteElement
    decreases |s.writer.src| - s.writer.k
  {
    steps := [];
    if s.writer.k < |s.writer.src| {
      WriterSlot(s, e);
      StepKeeps(s, e, WriteElement);
      var rest := PutAlone(Apply(s, WriteElement), e);
      steps := [WriteElement] + rest;
      assert steps[1..] == rest;
    }
  }

  // ---- a get and a peek

  ghost predicate Reading<T>(s: State<T>, len: nat, read: seq<T>, whole: seq<T>) {
    s.reader.RCopying? && s.reader.len == len && s.read == read && whole <= s.written
  }

  /** While a get copies, nothing but its own end changes what counts as read, and what was written stays. */
  lemma {:induction false} ReadingGoesOn<T>(s: State<T>, e: nat, steps: seq<Step<T>>, len: nat, read: seq<T>,
      whole: seq<T>)
    requires Inv(s, e) && IsRun(s, steps) && Reading(s, len, read, whole)
    requires forall k :: 0 <= k < |steps| ==> steps[k] != ReadCommit && steps[k] != PeekDone
    ensures Reading(Final(s, steps), len, read, whole) && Inv(Final(s, steps), e)
    decreases |steps|
  {
    if steps != [] {
      assert steps[0] != ReadCommit && steps[0] != PeekDone;
      StepKeeps(s, e, steps[0]);
      ReadingGoesOn(Apply(s, steps[0]), e, steps[1..], len, read, whole);
    }
  }

  /** How much of want is there. */
  function Available<T>(s: State<T>, want: nat): int {
    if want <= |s.written| - |s.read| then want else |s.written| - |s.read|
  }

  /**
   * A get or a peek of want elements, with anything going on in between, copies the oldest ones that were there at its
   * start, as many as asked for or as there were. A get takes them out, a peek takes out none.
   */
  lemma GetReturns<T>(s: State<T>, e: nat, want: nat, steps: seq<Step<T>>)
    requires Inv(s, e) && s.reader.RIdle? && IsRun(Apply(s, ReadStart(want)), steps)
    requires forall k :: 0 <= k < |steps| ==> steps[k] != ReadCommit && steps[k] != PeekDone
    requires Enabled(Final(Apply(s, ReadStart(want)), steps), ReadCommit)
    ensures
      var t := Final(Apply(s, ReadStart(want)), steps);
      var taken, peeked := Apply(t, ReadCommit), Apply(t, PeekDone);
      && |s.read| <= |s.read| + Available(s, want) <= |s.written|
      && t.reader.dst == s.written[|s.read|..|s.read| + Available(s, want)]
      && taken.reader.RIdle? && taken.read == s.read + t.reader.dst
      && peeked == t.(reader := RIdle) && peeked.read == s.read
  {
    Distances(s, e);
    StepKeeps(s, e, ReadStart(want));
    ReadingGoesOn(Apply(s, ReadStart(want)), e, steps, Min(want, Used(s)), s.read, s.written);
  }

  /** Left alone, a get comes to its end. */
  lemma {:induction false} GetAlone<T>(s: State<T>, e: nat) returns (steps: seq<Step<T>>)
    requires Inv(s, e) && s.reader.RCopying?
    ensures IsRun(s, steps) && Enabled(Final(s, steps), ReadCommit)
    ensures forall k :: 0 <= k < |steps| ==> steps[k] == ReadElement
    decreases s.reader.len - |s.reader.dst|
  {
    steps := [];
    if |s.reader.dst| < s.reader.len {
      ReadElementKeeps(s, e);
      SlotMeaning(|s.read|, |s.reader.dst|, s.reader.len, e);
      var rest := GetAlone(Apply(s, ReadElement), e);
      steps := [ReadElement] + rest;
      assert steps[1..] == rest;
    }
  }
}
