/** Run lengths of bzip2: numbers in bijective base two, least digit first, RUNA for one and RUNB for two. */
module RunSymbols {
  import opened Bits

  const RUNB: nat := 1

  ghost predicate AreDigits(digits: seq<nat>) {
    forall i :: 0 <= i < |digits| ==> digits[i] <= RUNB
  }

  function Value(digits: seq<nat>): nat {
    if digits == [] then 0 else 1 + digits[0] + 2 * Value(digits[1..])
  }

  function Digits(n: nat): (digits: seq<nat>)
    ensures AreDigits(digits) && (digits == [] <==> n == 0)
  {
    if n == 0 then [] else [(n - 1) % 2] + Digits((n - 1) / 2)
  }

  lemma {:induction false} ValueOfDigits(n: nat)
    ensures Value(Digits(n)) == n
  {
    if n > 0 { ValueOfDigits((n - 1) / 2); }
  }

  lemma {:induction false} DigitsOfValue(digits: seq<nat>)
    requires AreDigits(digits)
    ensures Digits(Value(digits)) == digits
  {
    if digits != [] {
      DigitsOfValue(digits[1..]);
      assert digits == [digits[0]] + digits[1..];
    }
  }

  /** What the counter adds for one more symbol: its position, doubled for RUNB. */
  lemma {:induction false} ValueSnoc(digits: seq<nat>, d: nat)
    requires d <= RUNB
    ensures Value(digits + [d]) == Value(digits) + Shl(Shl(1, |digits|), d)
    ensures Value(digits + [d]) > Value(digits)
  {
    if digits == [] {
      assert [d] + [] == [d];
    } else {
      ValueSnoc(digits[1..], d);
      assert (digits + [d])[1..] == digits[1..] + [d];
      if d == 1 { ShlOne(Shl(1, |digits|)); ShlOne(Shl(1, |digits| - 1)); }
    }
  }
}

/** The symbol stage of bzip2: move-to-front positions and runs of the front byte. */
module MoveToFront {
  import opened Bytes
  import opened ByteStrings
  import opened RunLength
  import opened RunSymbols
  import opened Sequences

  /** Symbols above symTotal end the block; the block has room for size bytes; counters go up to top. */
  datatype Bounds = Bounds(symTotal: nat, size: nat, top: nat)

  /** A block and the symbols after it; a stream that does not fit, has no end, or overruns the counter. */
  datatype Outcome = Unpacked(bytes: Str, rest: seq<nat>) | Misfit | Endless | TooLong

  function ToFront(front: Str, i: nat): (r: Str)
    requires i < |front|
    ensures |r| == |front| && r[0] == front[i]
  {
    [front[i]] + front[..i] + front[i + 1..]
  }

  /** What the symbols stand for, given the bytes so far and the run symbols not yet written out. */
  function Unpack(b: Bounds, front: Str, run: seq<nat>, out: Str, symbols: seq<nat>): Outcome
    requires front != [] && b.symTotal <= |front|
    decreases |symbols|
  {
    if symbols == [] then Endless
    else if symbols[0] <= RUNB then
      var more := run + [symbols[0]];
      if Value(more) > b.top then TooLong else Unpack(b, front, more, out, symbols[1..])
    else if run != [] && |out| + Value(run) > b.top then TooLong
    else if run != [] && |out| + Value(run) >= b.size then Misfit
    else AfterRun(b, front, out + Copies(front[0], Value(run)), symbols)
  }

  /** The symbol that ends a run: the end of the block, or a position in the table. */
  function AfterRun(b: Bounds, front: Str, out: Str, symbols: seq<nat>): Outcome
    requires front != [] && b.symTotal <= |front| && symbols != [] && symbols[0] > RUNB
    decreases |symbols|, 0
  {
    var i := symbols[0] - 1;
    if i >= b.symTotal then Unpacked(out, symbols[1..])
    else if |out| >= b.size then Misfit
    else Unpack(b, ToFront(front, i), [], out + [front[i]], symbols[1..])
  }

  // ---- the reference encoder

  ghost predicate Known(b: Bounds, front: Str, l: Str) {
    front != [] && b.symTotal <= |front| && forall k :: 0 <= k < |l| ==> l[k] in front[..b.symTotal]
  }

  function Place(front: Str, c: Byte): (i: nat)
    requires c in front
    ensures i < |front| && front[i] == c && c !in front[..i]
  {
    if front[0] == c then 0 else 1 + Place(front[1..], c)
  }

  lemma ToFrontKnows(front: Str, i: nat, n: nat)
    requires i < n <= |front|
    ensures forall c :: c in front[..n] <==> c in ToFront(front, i)[..n]
  {
    var r := ToFront(front, i);
    forall c | c in front[..n] ensures c in r[..n] {
      var k :| 0 <= k < n && front[k] == c;
      assert r[if k < i then k + 1 else if k == i then 0 else k] == c;
    }
    forall c | c in r[..n] ensures c in front[..n] {
      var k :| 0 <= k < n && r[k] == c;
      assert front[if k == 0 then i else if k <= i then k - 1 else k] == c;
    }
  }

  /** Symbols of l: the leading run of the front byte, then the position of the next byte, and so on to the end. */
  ghost function Pack(b: Bounds, front: Str, l: Str): seq<nat>
    requires Known(b, front, l)
    decreases |l|
  {
    var n := Run(l, front[0], |l|);
    if n == |l| then Digits(n) + [b.symTotal + 1]
    else
      var i := Place(front[..b.symTotal], l[n]);
      ToFrontKnows(front, i, b.symTotal);
      Digits(n) + [i + 1] + Pack(b, ToFront(front, i), l[n + 1..])
  }

  // ---- every block is read back exactly when it fits

  lemma {:induction false} ValuePrefix(run: seq<nat>, digits: seq<nat>)
    requires AreDigits(digits)
    ensures Value(run + digits) >= Value(run)
    decreases |digits|
  {
    if digits == [] {
      assert run + [] == run;
    } else {
      var p, d := digits[..|digits| - 1], digits[|digits| - 1];
      ValuePrefix(run, p);
      ValueSnoc(run + p, d);
      assert run + digits == run + p + [d];
    }
  }

  /** Run symbols are collected until the counter overruns. */
  lemma {:induction false} UnpackDigits(b: Bounds, front: Str, run: seq<nat>, out: Str, digits: seq<nat>,
      more: seq<nat>)
    requires front != [] && b.symTotal <= |front| && AreDigits(digits) && Value(run) <= b.top
    ensures Value(run + digits) <= b.top ==>
              Unpack(b, front, run, out, digits + more) == Unpack(b, front, run + digits, out, more)
    ensures Value(run + digits) > b.top ==> Unpack(b, front, run, out, digits + more) == TooLong
    decreases |digits|
  {
    if digits == [] {
      assert run + [] == run && [] + more == more;
    } else {
      var d, rest := digits[0], digits[1..];
      assert digits + more == [d] + (rest + more);
      assert run + digits == run + [d] + rest;
      ValuePrefix(run + [d], rest);
      if Value(run + [d]) <= b.top { UnpackDigits(b, front, run + [d], out, rest, more); }
    }
  }

  /** The last byte belongs to a run: it repeats the byte before it, or the front of the table. */
  ghost predicate EndsInRun(front: Str, l: Str)
    requires front != []
  {
    l != [] && l[|l| - 1] == if |l| == 1 then front[0] else l[|l| - 2]
  }

  /** After n bytes there is room for l; a run may not fill the last place. */
  ghost predicate Room(b: Bounds, front: Str, n: nat, l: Str)
    requires front != []
  {
    n + |l| < b.size || (n + |l| == b.size && !EndsInRun(front, l))
  }

  lemma UnpackRun(b: Bounds, front: Str, run: seq<nat>, out: Str, digits: seq<nat>, more: seq<nat>)
    requires front != [] && b.symTotal <= |front| && more != [] && more[0] > RUNB && b.size <= b.top
    requires run == [] && AreDigits(digits)
    ensures
      var r := Unpack(b, front, run, out, digits + more);
      if digits != [] && |out| + Value(digits) >= b.size then r.Misfit? || r.TooLong?
      else r == AfterRun(b, front, out + Copies(front[0], Value(digits)), more)
  {
    assert run + digits == digits;
    UnpackDigits(b, front, run, out, digits, more);
  }

  /** One round: a run, then a symbol that is not a run symbol. */
  lemma UnpackRound(b: Bounds, front: Str, out: Str, n: nat, more: seq<nat>)
    requires front != [] && b.symTotal <= |front| && more != [] && more[0] > RUNB && b.size <= b.top
    ensures
      var r := Unpack(b, front, [], out, Digits(n) + more);
      if n > 0 && |out| + n >= b.size then r.Misfit? || r.TooLong?
      else r == AfterRun(b, front, out + Copies(front[0], n), more)
  {
    ValueOfDigits(n);
    UnpackRun(b, front, [], out, Digits(n), more);
  }

  /** A literal after a run of n: the run ends where the front byte stops repeating. */
  ghost predicate Cut(front: Str, l: Str, n: nat, rest: Str)
    requires front != []
  {
    n < |l| && l == Copies(front[0], n) + [l[n]] + rest && l[n] != front[0]
  }

  lemma RoomAfterCut(b: Bounds, front: Str, next: Str, taken: nat, l: Str, n: nat, rest: Str)
    requires front != [] && next != [] && Cut(front, l, n, rest) && next[0] == l[n]
    ensures Room(b, front, taken, l) <==> taken + n < b.size && Room(b, next, taken + n + 1, rest)
  {
    if rest != [] {
      assert l[|l| - 1] == rest[|rest| - 1];
      assert |rest| > 1 ==> l[|l| - 2] == rest[|rest| - 2];
    } else if n > 0 {
      assert l[n - 1] == front[0];
    }
  }

  /** A run and a literal are read as such. */
  lemma UnpackLiteral(b: Bounds, front: Str, out: Str, n: nat, i: nat, more: seq<nat>)
    requires front != [] && 0 < i < b.symTotal <= |front| && b.size <= b.top
    ensures
      var r := Unpack(b, front, [], out, Digits(n) + ([i + 1] + more));
      if |out| + n >= b.size then r.Misfit? || r.TooLong?
      else r == Unpack(b, ToFront(front, i), [], out + Copies(front[0], n) + [front[i]], more)
  {
    UnpackRound(b, front, out, n, [i + 1] + more);
    assert ([i + 1] + more)[1..] == more;
  }

  lemma UnpackEnd(b: Bounds, front: Str, out: Str, n: nat, more: seq<nat>)
    requires front != [] && 0 < b.symTotal <= |front| && b.size <= b.top
    ensures
      var r := Unpack(b, front, [], out, Digits(n) + ([b.symTotal + 1] + more));
      if n > 0 && |out| + n >= b.size then r.Misfit? || r.TooLong? else r == Unpacked(out + Copies(front[0], n), more)
  {
    UnpackRound(b, front, out, n, [b.symTotal + 1] + more);
    assert ([b.symTotal + 1] + more)[1..] == more;
  }

  lemma RoomForRun(b: Bounds, front: Str, taken: nat, n: nat)
    requires front != [] && taken <= b.size
    ensures Room(b, front, taken, Copies(front[0], n)) <==> n == 0 || taken + n < b.size
  {}

  /** A block that is not all one run: the run, a literal, and the symbols of the rest. */
  lemma PackShape(b: Bounds, front: Str, l: Str, n: nat, tail: seq<nat>)
    requires Known(b, front, l) && 0 < b.symTotal && n == Run(l, front[0], |l|) < |l|
    ensures
      var i, rest := Place(front[..b.symTotal], l[n]), l[n + 1..];
      && 0 < i && Cut(front, l, n, rest) && Known(b, ToFront(front, i), rest)
      && Pack(b, front, l) + tail == Digits(n) + ([i + 1] + (Pack(b, ToFront(front, i), rest) + tail))
  {
    var i := Place(front[..b.symTotal], l[n]);
    ToFrontKnows(front, i, b.symTotal);
    assert front[..b.symTotal][0] == front[0];
  }

  /** What reading the symbols of l must lead to. */
  ghost predicate Answers(b: Bounds, front: Str, out: Str, l: Str, tail: seq<nat>, r: Outcome)
    requires front != []
  {
    if Room(b, front, |out|, l) then r == Unpacked(out + l, tail) else r.Misfit? || r.TooLong?
  }

  lemma AnswersAfterCut(b: Bounds, front: Str, next: Str, out: Str, l: Str, n: nat, rest: Str, tail: seq<nat>,
      r: Outcome)
    requires front != [] && next != [] && Cut(front, l, n, rest) && next[0] == l[n]
    requires if |out| + n >= b.size then r.Misfit? || r.TooLong?
             else Answers(b, next, out + Copies(front[0], n) + [l[n]], rest, tail, r)
    ensures Answers(b, front, out, l, tail, r)
  {
    RoomAfterCut(b, front, next, |out|, l, n, rest);
    assert out + Copies(front[0], n) + [l[n]] + rest == out + l;
  }

  /**
   * Every block over the alphabet is read back from its symbols exactly when it fits: when it is shorter than the
   * buffer, or just as long and does not end in a run.
   */
  lemma {:induction false} PackUnpack(b: Bounds, front: Str, out: Str, l: Str, tail: seq<nat>)
    requires Known(b, front, l) && 0 < b.symTotal && |out| <= b.size <= b.top
    ensures Answers(b, front, out, l, tail, Unpack(b, front, [], out, Pack(b, front, l) + tail))
    decreases |l|
  {
    var n := Run(l, front[0], |l|);
    if n == |l| {
      assert Pack(b, front, l) + tail == Digits(n) + ([b.symTotal + 1] + tail);
      UnpackEnd(b, front, out, n, tail);
      RoomForRun(b, front, |out|, n);
      assert l == Copies(front[0], n);
    } else {
      var i, rest := Place(front[..b.symTotal], l[n]), l[n + 1..];
      var next := ToFront(front, i);
      PackShape(b, front, l, n, tail);
      UnpackLiteral(b, front, out, n, i, Pack(b, next, rest) + tail);
      if |out| + n < b.size { PackUnpack(b, next, out + Copies(front[0], n) + [front[i]], rest, tail); }
      AnswersAfterCut(b, front, next, out, l, n, rest, tail,
                      Unpack(b, front, [], out, Digits(n) + ([i + 1] + (Pack(b, next, rest) + tail))));
    }
  }

  /** A run that fills the buffer to the last byte is refused, although it fits. */
  lemma FullRunRefused(b: Bounds, front: Str)
    requires front != [] && 0 < b.symTotal <= |front| && 0 < b.size <= b.top
    ensures
      var l := Copies(front[0], b.size);
      && Known(b, front, l) && |l| == b.size
      && !Unpack(b, front, [], [], Pack(b, front, l)).Unpacked?
  {
    var l := Copies(front[0], b.size);
    assert front[..b.symTotal][0] == front[0];
    assert Pack(b, front, l) + [] == Pack(b, front, l);
    PackUnpack(b, front, [], l, []);
  }

  // ---- and every stream that is read is the only one for its block

  lemma ToFrontApart(front: Str, i: nat, n: nat)
    requires i < n <= |front| && Distinct(front[..n])
    ensures Distinct(ToFront(front, i)[..n])
  {
    var r := ToFront(front, i);
    assert forall k :: 0 < k <= i ==> r[k] == front[..n][k - 1];
    assert forall k :: i < k < n ==> r[k] == front[..n][k];
    assert r[0] == front[..n][i];
  }

  lemma RunOfCopies(c: Byte, n: nat, l: Str)
    requires n <= |l| && l[..n] == Copies(c, n) && (n < |l| ==> l[n] != c)
    ensures Run(l, c, |l|) == n
  {
    var k := Run(l, c, |l|);
    assert forall j :: 0 <= j < k ==> l[j] == l[..k][j];
    assert forall j :: 0 <= j < n ==> l[j] == l[..n][j];
  }

  /** The symbols of a run and a literal before the rest of a block. */
  lemma PackCons(b: Bounds, front: Str, digits: seq<nat>, i: nat, rest: Str)
    requires front != [] && 0 < i < b.symTotal <= |front| && Distinct(front[..b.symTotal]) && AreDigits(digits)
    requires Known(b, ToFront(front, i), rest)
    ensures
      var l := Copies(front[0], Value(digits)) + [front[i]] + rest;
      Known(b, front, l) && Pack(b, front, l) == digits + [i + 1] + Pack(b, ToFront(front, i), rest)
  {
    var n, known := Value(digits), front[..b.symTotal];
    var l := Copies(front[0], n) + [front[i]] + rest;
    ToFrontKnows(front, i, b.symTotal);
    assert known[0] == front[0] && known[i] == front[i];
    DigitsOfValue(digits);
    RunOfCopies(front[0], n, l);
    assert Place(known, front[i]) == i;
    assert l[n + 1..] == rest;
  }

  lemma PackRun(b: Bounds, front: Str, digits: seq<nat>)
    requires front != [] && 0 < b.symTotal <= |front| && AreDigits(digits)
    ensures
      var l := Copies(front[0], Value(digits));
      Known(b, front, l) && Pack(b, front, l) == digits + [b.symTotal + 1]
  {
    var l := Copies(front[0], Value(digits));
    assert front[..b.symTotal][0] == front[0];
    DigitsOfValue(digits);
    RunOfCopies(front[0], Value(digits), l);
  }

  /** The outcome is l after out, and the symbols read, after the run so far, are those of l. */
  ghost predicate Reads(b: Bounds, front: Str, run: seq<nat>, out: Str, symbols: seq<nat>, r: Outcome, l: Str,
      body: seq<nat>, end: nat)
  {
    && r.Unpacked? && r.bytes == out + l
    && symbols == body + [end] + r.rest && end > b.symTotal
    && Known(b, front, l) && Pack(b, front, l) == run + body + [b.symTotal + 1]
  }

  lemma Regroup<T>(a: seq<T>, b: seq<T>, c: seq<T>)
    ensures a + (b + c) == a + b + c && (a == [] ==> a + b == b)
  {}

  lemma ReadsDigit(b: Bounds, front: Str, run: seq<nat>, out: Str, s: nat, more: seq<nat>, r: Outcome, l: Str,
      body: seq<nat>, end: nat)
    requires Reads(b, front, run + [s], out, more, r, l, body, end)
    ensures Reads(b, front, run, out, [s] + more, r, l, [s] + body, end)
  {
    assert run + [s] + body == run + ([s] + body);
  }

  lemma ReadsLiteral(b: Bounds, front: Str, run: seq<nat>, out: Str, i: nat, more: seq<nat>, r: Outcome, l: Str,
      body: seq<nat>, end: nat)
    requires front != [] && 0 < i < b.symTotal <= |front| && Distinct(front[..b.symTotal]) && AreDigits(run)
    requires Reads(b, ToFront(front, i), [], out + Copies(front[0], Value(run)) + [front[i]], more, r, l, body, end)
    ensures Reads(b, front, run, out, [i + 1] + more, r,
                  Copies(front[0], Value(run)) + [front[i]] + l, [i + 1] + body, end)
  {
    PackCons(b, front, run, i, l);
    Regroup([], body, [b.symTotal + 1]);
    Regroup(run + [i + 1], body, [b.symTotal + 1]);
    Regroup(run, [i + 1], body);
    Regroup([i + 1], body + [end], r.rest);
    Regroup([i + 1], body, [end]);
    Regroup(out, Copies(front[0], Value(run)) + [front[i]], l);
    Regroup(out, Copies(front[0], Value(run)), [front[i]]);
  }

  lemma ReadsEnd(b: Bounds, front: Str, run: seq<nat>, out: Str, end: nat, more: seq<nat>)
    requires front != [] && 0 < b.symTotal <= |front| && AreDigits(run) && end > b.symTotal
    ensures Reads(b, front, run, out, [end] + more, Unpacked(out + Copies(front[0], Value(run)), more),
                  Copies(front[0], Value(run)), [], end)
  {
    PackRun(b, front, run);
    assert run + [] == run;
  }

  /** What the first symbol of a stream that leads to a block does. */
  lemma FirstSymbol(b: Bounds, front: Str, run: seq<nat>, out: Str, symbols: seq<nat>)
    requires front != [] && b.symTotal <= |front| && Unpack(b, front, run, out, symbols).Unpacked?
    ensures
      && symbols != []
      && var r, s, more, all := Unpack(b, front, run, out, symbols), symbols[0], symbols[1..],
           out + Copies(front[0], Value(run));
      if s <= RUNB then r == Unpack(b, front, run + [s], out, more)
      else if s > b.symTotal then r == Unpacked(all, more)
      else r == Unpack(b, ToFront(front, s - 1), [], all + [front[s - 1]], more)
  {}

  lemma {:induction false} UnpackPackRun(b: Bounds, front: Str, run: seq<nat>, out: Str, s: nat, more: seq<nat>,
      r: Outcome)
    returns (l: Str, body: seq<nat>, end: nat)
    requires front != [] && 0 < b.symTotal <= |front| && Distinct(front[..b.symTotal]) && AreDigits(run) && s <= RUNB
    requires r == Unpack(b, front, run + [s], out, more) && r.Unpacked?
    ensures Reads(b, front, run, out, [s] + more, r, l, body, end)
    decreases |more|, 1
  {
    l, body, end := UnpackPack(b, front, run + [s], out, more, r);
    ReadsDigit(b, front, run, out, s, more, r, l, body, end);
    body := [s] + body;
  }

  lemma {:induction false} UnpackPackLiteral(b: Bounds, front: Str, run: seq<nat>, out: Str, i: nat, more: seq<nat>,
      r: Outcome)
    returns (l: Str, body: seq<nat>, end: nat)
    requires front != [] && 0 < i < b.symTotal <= |front| && Distinct(front[..b.symTotal]) && AreDigits(run)
    requires r == Unpack(b, ToFront(front, i), [], out + Copies(front[0], Value(run)) + [front[i]], more) && r.Unpacked?
    ensures Reads(b, front, run, out, [i + 1] + more, r, l, body, end)
    decreases |more|, 1
  {
    var copies := Copies(front[0], Value(run));
    ToFrontApart(front, i, b.symTotal);
    l, body, end := UnpackPack(b, ToFront(front, i), [], out + copies + [front[i]], more, r);
    ReadsLiteral(b, front, run, out, i, more, r, l, body, end);
    l, body := copies + [front[i]] + l, [i + 1] + body;
  }

  /** A stream that leads to a block is, up to the end symbol, the stream of that block and of no other. */
  lemma {:induction false} UnpackPack(b: Bounds, front: Str, run: seq<nat>, out: Str, symbols: seq<nat>, r: Outcome)
    returns (l: Str, body: seq<nat>, end: nat)
    requires front != [] && 0 < b.symTotal <= |front| && Distinct(front[..b.symTotal]) && AreDigits(run)
    requires r == Unpack(b, front, run, out, symbols) && r.Unpacked?
    ensures Reads(b, front, run, out, symbols, r, l, body, end)
    decreases |symbols|, 0
  {
    FirstSymbol(b, front, run, out, symbols);
    var s, more := symbols[0], symbols[1..];
    assert symbols == [s] + more;
    if s <= RUNB {
      l, body, end := UnpackPackRun(b, front, run, out, s, more, r);
    } else if s > b.symTotal {
      ReadsEnd(b, front, run, out, s, more);
      l, body, end := Copies(front[0], Value(run)), [], s;
    } else {
      l, body, end := UnpackPackLiteral(b, front, run, out, s - 1, more, r);
    }
  }

  // ---- a wider counter would not help

  /** A run that is too long for the block stays so. */
  lemma {:induction false} LongRunFails(b: Bounds, front: Str, run: seq<nat>, out: Str, symbols: seq<nat>)
    requires front != [] && b.symTotal <= |front| && run != [] && |out| + Value(run) >= b.size
    ensures !Unpack(b, front, run, out, symbols).Unpacked?
    decreases |symbols|
  {
    if symbols != [] && symbols[0] <= RUNB {
      ValueSnoc(run, symbols[0]);
      LongRunFails(b, front, run + [symbols[0]], out, symbols[1..]);
    }
  }

  /** A stream that overruns the counter is not the stream of any block that fits, however wide the counter. */
  lemma {:induction false} WiderCounter(b: Bounds, wide: nat, front: Str, run: seq<nat>, out: Str, symbols: seq<nat>)
    requires front != [] && b.symTotal <= |front| && b.size <= b.top <= wide
    ensures
      var r, w := Unpack(b, front, run, out, symbols), Unpack(b.(top := wide), front, run, out, symbols);
      if r.TooLong? then !w.Unpacked? else w == r
    decreases |symbols|
  {
    if symbols != [] {
      var s, more, w := symbols[0], symbols[1..], b.(top := wide);
      if s <= RUNB {
        if Value(run + [s]) > b.top { LongRunFails(w, front, run + [s], out, more); }
        WiderCounter(b, wide, front, run + [s], out, more);
      } else if run != [] && |out| + Value(run) > b.top {
        LongRunFails(w, front, run, out, symbols);
      } else if s <= b.symTotal {
        WiderCounter(b, wide, ToFront(front, s - 1), [], out + Copies(front[0], Value(run)) + [front[s - 1]], more);
      }
    }
  }
}

/** The loop of get_next_block over the decoded symbols. */
module SymbolStage {
  import opened Bytes
  import opened Bits
  import opened ByteStrings
  import opened CountingSort
  import opened RunLength
  import opened RunSymbols
  import opened MoveToFront

  datatype Status = Ok | DataError | Truncated | Overflow

  lemma CountOfCopies(l: Str, uc: Byte, t: nat, c: Byte)
    ensures CountOf(l + Copies(uc, t), c) == CountOf(l, c) + if c == uc then t else 0
  {
    CopiesCount(uc, t);
  }

  lemma {:induction false} CopiesCount(uc: Byte, t: nat)
    ensures multiset(Copies(uc, t)) == multiset{}[uc := t]
  {
    if t > 0 {
      CopiesCount(uc, t - 1);
      assert Copies(uc, t) == Copies(uc, t - 1) + [uc];
    }
  }

  /** How the loop over the symbols reports what they stand for. */
  ghost predicate Meets(status: Status, l: Str, r: Outcome) {
    match status
    case Ok => r.Unpacked? && r.bytes == l
    case DataError => r.Misfit?
    case Truncated => r.Endless?
    case Overflow => r.TooLong?
  }

  /** The run counter: its position, 0 outside a run, and the length so far. */
  ghost predicate Running(runPos: nat, t: nat, run: seq<nat>) {
    runPos == (if run == [] then 0 else Shl(1, |run|)) && t == Value(run)
  }

  /** Whether a run of these symbols can be written out after n bytes. */
  ghost function Flushed(b: Bounds, run: seq<nat>, n: nat): Status {
    if run != [] && n + Value(run) > b.top then Overflow
    else if run != [] && n + Value(run) >= b.size then DataError
    else Ok
  }

  /** The run not yet written out, the table of bytes, and the bytes decoded. */
  datatype Sofar = Sofar(run: seq<nat>, front: Str, bytes: Str)

  lemma DigitStep(b: Bounds, front: Str, run: seq<nat>, out: Str, symbols: seq<nat>, k: nat)
    requires front != [] && b.symTotal <= |front| && k < |symbols| && symbols[k] <= RUNB
    ensures
      Unpack(b, front, run, out, symbols[k..])
      == if Value(run + [symbols[k]]) > b.top then TooLong
         else Unpack(b, front, run + [symbols[k]], out, symbols[k + 1..])
  {
    assert symbols[k..][1..] == symbols[k + 1..];
  }

  lemma SymbolStep(b: Bounds, front: Str, run: seq<nat>, out: Str, symbols: seq<nat>, k: nat)
    requires front != [] && b.symTotal <= |front| && k < |symbols| && symbols[k] > RUNB
    ensures
      var r, all, i := Unpack(b, front, run, out, symbols[k..]), out + Copies(front[0], Value(run)), symbols[k] - 1;
      match Flushed(b, run, |out|)
      case Overflow => r == TooLong
      case DataError => r == Misfit
      case _ =>
        r == if i >= b.symTotal then Unpacked(all, symbols[k + 1..])
             else if |all| >= b.size then Misfit
             else Unpack(b, ToFront(front, i), [], all + [front[i]], symbols[k + 1..])
  {
    assert symbols[k..][1..] == symbols[k + 1..];
  }

  /** The tables of a block, and the buffer and counts it is decoded into. */
  class SymbolReader {
    const dbuf: array<Word>
    const byteCount: array<nat>
    const symToByte: array<Byte>
    const mtfSymbol: array<Byte>

    constructor (dbuf: array<Word>, byteCount: array<nat>)
      requires byteCount.Length == 256
      ensures this.dbuf == dbuf && this.byteCount == byteCount && Tables()
      ensures fresh(symToByte) && fresh(mtfSymbol)
    {
      this.dbuf, this.byteCount := dbuf, byteCount;
      symToByte, mtfSymbol := new Byte[256](_ => 0), new Byte[256](_ => 0);
    }

    ghost predicate Tables() {
      symToByte.Length == 256 && mtfSymbol.Length == 256 && byteCount.Length == 256 && symToByte != mtfSymbol
    }

    /** front is what the table of positions stands for now. */
    ghost predicate IsFront(front: Str)
      requires Tables()
      reads symToByte, mtfSymbol
    {
      |front| == 256 && forall i :: 0 <= i < 256 ==> front[i] == symToByte[mtfSymbol[i]]
    }

    /** The bytes decoded so far are in dbuf, and counted. */
    ghost predicate Holding(l: Str)
      requires byteCount.Length == 256
      reads dbuf, byteCount
    {
      && |l| <= dbuf.Length && (forall x :: 0 <= x < |l| ==> dbuf[x] as int == l[x])
      && forall c {:trigger byteCount[c]} :: 0 <= c < 256 ==> byteCount[c] == CountOf(l, c)
    }

    method ResetSymbols()
      requires Tables()
      modifies mtfSymbol, byteCount
      ensures IsFront(symToByte[..]) && Holding([])
    {
      for i := 0 to 256
        invariant forall k {:trigger byteCount[k]} :: 0 <= k < i ==> byteCount[k] == 0
        invariant forall k {:trigger mtfSymbol[k]} :: 0 <= k < i ==> mtfSymbol[k] == k
      {
        byteCount[i], mtfSymbol[i] := 0, i;
      }
    }

    /** Take the entry at position i to the front, the ones before it one place back. */
    method MoveFront(i: nat, ghost front: Str) returns (uc: Byte)
      requires Tables() && 0 < i < 256 && IsFront(front)
      modifies mtfSymbol
      ensures IsFront(ToFront(front, i)) && uc == front[i]
    {
      uc := mtfSymbol[i];
      ghost var before := mtfSymbol[..];
      var k := i;
      while k > 0
        invariant k <= i
        invariant forall j :: 0 <= j < 256 ==> mtfSymbol[j] == before[if k < j <= i then j - 1 else j]
      {
        mtfSymbol[k] := mtfSymbol[k - 1];
        k := k - 1;
      }
      mtfSymbol[0] := uc;
      uc := symToByte[uc];
    }

    /** t copies of the front byte go into dbuf and are counted. */
    method WriteRun(t: nat, dbufCount: nat, ghost front: Str, ghost l: Str) returns (count: nat)
      requires Tables() && IsFront(front) && Holding(l) && dbufCount == |l| && |l| + t < dbuf.Length
      modifies dbuf, byteCount
      ensures Holding(l + Copies(front[0], t)) && count == dbufCount + t
    {
      var uc := symToByte[mtfSymbol[0]];
      byteCount[uc] := byteCount[uc] + t;
      count := dbufCount;
      while count < dbufCount + t
        modifies dbuf
        invariant dbufCount <= count <= dbufCount + t
        invariant forall x :: 0 <= x < count ==> dbuf[x] as int == (l + Copies(uc, t))[x]
      {
        dbuf[count] := uc as Word;
        count := count + 1;
      }
      forall c | 0 <= c < 256 ensures byteCount[c] == CountOf(l + Copies(uc, t), c) { CountOfCopies(l, uc, t, c); }
    }

    /** A literal: one byte goes into dbuf and is counted, and its position moves to the front. */
    method WriteLiteral(i: nat, dbufCount: nat, ghost front: Str, ghost l: Str)
      requires Tables() && IsFront(front) && Holding(l) && dbufCount == |l| < dbuf.Length && 0 < i < 256
      modifies dbuf, byteCount, mtfSymbol
      ensures Holding(l + [front[i]]) && IsFront(ToFront(front, i))
    {
      var uc := MoveFront(i, front);
      byteCount[uc] := byteCount[uc] + 1;
      dbuf[dbufCount] := uc as Word;
      forall c | 0 <= c < 256 ensures byteCount[c] == CountOf(l + Copies(uc, 1), c) { CountOfCopies(l, uc, 1, c); }
      assert Copies(uc, 1) == [uc];
    }

    /** One more run symbol: its position is added, doubled for RUNB. */
    method ReadRunSymbol(symbols: seq<nat>, k: nat, ghost b: Bounds, runPos: nat, t: nat,
        ghost run: seq<nat>, ghost front: Str, ghost l: Str)
      returns (runPos': nat, t': nat)
      requires front != [] && b.symTotal <= |front| && b.top == INT_MAX
      requires Running(runPos, t, run) && k < |symbols| && symbols[k] <= RUNB
      ensures Running(runPos', t', run + [symbols[k]])
      ensures
        Unpack(b, front, run, l, symbols[k..])
        == if t' > INT_MAX then TooLong else Unpack(b, front, run + [symbols[k]], l, symbols[k + 1..])
    {
      DigitStep(b, front, run, l, symbols, k);
      runPos', t' := runPos, t;
      if runPos' == 0 { runPos', t' := 1, 0; }
      ValueSnoc(run, symbols[k]);
      assert Shl(1, 0) == 1;
      t' := t' + Shl(runPos', symbols[k]);
      runPos' := 2 * runPos';
    }

    /** The first symbol after a run: the run is written out if it fits. */
    method FlushRun(runPos: nat, t: nat, count: nat, ghost run: seq<nat>, ghost front: Str, ghost l: Str)
      returns (status: Status, count': nat, ghost l': Str)
      requires Tables() && IsFront(front) && Holding(l) && count == |l| && Running(runPos, t, run)
      modifies dbuf, byteCount
      ensures status == Flushed(Bounds(0, dbuf.Length, INT_MAX), run, |l|)
      ensures status == Ok ==> Holding(l') && count' == |l'| && l' == l + Copies(front[0], Value(run))
    {
      count', l' := count, l + Copies(front[0], Value(run));
      ShlOrder(1, 0, |run|);
      ShlZero(|run|);
      if runPos == 0 {
        assert l' == l;
        return Ok, count', l';
      }
      if count + t > INT_MAX { return Overflow, count', l'; }
      if count + t >= dbuf.Length { return DataError, count', l'; }
      count' := WriteRun(t, count, front, l);
      return Ok, count', l';
    }

    /** The loop before symbol k: the table, the bytes and the run so far, and what the symbols from k on lead to. */
    ghost predicate Reading(symbols: seq<nat>, k: nat, symTotal: nat, runPos: nat, t: nat, count: nat, g: Sofar,
        r: Outcome)
      reads dbuf, byteCount, mtfSymbol, symToByte
    {
      && Tables() && symTotal <= 256 && k <= |symbols|
      && IsFront(g.front) && Holding(g.bytes) && count == |g.bytes| && Running(runPos, t, g.run)
      && Unpack(Bounds(symTotal, dbuf.Length, INT_MAX), g.front, g.run, g.bytes, symbols[k..]) == r
    }

    /** A symbol other than a run symbol: the run before it is written out, then the block ends or a literal follows. */
    method ReadSymbol(symbols: seq<nat>, k: nat, symTotal: nat, runPos: nat, t: nat, count: nat,
        ghost g: Sofar, ghost r: Outcome)
      returns (done: bool, status: Status, count': nat, ghost g': Sofar)
      requires Reading(symbols, k, symTotal, runPos, t, count, g, r) && k < |symbols| && symbols[k] > RUNB
      modifies dbuf, byteCount, mtfSymbol
      ensures done ==> Meets(status, g'.bytes, r) && (status == Ok ==> Holding(g'.bytes) && count' == |g'.bytes|)
      ensures !done ==> Reading(symbols, k + 1, symTotal, 0, 0, count', g', r)
    {
      var nextSym := symbols[k];
      ghost var l;
      SymbolStep(Bounds(symTotal, dbuf.Length, INT_MAX), g.front, g.run, g.bytes, symbols, k);
      status, count', l := FlushRun(runPos, t, count, g.run, g.front, g.bytes);
      g' := g.(bytes := l);
      if status != Ok || nextSym > symTotal { return true, status, count', g'; }
      if count' >= dbuf.Length { return true, DataError, count', g'; }
      WriteLiteral(nextSym - 1, count', g.front, l);
      g' := Sofar([], ToFront(g.front, nextSym - 1), l + [g.front[nextSym - 1]]);
      return false, Ok, count' + 1, g';
    }

    /** One round of the loop. */
    method ReadOne(symbols: seq<nat>, k: nat, symTotal: nat, runPos: nat, t: nat, count: nat,
        ghost g: Sofar, ghost r: Outcome)
      returns (done: bool, status: Status, runPos': nat, t': nat, count': nat, ghost g': Sofar)
      requires Reading(symbols, k, symTotal, runPos, t, count, g, r) && k < |symbols|
      modifies dbuf, byteCount, mtfSymbol
      ensures done ==> Meets(status, g'.bytes, r) && (status == Ok ==> Holding(g'.bytes) && count' == |g'.bytes|)
      ensures !done ==> Reading(symbols, k + 1, symTotal, runPos', t', count', g', r)
    {
      runPos', t', count' := 0, 0, count;
      if symbols[k] <= RUNB {
        ghost var b := Bounds(symTotal, dbuf.Length, INT_MAX);
        runPos', t' := ReadRunSymbol(symbols, k, b, runPos, t, g.run, g.front, g.bytes);
        done, status, g' := t' > INT_MAX, Overflow, g.(run := g.run + [symbols[k]]);
      } else {
        done, status, count', g' := ReadSymbol(symbols, k, symTotal, runPos, t, count, g, r);
      }
    }

    /** The loop before its first round. */
    method StartReading(symbols: seq<nat>, symTotal: nat, ghost r: Outcome) returns (ghost g: Sofar)
      requires Tables() && symTotal <= 256
      requires r == Unpack(Bounds(symTotal, dbuf.Length, INT_MAX), symToByte[..], [], [], symbols)
      modifies dbuf, byteCount, mtfSymbol
      ensures Reading(symbols, 0, symTotal, 0, 0, 0, g, r)
    {
      ResetSymbols();
      g := Sofar([], symToByte[..], []);
      assert symbols[0..] == symbols;
    }

    /** The symbols read by the loop of get_next_block, as a block with its byte counts. */
    method ReadSymbols(symbols: seq<nat>, symTotal: nat, ghost r: Outcome)
      returns (status: Status, dbufCount: nat, ghost l: Str)
      requires Tables() && symTotal <= 256
      requires r == Unpack(Bounds(symTotal, dbuf.Length, INT_MAX), symToByte[..], [], [], symbols)
      modifies dbuf, byteCount, mtfSymbol
      ensures Meets(status, l, r) && (status == Ok ==> dbufCount == |l| && Holding(l))
    {
      ghost var g := StartReading(symbols, symTotal, r);
      var runPos, t, k, done := 0, 0, 0, false;
      status, dbufCount := Truncated, 0;
      while k < |symbols| && !done
        invariant k <= |symbols|
        invariant if done then Meets(status, g.bytes, r)
                  else Reading(symbols, k, symTotal, runPos, t, dbufCount, g, r)
        invariant done && status == Ok ==> Holding(g.bytes) && dbufCount == |g.bytes|
      {
        done, status, runPos, t, dbufCount, g := ReadOne(symbols, k, symTotal, runPos, t, dbufCount, g, r);
        k := k + 1;
      }
      l := g.bytes;
      if !done { status := Truncated; }
    }
  }
}
