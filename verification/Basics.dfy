/** Values that may be missing: NULL results, fields not read yet. */
module Options {
  datatype Option<+T> = None | Some(value: T)
}

/** Bytes and unsigned ints as numbers. */
module Bytes {
  type Byte = b: int | 0 <= b < 256

  newtype Word = w: int | 0 <= w < 0x1_0000_0000

  const INT_MAX: nat := 0x7fff_ffff
}

/** C ints: 32 bits, two's complement, wrapping. */
module CInt {
  const SPAN: int := 0x1_0000_0000

  type Int32 = x: int | -0x8000_0000 <= x < 0x8000_0000

  predicate Fits(x: int) { -0x8000_0000 <= x < 0x8000_0000 }

  /** The int with the same low 32 bits. */
  function Wrap(x: int): (y: Int32)
    ensures Fits(x) ==> y == x
  {
    (x + 0x8000_0000) % SPAN - 0x8000_0000
  }

  /** How often SPAN was taken off. */
  function Turns(x: int): int { (x + 0x8000_0000) / SPAN }

  lemma WrapTurns(x: int)
    ensures x == Wrap(x) + SPAN * Turns(x)
  {}

  /** Numbers that differ by a multiple of SPAN wrap to the same int. */
  lemma WrapSame(x: int, k: int)
    ensures Wrap(x + SPAN * k) == Wrap(x)
  {}

  lemma WrapFits(x: int)
    ensures Wrap(x) == x <==> Fits(x)
  {}

  lemma WrapOnce(x: int)
    requires -SPAN <= x < SPAN
    ensures Wrap(x) == if Fits(x) then x else if x > 0 then x - SPAN else x + SPAN
  {}

  /** Wrapping a factor first does not change the wrapped product. */
  lemma WrapFactor(q: int, x: int)
    ensures Wrap(q * Wrap(x)) == Wrap(q * x)
  {
    var k := Turns(x);
    WrapTurns(x);
    assert q * (x - SPAN * k) == q * x + SPAN * (q * -k);
    WrapSame(q * x, q * -k);
  }

  lemma WrapMinus(a: int, b: int)
    ensures Wrap(a - b) == Wrap(a - Wrap(b))
  {
    WrapTurns(b);
    WrapSame(a - b, Turns(b));
  }

  /** Division toward zero. */
  function TruncDiv(a: int, b: int): int
    requires b != 0
  {
    if a >= 0 then (if b > 0 then a / b else -(a / -b)) else (if b > 0 then -(-a / b) else -a / -b)
  }
}

/** Sequences without repetition, and their elements. */
module Sequences {
  function Elements<T(!new)>(xs: seq<T>): (s: set<T>)
    ensures forall x :: x in s <==> x in xs
  {
    set x | x in xs
  }

  ghost predicate Distinct<T(!new)>(xs: seq<T>) {
    forall i, j :: 0 <= i < j < |xs| ==> xs[i] != xs[j]
  }

  /** x stands before y. */
  ghost predicate Before<T(!new)>(xs: seq<T>, x: T, y: T) {
    exists i, j :: 0 <= i < j < |xs| && xs[i] == x && xs[j] == y
  }
}

/** Intervals of numbers as sets, and their sizes. */
module Ranges {
  function Range(lo: nat, hi: nat): (r: set<nat>)
    ensures forall x :: x in r <==> lo <= x < hi
    decreases hi
  {
    if hi <= lo then {} else Range(lo, hi - 1) + {hi - 1}
  }

  lemma {:induction false} RangeCard(lo: nat, hi: nat)
    requires lo <= hi
    ensures |Range(lo, hi)| == hi - lo
    decreases hi
  {
    if lo < hi { RangeCard(lo, hi - 1); }
  }

  lemma SplitCard(whole: set<nat>, part: set<nat>)
    requires part <= whole
    ensures |whole| == |whole - part| + |part|
  {
    assert whole == (whole - part) + part;
  }

  lemma SubsetCard(a: set<nat>, b: set<nat>)
    requires a <= b
    ensures |a| <= |b|
  {
    SplitCard(b, a);
  }
}

/** Quotients and remainders by a variable divisor: word and offset of a bit, slot of a position. */
module Division {
  lemma MulGap(d: int, w: nat)
    ensures d >= 1 ==> d * w >= w
    ensures d <= -1 ==> d * w + w <= 0
  {}

  /** The word and the offset of a bit are determined by where it lies. */
  lemma Split(b: int, k: int, r: nat, w: nat)
    requires r < w && b == k * w + r
    ensures b / w == k && b % w == r
  {
    assert b == (b / w) * w + b % w;
    var d := b / w - k;
    assert d * w == (b / w) * w - k * w;
    MulGap(d, w);
  }

  lemma Parts(b: nat, w: nat)
    requires w > 0
    ensures b == (b / w) * w + b % w && 0 <= b % w < w && b / w >= 0
  {}

  /** A bit below n words is in one of the first n words. */
  lemma WordBelow(b: nat, n: nat, w: nat)
    requires w > 0 && b < n * w
    ensures b / w < n
  {
    Parts(b, w);
    var d := b / w - n;
    assert d * w == (b / w) * w - n * w;
    MulGap(d + 1, w);
    assert (d + 1) * w == d * w + w;
  }

  lemma {:induction false} MulAtLeast(k: nat, u: nat)
    requires u > 0
    ensures k * u >= k
  {
    if k > 0 {
      MulAtLeast(k - 1, u);
      NextWord(k - 1, u);
    }
  }

  lemma NextWord(k: nat, w: nat)
    ensures (k + 1) * w == k * w + w
  {}
}
