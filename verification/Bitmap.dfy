/** Word-level bitmap primitives, specified bit by bit. */
module Bitmap {
  import opened Division

  type Word = seq<bool>

  predicate Shaped(ws: seq<Word>, w: nat) {
    w > 0 && forall i :: 0 <= i < |ws| ==> |ws[i]| == w
  }

  /** test_bit, for a bit inside the map */
  predicate Bit(ws: seq<Word>, w: nat, b: int) {
    Shaped(ws, w) && 0 <= b && b / w < |ws| && ws[b / w][b % w]
  }

  lemma BitAt(ws: seq<Word>, w: nat, k: nat, r: nat)
    requires Shaped(ws, w) && k < |ws| && r < w
    ensures Bit(ws, w, k * w + r) == ws[k][r]
  {
    Split(k * w + r, k, r, w);
  }

  function Flip(word: Word, invert: bool): Word {
    seq(|word|, i requires 0 <= i < |word| => word[i] != invert)
  }

  /** BITMAP_FIRST_WORD_MASK */
  function FirstMask(w: nat, start: nat): Word
    requires w > 0
  {
    seq(w, i => i >= start % w)
  }

  /** BITMAP_LAST_WORD_MASK: all ones shifted right by -n modulo w */
  function LastMask(w: nat, n: nat): Word
    requires w > 0
  {
    seq(w, i => i < w - (-(n as int)) % w)
  }

  function And(a: Word, b: Word): Word
    requires |a| == |b|
  {
    seq(|a|, i requires 0 <= i < |a| => a[i] && b[i])
  }

  predicate IsZero(word: Word) {
    forall i :: 0 <= i < |word| ==> !word[i]
  }

  /** __ffs: index of the lowest set bit */
  function Ffs(word: Word): (r: nat)
    requires !IsZero(word)
    ensures r < |word| && word[r] && forall i :: 0 <= i < r ==> !word[i]
  {
    if word[0] then 0
    else
      assert !IsZero(word[1..]) by { var i :| 0 <= i < |word| && word[i]; assert word[1..][i - 1]; }
      1 + Ffs(word[1..])
  }

  /** All bits of [lo, hi) have the given value. */
  ghost predicate All(ws: seq<Word>, w: nat, lo: int, hi: int, value: bool) {
    forall b :: lo <= b < hi ==> Bit(ws, w, b) == value
  }

  /** The searched word holds exactly the wanted bits of word k from start on. */
  ghost predicate Loaded(ws: seq<Word>, w: nat, k: nat, start: nat, invert: bool, tmp: Word) {
    && |tmp| == w
    && forall r :: 0 <= r < w ==> tmp[r] == (k * w + r >= start && Bit(ws, w, k * w + r) != invert)
  }

  lemma LoadFirst(ws: seq<Word>, w: nat, start: nat, invert: bool)
    requires Shaped(ws, w) && start / w < |ws|
    ensures Loaded(ws, w, start / w, start, invert, And(Flip(ws[start / w], invert), FirstMask(w, start)))
    ensures (start / w) * w <= start
  {
    Parts(start, w);
    forall r | 0 <= r < w ensures Bit(ws, w, (start / w) * w + r) == ws[start / w][r] { BitAt(ws, w, start / w, r); }
  }

  lemma LoadNext(ws: seq<Word>, w: nat, k: nat, start: nat, invert: bool)
    requires Shaped(ws, w) && k < |ws| && start <= k * w
    ensures Loaded(ws, w, k, start, invert, Flip(ws[k], invert))
  {
    forall r | 0 <= r < w ensures Bit(ws, w, k * w + r) == ws[k][r] { BitAt(ws, w, k, r); }
  }

  /** A word without wanted bits extends the unwanted stretch to its end. */
  lemma SkipWord(ws: seq<Word>, w: nat, k: nat, start: nat, invert: bool, tmp: Word)
    requires w > 0 && Loaded(ws, w, k, start, invert, tmp) && IsZero(tmp) && All(ws, w, start, k * w, invert)
    ensures All(ws, w, start, (k + 1) * w, invert)
  {
    NextWord(k, w);
    forall b | start <= b < (k + 1) * w ensures Bit(ws, w, b) == invert {
      if b >= k * w { assert !tmp[b - k * w]; }
    }
  }

  lemma StopInWord(ws: seq<Word>, w: nat, k: nat, start: nat, invert: bool, tmp: Word)
    requires w > 0 && Loaded(ws, w, k, start, invert, tmp) && !IsZero(tmp) && All(ws, w, start, k * w, invert)
    ensures All(ws, w, start, k * w + Ffs(tmp), invert) && Bit(ws, w, k * w + Ffs(tmp)) != invert
    ensures start <= k * w + Ffs(tmp)
  {
    var f := Ffs(tmp);
    assert tmp[f];
    forall b | start <= b < k * w + f ensures Bit(ws, w, b) == invert {
      if b >= k * w { assert !tmp[b - k * w]; }
    }
  }

  /** _find_next_bit: the first bit from start on whose value is not invert, or nbits. */
  method FindNext(words: array<Word>, w: nat, nbits: nat, start: nat, invert: bool) returns (r: nat)
    requires Shaped(words[..], w) && nbits <= words.Length * w
    ensures start >= nbits ==> r == nbits
    ensures start < nbits ==> start <= r <= nbits
    ensures All(words[..], w, start, r, invert)
    ensures r < nbits ==> Bit(words[..], w, r) != invert
  {
    if start >= nbits { return nbits; }
    ghost var ws := words[..];
    WordBelow(start, words.Length, w);
    LoadFirst(ws, w, start, invert);
    var k := start / w;
    var tmp := And(Flip(words[k], invert), FirstMask(w, start));
    var base := start - start % w;
    Parts(start, w);
    while IsZero(tmp)
      invariant base == k * w < nbits && k < words.Length && start < base + w
      invariant Loaded(ws, w, k, start, invert, tmp) && All(ws, w, start, base, invert)
      decreases words.Length - k
    {
      SkipWord(ws, w, k, start, invert, tmp);
      NextWord(k, w);
      base := base + w;
      k := k + 1;
      if base >= nbits { return nbits; }
      Split(base, k, 0, w);
      WordBelow(base, words.Length, w);
      LoadNext(ws, w, k, start, invert);
      tmp := Flip(words[k], invert);
    }
    StopInWord(ws, w, k, start, invert, tmp);
    r := base + Ffs(tmp);
    if r > nbits { r := nbits; }
  }

  // ---- setting and clearing ranges

  /** Bits under the mask take the value, the others stay. */
  function Blend(word: Word, mask: Word, value: bool): Word
    requires |word| == |mask|
  {
    seq(|word|, i requires 0 <= i < |word| => if mask[i] then value else word[i])
  }

  ghost predicate Masks(mask: Word, w: nat, lo: int, hi: int) {
    |mask| == w && forall r :: 0 <= r < w ==> mask[r] == (lo <= r < hi)
  }

  /** new_ is ws with the bits of [lo, hi) at value. */
  ghost predicate Filled(ws: seq<Word>, new_: seq<Word>, w: nat, lo: int, hi: int, value: bool) {
    && Shaped(new_, w) && |new_| == |ws|
    && forall b :: Bit(new_, w, b) == if lo <= b < hi then value else Bit(ws, w, b)
  }

  lemma BlendWord(ws: seq<Word>, w: nat, p: nat, mask: Word, lo: nat, hi: nat, value: bool)
    requires Shaped(ws, w) && p < |ws| && Masks(mask, w, lo, hi) && lo <= hi <= w
    ensures Filled(ws, ws[p := Blend(ws[p], mask, value)], w, p * w + lo, p * w + hi, value)
  {
    var new_ := ws[p := Blend(ws[p], mask, value)];
    forall b ensures Bit(new_, w, b) == if p * w + lo <= b < p * w + hi then value else Bit(ws, w, b) {
      if p * w + lo <= b < p * w + hi {
        Split(b, p, b - p * w, w);
      } else if 0 <= b {
        Parts(b, w);
      }
    }
  }

  /** The last partial word: its mask ends where the range ends. */
  lemma LastWord(w: nat, p: nat, size: nat, lo: nat, hi: nat, mask: Word)
    requires size == p * w + hi && lo < hi < w && Masks(mask, w, lo, w)
    ensures Masks(And(mask, LastMask(w, size)), w, lo, hi)
  {
    var q := -(p as int) - 1;
    assert q * w == -(p * w) - w;
    Split(-(size as int), q, w - hi, w);
  }

  /** bitmap_set and bitmap_clear: exactly len bits from start on take the value. */
  method Fill(words: array<Word>, w: nat, start: nat, len: nat, value: bool)
    requires Shaped(words[..], w) && start + len <= words.Length * w
    modifies words
    ensures Filled(old(words[..]), words[..], w, start, start + len, value)
  {
    ghost var ws := words[..];
    var p, size, left := start / w, start + len, len;
    var toFill := w - start % w;
    var mask := FirstMask(w, start);
    Parts(start, w);
    while left - toFill >= 0
      invariant 0 <= left <= len && 0 < toFill <= w && 0 <= p
      invariant p * w + (w - toFill) + left == size
      invariant Masks(mask, w, w - toFill, w)
      invariant Filled(ws, words[..], w, start, size - left, value)
      decreases left
    {
      NextWord(p, w);
      Split(p * w, p, 0, w);
      WordBelow(p * w, words.Length, w);
      BlendWord(words[..], w, p, mask, w - toFill, w, value);
      ghost var before := words[..];
      words[p] := Blend(words[p], mask, value);
      assert words[..] == before[p := Blend(before[p], mask, value)];
      left := left - toFill;
      toFill := w;
      mask := seq(w, _ => true);
      p := p + 1;
    }
    if left != 0 {
      Split(p * w, p, 0, w);
      WordBelow(p * w, words.Length, w);
      LastWord(w, p, size, w - toFill, w - toFill + left, mask);
      mask := And(mask, LastMask(w, size));
      BlendWord(words[..], w, p, mask, w - toFill, w - toFill + left, value);
      ghost var before := words[..];
      words[p] := Blend(words[p], mask, value);
      assert words[..] == before[p := Blend(before[p], mask, value)];
    }
  }
}

/** Searching a bitmap for free areas. */
module AreaSearch {
  import opened Division
  import opened Bits
  import opened Bitmap

  /** Bitwise and of two naturals. */
  function BitAnd(x: nat, y: nat): nat {
    if x == 0 || y == 0 then 0 else 2 * BitAnd(x / 2, y / 2) + (if x % 2 == 1 && y % 2 == 1 then 1 else 0)
  }

  /** mask is 2^k - 1 for some k */
  ghost predicate IsLowMask(mask: nat) {
    exists k: nat :: mask + 1 == Shl(1, k)
  }

  /** And with a low mask is the remainder. */
  lemma {:induction false} AndLow(x: nat, k: nat)
    ensures Shl(1, k) > 0 && BitAnd(x, Shl(1, k) - 1) == x % Shl(1, k)
    decreases k
  {
    if k > 0 {
      var h := Shl(1, k - 1);
      AndLow(x / 2, k - 1);
      HalfRemainder(x, h);
    }
  }

  lemma HalfRemainder(x: nat, h: nat)
    requires h > 0
    ensures x % (2 * h) == 2 * ((x / 2) % h) + x % 2
  {
    Parts(x / 2, h);
    assert (x / 2 / h) * (2 * h) == 2 * ((x / 2 / h) * h);
    Split(x, x / 2 / h, 2 * ((x / 2) % h) + x % 2, 2 * h);
  }

  lemma MaskAnd(x: nat, mask: nat)
    requires IsLowMask(mask)
    ensures BitAnd(x, mask) == x % (mask + 1)
  {
    var k: nat :| mask + 1 == Shl(1, k);
    AndLow(x, k);
  }

  /** __ALIGN_MASK: (x + mask) with the mask bits cleared */
  function AlignUp(x: nat, mask: nat): int {
    x + mask - BitAnd(x + mask, mask)
  }

  /** A multiple of mask + 1 */
  predicate Aligned(x: nat, mask: nat) { x % (mask + 1) == 0 }

  /** There is no multiple of m strictly between consecutive ones. */
  lemma NoMultiple(y: nat, q: nat, m: nat)
    requires m > 0 && y < q * m && q * m < y + m
    ensures y % m != 0
  {
    Parts(y, m);
    var d := y / m - q;
    assert d * m == (y / m) * m - q * m;
    if y % m == 0 { MulGap(d, m); MulGap(-d, m); }
  }

  /** Rounding up gives the least aligned value. */
  lemma AlignUpLeast(x: nat, mask: nat)
    requires IsLowMask(mask)
    ensures x <= AlignUp(x, mask) && Aligned(AlignUp(x, mask), mask)
    ensures forall y: nat :: x <= y < AlignUp(x, mask) ==> !Aligned(y, mask)
  {
    var m, t := mask + 1, x + mask;
    MaskAnd(t, mask);
    Parts(t, m);
    var a, q := AlignUp(x, mask), t / m;
    assert a == q * m;
    Split(a, q, 0, m);
    forall y: nat | x <= y < a ensures !Aligned(y, mask) { NoMultiple(y, q, m); }
  }

  // ---- bitmap_find_next_zero_area_off

  /** The nr bits from i on are free, end by size, and i + off is aligned. */
  ghost predicate Fits(ws: seq<Word>, w: nat, size: nat, i: nat, nr: nat, mask: nat, off: nat) {
    i + nr <= size && All(ws, w, i, i + nr, false) && Aligned(i + off, mask)
  }

  ghost predicate NoFit(ws: seq<Word>, w: nat, size: nat, from: int, to: int, nr: nat, mask: nat, off: nat) {
    forall i: nat :: from <= i < to ==> !Fits(ws, w, size, i, nr, mask, off)
  }

  /** No area starts on a set bit, at an unaligned index, or where it would cover a set bit. */
  lemma SkipSet(ws: seq<Word>, w: nat, size: nat, from: nat, to: nat, nr: nat, mask: nat, off: nat)
    requires nr >= 1 && All(ws, w, from, to, true)
    ensures NoFit(ws, w, size, from, to, nr, mask, off)
  {
    forall i: nat | from <= i < to ensures !Fits(ws, w, size, i, nr, mask, off) { assert Bit(ws, w, i); }
  }

  lemma SkipUnaligned(ws: seq<Word>, w: nat, size: nat, from: nat, nr: nat, mask: nat, off: nat)
    requires IsLowMask(mask)
    ensures from <= AlignUp(from + off, mask) - off && Aligned(AlignUp(from + off, mask), mask)
    ensures NoFit(ws, w, size, from, AlignUp(from + off, mask) - off, nr, mask, off)
  {
    AlignUpLeast(from + off, mask);
  }

  lemma SkipCovering(ws: seq<Word>, w: nat, size: nat, index: nat, i: nat, nr: nat, mask: nat, off: nat)
    requires index <= i < index + nr && Bit(ws, w, i)
    ensures NoFit(ws, w, size, index, i + 1, nr, mask, off)
  {}

  /** One round: from `from` to the first clear bit and on to the next aligned index nothing fits. */
  lemma SkipTo(ws: seq<Word>, w: nat, size: nat, start: nat, from: nat, zero: nat, nr: nat, mask: nat, off: nat)
    requires nr >= 1 && IsLowMask(mask) && start <= from && NoFit(ws, w, size, start, from, nr, mask, off)
    requires if from < size then from <= zero <= size && All(ws, w, from, zero, true) else zero == size
    ensures var index := AlignUp(zero + off, mask) - off;
      && NoFit(ws, w, size, start, index, nr, mask, off)
      && (index + nr > size ==> forall i: nat :: i >= start ==> !Fits(ws, w, size, i, nr, mask, off))
  {
    if from < size { SkipSet(ws, w, size, from, zero, nr, mask, off); }
    SkipUnaligned(ws, w, size, zero, nr, mask, off);
  }

  /** The least fitting index from start on; a value above size if there is none. */
  method FindZeroArea(words: array<Word>, w: nat, size: nat, start: nat, nr: nat, mask: nat, off: nat) returns (r: nat)
    requires Shaped(words[..], w) && size <= words.Length * w && IsLowMask(mask)
    ensures r < size ==> start <= r
    ensures nr >= 1 && r <= size ==> start <= r && Fits(words[..], w, size, r, nr, mask, off)
    ensures nr >= 1 ==> NoFit(words[..], w, size, start, r, nr, mask, off)
    ensures nr >= 1 && r > size ==> forall i: nat :: i >= start ==> !Fits(words[..], w, size, i, nr, mask, off)
  {
    ghost var ws := words[..];
    var from := start;
    while true
      invariant start <= from && (from > start ==> from <= size)
      invariant nr >= 1 ==> NoFit(ws, w, size, start, from, nr, mask, off)
      decreases size - from
    {
      var zero := FindNext(words, w, size, from, true);
      SkipUnaligned(ws, w, size, zero, nr, mask, off);
      if nr >= 1 { SkipTo(ws, w, size, start, from, zero, nr, mask, off); }
      var index := AlignUp(zero + off, mask) - off;
      var end := index + nr;
      if end > size { return end; }
      var i := FindNext(words, w, end, index, false);
      if i >= end { return index; }
      SkipCovering(ws, w, size, index, i, nr, mask, off);
      from := i + 1;
    }
  }

  // ---- iommu_area_alloc

  /** iommu_is_span_boundary */
  predicate SpansBoundary(index: nat, nr: nat, shift: nat, boundary: nat)
    requires boundary > 0
  {
    BitAnd(shift + index, boundary - 1) + nr > boundary
  }

  /** First and last entry of an area lie in the same boundary-sized segment. */
  predicate OneSegment(index: nat, nr: nat, shift: nat, boundary: nat)
    requires nr > 0 && boundary > 0
  {
    (shift + index) / boundary == (shift + index + nr - 1) / boundary
  }

  lemma SpanMeaning(index: nat, nr: nat, shift: nat, boundary: nat)
    requires nr > 0 && boundary > 0 && IsLowMask(boundary - 1)
    ensures SpansBoundary(index, nr, shift, boundary) <==> !OneSegment(index, nr, shift, boundary)
  {
    var a, b := shift + index, shift + index + nr - 1;
    MaskAnd(a, boundary - 1);
    Parts(a, boundary);
    Parts(b, boundary);
    if !SpansBoundary(index, nr, shift, boundary) {
      Split(b, a / boundary, a % boundary + nr - 1, boundary);
    }
  }

  ghost predicate IommuFits(ws: seq<Word>, w: nat, size: nat, i: nat, nr: nat, shift: nat, boundary: nat, mask: nat)
    requires size > 0 && nr > 0 && boundary > 0
  {
    Fits(ws, w, size - 1, i, nr, mask, 0) && OneSegment(i, nr, shift, boundary)
  }

  /**
   * The least index from start on that is aligned, free, ends before the last bit of the map and stays in one
   * segment; exactly its nr bits are set. -1 exactly when there is none, and then nothing changes.
   */
  method IommuAreaAlloc(words: array<Word>, w: nat, size: nat, start: nat, nr: nat, shift: nat, boundary: nat,
      mask: nat)
    returns (r: int)
    requires Shaped(words[..], w) && 0 < size <= words.Length * w
    requires boundary > 0 && IsLowMask(boundary - 1) && IsLowMask(mask)
    modifies words
    ensures -1 <= r && Filled(old(words[..]), words[..], w, r, if r < 0 then r else r + nr, true)
    ensures nr > 0 && r >= 0 ==> start <= r && IommuFits(old(words[..]), w, size, r, nr, shift, boundary, mask)
    ensures nr > 0 ==> forall i: nat :: start <= i && (r >= 0 ==> i < r) ==>
      !IommuFits(old(words[..]), w, size, i, nr, shift, boundary, mask)
  {
    ghost var ws := words[..];
    var limit := size - 1;
    var from := start;
    while true
      invariant start <= from && (from > start ==> from <= limit) && words[..] == ws
      invariant nr > 0 ==> forall i: nat :: start <= i < from ==> !IommuFits(ws, w, size, i, nr, shift, boundary, mask)
      decreases limit - from
    {
      var index := FindZeroArea(words, w, limit, from, nr, mask, 0);
      if nr > 0 { SpanMeaning(index, nr, shift, boundary); }
      if index >= limit { return -1; }
      if !SpansBoundary(index, nr, shift, boundary) {
        Fill(words, w, index, nr, true);
        return index;
      }
      from := index + 1;
    }
  }

  // ---- gen_pool_best_fit

  /** A maximal stretch of free bits inside [start, size). */
  ghost predicate FreeRun(ws: seq<Word>, w: nat, size: nat, start: nat, i: nat, e: nat) {
    && start <= i < e <= size && All(ws, w, i, e, false)
    && (i == start || Bit(ws, w, i - 1)) && (e == size || Bit(ws, w, e))
  }

  /** best is the first of the shortest among the runs of at least nr that begin before `to`. */
  ghost predicate BestBelow(ws: seq<Word>, w: nat, size: nat, start: nat, nr: nat, to: int, best: nat, len: nat) {
    && (forall i: nat, e: nat :: FreeRun(ws, w, size, start, i, e) && e - i >= nr && i < to ==>
          len <= e - i && (e - i == len ==> best <= i))
    && (len <= size ==> len >= nr && FreeRun(ws, w, size, start, best, best + len) && best < to)
    && (len > size ==> best == size)
  }

  /** Two runs that begin at the same place, or overlap, are the same. */
  lemma SameRun(ws: seq<Word>, w: nat, size: nat, start: nat, i: nat, e: nat, j: nat, f: nat)
    requires FreeRun(ws, w, size, start, i, e) && FreeRun(ws, w, size, start, j, f) && i <= j < e
    ensures i == j && e == f
  {
    assert i < j ==> !Bit(ws, w, j - 1);
    assert e < f ==> !Bit(ws, w, e);
    assert f < e ==> !Bit(ws, w, f);
  }

  /** The least fitting index starts a run, and there is no long enough run before it. */
  lemma FitStartsRun(ws: seq<Word>, w: nat, size: nat, start: nat, from: nat, index: nat, next: nat, nr: nat)
    requires nr >= 1 && start <= from <= index && (from == start || Bit(ws, w, from - 1))
    requires Fits(ws, w, size, index, nr, 0, 0) && NoFit(ws, w, size, from, index, nr, 0, 0)
    requires index + nr <= next <= size && All(ws, w, index + nr, next, false) && (next < size ==> Bit(ws, w, next))
    ensures FreeRun(ws, w, size, start, index, next)
  {
    if index > from && !Bit(ws, w, index - 1) {
      assert Aligned(index - 1, 0);
      assert Fits(ws, w, size, index - 1, nr, 0, 0);
    }
  }

  lemma RunFits(ws: seq<Word>, w: nat, size: nat, start: nat, i: nat, e: nat, nr: nat)
    requires FreeRun(ws, w, size, start, i, e) && e - i >= nr
    ensures Fits(ws, w, size, i, nr, 0, 0)
  {
    assert Aligned(i, 0);
  }

  /** Passing over one more run. */
  lemma BestStep(ws: seq<Word>, w: nat, size: nat, start: nat, nr: nat, from: nat, index: nat, next: nat,
      best: nat, len: nat)
    requires nr >= 1 && start <= from <= index && BestBelow(ws, w, size, start, nr, from, best, len)
    requires FreeRun(ws, w, size, start, index, next) && next - index >= nr
    requires NoFit(ws, w, size, from, index, nr, 0, 0)
    ensures if next - index < len then BestBelow(ws, w, size, start, nr, next + 1, index, next - index)
            else BestBelow(ws, w, size, start, nr, next + 1, best, len)
  {
    forall i: nat, e: nat | FreeRun(ws, w, size, start, i, e) && e - i >= nr && from <= i < next + 1
      ensures i == index && e == next
    {
      RunFits(ws, w, size, start, i, e, nr);
      assert i >= index;
      assert i != next;
      SameRun(ws, w, size, start, index, next, i, e);
    }
  }

  /** Between rounds: the runs before from are judged, and index is the next place that fits. */
  ghost predicate Passing(ws: seq<Word>, w: nat, size: nat, start: nat, nr: nat, from: nat, index: nat, best: nat,
      len: nat) {
    && (from == start || from > size || Bit(ws, w, from - 1))
    && BestBelow(ws, w, size, start, nr, from, best, len)
    && NoFit(ws, w, size, from, index, nr, 0, 0)
    && (index <= size ==> Fits(ws, w, size, index, nr, 0, 0))
    && (index > size ==> forall i: nat :: i >= from ==> !Fits(ws, w, size, i, nr, 0, 0))
  }

  lemma PassOver(ws: seq<Word>, w: nat, size: nat, start: nat, nr: nat, from: nat, index: nat, next: nat,
      best: nat, len: nat)
    requires nr >= 1 && start <= from <= index < size && Passing(ws, w, size, start, nr, from, index, best, len)
    requires index + nr <= next <= size && All(ws, w, index + nr, next, false) && (next < size ==> Bit(ws, w, next))
    ensures if next - index < len then BestBelow(ws, w, size, start, nr, next + 1, index, next - index)
            else BestBelow(ws, w, size, start, nr, next + 1, best, len)
  {
    FitStartsRun(ws, w, size, start, from, index, next, nr);
    BestStep(ws, w, size, start, nr, from, index, next, best, len);
  }

  /** All runs have been passed over. */
  lemma BestOverall(ws: seq<Word>, w: nat, size: nat, start: nat, nr: nat, from: nat, best: nat, len: nat)
    requires BestBelow(ws, w, size, start, nr, from, best, len)
    requires len == nr || forall i: nat :: from <= i ==> !Fits(ws, w, size, i, nr, 0, 0)
    ensures BestBelow(ws, w, size, start, nr, size, best, len)
  {
    forall i: nat, e: nat | FreeRun(ws, w, size, start, i, e) && e - i >= nr
      ensures len <= e - i && (e - i == len ==> best <= i)
    {
      RunFits(ws, w, size, start, i, e, nr);
    }
  }

  /** The first of the shortest free runs of at least nr bits from start on, or size if no run is long enough. */
  method BestFit(words: array<Word>, w: nat, size: nat, start: nat, nr: nat) returns (best: nat)
    requires Shaped(words[..], w) && size <= words.Length * w
    ensures nr >= 1 ==> exists len: nat :: BestBelow(words[..], w, size, start, nr, size, best, len)
  {
    ghost var ws := words[..];
    best := size;
    var len: nat := size + 1;
    assert IsLowMask(0) by { assert Shl(1, 0) == 0 + 1; }
    var index := FindZeroArea(words, w, size, start, nr, 0, 0);
    ghost var from := start;
    while index < size
      invariant start <= from && (index < size ==> from <= index)
      invariant nr >= 1 ==> Passing(ws, w, size, start, nr, from, index, best, len)
      decreases size - index
    {
      var next := FindNext(words, w, size, index + nr, false);
      if nr >= 1 { PassOver(ws, w, size, start, nr, from, index, next, best, len); }
      if next - index < len {
        len := next - index;
        best := index;
        if len == nr {
          if nr >= 1 { BestOverall(ws, w, size, start, nr, next + 1, best, nr); }
          return;
        }
      }
      from := next + 1;
      index := FindZeroArea(words, w, size, next + 1, nr, 0, 0);
    }
    if nr >= 1 {
      BestOverall(ws, w, size, start, nr, from, best, len);
      assert BestBelow(words[..], w, size, start, nr, size, best, len);
    }
  }
}
