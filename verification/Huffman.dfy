/** Canonical Huffman tables of get_next_block and the table-driven symbol decoder. */
module Huffman {
  import opened Bytes
  import opened ByteStrings
  import opened CountingSort
  import opened Bits

  const MAX_HUFCODE_BITS := 20
  const MAX_SYMBOLS := 258

  /** Code lengths as the header reader delivers them. */
  predicate ValidLengths(lens: Str) {
    0 < |lens| <= MAX_SYMBOLS && forall t :: 0 <= t < |lens| ==> 1 <= lens[t] <= MAX_HUFCODE_BITS
  }

  predicate Extremes(lens: Str, minLen: nat, maxLen: nat) {
    && (exists t :: 0 <= t < |lens| && lens[t] == minLen)
    && (exists t :: 0 <= t < |lens| && lens[t] == maxLen)
    && forall t :: 0 <= t < |lens| ==> minLen <= lens[t] <= maxLen
  }

  // ---- the code being decoded

  /** Numerically first codeword of length l, given how many symbols each length has. */
  function First(count: seq<nat>, l: nat): nat
    requires 1 <= l <= |count|
  {
    if l == 1 then 0 else 2 * (First(count, l - 1) + count[l - 1])
  }

  /** Number of symbols of each length 0..20. */
  function Histogram(lens: Str): (h: seq<nat>)
    ensures |h| == MAX_HUFCODE_BITS + 1
    ensures forall l :: 0 <= l <= MAX_HUFCODE_BITS ==> h[l] == CountOf(lens, l)
  {
    seq(MAX_HUFCODE_BITS + 1, l => CountOf(lens, l))
  }

  /** Canonical codeword of symbol t: codewords of one length are consecutive, in symbol order. */
  function Codeword(lens: Str, t: nat): nat
    requires t < |lens| && ValidLengths(lens)
  {
    First(Histogram(lens), lens[t]) + CountOf(lens[..t], lens[t])
  }

  /** The maxLen bits j start with the codeword of t; the remaining bits are arbitrary. */
  predicate StartsWith(lens: Str, maxLen: nat, j: nat, t: nat)
    requires t < |lens| && ValidLengths(lens) && lens[t] <= maxLen
  {
    Shr(j, maxLen - lens[t]) == Codeword(lens, t)
  }

  /** Kraft sum in units of 2^-top. */
  function Kraft(lens: Str, top: nat): nat
    requires forall t :: 0 <= t < |lens| ==> lens[t] <= top
  {
    if lens == [] then 0 else Kraft(lens[..|lens| - 1], top) + Shl(1, top - lens[|lens| - 1])
  }

  /** The code space used up to length l, scaled to maxLen bits. */
  function Used(count: seq<nat>, l: nat, maxLen: nat): nat
    requires 1 <= l <= maxLen && maxLen < |count|
  {
    Shl(First(count, l) + count[l], maxLen - l)
  }

  lemma UsedIsNextFirst(count: seq<nat>, l: nat, maxLen: nat)
    requires 1 <= l < maxLen < |count|
    ensures Used(count, l, maxLen) == Shl(First(count, l + 1), maxLen - (l + 1))
  {
    var x := First(count, l) + count[l];
    ShlShl(x, 1, maxLen - (l + 1));
    assert Shl(x, 1) == 2 * x by { assert Shl(x, 0) == x; }
  }

  lemma {:induction false} UsedMonotone(count: seq<nat>, l: nat, k: nat, maxLen: nat)
    requires 1 <= l < k <= maxLen < |count|
    ensures Used(count, l, maxLen) <= Shl(First(count, k), maxLen - k)
    decreases k - l
  {
    UsedIsNextFirst(count, l, maxLen);
    if l + 1 < k {
      ShlOrder(First(count, l + 1), First(count, l + 1) + count[l + 1], maxLen - (l + 1));
      UsedMonotone(count, l + 1, k, maxLen);
    }
  }

  /** A codeword of l bits followed by zeros fits in maxLen bits and has the codeword as its top bits. */
  lemma PadCodeword(code: nat, l: nat, maxLen: nat)
    requires l <= maxLen && code < Shl(1, l)
    ensures Shl(code, maxLen - l) < Shl(1, maxLen)
    ensures Shr(Shl(code, maxLen - l), maxLen - l) == code
  {
    var k := maxLen - l;
    ShlShl(1, l, k);
    ShlOrder(Shl(1, l), code, k);
    ShrBounds(Shl(code, k), k, code);
    ShrBounds(Shl(code, k), k, code + 1);
    ShlOrder(code + 1, code, k);
  }

  // ---- what the tables decode to, for any histogram of up to 8-bit counts

  datatype Decoded = Symbol(sym: nat, bits: nat) | DataError

  /** Length found by scanning limit[]: least i with j below the space used up to i, or maxLen + 1. */
  function Scan(count: seq<nat>, i: nat, maxLen: nat, j: nat): (l: nat)
    requires 1 <= i <= maxLen + 1 && maxLen < |count|
    ensures i <= l <= maxLen + 1
    ensures l <= maxLen ==> j < Used(count, l, maxLen)
    ensures forall k :: i <= k < l ==> j >= Used(count, k, maxLen)
    decreases maxLen + 1 - i
  {
    if i == maxLen + 1 || j < Used(count, i, maxLen) then i else Scan(count, i + 1, maxLen, j)
  }

  /** The decoder's result on maxLen bits j. */
  function Decode(count: seq<nat>, permute: seq<nat>, minLen: nat, maxLen: nat, j: nat): Decoded
    requires 1 <= minLen <= maxLen < |count|
  {
    var l := Scan(count, minLen, maxLen, j);
    if l > maxLen then DataError
    else
      var index := Shr(j, maxLen - l) - (First(count, l) - Sum(count, l));
      if 0 <= index < |permute| then Symbol(permute[index], l) else DataError
  }

  /** Symbols counted at lengths below l. */
  function Sum(count: seq<nat>, l: nat): nat
    requires l <= |count|
  {
    if l == 0 then 0 else Sum(count, l - 1) + count[l - 1]
  }

  lemma {:induction false} SumIsCountBelow(lens: Str, l: nat)
    requires l <= MAX_HUFCODE_BITS + 1
    ensures Sum(Histogram(lens), l) == CountBelow(lens, l)
  {
    if l > 0 { SumIsCountBelow(lens, l - 1); }
  }

  // ---- correctness when no count wrapped

  lemma {:induction false} FirstBelowMin(lens: Str, minLen: nat, l: nat)
    requires ValidLengths(lens) && forall t :: 0 <= t < |lens| ==> minLen <= lens[t]
    requires 1 <= l <= minLen <= MAX_HUFCODE_BITS
    ensures First(Histogram(lens), l) == 0
  {
    if l > 1 {
      FirstBelowMin(lens, minLen, l - 1);
      AbsentCount(lens, l - 1);
    }
  }

  lemma {:induction false} AbsentCount(lens: Str, c: nat)
    requires forall t :: 0 <= t < |lens| ==> lens[t] != c
    ensures CountOf(lens, c) == 0
  {
    if lens != [] {
      AbsentCount(lens[..|lens| - 1], c);
      CountOfSnoc(lens, c);
    }
  }

  /** A codeword lies inside its length's block of the code space. */
  lemma CodewordRange(lens: Str, t: nat)
    requires ValidLengths(lens) && t < |lens|
    ensures First(Histogram(lens), lens[t]) <= Codeword(lens, t)
            < First(Histogram(lens), lens[t]) + Histogram(lens)[lens[t]]
  {
    CountOfPrefix(lens, t, |lens|, lens[t]);
    assert lens[..|lens|] == lens;
  }

  /** Bits that start with t's codeword are scanned to exactly t's length. */
  lemma ScanFindsLength(lens: Str, minLen: nat, maxLen: nat, j: nat, t: nat)
    requires ValidLengths(lens) && t < |lens| && 1 <= minLen <= lens[t] <= maxLen <= MAX_HUFCODE_BITS
    requires StartsWith(lens, maxLen, j, t)
    ensures Scan(Histogram(lens), minLen, maxLen, j) == lens[t]
  {
    var h, l := Histogram(lens), lens[t];
    CodewordRange(lens, t);
    ShrBounds(j, maxLen - l, First(h, l));
    ShrBounds(j, maxLen - l, First(h, l) + h[l]);
    var s := Scan(h, minLen, maxLen, j);
    assert j < Used(h, l, maxLen);
    if s < l {
      UsedMonotone(h, s, l, maxLen);
    }
  }

  /** Decoding reads back the symbol and its length, whatever bits follow the codeword. */
  lemma DecodeCodeword(lens: Str, permute: seq<nat>, minLen: nat, maxLen: nat, j: nat, t: nat)
    requires ValidLengths(lens) && t < |lens| && 1 <= minLen <= lens[t] <= maxLen <= MAX_HUFCODE_BITS
    requires |permute| >= |lens| && IsStableOrder(lens, permute[..|lens|])
    requires StartsWith(lens, maxLen, j, t)
    ensures Decode(Histogram(lens), permute, minLen, maxLen, j) == Symbol(t, lens[t])
  {
    ScanFindsLength(lens, minLen, maxLen, j, t);
    SumIsCountBelow(lens, lens[t]);
    assert permute[..|lens|][Landing(lens, t)] == t;
  }

  /** The bits up to the length found lie in that length's block of the code space. */
  lemma ScannedCode(c: seq<nat>, minLen: nat, maxLen: nat, j: nat)
    requires 1 <= minLen <= maxLen < |c| && First(c, minLen) == 0 && Scan(c, minLen, maxLen, j) <= maxLen
    ensures var l := Scan(c, minLen, maxLen, j); First(c, l) <= Shr(j, maxLen - l) < First(c, l) + c[l]
  {
    var l := Scan(c, minLen, maxLen, j);
    ShrBounds(j, maxLen - l, First(c, l) + c[l]);
    ShrBounds(j, maxLen - l, First(c, l));
    if l > minLen { UsedIsNextFirst(c, l - 1, maxLen); }
  }

  /** Conversely, every symbol decoded was spelled by its codeword: other bit patterns are rejected. */
  lemma DecodedWasCodeword(lens: Str, permute: seq<nat>, minLen: nat, maxLen: nat, j: nat)
    requires ValidLengths(lens) && Extremes(lens, minLen, maxLen)
    requires |permute| >= |lens| && IsStableOrder(lens, permute[..|lens|])
    ensures
      var d := Decode(Histogram(lens), permute, minLen, maxLen, j);
      d.Symbol? ==> d.sym < |lens| && lens[d.sym] == d.bits && StartsWith(lens, maxLen, j, d.sym)
  {
    var h := Histogram(lens);
    var l := Scan(h, minLen, maxLen, j);
    if l <= maxLen {
      var code := Shr(j, maxLen - l);
      FirstBelowMin(lens, minLen, minLen);
      ScannedCode(h, minLen, maxLen, j);
      SumIsCountBelow(lens, l);
      var index := CountBelow(lens, l) + (code - First(h, l));
      assert index < CountBelow(lens, l + 1);
      CountBelowMonotone(lens, l + 1, l + MAX_SYMBOLS);
      CountBelowAll(lens, l + MAX_SYMBOLS);
      SlotLength(lens, permute[..|lens|], index, l);
    }
  }

  /** Slots between the offsets of length l hold the symbols of length l. */
  lemma SlotLength(lens: Str, order: seq<nat>, index: nat, l: nat)
    requires IsStableOrder(lens, order) && l < 256
    requires CountBelow(lens, l) <= index < CountBelow(lens, l + 1) <= |lens|
    ensures order[index] < |lens| && lens[order[index]] == l
    ensures index == CountBelow(lens, l) + CountOf(lens[..order[index]], l)
  {
    OrderIsPermutation(lens, order, index);
    var t := order[index];
    LandingInRange(lens, t);
    if lens[t] < l { CountBelowMonotone(lens, lens[t] as int + 1, l); }
    if lens[t] > l { CountBelowMonotone(lens, l + 1, lens[t]); }
  }

  // ---- counts are kept in unsigned char: what happens when a length has 256 symbols or more

  /** temp[] after the counting loop. */
  function Wrapped(h: seq<nat>): (c: seq<nat>)
    ensures |c| == |h|
    ensures forall l :: 0 <= l < |h| ==> c[l] == h[l] % 256
  {
    seq(|h|, l requires 0 <= l < |h| => h[l] % 256)
  }

  /** Code space used by symbols of length at most l, in units of 2^-top. */
  function KraftUpto(lens: Str, l: nat, top: nat): nat
    requires forall t :: 0 <= t < |lens| ==> lens[t] <= top
  {
    if lens == [] then 0
    else KraftUpto(lens[..|lens| - 1], l, top) + var x := lens[|lens| - 1]; if x <= l then Shl(1, top - x) else 0
  }

  lemma {:induction false} KraftUptoStep(lens: Str, l: nat, top: nat)
    requires forall t :: 0 <= t < |lens| ==> lens[t] <= top
    requires 1 <= l <= top
    ensures KraftUpto(lens, l, top) == KraftUpto(lens, l - 1, top) + Shl(CountOf(lens, l), top - l)
  {
    if lens == [] {
      ShlZero(top - l);
    } else {
      CountOfSnoc(lens, l);
      KraftUptoStep(lens[..|lens| - 1], l, top);
      ShlAdd(CountOf(lens[..|lens| - 1], l), 1, top - l);
    }
  }

  lemma {:induction false} KraftUptoBound(lens: Str, l: nat, top: nat)
    requires forall t :: 0 <= t < |lens| ==> 1 <= lens[t] <= top
    ensures KraftUpto(lens, l, top) <= Kraft(lens, top)
    ensures l == 0 ==> KraftUpto(lens, l, top) == 0
  {
    if lens != [] { KraftUptoBound(lens[..|lens| - 1], l, top); }
  }

  lemma {:induction false} UsedIsKraft(lens: Str, l: nat, top: nat)
    requires ValidLengths(lens) && forall t :: 0 <= t < |lens| ==> lens[t] <= top
    requires 1 <= l <= top <= MAX_HUFCODE_BITS
    ensures Used(Histogram(lens), l, top) == KraftUpto(lens, l, top)
  {
    var h := Histogram(lens);
    KraftUptoStep(lens, l, top);
    ShlAdd(First(h, l), h[l], top - l);
    if l == 1 {
      ShlZero(top - 1);
      KraftUptoBound(lens, 0, top);
    } else {
      UsedIsKraft(lens, l - 1, top);
      UsedIsNextFirst(h, l - 1, top);
    }
  }

  lemma UsedWithinKraft(lens: Str, l: nat, top: nat)
    requires ValidLengths(lens) && forall t :: 0 <= t < |lens| ==> lens[t] <= top
    requires 1 <= l <= top <= MAX_HUFCODE_BITS
    ensures Used(Histogram(lens), l, top) <= Kraft(lens, top)
  {
    UsedIsKraft(lens, l, top);
    KraftUptoBound(lens, l, top);
  }

  lemma UsedFits(count: seq<nat>, l: nat, top: nat, bound: nat)
    requires 1 <= l <= top < |count| && Used(count, l, top) <= bound <= Shl(1, top)
    ensures First(count, l) + count[l] <= Shl(1, l)
  {
    ShlFits(First(count, l) + count[l], l, top);
  }

  /** Within the Kraft bound every codeword fits in its length. */
  lemma CodewordFits(lens: Str, l: nat, top: nat)
    requires ValidLengths(lens) && forall t :: 0 <= t < |lens| ==> lens[t] <= top
    requires 1 <= l <= top <= MAX_HUFCODE_BITS && Kraft(lens, top) <= Shl(1, top)
    ensures First(Histogram(lens), l) + Histogram(lens)[l] <= Shl(1, l)
  {
    UsedWithinKraft(lens, l, top);
    UsedFits(Histogram(lens), l, top, Kraft(lens, top));
  }

  lemma {:induction false} LastOf(lens: Str, l: nat) returns (t: nat)
    requires CountOf(lens, l) > 0
    ensures t < |lens| && lens[t] == l && CountOf(lens[..t], l) == CountOf(lens, l) - 1
  {
    if lens == [] { AbsentCount(lens, l); }
    CountOfSnoc(lens, l);
    if lens[|lens| - 1] == l {
      t := |lens| - 1;
    } else {
      t := LastOf(lens[..|lens| - 1], l);
      assert lens[..|lens| - 1][..t] == lens[..t];
    }
  }

  lemma {:induction false} FirstAgrees(a: seq<nat>, b: seq<nat>, l: nat)
    requires 1 <= l <= |a| == |b| && forall k :: 0 <= k < l ==> a[k] == b[k]
    ensures First(a, l) == First(b, l)
  {
    if l > 1 { FirstAgrees(a, b, l - 1); }
  }

  /** With a wrapped count the last codeword of that length is misread: its length is not found. */
  lemma WrappedMisreads(lens: Str, permute: seq<nat>, minLen: nat, maxLen: nat, l: nat) returns (t: nat, j: nat)
    requires ValidLengths(lens) && Extremes(lens, minLen, maxLen)
    requires Kraft(lens, maxLen) <= Shl(1, maxLen)
    requires 1 <= l <= maxLen && CountOf(lens, l) > 255
    requires forall k :: 0 <= k < l ==> CountOf(lens, k) <= 255
    ensures t < |lens| && j < Shl(1, maxLen) && StartsWith(lens, maxLen, j, t)
    ensures Decode(Wrapped(Histogram(lens)), permute, minLen, maxLen, j) != Symbol(t, lens[t])
  {
    var h := Histogram(lens);
    var c := Wrapped(h);
    t := LastOf(lens, l);
    var code := Codeword(lens, t);
    j := Shl(code, maxLen - l);
    CodewordFits(lens, l, maxLen);
    PadCodeword(code, l, maxLen);
    FirstAgrees(c, h, l);
    ShlOrder(First(c, l) + c[l], code, maxLen - l);
    assert j >= Used(c, l, maxLen);
  }

  lemma LeastWrapped(lens: Str, l: nat) returns (k: nat)
    requires CountOf(lens, l) > 255
    ensures k <= l && CountOf(lens, k) > 255 && forall i :: 0 <= i < k ==> CountOf(lens, i) <= 255
  {
    k := 0;
    while CountOf(lens, k) <= 255
      invariant k <= l && forall i :: 0 <= i < k ==> CountOf(lens, i) <= 255
      decreases l - k
    {
      k := k + 1;
    }
  }

  /** Every codeword is read back as its symbol and its length. */
  ghost predicate ReadsBack(lens: Str, count: seq<nat>, permute: seq<nat>, minLen: nat, maxLen: nat)
    requires ValidLengths(lens) && Extremes(lens, minLen, maxLen) && |count| == MAX_HUFCODE_BITS + 1
  {
    forall t, j {:trigger StartsWith(lens, maxLen, j, t)} ::
      0 <= t < |lens| && 0 <= j < Shl(1, maxLen) && StartsWith(lens, maxLen, j, t)
      ==> Decode(count, permute, minLen, maxLen, j) == Symbol(t, lens[t])
  }

  lemma UnwrappedReads(lens: Str, permute: seq<nat>, minLen: nat, maxLen: nat)
    requires ValidLengths(lens) && Extremes(lens, minLen, maxLen)
    requires |permute| >= |lens| && IsStableOrder(lens, permute[..|lens|])
    requires forall l :: 0 <= l <= MAX_HUFCODE_BITS ==> CountOf(lens, l) <= 255
    ensures ReadsBack(lens, Wrapped(Histogram(lens)), permute, minLen, maxLen)
  {
    assert Wrapped(Histogram(lens)) == Histogram(lens);
    forall t, j | 0 <= t < |lens| && 0 <= j < Shl(1, maxLen) && StartsWith(lens, maxLen, j, t)
      ensures Decode(Histogram(lens), permute, minLen, maxLen, j) == Symbol(t, lens[t])
    {
      DecodeCodeword(lens, permute, minLen, maxLen, j, t);
    }
  }

  /** The decoder is correct on a Kraft-bounded code exactly when no length has more than 255 symbols. */
  lemma CorrectIffCountsFit(lens: Str, permute: seq<nat>, minLen: nat, maxLen: nat)
    requires ValidLengths(lens) && Extremes(lens, minLen, maxLen)
    requires |permute| >= |lens| && IsStableOrder(lens, permute[..|lens|])
    requires Kraft(lens, maxLen) <= Shl(1, maxLen)
    ensures ReadsBack(lens, Wrapped(Histogram(lens)), permute, minLen, maxLen)
            <==> forall l :: 0 <= l <= MAX_HUFCODE_BITS ==> CountOf(lens, l) <= 255
  {
    if forall l :: 0 <= l <= MAX_HUFCODE_BITS ==> CountOf(lens, l) <= 255 {
      UnwrappedReads(lens, permute, minLen, maxLen);
    } else {
      var l :| 0 <= l <= MAX_HUFCODE_BITS && CountOf(lens, l) > 255;
      var k := LeastWrapped(lens, l);
      var u := LastOf(lens, k);
      var t, j := WrappedMisreads(lens, permute, minLen, maxLen, k);
    }
  }

  /** n symbols, all of length 8. */
  function Uniform(n: nat): (lens: Str)
    ensures |lens| == n && forall t :: 0 <= t < n ==> lens[t] == 8
  {
    seq(n, _ => 8)
  }

  lemma {:induction false} UniformCounts(n: nat)
    ensures CountOf(Uniform(n), 8) == n && Kraft(Uniform(n), 8) == n
  {
    if n > 0 {
      UniformCounts(n - 1);
      CountOfSnoc(Uniform(n), 8);
      assert Uniform(n)[..n - 1] == Uniform(n - 1);
    }
  }

  lemma TwoToTheEight()
    ensures Shl(1, 8) == 256
  {}

  /** A concrete failure: the complete code of 256 eight-bit symbols, which meets the Kraft bound with equality. */
  lemma ByteCodeMisread(permute: seq<nat>)
    requires |permute| == MAX_SYMBOLS && IsStableOrder(Uniform(256), permute[..256])
    ensures ValidLengths(Uniform(256)) && Extremes(Uniform(256), 8, 8)
    ensures Kraft(Uniform(256), 8) == Shl(1, 8)
    ensures !ReadsBack(Uniform(256), Wrapped(Histogram(Uniform(256))), permute, 8, 8)
  {
    var lens := Uniform(256);
    UniformCounts(256);
    TwoToTheEight();
    assert lens[0] == 8;
    CorrectIffCountsFit(lens, permute, 8, 8);
  }

  // ---- filling permute[]

  /** Symbols shorter than i, and those of length i before symbol t, are in their slots. */
  ghost predicate Placed(lens: Str, permute: seq<nat>, i: nat, t: nat) {
    forall u :: 0 <= u < |lens| && (lens[u] < i || (lens[u] == i && u < t))
      ==> Landing(lens, u) < |permute| && permute[Landing(lens, u)] == u
  }

  lemma PlaceStep(lens: Str, permute: seq<nat>, i: nat, t: nat)
    requires Placed(lens, permute, i, t) && t < |lens| <= |permute|
    ensures CountOf(lens[..t + 1], i) == CountOf(lens[..t], i) + if lens[t] == i then 1 else 0
    ensures lens[t] != i ==> Placed(lens, permute, i, t + 1)
    ensures lens[t] == i ==>
              var pp := CountBelow(lens, i) + CountOf(lens[..t], i);
              pp < |permute| && Placed(lens, permute[pp := t], i, t + 1)
  {
    CountOfTake(lens, t, i);
    if lens[t] == i {
      LandingInRange(lens, t);
      forall u | 0 <= u < |lens| && (lens[u] < i || (lens[u] == i && u < t))
        ensures Landing(lens, u) != Landing(lens, t)
      {
        LandingOrder(lens, u, t);
      }
    }
  }

  lemma NothingPlaced(lens: Str, permute: seq<nat>, i: nat)
    requires forall t :: 0 <= t < |lens| ==> i <= lens[t]
    ensures Placed(lens, permute, i, 0)
  {}

  lemma AllPlaced(lens: Str, permute: seq<nat>, i: nat)
    requires Placed(lens, permute, i, 0) && |lens| <= |permute| && forall t :: 0 <= t < |lens| ==> lens[t] < i
    ensures IsStableOrder(lens, permute[..|lens|])
  {
    forall u | 0 <= u < |lens| ensures Landing(lens, u) < |lens| { LandingInRange(lens, u); }
  }

  ghost predicate LimitsUpto(limit: seq<int>, c: seq<nat>, minLen: nat, i: nat, maxLen: nat)
    requires 1 <= minLen && i <= maxLen + 1 && maxLen < |c| && maxLen <= |limit|
  {
    forall k :: minLen <= k < i ==> limit[k - 1] == Used(c, k, maxLen) - 1
  }

  ghost predicate BasesUpto(base: seq<int>, c: seq<nat>, minLen: nat, i: nat)
    requires 1 <= minLen && i <= |base| && i <= |c|
  {
    forall k :: minLen < k <= i ==> base[k - 1] == First(c, k) - Sum(c, k)
  }

  lemma LevelStep(limit: seq<int>, base: seq<int>, c: seq<nat>, minLen: nat, i: nat, maxLen: nat)
    requires 1 <= minLen <= i < maxLen < |c| && maxLen <= |limit| && maxLen <= |base|
    requires LimitsUpto(limit, c, minLen, i, maxLen) && BasesUpto(base, c, minLen, i)
    ensures
      var pp, t := First(c, i) + c[i], Sum(c, i) + c[i];
      && LimitsUpto(limit[i - 1 := Shl(pp, maxLen - i) - 1], c, minLen, i + 1, maxLen)
      && BasesUpto(base[i := 2 * pp - t], c, minLen, i + 1)
      && First(c, i + 1) == 2 * pp && Sum(c, i + 1) == t
  {}

  lemma LastLevel(limit: seq<int>, base: seq<int>, c: seq<nat>, minLen: nat, maxLen: nat)
    requires 1 <= minLen <= maxLen < |c| && maxLen < |limit| && maxLen <= |base|
    requires LimitsUpto(limit, c, minLen, maxLen, maxLen) && BasesUpto(base, c, minLen, maxLen)
    ensures LimitsUpto(limit[maxLen := INT_MAX][maxLen - 1 := First(c, maxLen) + c[maxLen] - 1],
                       c, minLen, maxLen + 1, maxLen)
    ensures BasesUpto(base[minLen - 1 := 0], c, minLen, maxLen)
  {}

  // ---- struct group_data

  class GroupData {
    const limit: array<int>    // limit[i - 1] belongs to length i; one extra slot for the sentinel
    const base: array<int>     // base[i - 1] belongs to length i
    const permute: array<nat>
    var minLen: nat
    var maxLen: nat

    constructor ()
      ensures fresh(limit) && fresh(base) && fresh(permute) && Shape()
    {
      limit := new int[MAX_HUFCODE_BITS + 1];
      base := new int[MAX_HUFCODE_BITS];
      permute := new nat[MAX_SYMBOLS];
      minLen, maxLen := 0, 0;
    }

    ghost predicate Shape() {
      && limit.Length == MAX_HUFCODE_BITS + 1 && base.Length == MAX_HUFCODE_BITS && permute.Length == MAX_SYMBOLS
      && limit != base
    }

    /** The tables describe the code with these lengths, through the counts temp. */
    ghost predicate Describes(lens: Str, temp: seq<nat>)
      reads this, limit, base, permute
    {
      && Shape() && ValidLengths(lens) && Extremes(lens, minLen, maxLen) && |temp| == MAX_HUFCODE_BITS + 1
      && LimitsUpto(limit[..], temp, minLen, maxLen + 1, maxLen) && limit[maxLen] == INT_MAX
      && BasesUpto(base[..], temp, minLen, maxLen) && base[minLen - 1] == First(temp, minLen) - Sum(temp, minLen)
      && IsStableOrder(lens, permute[..|lens|])
    }

    /** Largest and smallest length in the group. */
    static method FindExtremes(length: Str) returns (minLen: nat, maxLen: nat)
      requires ValidLengths(length)
      ensures Extremes(length, minLen, maxLen)
    {
      minLen, maxLen := length[0], length[0];
      for i := 1 to |length|
        invariant exists t :: 0 <= t < |length| && length[t] == minLen
        invariant exists t :: 0 <= t < |length| && length[t] == maxLen
        invariant forall t :: 0 <= t < i ==> minLen <= length[t] <= maxLen
      {
        if length[i] > maxLen {
          maxLen := length[i];
        } else if length[i] < minLen {
          minLen := length[i];
        }
      }
    }

    /** permute[]: symbols by increasing length, symbol order within a length. */
    method FillPermute(length: Str)
      requires Shape() && ValidLengths(length) && Extremes(length, minLen, maxLen)
      modifies permute
      ensures IsStableOrder(length, permute[..|length|])
    {
      FillLengths(length);
      AllPlaced(length, permute[..], maxLen + 1);
    }

    method FillLengths(length: Str)
      requires Shape() && ValidLengths(length) && Extremes(length, minLen, maxLen)
      modifies permute
      ensures Placed(length, permute[..], maxLen + 1, 0)
    {
      var pp, i := 0, minLen;
      CountBelowMinimum(length, minLen);
      NothingPlaced(length, permute[..], minLen);
      while i <= maxLen
        invariant minLen <= i <= maxLen + 1 && pp == CountBelow(length, i)
        invariant Placed(length, permute[..], i, 0)
      {
        pp := FillLength(length, i, pp);
        i := i + 1;
      }
    }

    method FillLength(length: Str, i: nat, start: nat) returns (pp: nat)
      requires Shape() && |length| <= MAX_SYMBOLS && i <= MAX_HUFCODE_BITS
      requires start == CountBelow(length, i) && Placed(length, permute[..], i, 0)
      modifies permute
      ensures pp == CountBelow(length, i + 1) && Placed(length, permute[..], i + 1, 0)
    {
      pp := start;
      for t := 0 to |length|
        invariant pp == CountBelow(length, i) + CountOf(length[..t], i)
        invariant Placed(length, permute[..], i, t)
      {
        PlaceStep(length, permute[..], i, t);
        if length[t] == i {
          ghost var before := permute[..];
          permute[pp] := t;
          assert permute[..] == before[pp := t];
          pp := pp + 1;
        }
      }
      assert length[..|length|] == length;
    }

    /** Count symbols coded for at each bit length, in unsigned char counters. */
    static method CountLengths(length: Str) returns (temp: array<Byte>)
      requires ValidLengths(length)
      ensures fresh(temp) && temp.Length == MAX_HUFCODE_BITS + 1 && temp[..] == Wrapped(Histogram(length))
    {
      temp := new Byte[MAX_HUFCODE_BITS + 1](_ => 0);
      for i := 0 to |length|
        invariant forall l :: 0 <= l <= MAX_HUFCODE_BITS ==> temp[l] == CountOf(length[..i], l) % 256
      {
        forall l | 0 <= l <= MAX_HUFCODE_BITS
          ensures CountOf(length[..i + 1], l) == CountOf(length[..i], l) + if length[i] == l then 1 else 0
        {
          CountOfTake(length, i, l);
        }
        temp[length[i]] := (temp[length[i]] as int + 1) % 256;
      }
      assert length[..|length|] == length;
    }

    /** limit[] and base[] from the counts c held in temp[]. */
    method FillLimits(temp: array<Byte>, ghost c: seq<nat>)
      requires Shape() && temp.Length == |c| == MAX_HUFCODE_BITS + 1
      requires forall l :: 0 <= l <= MAX_HUFCODE_BITS ==> temp[l] == c[l]
      requires 1 <= minLen <= maxLen <= MAX_HUFCODE_BITS
      requires First(c, minLen) == 0 && Sum(c, minLen) == 0
      modifies limit, base
      ensures LimitsUpto(limit[..], c, minLen, maxLen + 1, maxLen) && limit[maxLen] == INT_MAX
      ensures BasesUpto(base[..], c, minLen, maxLen) && base[minLen - 1] == First(c, minLen) - Sum(c, minLen)
    {
      var pp := FillLevels(temp, c);
      LastLevel(limit[..], base[..], c, minLen, maxLen);
      ghost var limits, bases := limit[..], base[..];
      limit[maxLen] := INT_MAX;
      limit[maxLen - 1] := pp + temp[maxLen] - 1;
      base[minLen - 1] := 0;
      assert limit[..] == limits[maxLen := INT_MAX][maxLen - 1 := pp + c[maxLen] - 1];
      assert base[..] == bases[minLen - 1 := 0];
    }

    /** All levels but the last. */
    method FillLevels(temp: array<Byte>, ghost c: seq<nat>) returns (pp: nat)
      requires Shape() && temp.Length == |c| == MAX_HUFCODE_BITS + 1
      requires forall l :: 0 <= l <= MAX_HUFCODE_BITS ==> temp[l] == c[l]
      requires 1 <= minLen <= maxLen <= MAX_HUFCODE_BITS
      requires First(c, minLen) == 0 && Sum(c, minLen) == 0
      modifies limit, base
      ensures pp == First(c, maxLen)
      ensures LimitsUpto(limit[..], c, minLen, maxLen, maxLen) && BasesUpto(base[..], c, minLen, maxLen)
    {
      var t: nat, i := 0, minLen;
      pp := 0;
      while i < maxLen
        invariant minLen <= i <= maxLen
        invariant pp == First(c, i) && t == Sum(c, i)
        invariant LimitsUpto(limit[..], c, minLen, i, maxLen) && BasesUpto(base[..], c, minLen, i)
      {
        LevelStep(limit[..], base[..], c, minLen, i, maxLen);
        pp := pp + temp[i];
        t := t + temp[i];
        SetLevel(i, Shl(pp, maxLen - i) - 1, 2 * pp - t);
        pp := 2 * pp;
        i := i + 1;
      }
    }

    method SetLevel(i: nat, lim: int, b: int)
      requires Shape() && 1 <= i < MAX_HUFCODE_BITS
      modifies limit, base
      ensures limit[..] == old(limit[..])[i - 1 := lim]
      ensures base[..] == old(base[..])[i := b]
    {
      limit[i - 1] := lim;
      base[i] := b;
    }

    /** The whole table construction for one group. */
    method Build(length: Str)
      requires Shape() && ValidLengths(length)
      modifies this, limit, base, permute
      ensures Describes(length, Wrapped(Histogram(length)))
    {
      minLen, maxLen := FindExtremes(length);
      FillPermute(length);
      var temp := CountLengths(length);
      EmptyBelowMin(length, minLen, minLen);
      FillLimits(temp, Wrapped(Histogram(length)));
    }

    /** Scan limit[] for the length of the code that starts the bits j. */
    method FindLength(j: nat, ghost lens: Str, ghost temp: seq<nat>) returns (i: nat)
      requires Describes(lens, temp) && j < Shl(1, maxLen)
      ensures minLen <= i <= maxLen + 1 && i == Scan(temp, minLen, maxLen, j)
    {
      MaxBitsFit(maxLen);
      i := minLen;
      while j > limit[i - 1]
        invariant minLen <= i <= maxLen + 1
        invariant Scan(temp, minLen, maxLen, j) == Scan(temp, i, maxLen, j)
        decreases maxLen + 1 - i
      {
        i := i + 1;
      }
    }

    /** Find the length of the next symbol in the maxLen bits j, look it up, and say how many bits to give back. */
    method NextSymbol(j: nat, ghost lens: Str, ghost temp: seq<nat>) returns (d: Decoded, unget: int)
      requires Describes(lens, temp) && j < Shl(1, maxLen)
      ensures d == Decode(temp, permute[..], minLen, maxLen, j)
      ensures d.Symbol? ==> unget == maxLen - d.bits
    {
      var i := FindLength(j, lens, temp);
      unget := maxLen - i;
      if i > maxLen {
        return DataError, unget;
      }
      var index := Shr(j, maxLen - i) - base[i - 1];
      if !(0 <= index < MAX_SYMBOLS) {
        return DataError, unget;
      }
      d := Symbol(permute[index], i);
    }
  }

  lemma {:induction false} EmptyBelowMin(lens: Str, minLen: nat, l: nat)
    requires ValidLengths(lens) && forall t :: 0 <= t < |lens| ==> minLen <= lens[t]
    requires l <= minLen <= MAX_HUFCODE_BITS
    ensures Sum(Wrapped(Histogram(lens)), l) == 0
    ensures l >= 1 ==> First(Wrapped(Histogram(lens)), l) == 0
  {
    if l > 0 {
      EmptyBelowMin(lens, minLen, l - 1);
      AbsentCount(lens, l - 1);
    }
  }

  lemma MaxBitsFit(n: nat)
    requires n <= MAX_HUFCODE_BITS
    ensures Shl(1, n) <= 0x10_0000
  {
    ShlShl(1, n, MAX_HUFCODE_BITS - n);
    ShlShl(1, 5, 5);
    ShlShl(1, 10, 5);
    ShlShl(1, 15, 5);
    ShlGrows(Shl(1, n), MAX_HUFCODE_BITS - n);
  }

  lemma {:induction false} CountBelowMinimum(lens: Str, l: nat)
    requires forall t :: 0 <= t < |lens| ==> l <= lens[t]
    ensures CountBelow(lens, l) == 0
  {
    if l > 0 {
      CountBelowMinimum(lens, l - 1);
      AbsentCount(lens, l - 1);
    }
  }
}
