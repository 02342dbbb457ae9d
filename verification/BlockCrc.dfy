/** The block checksum of bzip2: a CRC with the most significant bit first, for words of w + 1 bits. */
module BlockCrc {
  import opened Bytes
  import opened Bits

  predicate Top(c: nat, w: nat) { c >= Shl(1, w) }

  /** The word without its top bit. */
  function Rest(c: nat, w: nat): nat {
    if Top(c, w) then c - Shl(1, w) else c
  }

  function Reduction(top: bool, poly: nat): nat { if top then poly else 0 }

  /** One bit: shift left, and add the polynomial if the bit shifted out was set. */
  function Step(c: nat, w: nat, poly: nat): nat {
    Xor(2 * Rest(c, w), Reduction(Top(c, w), poly))
  }

  function Steps(c: nat, n: nat, w: nat, poly: nat): nat {
    if n == 0 then c else Step(Steps(c, n - 1, w, poly), w, poly)
  }

  /** A byte, fed one bit at a time at the top of a 32-bit word. */
  function Feed(crc: nat, b: Byte, poly: nat): nat {
    Steps(Xor(crc, Shl(b, 24)), 8, 31, poly)
  }

  function Crc(seed: nat, data: seq<Byte>, poly: nat): nat {
    if data == [] then seed else Feed(Crc(seed, data[..|data| - 1], poly), data[|data| - 1], poly)
  }

  lemma CrcSnoc(seed: nat, data: seq<Byte>, b: Byte, poly: nat)
    ensures Crc(seed, data + [b], poly) == Feed(Crc(seed, data, poly), b, poly)
  {
    assert (data + [b])[..|data|] == data;
  }

  /** A checksum can be taken up where another stopped. */
  lemma {:induction false} CrcAppend(seed: nat, a: seq<Byte>, b: seq<Byte>, poly: nat)
    ensures Crc(seed, a + b, poly) == Crc(Crc(seed, a, poly), b, poly)
    decreases |b|
  {
    if b == [] {
      assert a + b == a;
    } else {
      CrcAppend(seed, a, b[..|b| - 1], poly);
      assert a + b == (a + b[..|b| - 1]) + [b[|b| - 1]];
      CrcSnoc(seed, a + b[..|b| - 1], b[|b| - 1], poly);
    }
  }

  // ---- linearity

  lemma {:induction false} XorShl(a: nat, b: nat, k: nat)
    ensures Xor(Shl(a, k), Shl(b, k)) == Shl(Xor(a, b), k)
  {
    if k > 0 {
      XorShl(a, b, k - 1);
      XorDouble(Shl(a, k - 1), 0, Shl(b, k - 1), 0);
    }
  }

  /** Words in two parts add up part by part. */
  lemma XorParts(a: nat, b: nat, h: nat, l: nat, k: nat, m: nat, w: nat)
    requires l < Shl(1, w) && m < Shl(1, w) && a == Shl(h, w) + l && b == Shl(k, w) + m
    ensures Xor(a, b) == Shl(Xor(h, k), w) + Xor(l, m) && Xor(l, m) < Shl(1, w)
  {
    XorDisjoint(h, l, w);
    XorDisjoint(k, m, w);
    assert a == Xor(Shl(h, w), l) && b == Xor(Shl(k, w), m);
    XorShuffle(Shl(h, w), l, Shl(k, w), m);
    XorShl(h, k, w);
    XorBound(l, m, w);
    XorDisjoint(Xor(h, k), Xor(l, m), w);
  }

  function TopBit(c: nat, w: nat): nat { if Top(c, w) then 1 else 0 }

  lemma PartsOf(c: nat, w: nat)
    requires c < Shl(1, w + 1)
    ensures c == Shl(TopBit(c, w), w) + Rest(c, w) && Rest(c, w) < Shl(1, w)
  {
    ShlZero(w);
  }

  lemma XorBits(h: nat, k: nat)
    requires h <= 1 && k <= 1
    ensures Xor(h, k) == if h == k then 0 else 1
  {
    XorZero(h);
    XorZero(k);
    XorSelf(h);
  }

  lemma TopAndRest(c: nat, h: nat, l: nat, w: nat)
    requires h <= 1 && l < Shl(1, w) && c == Shl(h, w) + l
    ensures (Top(c, w) <==> h == 1) && Rest(c, w) == l
  {
    ShlZero(w);
  }

  /** Exclusive or acts on the top bit and on the rest separately. */
  lemma XorTop(a: nat, b: nat, w: nat)
    requires a < Shl(1, w + 1) && b < Shl(1, w + 1)
    ensures Top(Xor(a, b), w) <==> Top(a, w) != Top(b, w)
    ensures Rest(Xor(a, b), w) == Xor(Rest(a, w), Rest(b, w))
  {
    var h, l, k, m := TopBit(a, w), Rest(a, w), TopBit(b, w), Rest(b, w);
    PartsOf(a, w);
    PartsOf(b, w);
    XorParts(a, b, h, l, k, m, w);
    XorBits(h, k);
    TopAndRest(Xor(a, b), Xor(h, k), Xor(l, m), w);
  }

  lemma ReductionLinear(s: bool, t: bool, poly: nat)
    ensures Xor(Reduction(s, poly), Reduction(t, poly)) == Reduction(s != t, poly)
  {
    XorZero(poly);
    XorZero(0);
    XorSelf(poly);
  }

  lemma StepLinear(a: nat, b: nat, w: nat, poly: nat)
    requires a < Shl(1, w + 1) && b < Shl(1, w + 1)
    ensures Step(Xor(a, b), w, poly) == Xor(Step(a, w, poly), Step(b, w, poly))
  {
    var x, y, s, t := Rest(a, w), Rest(b, w), Top(a, w), Top(b, w);
    calc {
      Step(Xor(a, b), w, poly);
      { XorTop(a, b, w); }
      Xor(2 * Xor(x, y), Reduction(s != t, poly));
      { XorDouble(x, 0, y, 0); ReductionLinear(s, t, poly); }
      Xor(Xor(2 * x, 2 * y), Xor(Reduction(s, poly), Reduction(t, poly)));
      { XorShuffle(2 * x, 2 * y, Reduction(s, poly), Reduction(t, poly)); }
      Xor(Xor(2 * x, Reduction(s, poly)), Xor(2 * y, Reduction(t, poly)));
    }
  }

  lemma StepBound(c: nat, w: nat, poly: nat)
    requires c < Shl(1, w + 1) && poly < Shl(1, w + 1)
    ensures Step(c, w, poly) < Shl(1, w + 1)
  {
    XorBound(2 * Rest(c, w), Reduction(Top(c, w), poly), w + 1);
  }

  lemma {:induction false} StepsBound(c: nat, n: nat, w: nat, poly: nat)
    requires c < Shl(1, w + 1) && poly < Shl(1, w + 1)
    ensures Steps(c, n, w, poly) < Shl(1, w + 1)
  {
    if n > 0 {
      StepsBound(c, n - 1, w, poly);
      StepBound(Steps(c, n - 1, w, poly), w, poly);
    }
  }

  lemma {:induction false} StepsLinear(a: nat, b: nat, n: nat, w: nat, poly: nat)
    requires a < Shl(1, w + 1) && b < Shl(1, w + 1) && poly < Shl(1, w + 1)
    ensures Steps(Xor(a, b), n, w, poly) == Xor(Steps(a, n, w, poly), Steps(b, n, w, poly))
  {
    if n > 0 {
      StepsLinear(a, b, n - 1, w, poly);
      StepsBound(a, n - 1, w, poly);
      StepsBound(b, n - 1, w, poly);
      StepLinear(Steps(a, n - 1, w, poly), Steps(b, n - 1, w, poly), w, poly);
    }
  }

  /** As long as the top bits are clear, a word only shifts. */
  lemma {:induction false} ShiftsOnly(lo: nat, n: nat, w: nat, poly: nat)
    requires n <= w + 1 && lo < Shl(1, w + 1 - n)
    ensures Steps(lo, n, w, poly) == Shl(lo, n)
    decreases n
  {
    if n > 0 {
      ShlDouble(1, w + 1 - n);
      ShlAdd(1, 1, w + 1 - n);
      ShiftsOnly(lo, n - 1, w, poly);
      var c := Shl(lo, n - 1);
      ShlShl(1, w + 1 - n, n - 1);
      ShlOrder(Shl(1, w + 1 - n), lo, n - 1);
      XorZero(2 * c);
    }
  }

  // ---- one table lookup for n bits

  lemma LookupParts(hi: nat, lo: nat, b: nat, n: nat, w: nat)
    requires n <= w + 1 && lo < Shl(1, w + 1 - n) && hi < Shl(1, n) && b < Shl(1, n)
    ensures Xor(Shl(hi, w + 1 - n) + lo, Shl(b, w + 1 - n)) == Xor(Shl(Xor(hi, b), w + 1 - n), lo)
    ensures Shl(Xor(hi, b), w + 1 - n) < Shl(1, w + 1) && lo < Shl(1, w + 1)
  {
    var k := w + 1 - n;
    XorDisjoint(hi, lo, k);
    XorZero(Shl(b, k));
    XorShuffle(Shl(hi, k), lo, Shl(b, k), 0);
    XorZero(lo);
    XorShl(hi, b, k);
    XorBound(hi, b, n);
    ShlShl(1, n, k);
    ShlOrder(Shl(1, n), Xor(hi, b), k);
    ShlGrows(1, n);
    ShlOrder(1, Shl(1, n), k);
  }

  /** The word hi:lo with b added at the top, after n bits: the entry for hi + b, plus lo shifted up. */
  lemma Lookup(hi: nat, lo: nat, b: nat, n: nat, w: nat, poly: nat)
    requires n <= w + 1 && lo < Shl(1, w + 1 - n) && hi < Shl(1, n) && b < Shl(1, n) && poly < Shl(1, w + 1)
    ensures Steps(Xor(Shl(hi, w + 1 - n) + lo, Shl(b, w + 1 - n)), n, w, poly)
      == Xor(Steps(Shl(Xor(hi, b), w + 1 - n), n, w, poly), Shl(lo, n))
  {
    LookupParts(hi, lo, b, n, w);
    StepsLinear(Shl(Xor(hi, b), w + 1 - n), lo, n, w, poly);
    ShiftsOnly(lo, n, w, poly);
  }

  // ---- 32-bit words, byte by byte

  /** Eight bits of a word with a byte added at the top: one table entry, plus the other bytes shifted up. */
  lemma FeedIsLookup(crc: nat, b: Byte, poly: nat)
    requires crc < WORD && poly < WORD
    ensures Xor(crc / 0x100_0000, b) < 256
    ensures Feed(crc, b, poly)
      == Xor(Steps(Shl(Xor(crc / 0x100_0000, b), 24), 8, 31, poly), 256 * (crc % 0x100_0000))
  {
    var hi, lo := crc / 0x100_0000, crc % 0x100_0000;
    Powers(hi, lo);
    XorBound(hi, b, 8);
    Lookup(hi, lo, b, 8, 31, poly);
  }

  lemma Powers(hi: nat, lo: nat)
    ensures Shl(1, 8) == 256 && Shl(1, 24) == 0x100_0000 && Shl(1, 32) == WORD && Shl(1, 31) == 0x8000_0000
    ensures Shl(hi, 24) == 0x100_0000 * hi && Shl(lo, 8) == 256 * lo
  {
    Shl32();
    Shl8(1);
    Shl8(lo);
    ShlShl(1, 8, 16);
    ShlShl(1, 8, 8);
    Shl8(0x100);
    ShlShl(1, 16, 8);
    Shl8(0x1_0000);
    ShlShl(hi, 8, 8);
    ShlShl(hi, 16, 8);
    Shl8(hi);
    Shl8(256 * hi);
    Shl8(0x1_0000 * hi);
  }

  lemma FeedBound(crc: nat, b: Byte, poly: nat)
    requires crc < WORD && poly < WORD
    ensures Feed(crc, b, poly) < WORD
  {
    Powers(b, 0);
    XorBound(crc, Shl(b, 24), 32);
    StepsBound(Xor(crc, Shl(b, 24)), 8, 31, poly);
  }

  /** crc32Table of bunzip_data. */
  ghost predicate IsTable(table: seq<nat>, poly: nat) {
    |table| == 256 && forall i :: 0 <= i < 256 ==> table[i] == Steps(Shl(i, 24), 8, 31, poly)
  }

  /** n times: c = c & 0x80000000 ? (c << 1) ^ poly : (c << 1), in 32 bits. */
  method ShiftOut(c0: nat, n: nat, poly: nat) returns (c: nat)
    requires c0 < WORD && poly < WORD
    ensures c == Steps(c0, n, 31, poly)
  {
    Powers(0, 0);
    c := c0;
    for j := 0 to n
      invariant c == Steps(c0, j, 31, poly) && c < WORD
    {
      StepsBound(c0, j + 1, 31, poly);
      XorZero(2 * Rest(c, 31));
      c := if c >= 0x8000_0000 then Xor(2 * c - WORD, poly) else 2 * c;
    }
  }

  /** The table set up by start_bunzip. */
  method BuildTable(poly: nat) returns (table: array<nat>)
    requires poly < WORD
    ensures fresh(table) && IsTable(table[..], poly)
  {
    table := new nat[256](_ => 0);
    for i := 0 to 256
      invariant forall k :: 0 <= k < i ==> table[k] == Steps(Shl(k, 24), 8, 31, poly)
    {
      Powers(i, 0);
      table[i] := ShiftOut(0x100_0000 * i, 8, poly);
    }
  }

  /** (crc << 8) ^ table[(crc >> 24) ^ b] */
  method Update(table: array<nat>, crc: nat, b: Byte, ghost poly: nat) returns (r: nat)
    requires IsTable(table[..], poly) && crc < WORD && poly < WORD
    ensures r == Feed(crc, b, poly) && r < WORD
  {
    FeedIsLookup(crc, b, poly);
    FeedBound(crc, b, poly);
    var low, i := 256 * (crc % 0x100_0000), Xor(crc / 0x100_0000, b);
    assert table[..][i] == table[i];
    XorComm(low, table[i]);
    r := Xor(low, table[i]);
  }
}
