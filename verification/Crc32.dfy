/** The little-endian CRC-32 as a linear map: bit steps, multiplication modulo the polynomial, append and combine. */
module CrcCore {
  import opened Bytes
  import opened Bits

  /** One bit: multiply by x modulo the polynomial. */
  function Step(c: nat, poly: nat): nat {
    Xor(c / 2, Reduction(c % 2, poly))
  }

  /** What is added when the bit shifted out is set. */
  function Reduction(bit: nat, poly: nat): nat {
    if bit == 1 then poly else 0
  }

  function Steps(c: nat, n: nat, poly: nat): nat {
    if n == 0 then c else Step(Steps(c, n - 1, poly), poly)
  }

  // ---- linearity

  lemma ReductionLinear(a: nat, b: nat, poly: nat)
    ensures Xor(Reduction(a % 2, poly), Reduction(b % 2, poly)) == Reduction((a + b) % 2, poly)
  {
    XorZero(poly);
    XorSelf(poly);
    XorZero(0);
  }

  lemma StepLinear(a: nat, b: nat, poly: nat)
    ensures Step(Xor(a, b), poly) == Xor(Step(a, poly), Step(b, poly))
  {
    var h, k, p, q := a / 2, b / 2, Reduction(a % 2, poly), Reduction(b % 2, poly);
    calc {
      Step(Xor(a, b), poly);
      { XorHalf(a, b); }
      Xor(Xor(h, k), Reduction((a + b) % 2, poly));
      { ReductionLinear(a, b, poly); }
      Xor(Xor(h, k), Xor(p, q));
      { XorShuffle(h, k, p, q); }
      Xor(Xor(h, p), Xor(k, q));
    }
  }

  lemma {:induction false} StepsLinear(a: nat, b: nat, n: nat, poly: nat)
    ensures Steps(Xor(a, b), n, poly) == Xor(Steps(a, n, poly), Steps(b, n, poly))
  {
    if n > 0 {
      StepsLinear(a, b, n - 1, poly);
      StepLinear(Steps(a, n - 1, poly), Steps(b, n - 1, poly), poly);
    }
  }

  lemma {:induction false} StepsAdd(c: nat, m: nat, n: nat, poly: nat)
    ensures Steps(c, m + n, poly) == Steps(Steps(c, m, poly), n, poly)
  {
    if n > 0 { StepsAdd(c, m, n - 1, poly); }
  }

  lemma StepsOne(c: nat, poly: nat)
    ensures Steps(c, 1, poly) == Step(c, poly)
  {
    assert Steps(c, 0, poly) == c;
  }

  lemma {:induction false} StepsZero(n: nat, poly: nat)
    ensures Steps(0, n, poly) == 0
  {
    if n > 0 { StepsZero(n - 1, poly); }
  }

  lemma StepEven(c: nat, poly: nat)
    ensures Step(2 * c, poly) == c
  {
    XorZero(c);
  }

  /** k zero bits are shifted out without reduction. */
  lemma {:induction false} ShiftOut(x: nat, k: nat, poly: nat)
    ensures Steps(Shl(x, k), k, poly) == x
  {
    if k > 0 {
      StepsAdd(Shl(x, k), 1, k - 1, poly);
      StepsOne(Shl(x, k), poly);
      StepEven(Shl(x, k - 1), poly);
      ShiftOut(x, k - 1, poly);
    }
  }

  lemma StepBound(c: nat, poly: nat, k: nat)
    requires c < Shl(1, k) && poly < Shl(1, k)
    ensures Step(c, poly) < Shl(1, k)
  {
    XorBound(c / 2, Reduction(c % 2, poly), k);
  }

  lemma {:induction false} StepsBound(c: nat, n: nat, poly: nat, k: nat)
    requires c < Shl(1, k) && poly < Shl(1, k)
    ensures Steps(c, n, poly) < Shl(1, k)
  {
    if n > 0 {
      StepsBound(c, n - 1, poly, k);
      StepBound(Steps(c, n - 1, poly), poly, k);
    }
  }

  // ---- the checksum, one bit at a time

  function Feed(crc: nat, b: Byte, poly: nat): nat {
    Steps(Xor(crc, b), 8, poly)
  }

  function Crc(seed: nat, data: seq<Byte>, poly: nat): nat {
    if data == [] then seed else Feed(Crc(seed, data[..|data| - 1], poly), data[|data| - 1], poly)
  }

  // ---- multiplication in GF(2)[x] modulo the polynomial

  /** What bit i of x, the coefficient of x^(w - i), contributes: y shifted by that many bits. */
  function Term(x: nat, y: nat, i: nat, w: nat, poly: nat): nat
    requires i <= w
  {
    if Shr(x, i) % 2 == 1 then Steps(y, w - i, poly) else 0
  }

  /** The sum of the contributions of the n low bits of x. */
  function Terms(x: nat, y: nat, n: nat, w: nat, poly: nat): nat
    requires n <= w + 1
  {
    if n == 0 then 0 else Xor(Terms(x, y, n - 1, w, poly), Term(x, y, n - 1, w, poly))
  }

  /** The product of two words: the sum over the bits of x of y shifted accordingly. */
  function Mul(x: nat, y: nat, poly: nat): nat {
    Terms(x, y, 32, 31, poly)
  }

  /** One more place: all contributions are shifted by one bit. */
  lemma {:induction false} TermsStep(x: nat, y: nat, n: nat, w: nat, poly: nat)
    requires n <= w + 1
    ensures Terms(x, y, n, w + 1, poly) == Step(Terms(x, y, n, w, poly), poly)
  {
    StepEven(0, poly);
    if n > 0 {
      TermsStep(x, y, n - 1, w, poly);
      StepLinear(Terms(x, y, n - 1, w, poly), Term(x, y, n - 1, w, poly), poly);
    }
  }

  /** The sum is linear in y. */
  lemma {:induction false} TermsLinear(x: nat, y: nat, z: nat, n: nat, w: nat, poly: nat)
    requires n <= w + 1
    ensures Terms(x, Xor(y, z), n, w, poly) == Xor(Terms(x, y, n, w, poly), Terms(x, z, n, w, poly))
  {
    XorZero(0);
    if n > 0 {
      TermsLinear(x, y, z, n - 1, w, poly);
      StepsLinear(y, z, w - (n - 1), poly);
      XorShuffle(Terms(x, y, n - 1, w, poly), Terms(x, z, n - 1, w, poly),
                 Term(x, y, n - 1, w, poly), Term(x, z, n - 1, w, poly));
    }
  }

  lemma {:induction false} TermsZero(x: nat, n: nat, w: nat, poly: nat)
    requires n <= w + 1
    ensures Terms(x, 0, n, w, poly) == 0
  {
    XorZero(0);
    if n > 0 {
      TermsZero(x, n - 1, w, poly);
      StepsZero(w - (n - 1), poly);
    }
  }

  lemma {:induction false} TermsSteps(x: nat, y: nat, k: nat, n: nat, w: nat, poly: nat)
    requires n <= w + 1
    ensures Terms(x, Steps(y, k, poly), n, w, poly) == Steps(Terms(x, y, n, w, poly), k, poly)
    decreases n
  {
    StepsZero(k, poly);
    if n > 0 {
      var i := n - 1;
      TermsSteps(x, y, k, i, w, poly);
      StepsLinear(Terms(x, y, i, w, poly), Term(x, y, i, w, poly), k, poly);
      StepsAdd(y, k, w - i, poly);
      StepsAdd(y, w - i, k, poly);
    }
  }

  /** x modulo 2^n, bit by bit. */
  function LowBits(x: nat, n: nat): nat {
    if n == 0 then 0 else LowBits(x, n - 1) + if Shr(x, n - 1) % 2 == 1 then Shl(1, n - 1) else 0
  }

  lemma {:induction false} LowBitsSplit(x: nat, n: nat)
    ensures x == LowBits(x, n) + Shl(Shr(x, n), n) && LowBits(x, n) < Shl(1, n)
  {
    if n > 0 {
      LowBitsSplit(x, n - 1);
      var q := Shr(x, n - 1);
      ShlDouble(q / 2, n - 1);
      ShlZero(n - 1);
      ShlAdd(2 * (q / 2), q % 2, n - 1);
    }
  }

  lemma LowBitsAll(x: nat, n: nat)
    requires x < Shl(1, n)
    ensures LowBits(x, n) == x
  {
    LowBitsSplit(x, n);
    ShrBounds(x, n, 1);
    ShlZero(n);
  }

  /** A new top bit is added without touching the lower ones. */
  lemma LowBitsXor(x: nat, n: nat)
    requires n > 0
    ensures LowBits(x, n) == Xor(LowBits(x, n - 1), if Shr(x, n - 1) % 2 == 1 then Shl(1, n - 1) else 0)
  {
    var low := LowBits(x, n - 1);
    LowBitsSplit(x, n - 1);
    XorZero(low);
    XorDisjoint(1, low, n - 1);
    XorComm(low, Shl(1, n - 1));
  }

  /** The unit x^0, shifted down to bit i. */
  lemma UnitShifted(i: nat, w: nat, poly: nat)
    requires i <= w
    ensures Steps(Shl(1, w), w - i, poly) == Shl(1, i)
  {
    ShlShl(1, i, w - i);
    ShiftOut(Shl(1, i), w - i, poly);
  }

  lemma {:induction false} TermsUnit(x: nat, n: nat, w: nat, poly: nat)
    requires n <= w + 1
    ensures Terms(x, Shl(1, w), n, w, poly) == LowBits(x, n)
  {
    if n > 0 {
      TermsUnit(x, n - 1, w, poly);
      UnitShifted(n - 1, w, poly);
      LowBitsXor(x, n);
    }
  }

  /** x^0 is the unit. */
  lemma MulUnit(x: nat, poly: nat)
    requires x < Shl(1, 32)
    ensures Mul(x, Shl(1, 31), poly) == x
  {
    TermsUnit(x, 32, 31, poly);
    LowBitsAll(x, 32);
  }

  /** Multiplying by x commutes with multiplication. */
  lemma MulSteps(x: nat, y: nat, n: nat, poly: nat)
    ensures Mul(x, Steps(y, n, poly), poly) == Steps(Mul(x, y, poly), n, poly)
  {
    TermsSteps(x, y, n, 32, 31, poly);
  }

  /** The product is linear in its second factor, and since it commutes, in its first. */
  lemma MulLinear(x: nat, y: nat, z: nat, poly: nat)
    ensures Mul(x, Xor(y, z), poly) == Xor(Mul(x, y, poly), Mul(x, z, poly))
  {
    TermsLinear(x, y, z, 32, 31, poly);
  }

  /** A single bit as second factor shifts x. */
  lemma TermsBit(x: nat, i: nat, w: nat, poly: nat)
    requires i <= w && x < Shl(1, w + 1)
    ensures Terms(x, Shl(1, i), w + 1, w, poly) == Steps(x, w - i, poly)
  {
    UnitShifted(i, w, poly);
    TermsSteps(x, Shl(1, w), w - i, w + 1, w, poly);
    TermsUnit(x, w + 1, w, poly);
    LowBitsAll(x, w + 1);
  }

  /** Summing over the low bits of y instead of the bits of x. */
  lemma {:induction false} TermsSwap(x: nat, y: nat, n: nat, w: nat, poly: nat)
    requires n <= w + 1 && x < Shl(1, w + 1)
    ensures Terms(x, LowBits(y, n), w + 1, w, poly) == Terms(y, x, n, w, poly)
    decreases n
  {
    if n == 0 {
      TermsZero(x, w + 1, w, poly);
    } else {
      var i := n - 1;
      var bit := if Shr(y, i) % 2 == 1 then Shl(1, i) else 0;
      TermsSwap(x, y, i, w, poly);
      LowBitsXor(y, n);
      TermsLinear(x, LowBits(y, i), bit, w + 1, w, poly);
      TermsZero(x, w + 1, w, poly);
      TermsBit(x, i, w, poly);
    }
  }

  lemma MulCommutes(x: nat, y: nat, poly: nat)
    requires x < Shl(1, 32) && y < Shl(1, 32)
    ensures Mul(x, y, poly) == Mul(y, x, poly)
  {
    TermsSwap(x, y, 32, 31, poly);
    LowBitsAll(y, 32);
  }

  /** x^n modulo the polynomial. */
  function Power(n: nat, poly: nat): nat {
    Steps(Shl(1, 31), n, poly)
  }

  /** Multiplying by x^n is shifting by n bits. */
  lemma MulPower(c: nat, n: nat, poly: nat)
    requires c < Shl(1, 32)
    ensures Mul(c, Power(n, poly), poly) == Steps(c, n, poly)
  {
    MulSteps(c, Shl(1, 31), n, poly);
    MulUnit(c, poly);
  }

  /** Squaring doubles the exponent. */
  lemma PowerDouble(n: nat, poly: nat)
    requires poly < Shl(1, 32)
    ensures Mul(Power(n, poly), Power(n, poly), poly) == Power(2 * n, poly)
  {
    ShlOrder(2, 1, 31);
    ShlDouble(1, 31);
    StepsBound(Shl(1, 31), n, poly, 32);
    MulPower(Power(n, poly), n, poly);
    StepsAdd(Shl(1, 31), n, n, poly);
  }

  /** The polynomial constant is x^32. */
  lemma PolyIsPower32(poly: nat)
    ensures Power(32, poly) == poly
  {
    ShiftOut(1, 31, poly);
    StepsAdd(Shl(1, 31), 31, 1, poly);
    StepsOne(1, poly);
    XorZero(poly);
  }

  // ---- append and combine

  function Zeros(n: nat): (z: seq<Byte>)
    ensures |z| == n && forall i :: 0 <= i < n ==> z[i] == 0
  {
    seq(n, _ => 0)
  }

  lemma {:induction false} CrcZeros(c: nat, n: nat, poly: nat)
    ensures Crc(c, Zeros(n), poly) == Steps(c, 8 * n, poly)
  {
    if n > 0 {
      CrcZeros(c, n - 1, poly);
      assert Zeros(n)[..n - 1] == Zeros(n - 1);
      XorZero(Steps(c, 8 * (n - 1), poly));
      StepsAdd(c, 8 * (n - 1), 8, poly);
    }
  }

  lemma {:induction false} CrcAppend(seed: nat, a: seq<Byte>, b: seq<Byte>, poly: nat)
    ensures Crc(seed, a + b, poly) == Crc(Crc(seed, a, poly), b, poly)
  {
    if b == [] {
      assert a + b == a;
    } else {
      CrcAppend(seed, a, b[..|b| - 1], poly);
      assert (a + b)[..|a + b| - 1] == a + b[..|b| - 1];
    }
  }

  /** The seed only adds its shifted self to the checksum. */
  lemma {:induction false} CrcSeed(seed: nat, data: seq<Byte>, poly: nat)
    ensures Crc(seed, data, poly) == Xor(Steps(seed, 8 * |data|, poly), Crc(0, data, poly))
  {
    if data == [] {
      XorZero(seed);
    } else {
      var d, b := data[..|data| - 1], data[|data| - 1];
      CrcSeed(seed, d, poly);
      var x, z := Steps(seed, 8 * |d|, poly), Crc(0, d, poly);
      XorAssoc(x, z, b);
      StepsLinear(x, Xor(z, b), 8, poly);
      StepsAdd(seed, 8 * |d|, 8, poly);
    }
  }

  /** Checksums of two halves combine: shift the first past the second's length and add. */
  lemma CrcCombine(seed: nat, a: seq<Byte>, b: seq<Byte>, poly: nat)
    ensures Crc(seed, a + b, poly) == Xor(Crc(Crc(seed, a, poly), Zeros(|b|), poly), Crc(0, b, poly))
  {
    CrcAppend(seed, a, b, poly);
    CrcSeed(Crc(seed, a, poly), b, poly);
    CrcZeros(Crc(seed, a, poly), |b|, poly);
  }
}

/** crc32_generic_shift and gf2_multiply. */
module CrcShift {
  import opened Bytes
  import opened Bits
  import opened CrcCore

  /** gf2_multiply: the product of two polynomials. */
  method Gf2Multiply(x0: nat, y: nat, modulus: nat) returns (product: nat)
    ensures product == Mul(x0, y, modulus)
  {
    product := Accumulate(x0, y, 31, modulus);
  }

  /** The loop of gf2_multiply for words of w + 1 bits: after round i the low i + 1 bits of x are accounted for. */
  method Accumulate(x0: nat, y: nat, w: nat, modulus: nat) returns (product: nat)
    ensures product == Terms(x0, y, w + 1, w, modulus)
  {
    var x := x0;
    product := if x % 2 == 1 then y else 0;
    FirstTerm(x0, y, modulus);
    for i := 0 to w
      invariant product == Terms(x0, y, i + 1, i, modulus) && x == Shr(x0, i)
    {
      TermsStep(x0, y, i + 1, i, modulus);
      product := Xor(product / 2, if product % 2 == 1 then modulus else 0);
      x := x / 2;
      product := Xor(product, if x % 2 == 1 then y else 0);
    }
  }

  lemma FirstTerm(x: nat, y: nat, poly: nat)
    ensures Terms(x, y, 1, 0, poly) == if x % 2 == 1 then y else 0
  {
    assert Terms(x, y, 0, 0, poly) == 0 && Shr(x, 0) == x && Steps(y, 0, poly) == y;
    XorComm(0, y);
    XorZero(y);
    XorZero(0);
  }

  /** Shift n bits in the simple linear way. */
  method ShiftBits(crc0: nat, n: nat, polynomial: nat) returns (crc: nat)
    ensures crc == Steps(crc0, n, polynomial)
  {
    crc := crc0;
    for i := 0 to n
      invariant crc == Steps(crc0, i, polynomial)
    {
      crc := Xor(crc / 2, if crc % 2 == 1 then polynomial else 0);
    }
  }

  /** Multiplying by x^n shifts by n bits. */
  method ShiftBy(crc: nat, power: nat, ghost n: nat, polynomial: nat) returns (r: nat)
    requires crc < Shl(1, 32) && power == Power(n, polynomial)
    ensures r == Steps(crc, n, polynomial)
  {
    MulPower(crc, n, polynomial);
    r := Gf2Multiply(crc, power, polynomial);
  }

  method Square(power: nat, ghost n: nat, polynomial: nat) returns (r: nat)
    requires polynomial < Shl(1, 32) && power == Power(n, polynomial)
    ensures r == Power(2 * n, polynomial)
  {
    PowerDouble(n, polynomial);
    r := Gf2Multiply(power, power, polynomial);
  }

  /** Shift n words by multiplying with repeatedly squared powers of x. */
  method ShiftWords(crc0: nat, n: nat, polynomial: nat) returns (crc: nat)
    requires crc0 < Shl(1, 32) && polynomial < Shl(1, 32) && n > 0
    ensures crc == Steps(crc0, 32 * n, polynomial)
  {
    var power, len := polynomial, n;
    crc := crc0;
    PolyIsPower32(polynomial);
    TimesIsProduct(n, 32);
    ghost var done: nat, unit: nat := 0, 32;  // bits shifted so far; power is x^unit
    while true
      invariant len > 0 && done + Times(len, unit) == 32 * n
      invariant crc == Steps(crc0, done, polynomial) && power == Power(unit, polynomial)
      decreases len
    {
      if len % 2 == 1 {
        StepsBound(crc0, done, polynomial, 32);
        StepsAdd(crc0, done, unit, polynomial);
        crc := ShiftBy(crc, power, unit, polynomial);
      }
      done := if len % 2 == 1 then done + unit else done;
      len := len / 2;
      if len == 0 {
        return;
      }
      power := Square(power, unit, polynomial);
      unit := 2 * unit;
    }
  }

  /** crc32_generic_shift: append len zero bytes in logarithmic time. */
  method GenericShift(crc0: nat, len: nat, polynomial: nat) returns (crc: nat)
    requires crc0 < Shl(1, 32) && polynomial < Shl(1, 32)
    ensures crc == Crc(crc0, Zeros(len), polynomial)
  {
    CrcZeros(crc0, len, polynomial);
    var bits, words := 8 * (len % 4), len / 4;
    StepsAdd(crc0, bits, 32 * words, polynomial);
    StepsBound(crc0, bits, polynomial, 32);
    crc := ShiftBits(crc0, bits, polynomial);
    if words == 0 {
      return;
    }
    crc := ShiftWords(crc, words, polynomial);
  }

  /** len * unit, by repeated doubling of unit. */
  function Times(len: nat, unit: nat): nat {
    if len == 0 then 0 else (if len % 2 == 1 then unit else 0) + Times(len / 2, 2 * unit)
  }

  lemma {:induction false} TimesIsProduct(len: nat, unit: nat)
    ensures Times(len, unit) == len * unit
    decreases len
  {
    if len > 0 {
      TimesIsProduct(len / 2, 2 * unit);
      assert (len / 2) * (2 * unit) == (2 * (len / 2)) * unit;
      assert len == 2 * (len / 2) + len % 2;
    }
  }
}
