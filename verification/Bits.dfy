/** Shifts and exclusive-or of unsigned words, on natural numbers. */
module Bits {
  /** x << k */
  function Shl(x: nat, k: nat): nat {
    if k == 0 then x else 2 * Shl(x, k - 1)
  }

  /** x >> k */
  function Shr(x: nat, k: nat): nat {
    if k == 0 then x else Shr(x, k - 1) / 2
  }

  lemma {:induction false} ShlAdd(a: nat, b: nat, k: nat)
    ensures Shl(a + b, k) == Shl(a, k) + Shl(b, k)
  {
    if k > 0 { ShlAdd(a, b, k - 1); }
  }

  lemma {:induction false} ShlZero(k: nat)
    ensures Shl(0, k) == 0
  {
    if k > 0 { ShlZero(k - 1); }
  }

  lemma {:induction false} ShlOrder(a: nat, b: nat, k: nat)
    ensures a <= b <==> Shl(a, k) <= Shl(b, k)
  {
    if k > 0 { ShlOrder(a, b, k - 1); }
  }

  lemma {:induction false} ShlShl(x: nat, a: nat, b: nat)
    ensures Shl(Shl(x, a), b) == Shl(x, a + b)
  {
    if b > 0 { ShlShl(x, a, b - 1); }
  }

  /** Shifting right by k compares against q as j compares against q << k. */
  lemma {:induction false} ShrBounds(j: nat, k: nat, q: nat)
    ensures Shr(j, k) >= q <==> j >= Shl(q, k)
  {
    if k > 0 {
      ShrBounds(j, k - 1, 2 * q);
      ShlShl(q, 1, k - 1);
      assert Shl(q, 1) == 2 * q by { assert Shl(q, 0) == q; }
    }
  }

  lemma {:induction false} ShrPush(x: nat, b: nat, k: nat)
    requires b < 2
    ensures Shr(2 * x + b, k + 1) == Shr(x, k)
  {
    if k > 0 {
      ShrPush(x, b, k - 1);
    } else {
      assert Shr(2 * x + b, 0) == 2 * x + b;
    }
  }

  lemma {:induction false} ShlDouble(x: nat, k: nat)
    ensures Shl(2 * x, k) == Shl(x, k + 1)
  {
    if k > 0 { ShlDouble(x, k - 1); } else { assert Shl(x, 0) == x; }
  }

  lemma ShlOne(y: nat)
    ensures Shl(y, 1) == 2 * y
  {
    assert Shl(y, 0) == y;
  }

  lemma Shl2(x: nat)
    ensures Shl(x, 2) == 4 * x
  {
    ShlShl(x, 1, 1);
    ShlOne(x);
    ShlOne(2 * x);
  }

  lemma Shl8(x: nat)
    ensures Shl(x, 8) == 256 * x
  {
    ShlShl(x, 2, 2);
    Shl2(x);
    Shl2(4 * x);
    ShlShl(x, 4, 2);
    Shl2(16 * x);
    ShlShl(x, 6, 2);
    Shl2(64 * x);
  }

  /** Number of 32-bit words. */
  const WORD := 0x1_0000_0000

  lemma Shl32()
    ensures Shl(1, 32) == WORD && Shl(1, 31) == 0x8000_0000
  {
    Shl8(1);
    ShlShl(1, 8, 8);
    Shl8(0x100);
    ShlShl(1, 16, 8);
    Shl8(0x1_0000);
    ShlShl(1, 24, 8);
    Shl8(0x100_0000);
    ShlDouble(1, 31);
    ShlAdd(1, 1, 31);
  }

  lemma ShlFits(x: nat, l: nat, top: nat)
    requires l <= top && Shl(x, top - l) <= Shl(1, top)
    ensures x <= Shl(1, l)
  {
    ShlShl(1, l, top - l);
    ShlOrder(x, Shl(1, l), top - l);
  }

  lemma {:induction false} ShlGrows(x: nat, k: nat)
    ensures x <= Shl(x, k)
  {
    if k > 0 { ShlGrows(x, k - 1); }
  }

  /** Exclusive or, bit by bit. */
  function Xor(a: nat, b: nat): nat
    decreases a + b
  {
    if a == 0 && b == 0 then 0 else 2 * Xor(a / 2, b / 2) + (a + b) % 2
  }

  lemma XorHalf(a: nat, b: nat)
    ensures Xor(a, b) / 2 == Xor(a / 2, b / 2)
    ensures Xor(a, b) % 2 == (a + b) % 2
  {}

  lemma {:induction false} XorComm(a: nat, b: nat)
    ensures Xor(a, b) == Xor(b, a)
    decreases a + b
  {
    if a + b > 0 { XorComm(a / 2, b / 2); }
  }

  lemma {:induction false} XorZero(a: nat)
    ensures Xor(a, 0) == a && Xor(0, a) == a
  {
    if a > 0 { XorZero(a / 2); }
  }

  lemma {:induction false} XorSelf(a: nat)
    ensures Xor(a, a) == 0
  {
    if a > 0 { XorSelf(a / 2); }
  }

  lemma XorDouble(p: nat, u: nat, q: nat, v: nat)
    requires u <= 1 && v <= 1
    ensures Xor(2 * p + u, 2 * q + v) == 2 * Xor(p, q) + if u == v then 0 else 1
  {
    assert (2 * p + u) / 2 == p && (2 * q + v) / 2 == q;
  }

  lemma XorAssocStep(a: nat, u: nat, b: nat, v: nat, c: nat, w: nat)
    requires u <= 1 && v <= 1 && w <= 1
    requires Xor(Xor(a, b), c) == Xor(a, Xor(b, c))
    ensures Xor(Xor(2 * a + u, 2 * b + v), 2 * c + w) == Xor(2 * a + u, Xor(2 * b + v, 2 * c + w))
  {
    XorDouble(a, u, b, v);
    XorDouble(b, v, c, w);
    XorDouble(Xor(a, b), if u == v then 0 else 1, c, w);
    XorDouble(a, u, Xor(b, c), if v == w then 0 else 1);
  }

  lemma {:induction false} XorAssoc(a: nat, b: nat, c: nat)
    ensures Xor(Xor(a, b), c) == Xor(a, Xor(b, c))
    decreases a + b + c
  {
    if a + b + c > 0 {
      XorAssoc(a / 2, b / 2, c / 2);
      XorAssocStep(a / 2, a % 2, b / 2, b % 2, c / 2, c % 2);
    }
  }

  lemma XorShuffle(a: nat, b: nat, c: nat, d: nat)
    ensures Xor(Xor(a, b), Xor(c, d)) == Xor(Xor(a, c), Xor(b, d))
  {
    XorAssoc(a, b, Xor(c, d));
    XorAssoc(b, c, d);
    XorComm(b, c);
    XorAssoc(c, b, d);
    XorAssoc(a, c, Xor(b, d));
  }

  /** Exclusive or of words is a word of the same width. */
  lemma {:induction false} XorBound(a: nat, b: nat, k: nat)
    requires a < Shl(1, k) && b < Shl(1, k)
    ensures Xor(a, b) < Shl(1, k)
    decreases k
  {
    if k > 0 { XorBound(a / 2, b / 2, k - 1); }
  }

  /** Words without common bits: high part a multiple of 2^k, low part below 2^k. */
  lemma {:induction false} XorDisjoint(hi: nat, lo: nat, k: nat)
    requires lo < Shl(1, k)
    ensures Xor(Shl(hi, k), lo) == Shl(hi, k) + lo
    decreases k
  {
    if k == 0 {
      XorZero(hi);
    } else {
      XorDisjoint(hi, lo / 2, k - 1);
      XorDouble(Shl(hi, k - 1), 0, lo / 2, lo % 2);
    }
  }
}
