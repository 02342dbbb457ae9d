/** The checksum of a bzip2 file: the checksums of its blocks, folded together by rotating. */
module FileCrc {
  import opened Bits

  function Bit(x: nat, k: nat): nat { Shr(x, k) % 2 }

  /** (crc << 1) | (crc >> 31) in 32 bits */
  function RotateLeft(crc: nat): nat
    requires crc < WORD
  {
    2 * crc % WORD + crc / 0x8000_0000
  }

  /**
   * What folding in a block's checksum does to the total: every bit moves one place up, the top one to the bottom, and
   * the bits of the checksum are added without carry.
   */
  ghost predicate Folds(total: nat, crc: nat, next: nat) {
    && next < WORD
    && forall k :: 0 <= k < 32 ==> Bit(next, (k + 1) % 32) == (Bit(total, k) + Bit(crc, (k + 1) % 32)) % 2
  }

  // ---- bits

  lemma {:induction false} ShrXor(a: nat, b: nat, k: nat)
    ensures Shr(Xor(a, b), k) == Xor(Shr(a, k), Shr(b, k))
  {
    if k > 0 {
      ShrXor(a, b, k - 1);
      XorHalf(Shr(a, k - 1), Shr(b, k - 1));
    }
  }

  lemma BitXor(a: nat, b: nat, k: nat)
    ensures Bit(Xor(a, b), k) == (Bit(a, k) + Bit(b, k)) % 2
  {
    ShrXor(a, b, k);
    XorHalf(Shr(a, k), Shr(b, k));
    SumParity(Shr(a, k), Shr(b, k));
  }

  lemma SumParity(x: nat, y: nat)
    ensures (x + y) % 2 == (x % 2 + y % 2) % 2
  {}

  lemma {:induction false} ShrSplit(t: nat, l: nat, k: nat, n: nat)
    requires k <= n
    ensures Shr(Shl(t, n) + l, k) == Shl(t, n - k) + Shr(l, k)
  {
    if k > 0 { ShrSplit(t, l, k - 1, n); }
  }

  /** The bits of a word cut at place 31. */
  lemma CutBits(t: nat, l: nat, k: nat)
    requires t < 2 && l < 0x8000_0000 && k < 32
    ensures Bit(0x8000_0000 * t + l, k) == if k < 31 then Bit(l, k) else t
  {
    Shl32();
    ShlZero(31);
    assert Shl(t, 31) == 0x8000_0000 * t;
    ShrSplit(t, l, k, 31);
    if k == 31 {
      ShrBounds(l, 31, 1);
      assert Shl(t, 0) == t;
    }
  }

  lemma RotatedBit(crc: nat, k: nat)
    requires crc < WORD && k < 32
    ensures RotateLeft(crc) < WORD && Bit(RotateLeft(crc), (k + 1) % 32) == Bit(crc, k)
  {
    var t, l := crc / 0x8000_0000, crc % 0x8000_0000;
    assert crc == 0x8000_0000 * t + l && RotateLeft(crc) == 2 * l + t;
    CutBits(t, l, k);
    if k < 31 {
      ShrPush(l, t, k);
    } else {
      assert Shr(2 * l + t, 0) == 2 * l + t;
    }
  }

  lemma FoldBits(total: nat, crc: nat)
    requires total < WORD && crc < WORD
    ensures Folds(total, crc, Xor(RotateLeft(total), crc))
  {
    var next := Xor(RotateLeft(total), crc);
    RotatedBit(total, 0);
    Shl32();
    XorBound(RotateLeft(total), crc, 32);
    forall k | 0 <= k < 32 ensures Bit(next, (k + 1) % 32) == (Bit(total, k) + Bit(crc, (k + 1) % 32)) % 2 {
      RotatedBit(total, k);
      BitXor(RotateLeft(total), crc, (k + 1) % 32);
    }
  }

  /** Words with the same bits are equal, so Folds leaves one value for the next total. */
  lemma {:induction false} SameBits(a: nat, b: nat, n: nat)
    requires a < Shl(1, n) && b < Shl(1, n) && forall k :: 0 <= k < n ==> Bit(a, k) == Bit(b, k)
    ensures a == b
  {
    if n > 0 {
      forall k | 0 <= k < n - 1 ensures Bit(a / 2, k) == Bit(b / 2, k) {
        ShrPush(a / 2, a % 2, k);
        ShrPush(b / 2, b % 2, k);
        assert Bit(a, k + 1) == Bit(b, k + 1);
      }
      SameBits(a / 2, b / 2, n - 1);
      assert Shr(a, 0) == a && Shr(b, 0) == b;
      assert Bit(a, 0) == Bit(b, 0);
    }
  }

  lemma FoldsOnce(total: nat, crc: nat, a: nat, b: nat)
    requires Folds(total, crc, a) && Folds(total, crc, b)
    ensures a == b
  {
    forall k | 0 <= k < 32 ensures Bit(a, k) == Bit(b, k) {
      var j := (k + 31) % 32;
      assert (j + 1) % 32 == k;
      assert Bit(a, (j + 1) % 32) == (Bit(total, j) + Bit(crc, (j + 1) % 32)) % 2;
      assert Bit(b, (j + 1) % 32) == (Bit(total, j) + Bit(crc, (j + 1) % 32)) % 2;
    }
    Shl32();
    SameBits(a, b, 32);
  }

  // ---- a whole file

  /** The totals after each of the blocks, from 0 on. */
  ghost predicate Totals(totals: seq<nat>, crcs: seq<nat>) {
    && |totals| == |crcs| + 1 && totals[0] == 0
    && forall i :: 0 <= i < |crcs| ==> Folds(totals[i], crcs[i], totals[i + 1])
  }

  /** How many of the first m checksums have a one where it ends up at bit k, after one move for each later block. */
  function Ones(crcs: seq<nat>, k: nat, m: nat): nat
    requires m <= |crcs|
  {
    if m == 0 then 0 else Ones(crcs, k, m - 1) + Bit(crcs[m - 1], (k - (|crcs| - m)) % 32)
  }

  lemma {:induction false} TotalAfter(totals: seq<nat>, crcs: seq<nat>, k: nat, m: nat)
    requires Totals(totals, crcs) && m <= |crcs| && k < 32
    ensures Bit(totals[m], (k - (|crcs| - m)) % 32) == Ones(crcs, k, m) % 2
  {
    var j := (k - (|crcs| - m)) % 32;
    if m == 0 {
      ShrOfZero(j);
    } else {
      TotalAfter(totals, crcs, k, m - 1);
      var j' := (k - (|crcs| - (m - 1))) % 32;
      assert (j' + 1) % 32 == j;
      assert Folds(totals[m - 1], crcs[m - 1], totals[m]);
      assert Bit(totals[m], (j' + 1) % 32) == (Bit(totals[m - 1], j') + Bit(crcs[m - 1], (j' + 1) % 32)) % 2;
    }
  }

  lemma {:induction false} ShrOfZero(k: nat)
    ensures Shr(0, k) == 0
  {
    if k > 0 { ShrOfZero(k - 1); }
  }

  /** Bit k of the total over n blocks is the parity of the bits k - (n - 1 - i), taken around the word, of block i. */
  lemma TotalBits(totals: seq<nat>, crcs: seq<nat>, k: nat)
    requires Totals(totals, crcs) && k < 32
    ensures Shr(totals[|crcs|], k) % 2 == Ones(crcs, k, |crcs|) % 2
  {
    TotalAfter(totals, crcs, k, |crcs|);
  }
}
