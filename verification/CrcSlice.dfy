/** Table generation and the slice-by-4 and slice-by-8 bodies, refined against the bit-at-a-time checksum. */
module CrcSlice {
  import opened Bytes
  import opened Bits
  import opened CrcCore

  // ---- splitting a word into bytes

  /** A word is its low byte and the rest shifted up. */
  lemma SplitByte(q: nat)
    ensures q == Xor(256 * (q / 256), q % 256)
  {
    Shl8(q / 256);
    Shl8(1);
    XorDisjoint(q / 256, q % 256, 8);
  }

  /** Shifting by one more byte handles the low byte and the rest separately. */
  lemma PeelByte(q: nat, n: nat, poly: nat)
    ensures Steps(q, 8 + n, poly) == Xor(Steps(q % 256, 8 + n, poly), Steps(q / 256, n, poly))
  {
    var hi, lo := 256 * (q / 256), q % 256;
    SplitByte(q);
    StepsLinear(hi, lo, 8 + n, poly);
    XorComm(Steps(hi, 8 + n, poly), Steps(lo, 8 + n, poly));
    StepsAdd(hi, 8, n, poly);
    Shl8(q / 256);
    ShiftOut(q / 256, 8, poly);
  }

  /** Shifting a word byte by byte: each byte contributes its own shift. */
  lemma FourBytes(q: nat, n: nat, poly: nat)
    requires q < WORD
    ensures Steps(q, 32 + n, poly)
            == Xor(Xor(Xor(Steps(q % 256, 32 + n, poly), Steps(q / 0x100 % 256, 24 + n, poly)),
                       Steps(q / 0x1_0000 % 256, 16 + n, poly)), Steps(q / 0x100_0000 % 256, 8 + n, poly))
  {
    var q1, q2, q3 := q / 0x100, q / 0x1_0000, q / 0x100_0000;
    var a, b, c, d :=
      Steps(q % 256, 32 + n, poly), Steps(q1 % 256, 24 + n, poly),
      Steps(q2 % 256, 16 + n, poly), Steps(q3 % 256, 8 + n, poly);
    assert q1 / 256 == q2 && q2 / 256 == q3 && q3 / 256 == 0;
    calc {
      Steps(q, 32 + n, poly);
      { PeelByte(q, 24 + n, poly); }
      Xor(a, Steps(q1, 24 + n, poly));
      { PeelByte(q1, 16 + n, poly); }
      Xor(a, Xor(b, Steps(q2, 16 + n, poly)));
      { PeelByte(q2, 8 + n, poly); }
      Xor(a, Xor(b, Xor(c, Steps(q3, 8 + n, poly))));
      { PeelByte(q3, n, poly); StepsZero(n, poly); XorZero(d); }
      Xor(a, Xor(b, Xor(c, d)));
      { XorAssoc(a, b, Xor(c, d)); }
      Xor(Xor(a, b), Xor(c, d));
      { XorAssoc(Xor(a, b), c, d); }
      Xor(Xor(Xor(a, b), c), d);
    }
  }

  // ---- the checksum of a run of bytes as one shift

  /** The bytes as one little-endian number. */
  function LittleEndian(data: seq<Byte>): nat {
    if data == [] then 0 else LittleEndian(data[..|data| - 1]) + Shl(data[|data| - 1], 8 * (|data| - 1))
  }

  lemma {:induction false} LittleEndianBound(data: seq<Byte>)
    ensures LittleEndian(data) < Shl(1, 8 * |data|)
  {
    if data != [] {
      var n := 8 * (|data| - 1);
      LittleEndianBound(data[..|data| - 1]);
      var b: nat := data[|data| - 1];
      ShlAdd(b, 1, n);
      ShlOrder(b + 1, 256, n);
      Shl8(1);
      ShlShl(1, 8, n);
    }
  }

  /** A byte added after n steps could have been added, shifted by n bits, before them. */
  lemma LateByte(v: nat, b: nat, n: nat, k: nat, poly: nat)
    ensures Steps(Xor(Steps(v, n, poly), b), k, poly) == Steps(Xor(v, Shl(b, n)), n + k, poly)
  {
    ShiftOut(b, n, poly);
    StepsLinear(v, Shl(b, n), n, poly);
    StepsAdd(Xor(v, Shl(b, n)), n, k, poly);
  }

  lemma AddTop(seed: nat, low: nat, b: nat, n: nat)
    requires low < Shl(1, n)
    ensures Xor(Xor(seed, low), Shl(b, n)) == Xor(seed, low + Shl(b, n))
  {
    var top := Shl(b, n);
    XorAssoc(seed, low, top);
    XorDisjoint(b, low, n);
    XorComm(top, low);
  }

  /** Feeding bytes one at a time is one shift of the seed with all of them added in. */
  lemma {:induction false} CrcAsShift(seed: nat, data: seq<Byte>, poly: nat)
    ensures Crc(seed, data, poly) == Steps(Xor(seed, LittleEndian(data)), 8 * |data|, poly)
  {
    if data == [] {
      XorZero(seed);
    } else {
      var d, b, n := data[..|data| - 1], data[|data| - 1], 8 * (|data| - 1);
      CrcAsShift(seed, d, poly);
      LateByte(Xor(seed, LittleEndian(d)), b, n, 8, poly);
      LittleEndianBound(d);
      AddTop(seed, LittleEndian(d), b, n);
    }
  }

  // ---- the generator

  /** Entries at multiples of 2^m below 2^m * bound are correct; those at even multiples are correct throughout. */
  ghost predicate Filled(row: seq<nat>, e: nat, m: nat, bound: nat, poly: nat) {
    forall r {:trigger Shl(r, m)} :: 0 <= r && Shl(r, m) < |row| && (r % 2 == 0 || r < bound)
      ==> row[Shl(r, m)] == Steps(Shl(r, m), e, poly)
  }

  /** The entry for i + j is the sum of the entries for i and j, since their bits are disjoint. */
  lemma FillValue(e: nat, m: nat, q: nat, poly: nat)
    ensures Shl(2 * q, m) + Shl(1, m) == Shl(2 * q + 1, m)
    ensures Xor(Steps(Shl(1, m), e, poly), Steps(Shl(2 * q, m), e, poly)) == Steps(Shl(2 * q + 1, m), e, poly)
  {
    var i, j := Shl(1, m), Shl(2 * q, m);
    ShlAdd(2 * q, 1, m);
    ShlDouble(q, m);
    ShlGrows(1, m);
    XorDisjoint(q, i, m + 1);
    XorComm(i, j);
    StepsLinear(i, j, e, poly);
  }

  lemma FillEntry(row: seq<nat>, e: nat, m: nat, q: nat, v: nat, r: nat, poly: nat)
    requires Filled(row, e, m, 2 * q, poly) && Shl(r, m) < |row| && (r % 2 == 0 || r < 2 * q + 2)
    requires Shl(2 * q + 1, m) < |row| && v == Steps(Shl(2 * q + 1, m), e, poly)
    ensures row[Shl(2 * q + 1, m) := v][Shl(r, m)] == Steps(Shl(r, m), e, poly)
  {
    ShlOrder(r, 2 * q + 1, m);
    ShlOrder(2 * q + 1, r, m);
  }

  /** tab[i + j] = crc ^ tab[j] continues the table by linearity. */
  lemma FillStep(row: seq<nat>, e: nat, m: nat, q: nat, poly: nat)
    requires |row| == Shl(1, e) && m < e && Filled(row, e, m, 2 * q, poly) && Shl(2 * q, m) < |row|
    ensures Shl(2 * q, m) + Shl(1, m) == Shl(2 * q + 1, m) < |row|
    ensures Filled(row[Shl(2 * q + 1, m) := Xor(Steps(Shl(1, m), e, poly), row[Shl(2 * q, m)])], e, m, 2 * q + 2, poly)
  {
    OddFits(q, m, e);
    FillValue(e, m, q, poly);
    assert row[Shl(2 * q, m)] == Steps(Shl(2 * q, m), e, poly);
    FilledAdd(row, e, m, q, Steps(Shl(2 * q + 1, m), e, poly), poly);
  }

  lemma FilledAdd(row: seq<nat>, e: nat, m: nat, q: nat, v: nat, poly: nat)
    requires Filled(row, e, m, 2 * q, poly) && Shl(2 * q + 1, m) < |row| && v == Steps(Shl(2 * q + 1, m), e, poly)
    ensures Filled(row[Shl(2 * q + 1, m) := v], e, m, 2 * q + 2, poly)
  {
    forall r {:trigger Shl(r, m)} | 0 <= r && Shl(r, m) < |row| && (r % 2 == 0 || r < 2 * q + 2)
      ensures row[Shl(2 * q + 1, m) := v][Shl(r, m)] == Steps(Shl(r, m), e, poly)
    {
      FillEntry(row, e, m, q, v, r, poly);
    }
  }

  /** If the even multiple is below a larger power of two, so is the odd one after it. */
  lemma OddFits(q: nat, m: nat, e: nat)
    requires m < e && Shl(2 * q, m) < Shl(1, e)
    ensures Shl(2 * q + 1, m) < Shl(1, e)
  {
    ShlShl(1, e - m, m);
    ShlOrder(Shl(1, e - m), 2 * q, m);
    assert Shl(1, e - m) == 2 * Shl(1, e - m - 1);
    ShlOrder(Shl(1, e - m), 2 * q + 1, m);
  }

  /** A finished pass over multiples of 2^(m+1) is the starting point for 2^m. */
  lemma FilledNext(row: seq<nat>, e: nat, m: nat, bound: nat, poly: nat)
    requires m > 0 && Filled(row, e, m, bound, poly) && Shl(bound, m) >= |row|
    ensures Filled(row, e, m - 1, 0, poly)
  {
    forall r {:trigger Shl(r, m - 1)} | 0 <= r && Shl(r, m - 1) < |row| && r % 2 == 0
      ensures row[Shl(r, m - 1)] == Steps(Shl(r, m - 1), e, poly)
    {
      ShlDouble(r / 2, m - 1);
      assert Shl(r / 2, m) == Shl(r, m - 1);
      ShlOrder(bound, r / 2, m);
    }
  }

  ghost function Row(tab: array2<nat>, k: nat): (row: seq<nat>)
    requires k < tab.Length0
    reads tab
    ensures |row| == tab.Length1 && forall i :: 0 <= i < |row| ==> row[i] == tab[k, i]
  {
    seq(tab.Length1, i requires 0 <= i < tab.Length1 reads tab => tab[k, i])
  }

  /** Row 0 from the powers of two: tab[0][i] is i shifted by e bits. */
  method FirstRow(tab: array2<nat>, e: nat, polynomial: nat)
    requires tab.Length0 > 0 && e > 0 && tab.Length1 == Shl(1, e)
    modifies tab
    ensures forall i :: 0 <= i < tab.Length1 ==> tab[0, i] == Steps(i, e, polynomial)
  {
    ShlGrows(1, e);
    var crc := 1;
    tab[0, 0] := 0;
    var i: nat := tab.Length1 / 2;
    ghost var m := e - 1;
    assert i == Shl(1, m);
    StartFilled(Row(tab, 0), e, polynomial);
    ShlGrows(1, m);
    while i > 0
      invariant i > 0 ==> m < e && i == Shl(1, m) && crc == Steps(1, e - m - 1, polynomial)
      invariant i > 0 ==> Filled(Row(tab, 0), e, m, 0, polynomial)
      invariant i == 0 ==> forall x :: 0 <= x < tab.Length1 ==> tab[0, x] == Steps(x, e, polynomial)
      decreases i
    {
      crc := Xor(crc / 2, if crc % 2 == 1 then polynomial else 0);
      ShiftOut(1, m, polynomial);
      StepsAdd(Shl(1, m), m, e - m, polynomial);
      ghost var q := FillPass(tab, e, m, i, crc, polynomial);
      if m == 0 {
        AllFilled(Row(tab, 0), e, 2 * q, polynomial);
      } else {
        FilledNext(Row(tab, 0), e, m, 2 * q, polynomial);
        m := m - 1;
        ShlGrows(1, m);
      }
      i := i / 2;
    }
  }

  /** One pass over the odd multiples of i. */
  method FillPass(tab: array2<nat>, e: nat, ghost m: nat, i: nat, crc: nat, polynomial: nat) returns (ghost q: nat)
    requires tab.Length0 > 0 && m < e && tab.Length1 == Shl(1, e) && i == Shl(1, m)
    requires crc == Steps(Shl(1, m), e, polynomial) && Filled(Row(tab, 0), e, m, 0, polynomial)
    modifies tab
    ensures Filled(Row(tab, 0), e, m, 2 * q, polynomial) && Shl(2 * q, m) >= tab.Length1
  {
    var j := 0;
    q := 0;
    ShlZero(m);
    while j < tab.Length1
      invariant j == Shl(2 * q, m) && Filled(Row(tab, 0), e, m, 2 * q, polynomial)
      decreases tab.Length1 - j
    {
      ghost var row := Row(tab, 0);
      FillStep(row, e, m, q, polynomial);
      tab[0, i + j] := Xor(crc, tab[0, j]);
      assert Row(tab, 0) == row[i + j := Xor(crc, row[j])];
      ShlAdd(2 * q, 2, m);
      ShlAdd(1, 1, m);
      ShlGrows(1, m);
      j := j + 2 * i;
      q := q + 1;
    }
  }

  lemma StartFilled(row: seq<nat>, e: nat, poly: nat)
    requires e > 0 && |row| == Shl(1, e) > 0 && row[0] == 0
    ensures Filled(row, e, e - 1, 0, poly)
  {
    StepsZero(e, poly);
    forall r {:trigger Shl(r, e - 1)} | 0 <= r && Shl(r, e - 1) < |row| && r % 2 == 0
      ensures row[Shl(r, e - 1)] == Steps(Shl(r, e - 1), e, poly)
    {
      ShlShl(1, 1, e - 1);
      ShlOne(1);
      ShlOrder(2, r, e - 1);
      ShlZero(e - 1);
    }
  }

  lemma AllFilled(row: seq<nat>, e: nat, bound: nat, poly: nat)
    requires Filled(row, e, 0, bound, poly) && Shl(bound, 0) >= |row|
    ensures forall i :: 0 <= i < |row| ==> row[i] == Steps(i, e, poly)
  {
    forall i | 0 <= i < |row| ensures row[i] == Steps(i, e, poly) {
      assert Shl(i, 0) == i;
    }
  }

  /** All rows of the table hold every byte shifted by the row's number of bytes. */
  ghost predicate IsTable(tab: array2<nat>, rows: nat, poly: nat)
    reads tab
  {
    && tab.Length0 == rows && tab.Length1 == 256
    && forall k, i :: 0 <= k < rows && 0 <= i < 256 ==> tab[k, i] == Steps(i, 8 + 8 * k, poly)
  }

  lemma TableByteAt(c: nat, entry: nat, poly: nat)
    requires entry == Steps(c % 256, 8, poly)
    ensures Steps(c, 8, poly) == Xor(entry, c / 256)
  {
    PeelByte(c, 0, poly);
  }

  /** crc32init_le_generic. */
  method Generate(tab: array2<nat>, rows: nat, polynomial: nat)
    requires tab.Length0 == rows > 0 && tab.Length1 == 256
    modifies tab
    ensures IsTable(tab, rows, polynomial)
  {
    Shl8(1);
    FirstRow(tab, 8, polynomial);
    for i := 0 to 256
      invariant forall x :: 0 <= x < 256 ==> tab[0, x] == Steps(x, 8, polynomial)
      invariant forall k, x :: 0 <= k < rows && 0 <= x < i ==> tab[k, x] == Steps(x, 8 + 8 * k, polynomial)
    {
      FillColumn(tab, rows, i, polynomial);
    }
  }

  /** One byte through all rows. */
  method FillColumn(tab: array2<nat>, rows: nat, i: nat, polynomial: nat)
    requires tab.Length0 == rows > 0 && tab.Length1 == 256 && i < 256
    requires forall x :: 0 <= x < 256 ==> tab[0, x] == Steps(x, 8, polynomial)
    modifies tab
    ensures forall x :: 0 <= x < 256 ==> tab[0, x] == Steps(x, 8, polynomial)
    ensures forall k :: 0 <= k < rows ==> tab[k, i] == Steps(i, 8 + 8 * k, polynomial)
    ensures forall k, x :: 0 <= k < rows && 0 <= x < 256 && x != i ==> tab[k, x] == old(tab[k, x])
  {
    var crc := tab[0, i];
    for j := 1 to rows
      invariant crc == Steps(i, 8 + 8 * (j - 1), polynomial)
      invariant forall x :: 0 <= x < 256 ==> tab[0, x] == Steps(x, 8, polynomial)
      invariant forall k :: 0 <= k < j ==> tab[k, i] == Steps(i, 8 + 8 * k, polynomial)
      invariant forall k, x :: 0 <= k < rows && 0 <= x < 256 && x != i ==> tab[k, x] == old(tab[k, x])
    {
      NextRow(i, j, crc, tab[0, crc % 256], polynomial);
      crc := Xor(tab[0, crc % 256], crc / 256);
      tab[j, i] := crc;
    }
  }

  lemma NextRow(i: nat, j: nat, crc: nat, entry: nat, poly: nat)
    requires j > 0 && crc == Steps(i, 8 + 8 * (j - 1), poly) && entry == Steps(crc % 256, 8, poly)
    ensures Xor(entry, crc / 256) == Steps(i, 8 + 8 * j, poly)
  {
    TableByteAt(crc, entry, poly);
    StepsAdd(i, 8 * j, 8, poly);
  }

  // ---- crc32_body

  /** DO_CRC: one byte through row 0. */
  function DoCrc(tab: array2<nat>, crc: nat, b: Byte): nat
    requires tab.Length0 > 0 && tab.Length1 == 256
    reads tab
  {
    Xor(tab[0, Xor(crc, b) % 256], crc / 256)
  }

  /** DO_CRC4 and DO_CRC8: the four bytes of q through rows k + 3 down to k. */
  function DoCrc4(tab: array2<nat>, q: nat, k: nat): nat
    requires k + 3 < tab.Length0 && tab.Length1 == 256
    reads tab
  {
    Xor(Xor(Xor(tab[k + 3, q % 256], tab[k + 2, q / 0x100 % 256]), tab[k + 1, q / 0x1_0000 % 256]),
        tab[k, q / 0x100_0000 % 256])
  }

  /** Adding a byte leaves the upper bytes alone. */
  lemma XorByteHigh(crc: nat, b: Byte)
    ensures Xor(crc, b) / 256 == crc / 256
  {
    var hi, lo := crc / 256, crc % 256;
    SplitByte(crc);
    XorAssoc(256 * hi, lo, b);
    Shl8(1);
    XorBound(lo, b, 8);
    Shl8(hi);
    XorDisjoint(hi, Xor(lo, b), 8);
  }

  lemma DoCrcIsFeed(tab: array2<nat>, rows: nat, crc: nat, b: Byte, poly: nat)
    requires rows > 0 && IsTable(tab, rows, poly)
    ensures DoCrc(tab, crc, b) == Feed(crc, b, poly)
  {
    XorByteHigh(crc, b);
    var x := Xor(crc, b);
    assert tab[0, x % 256] == Steps(x % 256, 8 + 8 * 0, poly);
    TableByteAt(x, tab[0, x % 256], poly);
  }

  lemma DoCrc4IsSteps(tab: array2<nat>, rows: nat, q: nat, k: nat, poly: nat)
    requires k + 3 < rows && IsTable(tab, rows, poly) && q < WORD
    ensures DoCrc4(tab, q, k) == Steps(q, 32 + 8 * k, poly)
  {
    FourBytes(q, 8 * k, poly);
    assert tab[k + 3, q % 256] == Steps(q % 256, 8 + 8 * (k + 3), poly);
    assert tab[k + 2, q / 0x100 % 256] == Steps(q / 0x100 % 256, 8 + 8 * (k + 2), poly);
    assert tab[k + 1, q / 0x1_0000 % 256] == Steps(q / 0x1_0000 % 256, 8 + 8 * (k + 1), poly);
    assert tab[k, q / 0x100_0000 % 256] == Steps(q / 0x100_0000 % 256, 8 + 8 * k, poly);
  }

  /** A 32-bit load at position p. */
  function Load(buf: seq<Byte>, p: nat): (w: nat)
    requires p + 4 <= |buf|
    ensures w < WORD
  {
    var b0: nat, b1: nat, b2: nat, b3: nat := buf[p], buf[p + 1], buf[p + 2], buf[p + 3];
    b0 + 0x100 * b1 + 0x1_0000 * b2 + 0x100_0000 * b3
  }

  lemma LoadIsLittleEndian(buf: seq<Byte>, p: nat)
    requires p + 4 <= |buf|
    ensures LittleEndian(buf[p..p + 4]) == Load(buf, p)
  {
    var d := buf[p..p + 4];
    assert d[..3][..2] == d[..2] && d[..2][..1] == d[..1] && d[..1][..0] == [];
    assert LittleEndian(d[..1]) == buf[p] by { assert Shl(d[0], 0) == d[0]; }
    Shl8(d[1]);
    ShlShl(d[2], 8, 8);
    Shl8(d[2]);
    Shl8(256 * d[2] as nat);
    ShlShl(d[3], 8, 8);
    ShlShl(d[3], 16, 8);
    Shl8(d[3]);
    Shl8(256 * d[3] as nat);
    Shl8(0x1_0000 * d[3] as nat);
    assert LittleEndian(d[..2]) == LittleEndian(d[..1]) + Shl(d[1], 8 * 1);
    assert LittleEndian(d[..3]) == LittleEndian(d[..2]) + Shl(d[2], 8 * 2);
    assert LittleEndian(d) == LittleEndian(d[..3]) + Shl(d[3], 8 * 3);
  }

  lemma WordXor(a: nat, b: nat)
    requires a < WORD && b < WORD
    ensures Xor(a, b) < WORD
  {
    Shl32();
    XorBound(a, b, 32);
  }

  lemma WordSteps(c: nat, n: nat, poly: nat)
    requires c < WORD && poly < WORD
    ensures Steps(c, n, poly) < WORD
  {
    Shl32();
    StepsBound(c, n, poly, 32);
  }

  /** Four bytes at once. */
  lemma FeedWord(crc: nat, buf: seq<Byte>, p: nat, poly: nat)
    requires p + 4 <= |buf|
    ensures Crc(crc, buf[p..p + 4], poly) == Steps(Xor(crc, Load(buf, p)), 32, poly)
  {
    CrcAsShift(crc, buf[p..p + 4], poly);
    LoadIsLittleEndian(buf, p);
  }

  /** Eight bytes at once: the first word shifted past the second, plus the second. */
  lemma FeedTwoWords(crc: nat, buf: seq<Byte>, p: nat, poly: nat)
    requires p + 8 <= |buf|
    ensures Crc(crc, buf[p..p + 8], poly)
            == Xor(Steps(Xor(crc, Load(buf, p)), 64, poly), Steps(Load(buf, p + 4), 32, poly))
  {
    var mid := Steps(Xor(crc, Load(buf, p)), 32, poly);
    assert buf[p..p + 8] == buf[p..p + 4] + buf[p + 4..p + 8];
    CrcAppend(crc, buf[p..p + 4], buf[p + 4..p + 8], poly);
    FeedWord(crc, buf, p, poly);
    FeedWord(mid, buf, p + 4, poly);
    StepsLinear(mid, Load(buf, p + 4), 32, poly);
    StepsAdd(Xor(crc, Load(buf, p)), 32, 32, poly);
  }

  lemma CrcTake(seed: nat, buf: seq<Byte>, p: nat, n: nat, poly: nat)
    requires p + n <= |buf|
    ensures Crc(seed, buf[..p + n], poly) == Crc(Crc(seed, buf[..p], poly), buf[p..p + n], poly)
  {
    assert buf[..p + n] == buf[..p] + buf[p..p + n];
    CrcAppend(seed, buf[..p], buf[p..p + n], poly);
  }

  lemma CrcTakeOne(seed: nat, buf: seq<Byte>, p: nat, poly: nat)
    requires p < |buf|
    ensures Crc(seed, buf[..p + 1], poly) == Feed(Crc(seed, buf[..p], poly), buf[p], poly)
  {
    assert buf[..p + 1][..p] == buf[..p];
  }

  lemma {:induction false} WordCrc(seed: nat, data: seq<Byte>, poly: nat)
    requires seed < WORD && poly < WORD
    ensures Crc(seed, data, poly) < WORD
  {
    if data != [] {
      var c := Crc(seed, data[..|data| - 1], poly);
      WordCrc(seed, data[..|data| - 1], poly);
      WordXor(c, data[|data| - 1]);
      WordSteps(Xor(c, data[|data| - 1]), 8, poly);
    }
  }

  /** Bytes from..to one at a time: the alignment head and the tail. */
  method Bytewise(crc0: nat, buf: seq<Byte>, from: nat, to: nat, tab: array2<nat>, rows: nat,
                  ghost seed: nat, ghost poly: nat) returns (crc: nat)
    requires from <= to <= |buf| && rows > 0 && IsTable(tab, rows, poly)
    requires crc0 == Crc(seed, buf[..from], poly)
    ensures crc == Crc(seed, buf[..to], poly)
  {
    crc := crc0;
    var p := from;
    while p < to
      invariant from <= p <= to && crc == Crc(seed, buf[..p], poly)
    {
      DoCrcIsFeed(tab, rows, crc, buf[p], poly);
      CrcTakeOne(seed, buf, p, poly);
      crc := DoCrc(tab, crc, buf[p]);
      p := p + 1;
    }
  }

  /** Whole words from p on, four or eight bytes per step. */
  method Wordwise(crc0: nat, buf: seq<Byte>, from: nat, steps: nat, wide: bool, tab: array2<nat>, rows: nat,
                  ghost seed: nat, ghost poly: nat) returns (crc: nat, p: nat)
    requires rows == (if wide then 8 else 4) && IsTable(tab, rows, poly)
    requires from + steps * rows <= |buf| && seed < WORD && poly < WORD
    requires crc0 == Crc(seed, buf[..from], poly)
    ensures p == from + steps * rows && crc == Crc(seed, buf[..p], poly)
  {
    crc, p := crc0, from;
    for i := 0 to steps
      invariant p == from + i * rows <= |buf| && crc == Crc(seed, buf[..p], poly)
    {
      assert p + rows == from + (i + 1) * rows <= from + steps * rows by { LastStep(i, steps, rows); }
      crc := OneStep(crc, buf, p, wide, tab, rows, seed, poly);
      p := p + rows;
    }
  }

  lemma LastStep(i: nat, steps: nat, rows: nat)
    requires i < steps
    ensures (i + 1) * rows <= steps * rows && (i + 1) * rows == i * rows + rows
  {}

  method OneStep(crc0: nat, buf: seq<Byte>, p: nat, wide: bool, tab: array2<nat>, rows: nat,
                 ghost seed: nat, ghost poly: nat) returns (crc: nat)
    requires rows == (if wide then 8 else 4) && IsTable(tab, rows, poly)
    requires p + rows <= |buf| && seed < WORD && poly < WORD
    requires crc0 == Crc(seed, buf[..p], poly)
    ensures crc == Crc(seed, buf[..p + rows], poly)
  {
    WordCrc(seed, buf[..p], poly);
    var q := Xor(crc0, Load(buf, p));
    WordXor(crc0, Load(buf, p));
    CrcTake(seed, buf, p, rows, poly);
    if wide {
      FeedTwoWords(crc0, buf, p, poly);
      DoCrc4IsSteps(tab, rows, q, 4, poly);
      DoCrc4IsSteps(tab, rows, Load(buf, p + 4), 0, poly);
      crc := DoCrc4(tab, q, 4);
      q := Load(buf, p + 4);
      crc := Xor(crc, DoCrc4(tab, q, 0));
    } else {
      FeedWord(crc0, buf, p, poly);
      DoCrc4IsSteps(tab, rows, q, 0, poly);
      crc := DoCrc4(tab, q, 0);
    }
  }

  /**
   * crc32_body: bytes up to a 4-byte boundary of the address, then words, then the tail.
   * Whatever the alignment and length, the result is the bit-at-a-time checksum.
   */
  method Body(seed: nat, buf: seq<Byte>, address: nat, wide: bool, tab: array2<nat>, ghost poly: nat) returns (crc: nat)
    requires seed < WORD && poly < WORD && IsTable(tab, if wide then 8 else 4, poly)
    ensures crc == Crc(seed, buf, poly)
  {
    var rows := if wide then 8 else 4;
    var head := (4 - address % 4) % 4;
    if head > |buf| { head := |buf|; }
    assert buf[..0] == [];
    crc := Bytewise(seed, buf, 0, head, tab, rows, seed, poly);
    var steps := (|buf| - head) / rows;
    assert head + steps * rows <= |buf|;
    var p;
    crc, p := Wordwise(crc, buf, head, steps, wide, tab, rows, seed, poly);
    crc := Bytewise(crc, buf, p, |buf|, tab, rows, seed, poly);
    assert buf[..|buf|] == buf;
  }
}
