/** Run-length layer of bzip2: after four equal bytes, the next byte is a repeat count. */
module RunLength {
  import opened Bytes
  import opened ByteStrings

  function Copies(b: Byte, n: nat): (r: Str)
    ensures |r| == n
  {
    seq(n, _ => b)
  }

  /** Output owed for the undecoded bytes rest, given the previous byte and the countdown to a repeat count. */
  function Expand(previous: Byte, countdown: nat, rest: Str): Str
    requires 1 <= countdown <= 5
    decreases |rest|
  {
    if rest == [] then []
    else if countdown > 1 then
      [rest[0]] + Expand(rest[0], if rest[0] != previous then 4 else countdown - 1, rest[1..])
    else
      Copies(previous, rest[0]) + Expand(previous, 5, rest[1..])
  }

  lemma ExpandStep(previous: Byte, countdown: nat, rest: Str)
    requires 1 <= countdown <= 5 && rest != []
    ensures countdown > 1 ==>
              Expand(previous, countdown, rest)
              == Copies(rest[0], 1) + Expand(rest[0], if rest[0] != previous then 4 else countdown - 1, rest[1..])
    ensures countdown == 1 ==>
              Expand(previous, countdown, rest) == Copies(previous, rest[0]) + Expand(previous, 5, rest[1..])
  {
    assert Copies(rest[0], 1) == [rest[0]];
  }

  /** Length of the leading run of b, at most cap. */
  function Run(x: Str, b: Byte, cap: nat): (n: nat)
    ensures n <= cap && n <= |x|
    ensures x[..n] == Copies(b, n)
    ensures n < cap && n < |x| ==> x[n] != b
    ensures cap > 0 && x != [] && x[0] == b ==> n > 0
  {
    if cap == 0 || x == [] || x[0] != b then 0
    else
      var n := 1 + Run(x[1..], b, cap - 1);
      assert x[..n] == [b] + x[1..][..n - 1];
      n
  }

  /** Reference encoder: runs of one to three bytes stay, longer runs become four bytes and a count. */
  function Encode(x: Str): (r: Str)
    ensures x != [] ==> r != [] && r[0] == x[0]
    ensures x == [] ==> r == []
    decreases |x|
  {
    if x == [] then []
    else
      var n := Run(x, x[0], 259);
      (if n < 4 then Copies(x[0], n) else Copies(x[0], 4) + [(n - 4) as Byte]) + Encode(x[n..])
  }

  /** With the counter at 5 the previous byte does not matter. */
  lemma ExpandFresh(p: Byte, q: Byte, countdown: nat, rest: Str)
    requires 2 <= countdown <= 5
    requires countdown < 5 && rest != [] ==> rest[0] != q
    ensures Expand(p, 5, rest) == Expand(q, countdown, rest)
  {}

  lemma {:induction false} ExpandRun(b: Byte, n: nat, countdown: nat, rest: Str)
    requires n < countdown <= 5
    ensures Expand(b, countdown, Copies(b, n) + rest) == Copies(b, n) + Expand(b, countdown - n, rest)
    decreases n
  {
    if n == 0 {
      assert Copies(b, 0) == [];
      assert [] + rest == rest && [] + Expand(b, countdown, rest) == Expand(b, countdown, rest);
    } else {
      var more := Copies(b, n - 1) + rest;
      CopiesFirst(b, n, rest);
      ExpandOne(b, countdown, more);
      ExpandRun(b, n - 1, countdown - 1, rest);
      CopiesFirst(b, n, Expand(b, countdown - n, rest));
    }
  }

  lemma CopiesFirst(b: Byte, n: nat, rest: Str)
    requires n > 0
    ensures Copies(b, n) + rest == [b] + (Copies(b, n - 1) + rest)
  {}

  /** A byte equal to the previous one counts down. */
  lemma ExpandOne(b: Byte, countdown: nat, rest: Str)
    requires 1 < countdown <= 5
    ensures Expand(b, countdown, [b] + rest) == [b] + Expand(b, countdown - 1, rest)
  {
    assert ([b] + rest)[1..] == rest;
  }

  /** Four equal bytes and a count stand for a run of that many more. */
  lemma ExpandLongRun(b: Byte, more: Byte, rest: Str)
    ensures Expand(b, 5, Copies(b, 4) + [more] + rest) == Copies(b, 4 + more) + Expand(b, 5, rest)
  {
    var tail := [more] + rest;
    assert Copies(b, 4) + [more] + rest == Copies(b, 4) + tail;
    ExpandRun(b, 4, 5, tail);
    assert tail[1..] == rest;
    assert Copies(b, 4) + Copies(b, more) == Copies(b, 4 + more);
  }

  /** Decoding the reference encoding gives back the data, for every byte string. */
  lemma {:induction false} ExpandEncode(p: Byte, x: Str)
    ensures Expand(p, 5, Encode(x)) == x
    decreases |x|
  {
    if x != [] {
      var b := x[0];
      var n := Run(x, b, 259);
      var y := x[n..];
      assert x == Copies(b, n) + y;
      ExpandEncode(b, y);
      ExpandFresh(p, b, 5, Encode(x));
      if n < 4 {
        ExpandRun(b, n, 5, Encode(y));
        ExpandFresh(b, b, 5 - n, Encode(y));
      } else {
        assert Encode(x) == Copies(b, 4) + [(n - 4) as Byte] + Encode(y);
        ExpandLongRun(b, n - 4, Encode(y));
      }
    }
  }
}

/** Second half of get_next_block and the output loop of read_bunzip. */
module Bunzip {
  import opened Bytes
  import opened Bits
  import opened FileCrc
  import BlockCrc
  import opened ByteStrings
  import opened BurrowsWheeler
  import opened CountingSort
  import opened RunLength

  datatype Status = Ok | DataError

  const MAX_BLOCK := 900000

  /** w |= i << 8 on a word whose upper bits are still clear. */
  function OrShifted(w: Word, i: nat): (r: Word)
    requires w < 256 && i < 0x100_0000
    ensures Low(r) == Low(w) && High(r) == i
  {
    (w as int + 256 * i) as Word
  }

  function Low(w: Word): Byte {
    w as int % 256
  }

  function High(w: Word): nat {
    w as int / 256
  }

  /** Each word packs a byte of l and a link of t. */
  ghost predicate Packs(words: seq<Word>, l: Str, t: seq<nat>) {
    && |words| == |l| == |t|
    && forall x :: 0 <= x < |l| ==> Low(words[x]) == l[x] && High(words[x]) == t[x]
  }

  /** s is spelled by walking t from orig over column, and t never leaves the block. */
  ghost predicate IsWalk(s: Str, column: Str, t: seq<nat>, orig: nat) {
    && |t| == |column| == |s| && (column != [] ==> orig < |t|)
    && (forall j :: 0 <= j < |t| ==> t[j] < |t|)
    && (forall k :: 0 <= k < |s| ==> s[k] == column[Hop(t, orig, k)])
  }

  /** A transform is undone by the walk: whatever is spelled is the original string. */
  lemma WalkInverts(s: Str, w: Str, column: Str, t: seq<nat>, orig: nat)
    requires IsTransform(s, column, orig) && IsStableOrder(column, t) && IsWalk(w, column, t, orig)
    ensures w == s
  {
    TransformShape(s, column, orig);
    forall k | 0 <= k < |s| ensures w[k] == s[k] { WalkSpells(s, column, orig, t, k); }
  }

  /** The running offsets of the counting pass after i entries. */
  ghost predicate Offsets(counts: seq<nat>, l: Str, i: nat)
    requires i <= |l|
  {
    |counts| == 256 && forall c :: 0 <= c < 256 ==> counts[c] == CountBelow(l, c) + CountOf(l[..i], c)
  }

  lemma OffsetsStep(counts: seq<nat>, l: Str, i: nat)
    requires i < |l| && Offsets(counts, l, i)
    ensures counts[l[i]] == Landing(l, i)
    ensures Offsets(counts[l[i] := counts[l[i]] + 1], l, i + 1)
  {
    forall c | 0 <= c < 256 ensures CountOf(l[..i + 1], c) == CountOf(l[..i], c) + if l[i] == c then 1 else 0 {
      CountOfTake(l, i, c);
    }
  }

  /** Writing link i into an untouched slot. */
  lemma PackStep(words: seq<Word>, l: Str, t: seq<nat>, slot: nat, i: nat)
    requires Packs(words, l, t) && slot < |l| && t[slot] == 0 && i < 0x100_0000
    ensures words[slot] < 256
    ensures Packs(words[slot := OrShifted(words[slot], i)], l, t[slot := i])
  {}

  /** State of the counting pass after i entries. */
  ghost predicate Counting(words: seq<Word>, counts: seq<nat>, l: Str, t: seq<nat>, i: nat) {
    Packs(words, l, t) && Linked(l, t, i) && Offsets(counts, l, i)
  }

  lemma CountingStart(words: seq<Word>, counts: seq<nat>, l: Str, t: seq<nat>)
    requires |words| == |l| == |t| && (forall x :: 0 <= x < |l| ==> words[x] as int == l[x] && t[x] == 0)
    requires |counts| == 256 && forall c {:trigger counts[c]} :: 0 <= c < 256 ==> counts[c] == CountBelow(l, c)
    ensures Counting(words, counts, l, t, 0)
  {
    assert l[..0] == [];
  }

  lemma CountingDone(words: seq<Word>, counts: seq<nat>, l: Str, t: seq<nat>)
    requires Counting(words, counts, l, t, |l|)
    ensures Packs(words, l, t) && IsStableOrder(l, t)
  {}

  lemma CountingStep(words: seq<Word>, counts: seq<nat>, l: Str, t: seq<nat>, i: nat)
    requires Counting(words, counts, l, t, i) && i < |l| && |l| <= MAX_BLOCK
    ensures
      var uc := Low(words[i]);
      && uc < |counts|
      && var slot := counts[uc];
      && slot < |words| && words[slot] < 256
      && Counting(words[slot := OrShifted(words[slot], i)], counts[uc := slot + 1], l, t[slot := i], i + 1)
  {
    OffsetsStep(counts, l, i);
    LinkStep(l, t, i);
    PackStep(words, l, t, Landing(l, i), i);
  }

  ghost function Owed(x: Byte, copies: nat, countdown: nat, rest: Str): Str
    requires 1 <= countdown <= 5
  {
    Copies(x, copies) + Expand(x, countdown, rest)
  }

  lemma OweSplit(all: Str, written: Str, now: Str, x: Byte, copies: nat, left: nat, countdown: nat, rest: Str)
    requires 1 <= countdown <= 5 && left <= copies
    requires all == written + Owed(x, copies, countdown, rest) && now == written + Copies(x, copies - left)
    ensures all == now + Owed(x, left, countdown, rest)
  {
    assert Copies(x, copies) == Copies(x, copies - left) + Copies(x, left);
  }

  lemma CopiesSnoc(written: Str, x: Byte, n: nat)
    ensures written + Copies(x, n) + [x] == written + Copies(x, n + 1)
  {}

  lemma OweNothing(x: Byte, countdown: nat)
    requires 1 <= countdown <= 5
    ensures Owed(x, 0, countdown, []) == []
  {}

  /** A sorted block: the packed words, the slots in the order they are visited, and the text they spell. */
  datatype Block = Block(words: seq<Word>, slots: seq<nat>, text: Str) {
    ghost predicate Valid() {
      && |words| == |slots| == |text|
      && (forall k :: 0 <= k < |slots| ==> slots[k] < |words| && Low(words[slots[k]]) == text[k])
      && (forall k :: 0 < k < |slots| ==> High(words[slots[k - 1]]) == slots[k])
    }

    /** pos is the slot to be read next when count bytes are left. */
    ghost predicate Next(count: nat, pos: nat) {
      |slots| == |text| >= count && (count > 0 ==> pos == slots[|text| - count])
    }

    lemma ReadSlot(count: nat, pos: nat)
      requires Valid() && Next(count, pos) && count > 0
      ensures pos < |words|
      ensures Low(words[pos]) == text[|text| - count]
      ensures Next(count - 1, High(words[pos]))
    {}
  }

  /** The block reached from origin along t: valid for any column, and the original string for a transform. */
  ghost function WalkBlock(words: seq<Word>, l: Str, t: seq<nat>, origin: nat): (b: Block)
    requires Packs(words, l, t) && IsStableOrder(l, t) && origin < |l|
    ensures b.Valid() && b.words == words && b.slots[0] == t[origin]
    ensures forall s :: IsTransform(s, l, origin) ==> b.text == s
  {
    OrderInRange(l, t);
    var slots := seq(|l|, k requires 0 <= k < |l| => Hop(t, origin, k));
    var text := seq(|l|, k requires 0 <= k < |l| => l[Hop(t, origin, k)]);
    assert forall s :: IsTransform(s, l, origin) ==> text == s by {
      forall s | IsTransform(s, l, origin) ensures text == s { WalkInverts(s, text, l, t, origin); }
    }
    Block(words, slots, text)
  }

  /** A checksum as read from the stream: 32 bits. */
  type Recorded = crc: nat | crc < WORD

  const CRC_POLY: nat := 0x04c1_1db7

  /** What ended a call: the output buffer is full, or the block is done with a right or a wrong checksum. */
  datatype Progress = BufferFull | BlockDone | CrcError

  /** The checksum of data, in the form the stream records. */
  function Checksum(crc: nat, data: Str): nat { BlockCrc.Crc(crc, data, CRC_POLY) }

  lemma ChecksumAppend(crc: nat, a: Str, b: Str)
    ensures Checksum(crc, a + b) == Checksum(Checksum(crc, a), b)
  {
    BlockCrc.CrcAppend(crc, a, b, CRC_POLY);
  }

  /** ~crc in 32 bits */
  function Complement(crc: nat): nat
    requires crc < WORD
  {
    WORD - 1 - crc
  }

  class BunzipData {
    const dbuf: array<Word>
    const byteCount: array<nat>
    const crc32Table: array<nat>
    var headerCRC: Recorded
    var totalCRC: Recorded
    var writeCRC: nat
    var writeCopies: nat
    var writePos: nat
    var writeRunCountdown: nat
    var writeCount: int
    var writeCurrent: Byte
    ghost var block: Block

    constructor (size: nat)
      ensures fresh(dbuf) && fresh(byteCount) && dbuf.Length == size && byteCount.Length == 256
      ensures writeCopies == 0 && writeCount == 0 && fresh(crc32Table) && byteCount != crc32Table && Summing()
    {
      var table := BlockCrc.BuildTable(CRC_POLY);
      crc32Table := table;
      headerCRC, totalCRC, writeCRC := 0, 0, 0;
      dbuf := new Word[size](_ => 0);
      byteCount := new nat[256](_ => 0);
      writeCopies, writePos, writeRunCountdown, writeCount, writeCurrent := 0, 0, 0, 0, 0;
    }

    /** A block is loaded and all but writeCount of its bytes have been fetched; pos is the next slot. */
    ghost predicate Loaded(pos: nat)
      reads this`block, this`writeCount, this`writeRunCountdown, dbuf
    {
      && block.Valid() && |block.words| <= dbuf.Length
      && dbuf[..|block.words|] == block.words
      && 0 <= writeCount && block.Next(writeCount, pos)
      && 1 <= writeRunCountdown <= 5
    }

    /** The table is in place and the checksum is a word. */
    ghost predicate Summing()
      reads this`writeCRC, crc32Table
    {
      BlockCrc.IsTable(crc32Table[..], CRC_POLY) && writeCRC < WORD
    }

    ghost predicate Valid()
      reads this, dbuf, crc32Table
    {
      Loaded(writePos) && Summing()
    }

    /** Bytes of the block not fetched yet. */
    ghost function Rest(): Str
      requires 0 <= writeCount <= |block.text|
      reads this`block, this`writeCount
    {
      block.text[|block.text| - writeCount..]
    }

    /** Everything the current block still has to output. */
    ghost function Remaining(): Str
      requires Valid()
      reads this, dbuf, crc32Table
    {
      Owed(writeCurrent, writeCopies, writeRunCountdown, Rest())
    }

    /** Turn occurrence counts into starting offsets: byteCount[c] becomes the number of smaller bytes. */
    method Accumulate(ghost l: Str)
      requires forall c {:trigger byteCount[c]} :: 0 <= c < byteCount.Length ==> byteCount[c] == CountOf(l, c)
      modifies byteCount
      ensures forall c {:trigger byteCount[c]} :: 0 <= c < byteCount.Length ==> byteCount[c] == CountBelow(l, c)
    {
      var j := 0;
      for i := 0 to byteCount.Length
        invariant j == CountBelow(l, i)
        invariant forall c {:trigger byteCount[c]} :: 0 <= c < i ==> byteCount[c] == CountBelow(l, c)
        invariant forall c {:trigger byteCount[c]} :: i <= c < byteCount.Length ==> byteCount[c] == CountOf(l, c)
      {
        var k := j + byteCount[i];
        byteCount[i] := j;
        j := k;
      }
    }

    /** Figure out what order dbuf would be in if it were sorted: link slot Landing(i) to i. */
    method LinkSorted(dbufCount: nat, ghost l: Str) returns (ghost t: seq<nat>)
      requires byteCount.Length == 256
      requires dbufCount == |l| <= dbuf.Length && dbufCount <= MAX_BLOCK
      requires forall x :: 0 <= x < dbufCount ==> dbuf[x] as int == l[x]
      requires forall c {:trigger byteCount[c]} :: 0 <= c < 256 ==> byteCount[c] == CountBelow(l, c)
      modifies dbuf, byteCount
      ensures Packs(dbuf[..dbufCount], l, t) && IsStableOrder(l, t)
    {
      t := seq(dbufCount, _ => 0);
      CountingStart(dbuf[..dbufCount], byteCount[..], l, t);
      for i := 0 to dbufCount
        invariant Counting(dbuf[..dbufCount], byteCount[..], l, t, i)
      {
        t := LinkNext(i, dbufCount, l, t);
      }
      CountingDone(dbuf[..dbufCount], byteCount[..], l, t);
    }

    method LinkNext(i: nat, dbufCount: nat, ghost l: Str, ghost t: seq<nat>) returns (ghost t': seq<nat>)
      requires byteCount.Length == 256 && i < dbufCount == |l| <= dbuf.Length && dbufCount <= MAX_BLOCK
      requires Counting(dbuf[..dbufCount], byteCount[..], l, t, i)
      modifies dbuf, byteCount
      ensures Counting(dbuf[..dbufCount], byteCount[..], l, t', i + 1)
    {
      ghost var words, counts := dbuf[..dbufCount], byteCount[..];
      CountingStep(words, counts, l, t, i);
      assert dbuf[i] == words[i];
      var slot := LinkOne(i, dbufCount);
      t' := t[slot := i];
    }

    /** One step of the counting pass: entry i claims the next slot of its byte. */
    method LinkOne(i: nat, dbufCount: nat) returns (slot: nat)
      requires i < dbufCount <= dbuf.Length && dbufCount <= MAX_BLOCK && byteCount.Length == 256
      requires byteCount[Low(dbuf[i])] < dbufCount && dbuf[byteCount[Low(dbuf[i])]] < 256
      modifies dbuf, byteCount
      ensures slot == old(byteCount[Low(dbuf[i])]) && dbuf[slot] == OrShifted(old(dbuf[slot]), i)
      ensures dbuf[..dbufCount] == old(dbuf[..dbufCount])[slot := dbuf[slot]]
      ensures byteCount[..] == old(byteCount[..])[old(Low(dbuf[i])) := slot + 1]
    {
      var uc := Low(dbuf[i]);
      slot := byteCount[uc];
      dbuf[slot] := OrShifted(dbuf[slot], i);
      byteCount[uc] := slot + 1;
    }

    /**
     * Undo the sort and fetch the first hop: the tail of get_next_block. On the transform of s, whatever s is,
     * the loaded block is s; on any other column the walk still stays inside the block.
     */
    method Unsort(dbufCount: nat, origPtr: nat, ghost l: Str) returns (status: Status)
      requires byteCount.Length == 256
      requires dbufCount == |l| <= dbuf.Length && dbufCount <= MAX_BLOCK
      requires forall x :: 0 <= x < dbufCount ==> dbuf[x] as int == l[x]
      requires forall c :: 0 <= c < 256 ==> byteCount[c] == CountOf(l, c)
      requires Summing() && byteCount != crc32Table
      modifies this`block, this`writeCurrent, this`writePos, this`writeRunCountdown, this`writeCount, dbuf, byteCount
      ensures status == DataError <==> 0 < dbufCount <= origPtr
      ensures status == Ok ==> writeCount == dbufCount && writeCopies == old(writeCopies)
      ensures status == Ok && dbufCount > 0 ==>
                Valid() && |block.text| == dbufCount && writeRunCountdown == 5
      ensures forall s :: IsTransform(s, l, origPtr) ==> status == Ok && dbufCount > 0 && block.text == s
    {
      Accumulate(l);
      ghost var t := LinkSorted(dbufCount, l);
      forall s | IsTransform(s, l, origPtr) ensures 0 < |l| && origPtr < |l| { TransformShape(s, l, origPtr); }
      if dbufCount != 0 {
        if origPtr >= dbufCount {
          return DataError;
        }
        block := WalkBlock(dbuf[..dbufCount], l, t, origPtr);
        assert dbuf[origPtr] == block.words[origPtr];
        writeCurrent, writePos := Low(dbuf[origPtr]), High(dbuf[origPtr]);
        writeRunCountdown := 5;
      }
      writeCount := dbufCount;
      return Ok;
    }

    /** Bookkeeping inside the output loop: written, then what x, the pending copies and the rest still owe. */
    ghost predicate Draining(all: Str, written: Str, x: Byte, pos: nat)
      reads this`block, this`writeCount, this`writeCopies, this`writeRunCountdown, dbuf
    {
      Loaded(pos) && all == written + Owed(x, writeCopies, writeRunCountdown, Rest())
    }

    /** A freshly loaded block whose text is the run-length encoding of x owes exactly x. */
    lemma FreshBlockOwes(x: Str)
      requires Valid() && writeCopies == 0 && writeRunCountdown == 5
      requires writeCount == |block.text| && block.text == Encode(x)
      ensures Remaining() == x
    {
      assert Rest() == block.text;
      ExpandEncode(writeCurrent, x);
    }

    /** The checksum of a block starts with all bits set. */
    method StartBlock(ghost x: Str)
      requires Valid() && writeCopies == 0 && writeRunCountdown == 5 && writeCount == |block.text|
      modifies this`writeCRC
      ensures Valid() && writeCRC == 0xFFFF_FFFF && (block.text == Encode(x) ==> Remaining() == x)
    {
      writeCRC := 0xFFFF_FFFF;
      if block.text == Encode(x) { FreshBlockOwes(x); }
    }

    lemma DrainingRemaining(all: Str, written: Str)
      requires Summing()
      ensures Draining(all, written, writeCurrent, writePos) <==> Valid() && all == written + Remaining()
    {}

    lemma Drained(all: Str, written: Str, x: Byte, pos: nat)
      requires Draining(all, written, x, pos) && writeCopies == 0 && writeCount == 0
      ensures all == written
    {
      OweNothing(x, writeRunCountdown);
    }

    /** The checksum covers what this call has written, on top of crc. */
    ghost predicate Covers(crc: nat, written: Str)
      reads this`writeCRC, crc32Table
    {
      Summing() && writeCRC == Checksum(crc, written)
    }

    /** A good block is folded into the total; a bad one forces a wrong total. */
    ghost predicate NextTotal(total: nat)
      reads this
    {
      if writeCRC == headerCRC then Folds(total, writeCRC, totalCRC) else totalCRC == (headerCRC + 1) % WORD
    }

    /**
     * The block is done: its checksum over output, on top of crc, is compared with the recorded one and folded into
     * the total, and a mismatch leaves a total that cannot match.
     */
    ghost predicate Ended(crc: nat, total: nat, output: Str, progress: Progress)
      reads this
    {
      && writeCount == -1 && writeCopies == 0
      && Checksum(crc, output) < WORD && writeCRC == Complement(Checksum(crc, output))
      && NextTotal(total)
      && (progress.CrcError? <==> writeCRC != headerCRC)
      && (progress.CrcError? ==> totalCRC != headerCRC)
    }

    /**
     * The output loop of read_bunzip over one block: fill outbuf up to len, stopping at any point inside a run.
     * Whatever the buffer sizes, the bytes written are the next bytes of the block's expansion and the checksum is
     * carried over them; at the end of the block it is compared with the one recorded in the stream.
     */
    method Drain(outbuf: array<Byte>, len: nat) returns (gotcount: nat, progress: Progress)
      requires Valid() && len <= outbuf.Length
      modifies this`writeCopies, this`writePos, this`writeRunCountdown, this`writeCount, this`writeCurrent,
        this`writeCRC, this`totalCRC, outbuf
      ensures gotcount <= len && Checksum(old(writeCRC), outbuf[..gotcount]) < WORD
      ensures progress.BufferFull? ==> Valid() && old(Remaining()) == outbuf[..gotcount] + Remaining()
      ensures progress.BufferFull? ==> gotcount == len && totalCRC == old(totalCRC)
      ensures progress.BufferFull? ==> writeCRC == Checksum(old(writeCRC), outbuf[..gotcount])
      ensures !progress.BufferFull? ==> old(Remaining()) == outbuf[..gotcount]
      ensures !progress.BufferFull? ==> Ended(old(writeCRC), old(totalCRC), outbuf[..gotcount], progress)
    {
      ghost var all, crc := Remaining(), writeCRC;
      DrainingRemaining(all, []);
      var xcurrent, pos;
      gotcount, xcurrent, pos := WriteBlock(outbuf, len, all);
      assert writeCRC == Checksum(crc, outbuf[..gotcount]) < WORD;
      if writeCopies != 0 {
        Snapshot(xcurrent, pos, all, outbuf[..gotcount]);
        progress := BufferFull;
      } else {
        Drained(all, outbuf[..gotcount], xcurrent, pos);
        progress := FinishBlock();
      }
    }

    /** One call of the loop below, and the checksum over all calls so far. */
    method DrainMore(outbuf: array<Byte>, len: nat, sofar: Str, ghost crc: nat)
      returns (output: Str, progress: Progress)
      requires Valid() && len <= outbuf.Length && writeCRC == Checksum(crc, sofar)
      modifies this`writeCopies, this`writePos, this`writeRunCountdown, this`writeCount, this`writeCurrent,
        this`writeCRC, this`totalCRC, outbuf
      ensures progress.BufferFull? ==>
                && Valid() && sofar + old(Remaining()) == output + Remaining() && |output| == |sofar| + len
                && writeCRC == Checksum(crc, output) && totalCRC == old(totalCRC)
      ensures !progress.BufferFull? ==>
                sofar + old(Remaining()) == output && Ended(crc, old(totalCRC), output, progress)
    {
      ghost var all := Remaining();
      var gotcount;
      gotcount, progress := Drain(outbuf, len);
      var more := outbuf[..gotcount];
      output := sofar + more;
      ChecksumAppend(crc, sofar, more);
      if progress.BufferFull? { assert sofar + (more + Remaining()) == output + Remaining(); }
    }

    /** Calls until the block is written out: whatever the buffer length, their outputs together are all of it. */
    method DrainAll(outbuf: array<Byte>, len: nat) returns (output: Str, progress: Progress)
      requires Valid() && 0 < len <= outbuf.Length
      modifies this`writeCopies, this`writePos, this`writeRunCountdown, this`writeCount, this`writeCurrent,
        this`writeCRC, this`totalCRC, outbuf
      ensures !progress.BufferFull? && output == old(Remaining())
      ensures Ended(old(writeCRC), old(totalCRC), output, progress)
    {
      ghost var all, crc, total := Remaining(), writeCRC, totalCRC;
      output, progress := [], BufferFull;
      assert [] + all == all;
      while progress.BufferFull?
        invariant if progress.BufferFull?
                  then Valid() && all == output + Remaining() && writeCRC == Checksum(crc, output) && totalCRC == total
                  else output == all && Ended(crc, total, output, progress)
        decreases progress.BufferFull?, |all| - |output|
      {
        output, progress := DrainMore(outbuf, len, output, crc);
      }
    }

    /** The output buffer is full: keep the position for the next call. */
    method Snapshot(xcurrent: Byte, pos: nat, ghost all: Str, ghost written: Str)
      requires Summing() && Draining(all, written, xcurrent, pos)
      modifies this`writePos, this`writeCurrent
      ensures Valid() && all == written + Remaining()
    {
      writePos, writeCurrent := pos, xcurrent;
      DrainingRemaining(all, written);
    }

    /** The loop itself: copies out, then the next byte, until the buffer is full or the block has no more. */
    method WriteBlock(outbuf: array<Byte>, len: nat, ghost all: Str) returns (gotcount: nat, xcurrent: Byte, pos: nat)
      requires Summing() && Draining(all, [], writeCurrent, writePos) && len <= outbuf.Length
      modifies this`writeCopies, this`writeRunCountdown, this`writeCount, this`writeCRC, outbuf
      ensures gotcount <= len && Draining(all, outbuf[..gotcount], xcurrent, pos)
      ensures Covers(old(writeCRC), outbuf[..gotcount])
      ensures if writeCopies > 0 then gotcount == len else writeCount == 0
    {
      gotcount, xcurrent, pos := 0, writeCurrent, writePos;
      ghost var crc := writeCRC;
      assert outbuf[..0] == [];
      var more := true;
      while more
        invariant gotcount <= len && Draining(all, outbuf[..gotcount], xcurrent, pos)
        invariant Covers(crc, outbuf[..gotcount])
        invariant !more ==> if writeCopies > 0 then gotcount == len else writeCount == 0
        decreases writeCount, more
      {
        gotcount, xcurrent, pos, more := WriteRound(outbuf, len, gotcount, xcurrent, pos, all, crc);
      }
    }

    method WriteRound(outbuf: array<Byte>, len: nat, from: nat, x: Byte, at: nat, ghost all: Str, ghost crc: nat)
      returns (gotcount: nat, xcurrent: Byte, pos: nat, more: bool)
      requires from <= len <= outbuf.Length && Draining(all, outbuf[..from], x, at) && Covers(crc, outbuf[..from])
      modifies this`writeCopies, this`writeRunCountdown, this`writeCount, this`writeCRC, outbuf
      ensures gotcount <= len && Draining(all, outbuf[..gotcount], xcurrent, pos) && Covers(crc, outbuf[..gotcount])
      ensures if more then writeCount == old(writeCount) - 1 else writeCount == old(writeCount)
      ensures !more ==> if writeCopies > 0 then gotcount == len else writeCount == 0
    {
      xcurrent, pos := x, at;
      gotcount := WriteCopies(outbuf, len, from, x, at, all, crc);
      more := writeCopies == 0 && writeCount != 0;
      if more { xcurrent, pos := DecodeNext(x, at, all, outbuf[..gotcount]); }
    }

    /** The end of a block: a checksum other than the recorded one forces an error for the whole file. */
    method FinishBlock() returns (progress: Progress)
      requires Summing()
      modifies this`writeCount, this`writeCRC, this`totalCRC
      ensures writeCRC == Complement(old(writeCRC)) && !progress.BufferFull? && writeCount == -1
      ensures progress.CrcError? <==> writeCRC != headerCRC
      ensures progress.CrcError? ==> totalCRC != headerCRC
      ensures NextTotal(old(totalCRC))
    {
      writeCount := -1;
      writeCRC := Complement(writeCRC);
      FoldBits(totalCRC, writeCRC);
      totalCRC := Xor(RotateLeft(totalCRC), writeCRC);
      if writeCRC != headerCRC {
        totalCRC := (headerCRC + 1) % WORD;
        return CrcError;
      }
      return BlockDone;
    }

    /** Write pending copies of one byte until they or the buffer run out. */
    method WriteCopies(outbuf: array<Byte>, len: nat, from: nat, x: Byte, pos: nat,
        ghost all: Str, ghost crc: nat) returns (gotcount: nat)
      requires from <= len <= outbuf.Length && Draining(all, outbuf[..from], x, pos) && Covers(crc, outbuf[..from])
      modifies this`writeCopies, this`writeCRC, outbuf
      ensures from <= gotcount <= len && Draining(all, outbuf[..gotcount], x, pos) && Covers(crc, outbuf[..gotcount])
      ensures writeCopies > 0 ==> gotcount == len
    {
      var copies := writeCopies;
      var left := CopyOut(outbuf, len, from, x, copies, crc);
      gotcount, writeCopies := from + copies - left, left;
      OweSplit(all, old(outbuf[..from]), outbuf[..gotcount], x, copies, left, writeRunCountdown, Rest());
    }

    /** One byte into the output buffer and into the checksum. */
    method PutByte(outbuf: array<Byte>, at: nat, x: Byte, ghost crc: nat)
      requires at < outbuf.Length && Covers(crc, outbuf[..at])
      modifies this`writeCRC, outbuf
      ensures outbuf[..at + 1] == old(outbuf[..at]) + [x] && Covers(crc, outbuf[..at + 1])
    {
      BlockCrc.CrcSnoc(crc, outbuf[..at], x, CRC_POLY);
      outbuf[at] := x;
      assert outbuf[..at + 1] == outbuf[..at] + [x];
      writeCRC := BlockCrc.Update(crc32Table, writeCRC, x, CRC_POLY);
    }

    method CopyOut(outbuf: array<Byte>, len: nat, from: nat, x: Byte, copies: nat, ghost crc: nat) returns (left: nat)
      requires from <= len <= outbuf.Length && Covers(crc, outbuf[..from])
      modifies this`writeCRC, outbuf
      ensures left <= copies && from + copies - left <= len && (left > 0 ==> from + copies - left == len)
      ensures outbuf[..from + copies - left] == old(outbuf[..from]) + Copies(x, copies - left)
      ensures Covers(crc, outbuf[..from + copies - left])
    {
      var gotcount := from;
      left := copies;
      ghost var before := outbuf[..from];
      assert before == before + Copies(x, 0);
      while left > 0
        invariant left <= copies && gotcount == from + copies - left <= len
        invariant outbuf[..gotcount] == before + Copies(x, copies - left)
        invariant Covers(crc, outbuf[..gotcount])
      {
        if gotcount >= len {
          return;
        }
        PutByte(outbuf, gotcount, x, crc);
        CopiesSnoc(before, x, copies - left);
        gotcount, left := gotcount + 1, left - 1;
      }
    }

    /** decode_next_byte: one hop, and the countdown to a repeat count. */
    method DecodeNext(xcurrent: Byte, pos: nat, ghost all: Str, ghost written: Str) returns (x: Byte, next: nat)
      requires Draining(all, written, xcurrent, pos) && writeCount > 0 && writeCopies == 0
      modifies this`writeCopies, this`writeRunCountdown, this`writeCount
      ensures Draining(all, written, x, next) && writeCount == old(writeCount) - 1
    {
      ghost var rest := Rest();
      block.ReadSlot(writeCount, pos);
      var word := dbuf[pos];
      assert word == block.words[pos];
      next := High(word);
      assert rest[1..] == block.text[|block.text| - (writeCount - 1)..];
      var copies, countdown;
      x, copies, countdown := CountRun(xcurrent, Low(word), writeRunCountdown, rest);
      writeCount, writeCopies, writeRunCountdown := writeCount - 1, copies, countdown;
    }

    /** The countdown itself: either a literal byte, or after four equal ones the repeat count. */
    static method CountRun(previous: Byte, byte: Byte, runCountdown: nat, ghost rest: Str)
      returns (x: Byte, copies: nat, countdown: nat)
      requires 1 <= runCountdown <= 5 && rest != [] && rest[0] == byte
      ensures 1 <= countdown <= 5
      ensures Owed(x, copies, countdown, rest[1..]) == Owed(previous, 0, runCountdown, rest)
    {
      ExpandStep(previous, runCountdown, rest);
      x, copies, countdown := byte, 1, runCountdown - 1;
      if countdown != 0 {
        if x != previous { countdown := 4; }
      } else {
        copies, x, countdown := x, previous, 5;
      }
    }
  }
}
