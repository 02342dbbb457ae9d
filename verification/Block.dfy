/** A whole block of bzip2, from its symbols to the bytes written out. */
module BlockRoundTrip {
  import opened Bytes
  import opened Bits
  import opened ByteStrings
  import opened CountingSort
  import opened BurrowsWheeler
  import opened RunLength
  import opened Bunzip
  import opened FileCrc
  import Mtf = MoveToFront
  import Symbols = SymbolStage

  /** What a compressor makes of x: run lengths, the transform with its row, and the symbols of the column. */
  ghost predicate Carries(b: Mtf.Bounds, table: Str, l: Str, symbols: seq<nat>, origPtr: nat, x: Str) {
    && IsTransform(Encode(x), l, origPtr)
    && 0 < b.symTotal && Mtf.Known(b, table, l) && Mtf.Room(b, table, 0, l)
    && Mtf.Pack(b, table, l) <= symbols
  }

  lemma ColumnBytes(s: Str, column: Str, orig: nat)
    requires IsTransform(s, column, orig)
    ensures forall k :: 0 <= k < |column| ==> column[k] in s
  {
    var rows :| IsTransformVia(s, rows, column, orig);
    forall k | 0 <= k < |column| ensures column[k] in s {
      assert rows[k] in multiset(rows) && rows[k] in Rotations(s);
      var j :| 0 <= j < |s| && rows[k] == Rotation(s, j);
      assert column[k] == rows[k][|s| - 1];
    }
  }

  /** Every non-empty byte string whose encoding is shorter than the buffer is carried by some stream. */
  lemma StreamExists(b: Mtf.Bounds, table: Str, x: Str) returns (l: Str, symbols: seq<nat>, origPtr: nat)
    requires x != [] && 0 < b.symTotal && Mtf.Known(b, table, Encode(x)) && |Encode(x)| < b.size
    ensures Carries(b, table, l, symbols, origPtr, x)
  {
    l, origPtr := TransformExists(Encode(x));
    TransformShape(Encode(x), l, origPtr);
    ColumnBytes(Encode(x), l, origPtr);
    symbols := Mtf.Pack(b, table, l);
  }

  /** Such a stream unpacks to the column. */
  lemma CarriedUnpacks(b: Mtf.Bounds, table: Str, l: Str, symbols: seq<nat>, origPtr: nat, x: Str)
    requires Carries(b, table, l, symbols, origPtr, x) && b.size <= b.top
    ensures
      var r := Mtf.Unpack(b, table, [], [], symbols);
      r.Unpacked? && r.bytes == l
  {
    var pack := Mtf.Pack(b, table, l);
    var tail := symbols[|pack|..];
    assert symbols == pack + tail;
    assert [] + l == l;
    Mtf.PackUnpack(b, table, [], l, tail);
  }

  /** The recorded value is the complement of the checksum of x. */
  ghost predicate Attests(header: nat, x: Str) {
    header + Checksum(0xFFFF_FFFF, x) == WORD - 1
  }

  ghost predicate Shared(bd: BunzipData, reader: Symbols.SymbolReader)
    reads bd
  {
    && reader.dbuf == bd.dbuf && reader.byteCount == bd.byteCount && reader.Tables()
    && bd.byteCount != bd.crc32Table && bd.dbuf.Length <= MAX_BLOCK && bd.writeCopies == 0
  }

  ghost function BoundsOf(reader: Symbols.SymbolReader, symTotal: nat): Mtf.Bounds {
    Mtf.Bounds(symTotal, reader.dbuf.Length, INT_MAX)
  }

  /** get_next_block from the symbols on; ok means that a block of at least one byte is loaded. */
  method LoadBlock(bd: BunzipData, reader: Symbols.SymbolReader, symbols: seq<nat>, symTotal: nat, origPtr: nat,
      ghost l: Str, ghost x: Str)
    returns (ok: bool)
    requires Shared(bd, reader) && bd.Summing() && symTotal <= 256
    modifies bd, bd.dbuf, bd.byteCount, reader.mtfSymbol
    ensures bd.headerCRC == old(bd.headerCRC) && bd.totalCRC == old(bd.totalCRC) && bd.writeCopies == 0
    ensures ok ==> bd.Valid() && bd.writeRunCountdown == 5 && bd.writeCount == |bd.block.text|
    ensures Carries(BoundsOf(reader, symTotal), old(reader.symToByte[..]), l, symbols, origPtr, x) ==>
              ok && bd.block.text == Encode(x)
  {
    ghost var b, table := BoundsOf(reader, symTotal), reader.symToByte[..];
    ghost var carried := Carries(b, table, l, symbols, origPtr, x);
    if carried { CarriedUnpacks(b, table, l, symbols, origPtr, x); }
    var read, dbufCount, column := reader.ReadSymbols(symbols, symTotal, Mtf.Unpack(b, table, [], [], symbols));
    if read != Symbols.Ok { return false; }
    var status := bd.Unsort(dbufCount, origPtr, column);
    ok := status == Ok && dbufCount > 0;
    assert carried ==> bd.block.text == Encode(x);
  }

  /** When the symbols are those of x, the loaded block owes exactly x. */
  method NextBlock(bd: BunzipData, reader: Symbols.SymbolReader, symbols: seq<nat>, symTotal: nat, origPtr: nat,
      ghost l: Str, ghost x: Str)
    returns (ok: bool)
    requires Shared(bd, reader) && bd.Summing() && symTotal <= 256
    modifies bd, bd.dbuf, bd.byteCount, reader.mtfSymbol
    ensures bd.headerCRC == old(bd.headerCRC) && bd.totalCRC == old(bd.totalCRC)
    ensures ok ==> bd.Valid() && bd.writeCRC == 0xFFFF_FFFF
    ensures Carries(BoundsOf(reader, symTotal), old(reader.symToByte[..]), l, symbols, origPtr, x) ==>
              ok && bd.Remaining() == x
  {
    ghost var carried := Carries(BoundsOf(reader, symTotal), reader.symToByte[..], l, symbols, origPtr, x);
    ok := LoadBlock(bd, reader, symbols, symTotal, origPtr, l, x);
    assert carried ==> ok && bd.block.text == Encode(x);
    if ok { bd.StartBlock(x); }
  }

  /**
   * The block and the calls of read_bunzip that write it out in pieces of len bytes. When the symbols are those of x,
   * exactly x is written, and the block is accepted exactly when the recorded checksum is that of x.
   */
  method DecodeBlock(bd: BunzipData, reader: Symbols.SymbolReader, symbols: seq<nat>, symTotal: nat, origPtr: nat,
      outbuf: array<Byte>, len: nat, ghost l: Str, ghost x: Str)
    returns (ok: bool, output: Str, progress: Progress)
    requires Shared(bd, reader) && bd.Summing() && symTotal <= 256
    requires 0 < len <= outbuf.Length && outbuf != reader.symToByte && outbuf != reader.mtfSymbol
    modifies bd, bd.dbuf, bd.byteCount, reader.mtfSymbol, outbuf
    ensures
      Carries(BoundsOf(reader, symTotal), old(reader.symToByte[..]), l, symbols, origPtr, x) ==>
        ok && output == x && (progress.BlockDone? <==> Attests(bd.headerCRC, x))
    ensures bd.headerCRC == old(bd.headerCRC)
    ensures ok ==> Shared(bd, reader) && bd.Summing() && !progress.BufferFull?
    ensures ok && progress.BlockDone? ==> Folds(old(bd.totalCRC), bd.headerCRC, bd.totalCRC)
  {
    ok := NextBlock(bd, reader, symbols, symTotal, origPtr, l, x);
    output, progress := [], BlockDone;
    if ok { output, progress := bd.DrainAll(outbuf, len); }
  }
}

/** A whole block of bzip2, from its bits to the bytes written out. */
module BitsRoundTrip {
  import opened Bytes
  import opened ByteStrings
  import opened BurrowsWheeler
  import opened RunLength
  import opened RunSymbols
  import opened SymbolStream
  import opened BlockRoundTrip
  import opened Bits
  import Mtf = MoveToFront
  import Symbols = SymbolStage
  import Huffman
  import Bunzip

  /** The Huffman tables and the move-to-front table of a block. */
  datatype Header = Header(tables: seq<Table>, selectors: seq<nat>, table: Str) {
    ghost predicate Valid() {
      Groups(tables, selectors) && AllFit(tables)
    }
  }

  /** What a compressor makes of x: the codewords of its symbols, followed at least by the end of the file. */
  ghost predicate Compressed(h: Header, b: Mtf.Bounds, l: Str, bits: seq<Bit>, rest: seq<Bit>, origPtr: nat, x: Str)
    requires h.Valid()
  {
    && 0 < b.symTotal && Mtf.Known(b, h.table, l) && Mtf.Room(b, h.table, 0, l)
    && IsTransform(Encode(x), l, origPtr)
    && Spells(h.tables, h.selectors, 0, Mtf.Pack(b, h.table, l), bits, rest)
    && |rest| >= Huffman.MAX_HUFCODE_BITS
  }

  lemma DigitsEndNothing(symTotal: nat, digits: seq<nat>, more: seq<nat>)
    requires 0 < symTotal && AreDigits(digits) && EndsOnce(symTotal, more)
    ensures EndsOnce(symTotal, digits + more)
  {}

  lemma LiteralEndsNothing(symTotal: nat, digits: seq<nat>, i: nat, more: seq<nat>)
    requires 0 < i < symTotal && AreDigits(digits) && EndsOnce(symTotal, more)
    ensures EndsOnce(symTotal, digits + ([i + 1] + more))
  {
    EndsOnceCons(symTotal, i + 1, more);
    DigitsEndNothing(symTotal, digits, [i + 1] + more);
  }

  lemma PackCut(b: Mtf.Bounds, front: Str, l: Str, n: nat) returns (i: nat, next: Str)
    requires 0 < b.symTotal && Mtf.Known(b, front, l) && n == Run(l, front[0], |l|) < |l|
    ensures 0 < i < b.symTotal && Mtf.Known(b, next, l[n + 1..])
    ensures Mtf.Pack(b, front, l) == Digits(n) + ([i + 1] + Mtf.Pack(b, next, l[n + 1..]))
  {
    i := Mtf.Place(front[..b.symTotal], l[n]);
    next := Mtf.ToFront(front, i);
    Mtf.PackShape(b, front, l, n, []);
    assert Mtf.Pack(b, front, l) + [] == Mtf.Pack(b, front, l);
    assert Mtf.Pack(b, next, l[n + 1..]) + [] == Mtf.Pack(b, next, l[n + 1..]);
  }

  /** The symbols of a block have one end symbol, at the end. */
  lemma {:induction false} PackEndsOnce(b: Mtf.Bounds, front: Str, l: Str)
    requires 0 < b.symTotal && Mtf.Known(b, front, l)
    ensures EndsOnce(b.symTotal, Mtf.Pack(b, front, l))
    decreases |l|
  {
    var n := Run(l, front[0], |l|);
    if n == |l| {
      DigitsEndNothing(b.symTotal, Digits(n), [b.symTotal + 1]);
    } else {
      var i, next := PackCut(b, front, l, n);
      PackEndsOnce(b, next, l[n + 1..]);
      LiteralEndsNothing(b.symTotal, Digits(n), i, Mtf.Pack(b, next, l[n + 1..]));
    }
  }

  lemma {:induction false} DigitsLength(n: nat)
    ensures |Digits(n)| <= n
  {
    if n > 0 { DigitsLength((n - 1) / 2); }
  }

  /** A block has at most one symbol per byte and the end symbol. */
  lemma {:induction false} PackSize(b: Mtf.Bounds, front: Str, l: Str)
    requires 0 < b.symTotal && Mtf.Known(b, front, l)
    ensures |Mtf.Pack(b, front, l)| <= |l| + 1
    ensures var p := Mtf.Pack(b, front, l); p != [] && p[|p| - 1] == b.symTotal + 1
    decreases |l|
  {
    var n := Run(l, front[0], |l|);
    DigitsLength(n);
    if n < |l| {
      var i, next := PackCut(b, front, l, n);
      PackSize(b, next, l[n + 1..]);
    }
  }

  /** Tables for the alphabet of b: complete or not, every codeword fits in its length. */
  ghost predicate Codes(h: Header, b: Mtf.Bounds)
    requires h.Valid()
  {
    forall g :: 0 <= g < |h.tables| ==>
      var c := h.tables[g];
      |c.lens| == b.symTotal + 2 && Huffman.Kraft(c.lens, c.maxLen) <= Shl(1, c.maxLen)
  }

  /** Every non-empty byte string whose encoding fits has its bits, for any tables and any bits after them. */
  lemma CompressedExists(h: Header, b: Mtf.Bounds, rest: seq<Bit>, x: Str)
    returns (l: Str, bits: seq<Bit>, origPtr: nat)
    requires h.Valid() && Codes(h, b) && 0 < b.symTotal && Mtf.Known(b, h.table, Encode(x))
    requires x != [] && |Encode(x)| < b.size && |Encode(x)| < GROUP_SIZE * |h.selectors|
    requires |rest| >= Huffman.MAX_HUFCODE_BITS
    ensures Compressed(h, b, l, bits, rest, origPtr, x)
  {
    var symbols;
    l, symbols, origPtr := BlockRoundTrip.StreamExists(b, h.table, x);
    TransformShape(Encode(x), l, origPtr);
    symbols := Mtf.Pack(b, h.table, l);
    PackSize(b, h.table, l);
    PackEndsOnce(b, h.table, l);
    bits := SymbolStream.StreamExists(h.tables, h.selectors, 0, symbols, rest);
  }

  /** The bits of x are read as symbols that carry x, and nothing after them is read. */
  lemma CompressedReads(h: Header, b: Mtf.Bounds, l: Str, bits: seq<Bit>, rest: seq<Bit>, origPtr: nat, x: Str)
    requires h.Valid() && Compressed(h, b, l, bits, rest, origPtr, x)
    ensures
      var r := Read(h.tables, h.selectors, b.symTotal, 0, bits);
      r == Ended(Mtf.Pack(b, h.table, l), rest) && Carries(b, h.table, l, r.symbols, origPtr, x)
  {
    PackEndsOnce(b, h.table, l);
    ReadSpelled(h.tables, h.selectors, b.symTotal, 0, Mtf.Pack(b, h.table, l), bits, rest);
  }

  /**
   * From the bits of a block to the bytes written out. If the bits are those of x, exactly x is written, the bits left
   * are those after the block, and the block is accepted exactly when the recorded checksum is that of x.
   */
  method DecodeBits(bd: Bunzip.BunzipData, reader: Symbols.SymbolReader, groups: seq<Huffman.GroupData>,
      selectors: seq<nat>, symTotal: nat, bits: seq<Bit>, origPtr: nat, outbuf: array<Byte>, len: nat,
      ghost h: Header, ghost l: Str, ghost rest: seq<Bit>, ghost x: Str)
    returns (ok: bool, left: seq<Bit>, output: Str, progress: Bunzip.Progress)
    requires Shared(bd, reader) && bd.Summing() && symTotal <= 256
    requires 0 < len <= outbuf.Length && outbuf != reader.symToByte && outbuf != reader.mtfSymbol
    requires h.Valid() && h.selectors == selectors && h.table == reader.symToByte[..] && |groups| == |h.tables|
    requires forall g :: 0 <= g < |groups| ==> Holds(groups[g], h.tables[g])
    modifies bd, bd.dbuf, bd.byteCount, reader.mtfSymbol, outbuf
    ensures
      Compressed(h, BoundsOf(reader, symTotal), l, bits, rest, origPtr, x) ==>
        ok && left == rest && output == x && (progress.BlockDone? <==> Attests(bd.headerCRC, x))
  {
    ghost var b := BoundsOf(reader, symTotal);
    if Compressed(h, b, l, bits, rest, origPtr, x) { CompressedReads(h, b, l, bits, rest, origPtr, x); }
    var r := ReadStream(groups, selectors, symTotal, bits, h.tables);
    ok, left, output, progress := false, bits, [], Bunzip.BlockDone;
    if r.Ended? {
      left := r.rest;
      ok, output, progress := DecodeBlock(bd, reader, r.symbols, symTotal, origPtr, outbuf, len, l, x);
    }
  }
}
