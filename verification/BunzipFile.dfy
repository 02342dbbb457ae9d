/** A whole bzip2 file: its blocks one after the other, and the checksum over all of them. */
module FileRoundTrip {
  import opened Bytes
  import opened Bits
  import opened ByteStrings
  import opened Bunzip
  import opened FileCrc
  import opened BlockRoundTrip
  import Symbols = SymbolStage

  /** A block of the file: the checksum and origPtr of its header, its byte table, and its symbols. */
  datatype BlockIn = BlockIn(header: Recorded, table: Str, symTotal: nat, origPtr: nat, symbols: seq<nat>)

  predicate Shaped(block: BlockIn) { |block.table| == 256 && block.symTotal <= 256 }

  /** The block holds x, through the column l. */
  ghost predicate HoldsText(reader: Symbols.SymbolReader, block: BlockIn, l: Str, x: Str) {
    Carries(BoundsOf(reader, block.symTotal), block.table, l, block.symbols, block.origPtr, x)
  }

  function Joined(xs: seq<Str>): Str {
    if xs == [] then [] else Joined(xs[..|xs| - 1]) + xs[|xs| - 1]
  }

  function Headers(blocks: seq<BlockIn>): (h: seq<nat>)
    ensures |h| == |blocks| && forall i :: 0 <= i < |h| ==> h[i] == blocks[i].header
  {
    seq(|blocks|, i requires 0 <= i < |blocks| => blocks[i].header)
  }

  /** The checksum at the end of the file is what the checksums of its blocks make, bit by bit. */
  ghost predicate FileAttests(fileCRC: nat, crcs: seq<nat>) {
    forall k :: 0 <= k < 32 ==> Bit(fileCRC, k) == Ones(crcs, k, |crcs|) % 2
  }

  lemma FileAttestsTotal(fileCRC: nat, totals: seq<nat>, crcs: seq<nat>)
    requires Totals(totals, crcs) && fileCRC < WORD && totals[|crcs|] < WORD
    ensures FileAttests(fileCRC, crcs) <==> fileCRC == totals[|crcs|]
  {
    forall k | 0 <= k < 32 ensures Bit(totals[|crcs|], k) == Ones(crcs, k, |crcs|) % 2 { TotalBits(totals, crcs, k); }
    if FileAttests(fileCRC, crcs) {
      Shl32();
      SameBits(fileCRC, totals[|crcs|], 32);
    }
  }

  /** Read a block's table and checksum, as the header reader leaves them. */
  method ReadHeader(bd: BunzipData, reader: Symbols.SymbolReader, block: BlockIn)
    requires reader.Tables() && Shaped(block)
    modifies bd`headerCRC, reader.symToByte
    ensures bd.headerCRC == block.header && reader.symToByte[..] == block.table
  {
    bd.headerCRC := block.header;
    for i := 0 to 256
      modifies reader.symToByte
      invariant forall k :: 0 <= k < i ==> reader.symToByte[k] == block.table[k]
    {
      reader.symToByte[i] := block.table[i];
    }
  }

  /** After the first i blocks: their texts are written, and their checksums, all of them right, are in the total. */
  ghost predicate Done(blocks: seq<BlockIn>, xs: seq<Str>, i: nat, output: Str, totals: seq<nat>, total: nat) {
    && i <= |blocks| == |xs| && output == Joined(xs[..i])
    && Totals(totals, Headers(blocks[..i])) && totals[i] == total
    && forall k :: 0 <= k < i ==> Attests(blocks[k].header, xs[k])
  }

  lemma OneMore(blocks: seq<BlockIn>, xs: seq<Str>, i: nat, output: Str, totals: seq<nat>, total: nat, next: nat)
    requires Done(blocks, xs, i, output, totals, total) && i < |blocks|
    requires Attests(blocks[i].header, xs[i]) && Folds(total, blocks[i].header, next)
    ensures Done(blocks, xs, i + 1, output + xs[i], totals + [next], next)
  {
    assert xs[..i + 1][..i] == xs[..i];
    var h, h' := Headers(blocks[..i]), Headers(blocks[..i + 1]);
    assert h' == h + [blocks[i].header];
    var t := totals + [next];
    forall k | 0 <= k < |h'| ensures Folds(t[k], h'[k], t[k + 1]) {
      if k < i { assert Folds(totals[k], h[k], totals[k + 1]); }
    }
  }

  /**
   * bunzip2 on a file whose blocks hold the texts xs: it is accepted exactly when every recorded checksum, of the
   * blocks and of the file, is right, and then exactly the texts have been written, one after the other.
   */
  method DecodeFile(bd: BunzipData, reader: Symbols.SymbolReader, blocks: seq<BlockIn>, fileCRC: Recorded,
      outbuf: array<Byte>, len: nat, ghost ls: seq<Str>, ghost xs: seq<Str>)
    returns (accepted: bool, output: Str)
    requires Shared(bd, reader) && bd.Summing() && bd.totalCRC == 0
    requires 0 < len <= outbuf.Length && outbuf != reader.symToByte && outbuf != reader.mtfSymbol
    requires |ls| == |xs| == |blocks|
    requires forall i :: 0 <= i < |blocks| ==> Shaped(blocks[i]) && HoldsText(reader, blocks[i], ls[i], xs[i])
    modifies bd, bd.dbuf, bd.byteCount, reader.symToByte, reader.mtfSymbol, outbuf
    ensures accepted <==>
      (forall i :: 0 <= i < |blocks| ==> Attests(blocks[i].header, xs[i])) && FileAttests(fileCRC, Headers(blocks))
    ensures accepted ==> output == Joined(xs)
  {
    output := [];
    ghost var totals: seq<nat> := [0];
    for i := 0 to |blocks|
      invariant Shared(bd, reader) && bd.Summing()
      invariant Done(blocks, xs, i, output, totals, bd.totalCRC)
    {
      ghost var total := bd.totalCRC;
      ReadHeader(bd, reader, blocks[i]);
      var ok, written, progress := DecodeBlock(bd, reader, blocks[i].symbols, blocks[i].symTotal, blocks[i].origPtr,
                                               outbuf, len, ls[i], xs[i]);
      if !progress.BlockDone? { return false, output; }
      OneMore(blocks, xs, i, output, totals, total, bd.totalCRC);
      output, totals := output + written, totals + [bd.totalCRC];
    }
    bd.headerCRC := fileCRC;
    assert blocks[..|blocks|] == blocks && xs[..|xs|] == xs;
    FileAttestsTotal(fileCRC, totals, Headers(blocks));
    accepted := bd.headerCRC == bd.totalCRC;
  }
}
