/** The symbols of a block as bits: codewords of one table per fifty symbols, up to the end symbol. */
module SymbolStream {
  import opened Bytes
  import opened ByteStrings
  import opened CountingSort
  import opened Bits
  import opened Huffman

  type Bit = b: nat | b <= 1

  const GROUP_SIZE: nat := 50

  /** What a group's arrays hold, for the code given by the lengths. */
  datatype Table = Table(lens: Str, permute: seq<nat>, minLen: nat, maxLen: nat) {
    ghost predicate Valid() {
      && ValidLengths(lens) && Extremes(lens, minLen, maxLen) && 1 <= minLen <= maxLen <= MAX_HUFCODE_BITS
      && |permute| >= |lens| && IsStableOrder(lens, permute[..|lens|])
    }

    /** No count overruns its unsigned char. */
    ghost predicate CountsFit() {
      forall l :: 0 <= l <= MAX_HUFCODE_BITS ==> CountOf(lens, l) <= 255
    }

    function Next(j: nat): Decoded
      requires 1 <= minLen <= maxLen <= MAX_HUFCODE_BITS
    {
      Decode(Wrapped(Histogram(lens)), permute, minLen, maxLen, j)
    }
  }

  /** Bits as a number, first bit first. */
  function Number(bits: seq<Bit>): (x: nat)
    ensures x < Shl(1, |bits|)
  {
    if bits == [] then 0 else 2 * Number(bits[..|bits| - 1]) + bits[|bits| - 1]
  }

  /** The leading bits of a number are the number of the leading bits. */
  lemma {:induction false} NumberPrefix(bits: seq<Bit>, k: nat, m: nat)
    requires k <= m <= |bits|
    ensures Shr(Number(bits[..m]), m - k) == Number(bits[..k])
    decreases m - k
  {
    if k < m {
      NumberPrefix(bits, k, m - 1);
      var x, last := Number(bits[..m - 1]), bits[m - 1];
      assert bits[..m][..m - 1] == bits[..m - 1];
      ShrPush(x, last, m - 1 - k);
    }
  }

  datatype Stream = Ended(symbols: seq<nat>, rest: seq<Bit>) | Broken

  ghost predicate Groups(tables: seq<Table>, selectors: seq<nat>) {
    && (forall g :: 0 <= g < |tables| ==> tables[g].Valid())
    && (forall k :: 0 <= k < |selectors| ==> selectors[k] < |tables|)
  }

  ghost predicate AllFit(tables: seq<Table>) {
    forall g :: 0 <= g < |tables| ==> tables[g].CountsFit()
  }

  /** Symbol number n at the front of the bits, unless the selectors or the bits run out or no codeword is found. */
  ghost function Front(tables: seq<Table>, selectors: seq<nat>, n: nat, bits: seq<Bit>): (d: Decoded)
    requires Groups(tables, selectors)
    ensures d.Symbol? ==> n / GROUP_SIZE < |selectors| && 0 < d.bits <= |bits|
  {
    if n / GROUP_SIZE >= |selectors| then DataError
    else
      var c := tables[selectors[n / GROUP_SIZE]];
      if |bits| < c.maxLen then DataError else c.Next(Number(bits[..c.maxLen]))
  }

  /** Symbols from number n on, up to the end symbol. */
  ghost function Read(tables: seq<Table>, selectors: seq<nat>, symTotal: nat, n: nat, bits: seq<Bit>): Stream
    requires Groups(tables, selectors)
    decreases |bits|
  {
    match Front(tables, selectors, n, bits)
    case DataError => Broken
    case Symbol(sym, len) =>
      if sym > symTotal then Ended([sym], bits[len..])
      else Cons(sym, Read(tables, selectors, symTotal, n + 1, bits[len..]))
  }

  function Cons(sym: nat, s: Stream): Stream {
    if s.Ended? then Ended([sym] + s.symbols, s.rest) else Broken
  }

  /** The bits are the codewords of the symbols from number n on, and then the rest. */
  ghost predicate Spells(tables: seq<Table>, selectors: seq<nat>, n: nat, symbols: seq<nat>, bits: seq<Bit>,
      rest: seq<Bit>)
    requires Groups(tables, selectors)
    decreases |symbols|
  {
    if symbols == [] then bits == rest
    else
      && n / GROUP_SIZE < |selectors|
      && var lens := tables[selectors[n / GROUP_SIZE]].lens;
      && symbols[0] < |lens| && lens[symbols[0]] <= |bits|
      && Number(bits[..lens[symbols[0]]]) == Codeword(lens, symbols[0])
      && Spells(tables, selectors, n + 1, symbols[1..], bits[lens[symbols[0]]..], rest)
  }

  /** The last symbol, and no other, is an end symbol. */
  ghost predicate EndsOnce(symTotal: nat, symbols: seq<nat>) {
    && symbols != [] && symbols[|symbols| - 1] > symTotal
    && forall k :: 0 <= k < |symbols| - 1 ==> symbols[k] <= symTotal
  }

  lemma {:induction false} SpelledLength(tables: seq<Table>, selectors: seq<nat>, n: nat, symbols: seq<nat>,
      bits: seq<Bit>, rest: seq<Bit>)
    requires Groups(tables, selectors) && Spells(tables, selectors, n, symbols, bits, rest)
    ensures |bits| >= |rest|
    decreases |symbols|
  {
    if symbols != [] {
      var k := tables[selectors[n / GROUP_SIZE]].lens[symbols[0]];
      SpelledLength(tables, selectors, n + 1, symbols[1..], bits[k..], rest);
    }
  }

  /** A codeword at the front of the bits is decoded, and the bits after it do not matter. */
  lemma NextCodeword(c: Table, sym: nat, bits: seq<Bit>)
    requires c.Valid() && c.CountsFit() && sym < |c.lens| && c.maxLen <= |bits|
    requires Number(bits[..c.lens[sym]]) == Codeword(c.lens, sym)
    ensures c.Next(Number(bits[..c.maxLen])) == Symbol(sym, c.lens[sym])
  {
    UnwrappedReads(c.lens, c.permute, c.minLen, c.maxLen);
    NumberPrefix(bits, c.lens[sym], c.maxLen);
    assert StartsWith(c.lens, c.maxLen, Number(bits[..c.maxLen]), sym);
  }

  /** A symbol decoded has its codeword at the front of the bits. */
  lemma CodewordNext(c: Table, bits: seq<Bit>)
    requires c.Valid() && c.CountsFit() && c.maxLen <= |bits|
    ensures
      var d := c.Next(Number(bits[..c.maxLen]));
      d.Symbol? ==> d.sym < |c.lens| && c.lens[d.sym] == d.bits && Number(bits[..d.bits]) == Codeword(c.lens, d.sym)
  {
    assert Wrapped(Histogram(c.lens)) == Histogram(c.lens);
    DecodedWasCodeword(c.lens, c.permute, c.minLen, c.maxLen, Number(bits[..c.maxLen]));
    var d := c.Next(Number(bits[..c.maxLen]));
    if d.Symbol? { NumberPrefix(bits, d.bits, c.maxLen); }
  }

  lemma EndsOnceTail(symTotal: nat, symbols: seq<nat>)
    requires EndsOnce(symTotal, symbols)
    ensures if |symbols| == 1 then symbols[0] > symTotal else symbols[0] <= symTotal && EndsOnce(symTotal, symbols[1..])
  {}

  lemma FrontCodeword(tables: seq<Table>, selectors: seq<nat>, n: nat, symbols: seq<nat>, bits: seq<Bit>,
      rest: seq<Bit>)
    returns (len: nat)
    requires Groups(tables, selectors) && AllFit(tables)
    requires Spells(tables, selectors, n, symbols, bits, rest) && symbols != [] && |rest| >= MAX_HUFCODE_BITS
    ensures Front(tables, selectors, n, bits) == Symbol(symbols[0], len)
    ensures Spells(tables, selectors, n + 1, symbols[1..], bits[len..], rest)
  {
    SpelledLength(tables, selectors, n, symbols, bits, rest);
    NextCodeword(tables[selectors[n / GROUP_SIZE]], symbols[0], bits);
    len := Front(tables, selectors, n, bits).bits;
  }

  /** Reading one symbol and then the rest of them. */
  lemma ReadCons(tables: seq<Table>, selectors: seq<nat>, symTotal: nat, n: nat, symbols: seq<nat>, bits: seq<Bit>,
      len: nat, rest: seq<Bit>)
    requires Groups(tables, selectors) && symbols != [] && EndsOnce(symTotal, symbols)
    requires Front(tables, selectors, n, bits) == Symbol(symbols[0], len)
    requires if |symbols| == 1 then bits[len..] == rest
             else Read(tables, selectors, symTotal, n + 1, bits[len..]) == Ended(symbols[1..], rest)
    ensures Read(tables, selectors, symTotal, n, bits) == Ended(symbols, rest)
  {
    EndsOnceTail(symTotal, symbols);
    assert symbols == [symbols[0]] + symbols[1..];
  }

  lemma {:induction false} ReadSpelledRest(tables: seq<Table>, selectors: seq<nat>, symTotal: nat, n: nat,
      symbols: seq<nat>, after: seq<Bit>, rest: seq<Bit>)
    requires Groups(tables, selectors) && AllFit(tables) && EndsOnce(symTotal, symbols)
    requires Spells(tables, selectors, n, symbols[1..], after, rest) && |rest| >= MAX_HUFCODE_BITS
    ensures if |symbols| == 1 then after == rest
            else Read(tables, selectors, symTotal, n, after) == Ended(symbols[1..], rest)
    decreases |symbols|, 0
  {
    EndsOnceTail(symTotal, symbols);
    if |symbols| > 1 { ReadSpelled(tables, selectors, symTotal, n, symbols[1..], after, rest); }
  }

  /** Reading gives back the symbols whose codewords make up the bits, whatever comes after them. */
  lemma {:induction false} ReadSpelled(tables: seq<Table>, selectors: seq<nat>, symTotal: nat, n: nat,
      symbols: seq<nat>, bits: seq<Bit>, rest: seq<Bit>)
    requires Groups(tables, selectors) && AllFit(tables)
    requires Spells(tables, selectors, n, symbols, bits, rest) && EndsOnce(symTotal, symbols)
    requires |rest| >= MAX_HUFCODE_BITS
    ensures Read(tables, selectors, symTotal, n, bits) == Ended(symbols, rest)
    decreases |symbols|, 1
  {
    var len := FrontCodeword(tables, selectors, n, symbols, bits, rest);
    ReadSpelledRest(tables, selectors, symTotal, n + 1, symbols, bits[len..], rest);
    ReadCons(tables, selectors, symTotal, n, symbols, bits, len, rest);
  }

  lemma FrontSpelled(tables: seq<Table>, selectors: seq<nat>, n: nat, bits: seq<Bit>)
    requires Groups(tables, selectors) && AllFit(tables)
    ensures
      var d := Front(tables, selectors, n, bits);
      d.Symbol? ==>
        var lens := tables[selectors[n / GROUP_SIZE]].lens;
        d.sym < |lens| && lens[d.sym] == d.bits && Number(bits[..d.bits]) == Codeword(lens, d.sym)
  {
    if Front(tables, selectors, n, bits).Symbol? { CodewordNext(tables[selectors[n / GROUP_SIZE]], bits); }
  }

  lemma SpellsCons(tables: seq<Table>, selectors: seq<nat>, n: nat, sym: nat, more: seq<nat>, bits: seq<Bit>,
      len: nat, rest: seq<Bit>)
    requires Groups(tables, selectors) && n / GROUP_SIZE < |selectors| && len <= |bits|
    requires
      var lens := tables[selectors[n / GROUP_SIZE]].lens;
      && sym < |lens| && lens[sym] == len && Number(bits[..len]) == Codeword(lens, sym)
      && Spells(tables, selectors, n + 1, more, bits[len..], rest)
    ensures Spells(tables, selectors, n, [sym] + more, bits, rest)
  {
    assert ([sym] + more)[1..] == more;
  }

  lemma EndsOnceCons(symTotal: nat, sym: nat, more: seq<nat>)
    requires sym <= symTotal && EndsOnce(symTotal, more)
    ensures EndsOnce(symTotal, [sym] + more)
  {}

  /** Whatever is read was spelled by the codewords of its symbols, in order. */
  lemma {:induction false} SpelledRead(tables: seq<Table>, selectors: seq<nat>, symTotal: nat, n: nat, bits: seq<Bit>)
    returns (symbols: seq<nat>, rest: seq<Bit>)
    requires Groups(tables, selectors) && AllFit(tables)
    requires Read(tables, selectors, symTotal, n, bits).Ended?
    ensures Read(tables, selectors, symTotal, n, bits) == Ended(symbols, rest)
    ensures Spells(tables, selectors, n, symbols, bits, rest) && EndsOnce(symTotal, symbols)
    decreases |bits|
  {
    var d := Front(tables, selectors, n, bits);
    FrontSpelled(tables, selectors, n, bits);
    if d.sym > symTotal {
      symbols, rest := [], bits[d.bits..];
    } else {
      symbols, rest := SpelledRead(tables, selectors, symTotal, n + 1, bits[d.bits..]);
      EndsOnceCons(symTotal, d.sym, symbols);
    }
    SpellsCons(tables, selectors, n, d.sym, symbols, bits, d.bits, rest);
    symbols := [d.sym] + symbols;
  }

  // ---- every sequence of symbols has its bits

  /** The n bits of x, first bit first. */
  function Binary(x: nat, n: nat): (w: seq<Bit>)
    ensures |w| == n
  {
    if n == 0 then [] else Binary(x / 2, n - 1) + [x % 2]
  }

  lemma {:induction false} NumberBinary(x: nat, n: nat)
    requires x < Shl(1, n)
    ensures Number(Binary(x, n)) == x
  {
    if n > 0 { NumberBinary(x / 2, n - 1); }
  }

  /** Within the Kraft bound there are bits for any symbols of the alphabet, as long as the selectors last. */
  lemma {:induction false} StreamExists(tables: seq<Table>, selectors: seq<nat>, n: nat, symbols: seq<nat>,
      rest: seq<Bit>)
    returns (bits: seq<Bit>)
    requires Groups(tables, selectors) && n + |symbols| <= GROUP_SIZE * |selectors|
    requires forall g :: 0 <= g < |tables| ==> Kraft(tables[g].lens, tables[g].maxLen) <= Shl(1, tables[g].maxLen)
    requires forall k, g :: 0 <= k < |symbols| && 0 <= g < |tables| ==> symbols[k] < |tables[g].lens|
    ensures Spells(tables, selectors, n, symbols, bits, rest)
    decreases |symbols|
  {
    bits := rest;
    if symbols != [] {
      var sym, more := symbols[0], symbols[1..];
      assert symbols == [sym] + more;
      var after := StreamExists(tables, selectors, n + 1, more, rest);
      var c := tables[selectors[n / GROUP_SIZE]];
      var len, code := c.lens[sym], Codeword(c.lens, sym);
      CodewordRange(c.lens, sym);
      CodewordFits(c.lens, len, c.maxLen);
      NumberBinary(code, len);
      bits := Binary(code, len) + after;
      assert bits[..len] == Binary(code, len) && bits[len..] == after;
      SpellsCons(tables, selectors, n, sym, more, bits, len, rest);
    }
  }

  // ---- the loop

  ghost predicate Holds(group: GroupData, c: Table)
    reads group, group.limit, group.base, group.permute
  {
    && group.Describes(c.lens, Wrapped(Histogram(c.lens)))
    && group.permute[..] == c.permute && group.minLen == c.minLen && group.maxLen == c.maxLen
  }

  function Prefixed(symbols: seq<nat>, s: Stream): Stream {
    if s.Ended? then Ended(symbols + s.symbols, s.rest) else Broken
  }

  lemma PrefixedStep(symbols: seq<nat>, sym: nat, s: Stream)
    ensures Prefixed(symbols, Cons(sym, s)) == Prefixed(symbols + [sym], s)
  {
    if s.Ended? { assert symbols + ([sym] + s.symbols) == symbols + [sym] + s.symbols; }
  }

  /** The next symbol by one group's table, and the position after its codeword. */
  method ReadOne(group: GroupData, ghost c: Table, bits: seq<Bit>, p: nat) returns (d: Decoded, p': nat)
    requires Holds(group, c) && c.Valid() && p <= |bits|
    ensures d.Symbol? ==> p + c.maxLen <= |bits| && p' == p + d.bits <= |bits|
    ensures d == if |bits| - p < c.maxLen then DataError else c.Next(Number(bits[p..][..c.maxLen]))
  {
    assert |bits| - p >= c.maxLen ==> bits[p..][..c.maxLen] == bits[p..p + c.maxLen];
    d, p' := DataError, p;
    if |bits| - p >= group.maxLen {
      var j := Number(bits[p..p + group.maxLen]);
      var unget;
      d, unget := group.NextSymbol(j, c.lens, Wrapped(Histogram(c.lens)));
      if d.Symbol? { p' := p + group.maxLen - unget; }
    }
  }

  /** Before symbol n: symCount of the current group's symbols are left. */
  ghost predicate Selecting(selectors: seq<nat>, n: nat, symCount: nat, selector: nat, cur: nat) {
    && n + symCount == GROUP_SIZE * selector && symCount < GROUP_SIZE && selector <= |selectors|
    && (symCount > 0 ==> selector > 0 && cur == selectors[selector - 1])
  }

  /** A new group every GROUP_SIZE symbols: the selector in use is the quotient. */
  method Select(selectors: seq<nat>, ghost n: nat, symCount0: nat, selector0: nat, cur0: nat)
    returns (ok: bool, symCount: nat, selector: nat, cur: nat)
    requires Selecting(selectors, n, symCount0, selector0, cur0)
    ensures ok <==> n / GROUP_SIZE < |selectors|
    ensures ok ==> Selecting(selectors, n + 1, symCount, selector, cur) && cur == selectors[n / GROUP_SIZE]
  {
    ok, symCount, selector, cur := true, symCount0, selector0, cur0;
    if symCount == 0 {
      if selector >= |selectors| { return false, symCount, selector, cur; }
      cur, selector, symCount := selectors[selector], selector + 1, GROUP_SIZE;
    }
    symCount := symCount - 1;
  }

  /** One symbol of the stream. */
  method ReadNext(groups: seq<GroupData>, selectors: seq<nat>, bits: seq<Bit>, ghost n: nat, symCount0: nat,
      selector0: nat, cur0: nat, p: nat, ghost tables: seq<Table>)
    returns (d: Decoded, p': nat, symCount: nat, selector: nat, cur: nat)
    requires Groups(tables, selectors) && |groups| == |tables| && p <= |bits|
    requires forall g :: 0 <= g < |groups| ==> Holds(groups[g], tables[g])
    requires Selecting(selectors, n, symCount0, selector0, cur0)
    ensures d == Front(tables, selectors, n, bits[p..])
    ensures d.Symbol? ==> p < p' <= |bits| && bits[p..][d.bits..] == bits[p'..]
    ensures d.Symbol? ==> Selecting(selectors, n + 1, symCount, selector, cur)
  {
    var ok;
    ok, symCount, selector, cur := Select(selectors, n, symCount0, selector0, cur0);
    d, p' := DataError, p;
    if ok { d, p' := ReadOne(groups[cur], tables[cur], bits, p); }
  }

  /** The symbols so far, and those of the bits from p on, make up the goal. */
  ghost predicate Reaching(tables: seq<Table>, selectors: seq<nat>, symTotal: nat, n: nat, symbols: seq<nat>,
      bits: seq<Bit>, p: nat, goal: Stream)
    requires Groups(tables, selectors)
  {
    p <= |bits| && goal == Prefixed(symbols, Read(tables, selectors, symTotal, n, bits[p..]))
  }

  lemma ReadStep(tables: seq<Table>, selectors: seq<nat>, symTotal: nat, n: nat, symbols: seq<nat>, bits: seq<Bit>,
      p: nat, p': nat, d: Decoded, goal: Stream)
    requires Groups(tables, selectors) && Reaching(tables, selectors, symTotal, n, symbols, bits, p, goal)
    requires d == Front(tables, selectors, n, bits[p..])
    requires d.Symbol? ==> p < p' <= |bits| && bits[p..][d.bits..] == bits[p'..]
    ensures
      match d
      case DataError => goal == Broken
      case Symbol(sym, _) =>
        if sym > symTotal then goal == Ended(symbols + [sym], bits[p'..])
        else Reaching(tables, selectors, symTotal, n + 1, symbols + [sym], bits, p', goal)
  {
    if d.Symbol? && d.sym <= symTotal {
      PrefixedStep(symbols, d.sym, Read(tables, selectors, symTotal, n + 1, bits[p'..]));
    }
  }

  lemma ReachingStart(tables: seq<Table>, selectors: seq<nat>, symTotal: nat, bits: seq<Bit>)
    requires Groups(tables, selectors)
    ensures Reaching(tables, selectors, symTotal, 0, [], bits, 0, Read(tables, selectors, symTotal, 0, bits))
  {
    assert bits[0..] == bits;
  }

  /** The loop of get_next_block that picks the table, decodes a symbol and gives back the bits not used. */
  method ReadStream(groups: seq<GroupData>, selectors: seq<nat>, symTotal: nat, bits: seq<Bit>,
      ghost tables: seq<Table>)
    returns (r: Stream)
    requires Groups(tables, selectors) && |groups| == |tables|
    requires forall g :: 0 <= g < |groups| ==> Holds(groups[g], tables[g])
    ensures r == Read(tables, selectors, symTotal, 0, bits)
  {
    var symbols: seq<nat>, p: nat, symCount: nat, selector: nat, cur: nat := [], 0, 0, 0, 0;
    ghost var n: nat, goal := 0, Read(tables, selectors, symTotal, 0, bits);
    ReachingStart(tables, selectors, symTotal, bits);
    while true
      invariant Selecting(selectors, n, symCount, selector, cur)
      invariant Reaching(tables, selectors, symTotal, n, symbols, bits, p, goal)
      decreases |bits| - p
    {
      var d, next;
      d, next, symCount, selector, cur := ReadNext(groups, selectors, bits, n, symCount, selector, cur, p, tables);
      ReadStep(tables, selectors, symTotal, n, symbols, bits, p, next, d, goal);
      if d.DataError? { return Broken; }
      symbols, p, n := symbols + [d.sym], next, n + 1;
      if d.sym > symTotal { return Ended(symbols, bits[p..]); }
    }
  }
}
