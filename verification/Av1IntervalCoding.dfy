/**
 What whole runs of the symbol decoder compute. A run decodes a sequence of symbols, each with one
 table out of a bank; the tables adapt as it goes. The interval coder below knows only the symbols,
 never the data, and the decoder's registers are tied to it by one equation.
 */
module Av1IntervalCoding {
  import opened Bits
  import opened Bytes
  import opened BitStream
  import opened Av1Cdf
  import opened Av1SymbolDecoder

  type Bank = seq<Cdf>

  ghost predicate ValidBank(bank: Bank) {
    forall i :: 0 <= i < |bank| ==> ValidCdf(bank[i])
  }

  ghost predicate SameShape(bank: Bank, other: Bank) {
    |bank| == |other| && forall i :: 0 <= i < |bank| ==> |bank[i]| == |other[i]|
  }

  function BankAfter(bank: Bank, ctx: nat, symbol: nat, adapt: bool): (r: Bank)
    requires ValidBank(bank) && ctx < |bank|
    ensures ValidBank(r) && SameShape(r, bank)
  {
    if adapt then AdaptKeepsValid(bank[ctx], symbol); bank[ctx := Adapted(bank[ctx], symbol)] else bank
  }

  ghost predicate ValidContexts(bank: Bank, ctxs: seq<nat>) {
    forall i :: 0 <= i < |ctxs| ==> ctxs[i] < |bank|
  }

  /** The symbols exist in the tables they are coded with. */
  ghost predicate ValidSymbols(bank: Bank, ctxs: seq<nat>, symbols: seq<nat>) {
    && ValidContexts(bank, ctxs)
    && |symbols| == |ctxs|
    && forall i :: 0 <= i < |symbols| ==> symbols[i] < SymbolCount(bank[ctxs[i]])
  }

  function Front<T>(s: seq<T>): seq<T>
    requires s != []
  {
    s[..|s| - 1]
  }

  function Last<T>(s: seq<T>): T
    requires s != []
  {
    s[|s| - 1]
  }

  datatype Decoded = Decoded(symbols: seq<nat>, st: Registers, bank: Bank)

  /** Repeated `read_symbol` on a fresh decoder, one call for each entry of `ctxs`. */
  function Decode(data: bytes, bank: Bank, ctxs: seq<nat>, adapt: bool): (d: Decoded)
    requires ValidBank(bank) && ValidContexts(bank, ctxs)
    ensures ValidSymbols(bank, ctxs, d.symbols)
    ensures EngineOk(data, d.st) && ValidBank(d.bank) && SameShape(d.bank, bank)
    decreases |ctxs|
  {
    if ctxs == [] then InitialEngineOk(data); Decoded([], InitialRegisters(data), bank)
    else
      hide DecodeNext;
      var d := Decode(data, bank, Front(ctxs), adapt);
      DecodeNext(data, d, Last(ctxs), adapt)
  }

  function DecodeNext(data: bytes, d: Decoded, ctx: nat, adapt: bool): (r: Decoded)
    requires EngineOk(data, d.st) && ValidBank(d.bank) && ctx < |d.bank|
    ensures EngineOk(data, r.st) && ValidBank(r.bank) && SameShape(r.bank, d.bank)
    ensures r.symbols != [] && Front(r.symbols) == d.symbols && Last(r.symbols) < SymbolCount(d.bank[ctx])
  {
    var (symbol, next) := DecodeStep(data, d.st, d.bank[ctx]);
    StepKeepsEngine(data, d.st, d.bank[ctx]);
    Decoded(d.symbols + [symbol], next, BankAfter(d.bank, ctx, symbol, adapt))
  }

  // ----- The interval coder

  /** The first `bitsRead` bits of the stream lie in `[upper - range, upper)`. */
  datatype Coder = Coder(upper: int, range: int, bitsRead: nat, bank: Bank)

  ghost predicate CoderOk(c: Coder) {
    && 0x8000 <= c.range < 0x1_0000
    && c.range <= c.upper <= Pow2(c.bitsRead)
    && ValidBank(c.bank)
  }

  /** Narrowing to the part of the interval that leaves `[low, high)` in the decoder's value register. */
  function Narrowed(c: Coder, low: int, high: int, bank: Bank): Coder
    requires EC_MIN_PROB <= high - low < 0x1_0000 && low <= c.upper
  {
    NormalisedWidth(high - low);
    var shift := ShiftFor(high - low);
    Coder(Shl(c.upper - low, shift), Shl(high - low, shift), c.bitsRead + shift, bank)
  }

  function CoderStep(c: Coder, ctx: nat, symbol: nat, adapt: bool): Coder
    requires CoderOk(c) && ctx < |c.bank| && symbol < SymbolCount(c.bank[ctx])
  {
    var cdf := c.bank[ctx];
    EdgesInRange(c.range, cdf, symbol);
    Narrowed(c, Edge(c.range, cdf, symbol + 1), Edge(c.range, cdf, symbol), BankAfter(c.bank, ctx, symbol, adapt))
  }

  lemma CoderStepOk(c: Coder, ctx: nat, symbol: nat, adapt: bool)
    requires CoderOk(c) && ctx < |c.bank| && symbol < SymbolCount(c.bank[ctx])
    ensures CoderOk(CoderStep(c, ctx, symbol, adapt))
    ensures 0 <= CoderStep(c, ctx, symbol, adapt).bitsRead - c.bitsRead <= 13
  {
    hide SplitPoint, Narrowed;
    EdgesInRange(c.range, c.bank[ctx], symbol);
    NarrowedOk(c, Edge(c.range, c.bank[ctx], symbol + 1), Edge(c.range, c.bank[ctx], symbol),
               BankAfter(c.bank, ctx, symbol, adapt));
  }

  lemma NarrowedOk(c: Coder, low: int, high: int, bank: Bank)
    requires CoderOk(c) && ValidBank(bank)
    requires 0 <= low < high <= c.range && high - low >= EC_MIN_PROB
    ensures CoderOk(Narrowed(c, low, high, bank))
    ensures 0 <= Narrowed(c, low, high, bank).bitsRead - c.bitsRead <= 13
  {
    hide Pow2, FloorLog2;
    NormalisedWidth(high - low);
    var p := Pow2(ShiftFor(high - low));
    Pow2Add(c.bitsRead, ShiftFor(high - low));
    MulMonotone(high - low, c.upper - low, p);
    MulMonotone(c.upper - low, Pow2(c.bitsRead), p);
  }

  /** The interval of a whole symbol sequence; no symbol costs more than 13 bits. */
  function Code(bank: Bank, ctxs: seq<nat>, symbols: seq<nat>, adapt: bool): (c: Coder)
    requires ValidBank(bank) && ValidSymbols(bank, ctxs, symbols)
    ensures CoderOk(c) && SameShape(c.bank, bank)
    ensures 15 <= c.bitsRead <= 15 + 13 * |symbols|
    decreases |ctxs|
  {
    if ctxs == [] then Pow2Values(); Coder(0x8000, 0x8000, 15, bank)
    else
      var c := Code(bank, Front(ctxs), Front(symbols), adapt);
      CoderStepOk(c, Last(ctxs), Last(symbols), adapt);
      CoderStep(c, Last(ctxs), Last(symbols), adapt)
  }

  /** The stream starts inside the coder's interval. */
  ghost predicate Holds(data: bytes, c: Coder) {
    c.upper - c.range <= ReadBits(data, 0, c.bitsRead) < c.upper
  }

  // ----- The key equation

  /** The decoder's registers are determined by the coder and the stream. */
  ghost predicate Linked(data: bytes, st: Registers, bank: Bank, c: Coder) {
    && EngineOk(data, st) && CoderOk(c)
    && st.value + 1 + ReadBits(data, 0, c.bitsRead) == c.upper
    && st.range == c.range
    && bank == c.bank
    && c.bitsRead == 8 * |data| - st.maxBits
  }

  lemma InitiallyLinked(data: bytes, bank: Bank)
    requires ValidBank(bank)
    ensures Linked(data, InitialRegisters(data), bank, Coder(0x8000, 0x8000, 15, bank))
  {
    InitialEngineOk(data);
    Pow2Values();
    var numBits := Min(8 * |data|, 15);
    ReadBitsSplit(data, 0, numBits, 15 - numBits);
    if numBits < 15 {
      ReadBitsPastEnd(data, numBits, 15 - numBits);
    }
  }

  lemma StepKeepsLinked(data: bytes, st: Registers, c: Coder, ctx: nat, adapt: bool)
    requires CoderOk(c) && ctx < |c.bank| && Linked(data, st, c.bank, c)
    ensures var (symbol, next) := DecodeStep(data, st, c.bank[ctx]);
            Linked(data, next, BankAfter(c.bank, ctx, symbol, adapt), CoderStep(c, ctx, symbol, adapt))
  {
    hide SplitPoint, FindSymbol, Renormalised, Narrowed, ReadBits;
    var symbol := FindSymbol(st.value, st.range, c.bank[ctx], 0);
    FoundBetweenEdges(st.value, st.range, c.bank[ctx], 0);
    EdgesInRange(st.range, c.bank[ctx], symbol);
    NarrowKeepsLinked(data, st, c, Edge(st.range, c.bank[ctx], symbol + 1), Edge(st.range, c.bank[ctx], symbol),
                      BankAfter(c.bank, ctx, symbol, adapt));
  }

  lemma NarrowKeepsLinked(data: bytes, st: Registers, c: Coder, low: int, high: int, bank: Bank)
    requires Linked(data, st, c.bank, c) && ValidBank(bank)
    requires 0 <= low <= st.value < high <= st.range && high - low >= EC_MIN_PROB
    ensures Linked(data, Renormalised(data, st, low, high), bank, Narrowed(c, low, high, bank))
  {
    hide ReadBits, Pow2, FloorLog2;
    RenormalisedOk(data, st, low, high);
    NarrowedOk(c, low, high, bank);
    RenormalisedUnclamped(data, st, low, high);
    var shift := ShiftFor(high - low);
    ReadBitsSplit(data, 0, c.bitsRead, shift);
    ScaledEquation(st.value, ReadBits(data, 0, c.bitsRead), c.upper, low, Pow2(shift),
                   ReadBits(data, c.bitsRead, shift));
  }

  lemma ScaledEquation(value: int, b: int, upper: int, low: int, p: int, later: int)
    requires value + 1 + b == upper
    ensures (value - low + 1) * p - 1 - later + 1 + (b * p + later) == (upper - low) * p
  {
    assert (value - low + 1) * p + b * p == (value - low + 1 + b) * p;
  }

  lemma {:induction false} RunLinked(data: bytes, bank: Bank, ctxs: seq<nat>, adapt: bool)
    requires ValidBank(bank) && ValidContexts(bank, ctxs)
    ensures var d := Decode(data, bank, ctxs, adapt);
            && d.bank == Code(bank, ctxs, d.symbols, adapt).bank
            && Linked(data, d.st, d.bank, Code(bank, ctxs, d.symbols, adapt))
    decreases |ctxs|
  {
    hide DecodeStep, CoderStep, Pow2, ReadBits;
    if ctxs == [] {
      InitiallyLinked(data, bank);
    } else {
      var d := Decode(data, bank, Front(ctxs), adapt);
      RunLinked(data, bank, Front(ctxs), adapt);
      StepKeepsLinked(data, d.st, Code(bank, Front(ctxs), d.symbols, adapt), Last(ctxs), adapt);
    }
  }

  /**
   The interval theorem: at the end of every run, on every data, the registers are what the symbols say
   and the stream lies in the symbols' interval.
   */
  lemma KeyEquation(data: bytes, bank: Bank, ctxs: seq<nat>, adapt: bool)
    requires ValidBank(bank) && ValidContexts(bank, ctxs)
    ensures var d := Decode(data, bank, ctxs, adapt);
            var c := Code(bank, ctxs, d.symbols, adapt);
            && d.st.value + 1 + ReadBits(data, 0, c.bitsRead) == c.upper
            && d.st.range == c.range && d.bank == c.bank
            && d.st.maxBits == 8 * |data| - c.bitsRead
            && d.st.pos == Min(8 * |data|, c.bitsRead)
            && 0 <= d.st.value < d.st.range && 0x8000 <= d.st.range < 0x1_0000
            && Holds(data, c)
  {
    hide Decode, Code, Pow2, ReadBits;
    RunLinked(data, bank, ctxs, adapt);
  }

  // ----- A run returns a symbol sequence exactly when the stream lies in that sequence's interval

  lemma PrefixBounds(b: int, rest: int, low: int, high: int, p: int)
    requires 0 <= rest < p
    ensures low * p <= b * p + rest < high * p <==> low <= b < high
  {
    assert (b + 1) * p == b * p + p;
    if b < low {
      MulMonotone(b + 1, low, p);
    } else {
      MulMonotone(low, b, p);
      if b >= high {
        MulMonotone(high, b, p);
      } else {
        MulMonotone(b + 1, high, p);
      }
    }
  }

  lemma ShareBelow(upper: int, low: int, high: int, p: int)
    ensures (upper - high) * p == (upper - low) * p - (high - low) * p
  {
  }

  /** The stream lies in the narrowed interval exactly when its prefix lies in the share that was taken. */
  lemma NarrowedHolds(data: bytes, c: Coder, low: int, high: int, bank: Bank)
    requires EC_MIN_PROB <= high - low < 0x1_0000 && low <= c.upper
    ensures Holds(data, Narrowed(c, low, high, bank))
       <==> c.upper - high <= ReadBits(data, 0, c.bitsRead) < c.upper - low
  {
    hide ReadBits, Pow2, FloorLog2;
    NormalisedWidth(high - low);
    var shift := ShiftFor(high - low);
    ShareBelow(c.upper, low, high, Pow2(shift));
    ReadBitsSplit(data, 0, c.bitsRead, shift);
    ReadBitsBound(data, c.bitsRead, shift);
    PrefixBounds(ReadBits(data, 0, c.bitsRead), ReadBits(data, c.bitsRead, shift),
                 c.upper - high, c.upper - low, Pow2(shift));
  }

  /** A linked decoder returns `symbol` exactly when the stream lies in the interval narrowed to `symbol`. */
  lemma StepDecodesExactly(data: bytes, st: Registers, c: Coder, ctx: nat, symbol: nat, adapt: bool)
    requires CoderOk(c) && ctx < |c.bank| && Linked(data, st, c.bank, c) && symbol < SymbolCount(c.bank[ctx])
    ensures DecodeStep(data, st, c.bank[ctx]).0 == symbol <==> Holds(data, CoderStep(c, ctx, symbol, adapt))
  {
    hide SplitPoint, Narrowed, ReadBits, Renormalised, FindSymbol;
    var cdf := c.bank[ctx];
    SymbolUnique(st.value, st.range, cdf, symbol);
    EdgesInRange(c.range, cdf, symbol);
    NarrowedHolds(data, c, Edge(c.range, cdf, symbol + 1), Edge(c.range, cdf, symbol),
                  BankAfter(c.bank, ctx, symbol, adapt));
  }

  /** Later intervals lie inside earlier ones. */
  lemma IntervalsNest(data: bytes, c: Coder, ctx: nat, symbol: nat, adapt: bool)
    requires CoderOk(c) && ctx < |c.bank| && symbol < SymbolCount(c.bank[ctx])
    ensures Holds(data, CoderStep(c, ctx, symbol, adapt)) ==> Holds(data, c)
  {
    hide SplitPoint, Narrowed, ReadBits;
    var cdf := c.bank[ctx];
    EdgesInRange(c.range, cdf, symbol);
    NarrowedHolds(data, c, Edge(c.range, cdf, symbol + 1), Edge(c.range, cdf, symbol),
                  BankAfter(c.bank, ctx, symbol, adapt));
  }

  lemma NextSymbol(data: bytes, d: Decoded, ctx: nat, symbols: seq<nat>, adapt: bool)
    requires EngineOk(data, d.st) && ValidBank(d.bank) && ctx < |d.bank| && symbols != []
    ensures DecodeNext(data, d, ctx, adapt).symbols == symbols
       <==> d.symbols == Front(symbols) && DecodeStep(data, d.st, d.bank[ctx]).0 == Last(symbols)
  {
    hide DecodeStep, BankAfter;
    assert symbols == Front(symbols) + [Last(symbols)];
  }

  /** A run returns `symbols` if and only if the stream lies in the interval coded for `symbols`. */
  lemma {:induction false} DecodesExactly(data: bytes, bank: Bank, ctxs: seq<nat>, symbols: seq<nat>, adapt: bool)
    requires ValidBank(bank) && ValidSymbols(bank, ctxs, symbols)
    ensures Decode(data, bank, ctxs, adapt).symbols == symbols
       <==> Holds(data, Code(bank, ctxs, symbols, adapt))
    decreases |ctxs|
  {
    hide DecodeStep, CoderStep, Holds, Linked, BankAfter, DecodeNext;
    if ctxs == [] {
      KeyEquation(data, bank, ctxs, adapt);
    } else {
      var front, ctx, symbol := Front(ctxs), Last(ctxs), Last(symbols);
      var d := Decode(data, bank, front, adapt);
      var c := Code(bank, front, Front(symbols), adapt);
      DecodesExactly(data, bank, front, Front(symbols), adapt);
      NextSymbol(data, d, ctx, symbols, adapt);
      if d.symbols == Front(symbols) {
        RunLinked(data, bank, front, adapt);
        StepDecodesExactly(data, d.st, c, ctx, symbol, adapt);
      } else if Holds(data, CoderStep(c, ctx, symbol, adapt)) {
        IntervalsNest(data, c, ctx, symbol, adapt);
      }
    }
  }

  /** Different symbol sequences coded with the same contexts have disjoint intervals. */
  lemma IntervalsDisjoint(data: bytes, bank: Bank, ctxs: seq<nat>, s: seq<nat>, t: seq<nat>, adapt: bool)
    requires ValidBank(bank) && ValidSymbols(bank, ctxs, s) && ValidSymbols(bank, ctxs, t)
    ensures Holds(data, Code(bank, ctxs, s, adapt)) && Holds(data, Code(bank, ctxs, t, adapt)) ==> s == t
  {
    hide Decode, Code, Holds;
    DecodesExactly(data, bank, ctxs, s, adapt);
    DecodesExactly(data, bank, ctxs, t, adapt);
  }

  // ----- Round trip

  /** A byte string of `len` bytes whose first `k` bits are `b` and whose padding is zero. */
  function Padded(b: nat, k: nat, len: nat): bytes
    requires k <= 8 * len
  {
    BigEndian(Shl(b, 8 * len - k), len)
  }

  function EncodedBytes(b: nat, k: nat): bytes {
    Padded(b, k, (k + 7) / 8)
  }

  lemma WholeNumber(v: nat, len: nat)
    requires v < Pow2(8 * len)
    ensures ReadBits(BigEndian(v, len), 0, 8 * len) == v
  {
    hide ReadBits, Pow2, BigEndian, FromBigEndian;
    var data := BigEndian(v, len);
    FromToBigEndian(v, len);
    ReadBitsIsBigEndian(data, len);
    assert data[..len] == data;
  }

  lemma PaddedBits(b: nat, k: nat, len: nat)
    requires b < Pow2(k) && k <= 8 * len
    ensures ReadBits(Padded(b, k, len), 0, k) == b
  {
    hide ReadBits, BigEndian, Pow2;
    var n, v := 8 * len, Shl(b, 8 * len - k);
    ShiftedReadBound(b, k, n);
    WholeNumber(v, len);
    PaddedPrefix(BigEndian(v, len), b, k, n);
  }

  lemma PaddedPrefix(data: bytes, b: nat, k: nat, n: nat)
    requires k <= n && ReadBits(data, 0, n) == Shl(b, n - k)
    ensures ReadBits(data, 0, k) == b
  {
    hide ReadBits, Pow2;
    ReadBitsSplit(data, 0, k, n - k);
    ReadBitsBound(data, k, n - k);
    QuotientUnique(Pow2(n - k), ReadBits(data, 0, k), ReadBits(data, k, n - k), b, 0);
  }

  /** Every symbol sequence is decodable: any number in its final interval, written out as bytes, decodes to it. */
  lemma RoundTrip(bank: Bank, ctxs: seq<nat>, symbols: seq<nat>, adapt: bool, b: nat)
    requires ValidBank(bank) && ValidSymbols(bank, ctxs, symbols)
    ensures var c := Code(bank, ctxs, symbols, adapt);
            c.upper - c.range <= b < c.upper ==>
              Decode(EncodedBytes(b, c.bitsRead), bank, ctxs, adapt).symbols == symbols
  {
    hide Code, Decode, Padded, Pow2, ReadBits;
    var c := Code(bank, ctxs, symbols, adapt);
    if c.upper - c.range <= b < c.upper {
      PaddedBits(b, c.bitsRead, (c.bitsRead + 7) / 8);
      DecodesExactly(EncodedBytes(b, c.bitsRead), bank, ctxs, symbols, adapt);
    }
  }

  /** Such a byte string exists for every symbol sequence, at no more than 13 bits a symbol. */
  lemma EverySequenceHasACode(bank: Bank, ctxs: seq<nat>, symbols: seq<nat>, adapt: bool) returns (data: bytes)
    requires ValidBank(bank) && ValidSymbols(bank, ctxs, symbols)
    ensures Decode(data, bank, ctxs, adapt).symbols == symbols
    ensures 8 * |data| <= 22 + 13 * |symbols|
  {
    hide Decode, ReadBits, Pow2, BigEndian;
    var c := Code(bank, ctxs, symbols, adapt);
    RoundTrip(bank, ctxs, symbols, adapt, c.upper - c.range);
    data := EncodedBytes(c.upper - c.range, c.bitsRead);
  }

  // ----- The end of the data

  /** A decoder with no notion of an end: it reads the infinite zero-extended stream. */
  datatype Unclamped = Unclamped(value: int, range: int, bitsRead: nat)

  ghost predicate UnclampedOk(u: Unclamped) {
    0x8000 <= u.range < 0x1_0000 && 0 <= u.value < u.range
  }

  function UnclampedNarrowed(data: bytes, u: Unclamped, low: int, high: int): (r: Unclamped)
    requires low <= u.value < high && EC_MIN_PROB <= high - low < 0x1_0000
    ensures UnclampedOk(r) && r.bitsRead >= u.bitsRead
  {
    NormalisedWidth(high - low);
    var shift := ShiftFor(high - low);
    var bits := ReadBits(data, u.bitsRead, shift);
    ReadBitsBound(data, u.bitsRead, shift);
    ShiftedValueBound(u.value - low, high - low, Pow2(shift), bits);
    Unclamped(Shl(u.value - low + 1, shift) - 1 - bits, Shl(high - low, shift), u.bitsRead + shift)
  }

  function UnclampedStep(data: bytes, u: Unclamped, cdf: Cdf): (r: (nat, Unclamped))
    requires UnclampedOk(u) && ValidCdf(cdf)
    ensures r.0 < SymbolCount(cdf) && UnclampedOk(r.1) && r.1.bitsRead >= u.bitsRead
  {
    var symbol := FindSymbol(u.value, u.range, cdf, 0);
    FoundBetweenEdges(u.value, u.range, cdf, 0);
    EdgesInRange(u.range, cdf, symbol);
    (symbol, UnclampedNarrowed(data, u, Edge(u.range, cdf, symbol + 1), Edge(u.range, cdf, symbol)))
  }

  datatype UnclampedRun = UnclampedRun(symbols: seq<nat>, u: Unclamped, bank: Bank)

  function UnclampedDecode(data: bytes, bank: Bank, ctxs: seq<nat>, adapt: bool): (d: UnclampedRun)
    requires ValidBank(bank) && ValidContexts(bank, ctxs)
    ensures UnclampedOk(d.u) && ValidBank(d.bank) && SameShape(d.bank, bank)
    decreases |ctxs|
  {
    if ctxs == [] then
      ReadBitsBound(data, 0, 15);
      Pow2Values();
      UnclampedRun([], Unclamped(0x7FFF - ReadBits(data, 0, 15), 0x8000, 15), bank)
    else
      var d := UnclampedDecode(data, bank, Front(ctxs), adapt);
      var (symbol, next) := UnclampedStep(data, d.u, d.bank[Last(ctxs)]);
      UnclampedRun(d.symbols + [symbol], next, BankAfter(d.bank, Last(ctxs), symbol, adapt))
  }

  function WithoutEnd(data: bytes, st: Registers): Unclamped
    requires 8 * |data| >= st.maxBits
  {
    Unclamped(st.value, st.range, 8 * |data| - st.maxBits)
  }

  lemma StepUnclamped(data: bytes, st: Registers, cdf: Cdf)
    requires EngineOk(data, st) && 8 * |data| >= st.maxBits && ValidCdf(cdf)
    ensures var (symbol, next) := DecodeStep(data, st, cdf);
            && 8 * |data| >= next.maxBits
            && UnclampedStep(data, WithoutEnd(data, st), cdf) == (symbol, WithoutEnd(data, next))
  {
    hide SplitPoint, FindSymbol, Pow2, ReadBits, ShiftFor, Renormalised;
    var symbol := FindSymbol(st.value, st.range, cdf, 0);
    FoundBetweenEdges(st.value, st.range, cdf, 0);
    EdgesInRange(st.range, cdf, symbol);
    RenormalisedUnclamped(data, st, Edge(st.range, cdf, symbol + 1), Edge(st.range, cdf, symbol));
  }

  /** Clamped reads and left-shift padding give the symbols, values and tables of the unclamped decoder. */
  lemma {:induction false} ClampingIsInvisible(data: bytes, bank: Bank, ctxs: seq<nat>, adapt: bool)
    requires ValidBank(bank) && ValidContexts(bank, ctxs)
    ensures var d := Decode(data, bank, ctxs, adapt);
            && 8 * |data| >= d.st.maxBits
            && UnclampedDecode(data, bank, ctxs, adapt) == UnclampedRun(d.symbols, WithoutEnd(data, d.st), d.bank)
    decreases |ctxs|
  {
    hide DecodeStep, UnclampedStep, BankAfter, ReadBits, Pow2;
    if ctxs == [] {
      InitiallyLinked(data, bank);
    } else {
      var d := Decode(data, bank, Front(ctxs), adapt);
      ClampingIsInvisible(data, bank, Front(ctxs), adapt);
      StepUnclamped(data, d.st, d.bank[Last(ctxs)]);
    }
  }

  lemma {:induction false} UnclampedSameStream(data: bytes, other: bytes, bank: Bank, ctxs: seq<nat>, adapt: bool)
    requires ValidBank(bank) && ValidContexts(bank, ctxs)
    requires forall i: nat :: StreamBit(data, i) == StreamBit(other, i)
    ensures UnclampedDecode(data, bank, ctxs, adapt) == UnclampedDecode(other, bank, ctxs, adapt)
    decreases |ctxs|
  {
    hide SplitPoint, FindSymbol, Pow2, ReadBits, StreamBit, ShiftFor, Adapted;
    if ctxs == [] {
      ReadBitsSameStream(data, other, 0, 15);
    } else {
      UnclampedSameStream(data, other, bank, Front(ctxs), adapt);
      var d := UnclampedDecode(data, bank, Front(ctxs), adapt);
      var next := UnclampedStep(data, d.u, d.bank[Last(ctxs)]).1;
      ReadBitsSameStream(data, other, d.u.bitsRead, next.bitsRead - d.u.bitsRead);
    }
  }

  /** What is decoded depends only on the zero-extended stream, not on where the buffer ends. */
  lemma OnlyTheStreamMatters(data: bytes, other: bytes, bank: Bank, ctxs: seq<nat>, adapt: bool)
    requires ValidBank(bank) && ValidContexts(bank, ctxs)
    requires forall i: nat :: StreamBit(data, i) == StreamBit(other, i)
    ensures Decode(data, bank, ctxs, adapt).symbols == Decode(other, bank, ctxs, adapt).symbols
  {
    hide Decode, UnclampedDecode, StreamBit;
    ClampingIsInvisible(data, bank, ctxs, adapt);
    ClampingIsInvisible(other, bank, ctxs, adapt);
    UnclampedSameStream(data, other, bank, ctxs, adapt);
  }

  /** Trailing zero bytes can be cut off or added freely. */
  lemma TrailingZerosDoNotMatter(data: bytes, n: nat, bank: Bank, ctxs: seq<nat>, adapt: bool)
    requires ValidBank(bank) && ValidContexts(bank, ctxs)
    ensures Decode(data + Zeros(n), bank, ctxs, adapt).symbols == Decode(data, bank, ctxs, adapt).symbols
  {
    hide Decode, StreamBit, Zeros;
    forall i: nat
      ensures StreamBit(data + Zeros(n), i) == StreamBit(data, i)
    {
      ZerosKeepStream(data, n, i);
    }
    OnlyTheStreamMatters(data + Zeros(n), data, bank, ctxs, adapt);
  }

  // ----- The command-line loop: repeated calls with one table that adapts in place

  /** `n` calls that all use the only table of the bank. */
  function OneTable(n: nat): (ctxs: seq<nat>)
    ensures |ctxs| == n && forall i :: 0 <= i < n ==> ctxs[i] == 0
  {
    if n == 0 then [] else OneTable(n - 1) + [0]
  }

  lemma OneTableAfter(table: Cdf, symbol: nat, adapt: bool)
    requires ValidCdf(table)
    ensures BankAfter([table], 0, symbol, adapt) == [if adapt then Adapted(table, symbol) else table]
  {
  }

  lemma OneMore(data: bytes, bank: Bank, i: nat, adapt: bool)
    requires ValidBank(bank) && |bank| == 1
    ensures var d := Decode(data, bank, OneTable(i), adapt);
            var (symbol, next) := DecodeStep(data, d.st, d.bank[0]);
            Decode(data, bank, OneTable(i + 1), adapt)
              == Decoded(d.symbols + [symbol], next, [if adapt then Adapted(d.bank[0], symbol) else d.bank[0]])
  {
    hide DecodeStep, Adapted;
    var d := Decode(data, bank, OneTable(i), adapt);
    var table := d.bank[0];
    assert d.bank == [table];
    var ctxs := OneTable(i + 1);
    assert Front(ctxs) == OneTable(i) && Last(ctxs) == 0;
    assert Decode(data, bank, ctxs, adapt) == DecodeNext(data, d, 0, adapt);
    OneTableAfter(table, DecodeStep(data, d.st, table).0, adapt);
  }

  method DecodeSymbols(data: bytes, cdf: array<int>, count: nat, disableCdfUpdate: bool) returns (out: seq<int>)
    requires ValidCdf(cdf[..])
    modifies cdf
    ensures var d := Decode(data, [old(cdf[..])], OneTable(count), !disableCdfUpdate);
            out == d.symbols && [cdf[..]] == d.bank
  {
    hide DecodeStep, Adapted, InitialRegisters;
    var sd := new SymbolDecoder(data, disableCdfUpdate);
    ghost var bank: Bank := [cdf[..]];
    ghost var done := Decode(data, bank, [], !disableCdfUpdate);
    out := [];
    for i := 0 to count
      invariant sd.Valid() && fresh(sd) && fresh(sd.r) && sd.r.data == data
      invariant sd.disableCdfUpdate == disableCdfUpdate
      invariant done == Decode(data, bank, OneTable(i), !disableCdfUpdate)
      invariant out == done.symbols && sd.State() == done.st && [cdf[..]] == done.bank
    {
      OneMore(data, bank, i, !disableCdfUpdate);
      var symbol := sd.ReadSymbol(cdf);
      out := out + [symbol];
      done := Decode(data, bank, OneTable(i + 1), !disableCdfUpdate);
    }
  }
}
