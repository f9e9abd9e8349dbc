/**
 The multi-symbol arithmetic decoder of section 8.2 of the AV1 Bitstream & Decoding Process
 Specification: the object that updates its registers in place, and the step function it refines.
 */
module Av1SymbolDecoder {
  import opened Bits
  import opened Bytes
  import opened BitStream
  import opened Av1Cdf

  const EC_MIN_PROB := 4

  /** The registers of a decoder: the inverted value, the range, the bits left and the reader's position. */
  datatype Registers = Registers(value: int, range: int, maxBits: int, pos: nat)

  ghost predicate EngineOk(data: bytes, st: Registers) {
    && 0x8000 <= st.range < 0x1_0000
    && 0 <= st.value < st.range
    && st.pos + Max(0, st.maxBits) == 8 * |data|
  }

  /** `((range >> 8) * (f >> 6)) >> 1`, the part of the split that follows the table. */
  function SplitPoint(range: int, f: int): int {
    range / 256 * (f / 64) / 2
  }

  lemma ShiftsAreDivisions(range: nat, f: nat)
    ensures Shr(Shr(range, 8) * Shr(f, 6), 1) == SplitPoint(range, f)
  {
    assert Pow2(8) == 256 && Pow2(6) == 64 && Pow2(1) == 2;
  }

  /** The range split: symbol `s` owns the values from `Edge(range, cdf, s + 1)` up to `Edge(range, cdf, s)`. */
  function Edge(range: int, cdf: Cdf, j: nat): int
    requires j < |cdf|
  {
    if j == 0 then range
    else SplitPoint(range, ONE - cdf[j - 1]) + EC_MIN_PROB * (SymbolCount(cdf) - j)
  }

  /** The first symbol at or after `from` whose lower edge does not exceed `value`. */
  function FindSymbol(value: int, range: int, cdf: Cdf, from: nat): (symbol: nat)
    requires from < SymbolCount(cdf)
    ensures from <= symbol < SymbolCount(cdf)
    decreases |cdf| - from
  {
    if value < Edge(range, cdf, from + 1) && from + 1 < SymbolCount(cdf)
    then FindSymbol(value, range, cdf, from + 1)
    else from
  }

  /** How many bits renormalisation shifts in after a sub-interval of this width was chosen. */
  function ShiftFor(width: int): int
    requires width > 0
  {
    15 - FloorLog2(width)
  }

  function InitialRegisters(data: bytes): Registers {
    var numBits := Min(8 * |data|, 15);
    Registers(0x7FFF - Shl(ReadBits(data, 0, numBits), 15 - numBits), 0x8000, 8 * |data| - 15, numBits)
  }

  /** The registers after the range was narrowed to `[low, high)` of the value and renormalised. */
  function Renormalised(data: bytes, st: Registers, low: int, high: int): Registers
    requires low <= st.value < high && EC_MIN_PROB <= high - low < 0x1_0000
  {
    NormalisedWidth(high - low);
    var shift := ShiftFor(high - low);
    var numBits := Min(shift, Max(0, st.maxBits));
    var newData := Shl(ReadBits(data, st.pos, numBits), shift - numBits);
    Registers(Shl(st.value - low + 1, shift) - 1 - newData, Shl(high - low, shift), st.maxBits - shift,
        st.pos + numBits)
  }

  /** One call of `read_symbol`, as a function of the registers and the table. */
  function DecodeStep(data: bytes, st: Registers, cdf: Cdf): (r: (nat, Registers))
    requires EngineOk(data, st) && ValidCdf(cdf)
    ensures r.0 < SymbolCount(cdf)
  {
    var symbol := FindSymbol(st.value, st.range, cdf, 0);
    FoundBetweenEdges(st.value, st.range, cdf, 0);
    EdgesInRange(st.range, cdf, symbol);
    (symbol, Renormalised(data, st, Edge(st.range, cdf, symbol + 1), Edge(st.range, cdf, symbol)))
  }

  // ----- The range split

  /** Every symbol's sub-interval is at least EC_MIN_PROB wide, and the last lower edge is zero. */
  lemma EdgeGap(range: int, cdf: Cdf, s: nat)
    requires ValidCdf(cdf) && 0x8000 <= range < 0x1_0000 && s < SymbolCount(cdf)
    ensures Edge(range, cdf, s) - Edge(range, cdf, s + 1) >= EC_MIN_PROB
    ensures Edge(range, cdf, SymbolCount(cdf)) == 0
  {
    var high := range / 256;
    assert cdf[s] <= ONE by { assert cdf[s] <= cdf[|cdf| - 2]; }
    var f := (ONE - cdf[s]) / 64;
    assert (ONE - cdf[|cdf| - 2]) / 64 == 0;
    assert high * 0 == 0;
    if s == 0 {
      assert f <= 511;
      MulMonotone(f, 511, high);
      assert f * high == high * f;
    } else {
      var g := (ONE - cdf[s - 1]) / 64;
      assert cdf[s - 1] <= cdf[s];
      MulMonotone(f, g, high);
      assert high * f == f * high && high * g == g * high;
    }
  }

  /**
   The lower edge of symbol `s`: half the product of the range's high bits and the table's high bits, plus four for
   each later symbol. That is the symbol's share of the range, short by less than one part in 128 of the range, of the
   table's value and of 2^15 each.
   */
  lemma EdgeMeans(range: int, cdf: Cdf, s: nat)
    requires ValidCdf(cdf) && 0x8000 <= range < 0x1_0000 && s < |cdf| - 1
    ensures Edge(range, cdf, 0) == range
    ensures var share, f := Edge(range, cdf, s + 1) - 4 * (|cdf| - 2 - s), 32768 - cdf[s];
            && 2 * share <= (range / 256) * (f / 64) < 2 * share + 2
            && 0 <= range * f - 32768 * share <= 63 * range + 255 * f + 16384
  {
    assert cdf[s] <= cdf[|cdf| - 2];
    var f := 32768 - cdf[s];
    var share := Edge(range, cdf, s + 1) - 4 * (|cdf| - 2 - s);
    assert share == SplitPoint(range, f);
    ShareOfRange(range, f, range / 256, range % 256, f / 64, f % 64, share);
  }

  lemma ShareOfRange(range: nat, f: nat, h: nat, r: nat, g: nat, q: nat, e: int)
    requires range == 256 * h + r && r < 256 && f == 64 * g + q && q < 64 && e == h * g / 2
    ensures 2 * e <= h * g < 2 * e + 2
    ensures 0 <= range * f - 32768 * e <= 63 * range + 255 * f + 16384
  {
    var b := h * g - 2 * e;
    assert 0 <= b < 2;
    assert range * f == 16384 * (h * g) + 256 * (h * q) + r * f by {
      assert range * f == 256 * (h * f) + r * f;
      assert h * f == 64 * (h * g) + h * q;
    }
    MulMonotone(q, 63, h);
    assert q * h == h * q;
    MulMonotone(r, 255, f);
    MulMonotone(0, q, h);
    MulMonotone(0, r, f);
  }

  /** The width is reached with sixteen symbols; with seventeen a sub-interval can be empty. */
  lemma SixteenSymbolsIsTight()
    ensures exists range: int, cdf: Cdf ::
      && 0x8000 <= range < 0x1_0000 && |cdf| == 17 && ValidCdf(cdf)
      && Edge(range, cdf, 0) - Edge(range, cdf, 1) == EC_MIN_PROB
    ensures exists range: int, cdf: Cdf ::
      && 0x8000 <= range < 0x1_0000
      && |cdf| == 18 && cdf[0] >= 1 && cdf[16] == ONE && (forall i, j :: 0 <= i <= j < 17 ==> cdf[i] <= cdf[j])
      && Edge(range, cdf, 0) - Edge(range, cdf, 1) == 0
  {
    var sixteen: Cdf := seq(17, i => if i < 15 then 1 else if i == 15 then ONE else 0);
    assert ValidCdf(sixteen) && Edge(0x8000, sixteen, 0) - Edge(0x8000, sixteen, 1) == EC_MIN_PROB;
    var seventeen: Cdf := seq(18, i => if i < 16 then 1 else if i == 16 then ONE else 0);
    assert Edge(0x8000, seventeen, 0) - Edge(0x8000, seventeen, 1) == 0;
  }

  lemma {:induction false} EdgesDecrease(range: int, cdf: Cdf, i: nat, j: nat)
    requires ValidCdf(cdf) && 0x8000 <= range < 0x1_0000 && i <= j <= SymbolCount(cdf)
    ensures Edge(range, cdf, j) <= Edge(range, cdf, i)
    decreases j - i
  {
    hide SplitPoint;
    if i < j {
      EdgeGap(range, cdf, i);
      EdgesDecrease(range, cdf, i + 1, j);
    }
  }

  /** The search stops at a symbol whose sub-interval holds the value. */
  lemma {:induction false} FoundBetweenEdges(value: int, range: int, cdf: Cdf, from: nat)
    requires ValidCdf(cdf) && 0x8000 <= range < 0x1_0000 && from < SymbolCount(cdf)
    requires 0 <= value < Edge(range, cdf, from)
    ensures var s := FindSymbol(value, range, cdf, from);
            Edge(range, cdf, s + 1) <= value < Edge(range, cdf, s)
    decreases |cdf| - from
  {
    hide SplitPoint;
    EdgeGap(range, cdf, from);
    if value < Edge(range, cdf, from + 1) && from + 1 < SymbolCount(cdf) {
      FoundBetweenEdges(value, range, cdf, from + 1);
    }
  }

  /** The symbol found is the only one whose sub-interval holds the value. */
  lemma SymbolUnique(value: int, range: int, cdf: Cdf, s: nat)
    requires ValidCdf(cdf) && 0x8000 <= range < 0x1_0000 && 0 <= value < range && s < SymbolCount(cdf)
    ensures FindSymbol(value, range, cdf, 0) == s
       <==> Edge(range, cdf, s + 1) <= value < Edge(range, cdf, s)
  {
    hide SplitPoint;
    FoundBetweenEdges(value, range, cdf, 0);
    var t := FindSymbol(value, range, cdf, 0);
    if t < s {
      EdgesDecrease(range, cdf, t + 1, s);
    } else if s < t {
      EdgesDecrease(range, cdf, s + 1, t);
    }
  }

  /** Each symbol's sub-interval lies inside the range and is at least EC_MIN_PROB wide. */
  lemma EdgesInRange(range: int, cdf: Cdf, symbol: nat)
    requires ValidCdf(cdf) && 0x8000 <= range < 0x1_0000 && symbol < SymbolCount(cdf)
    ensures 0 <= Edge(range, cdf, symbol + 1) < Edge(range, cdf, symbol) <= range
    ensures Edge(range, cdf, symbol) - Edge(range, cdf, symbol + 1) >= EC_MIN_PROB
  {
    hide SplitPoint;
    EdgeGap(range, cdf, symbol);
    EdgesDecrease(range, cdf, 0, symbol);
    EdgesDecrease(range, cdf, symbol + 1, SymbolCount(cdf));
  }

  /** Renormalisation shifts by at most 13 bits and restores a sixteen-bit range. */
  lemma NormalisedWidth(width: nat)
    requires EC_MIN_PROB <= width < 0x1_0000
    ensures 0 <= ShiftFor(width) <= 13
    ensures 0x8000 <= width * Pow2(ShiftFor(width)) < 0x1_0000
  {
    hide FloorLog2;
    var l := FloorLog2(width);
    FloorLog2Bounds(width);
    assert Pow2(2) == 4;
    Pow2Values();
    hide Pow2;
    if l < 2 {
      Pow2Monotone(l + 1, 2);
    }
    if l > 15 {
      Pow2Monotone(16, l);
    }
    Pow2Add(l, 15 - l);
    Pow2Add(l + 1, 15 - l);
    ScaledBounds(width, Pow2(l), Pow2(l + 1), Pow2(15 - l));
  }

  lemma ScaledBounds(x: int, a: int, b: int, p: nat)
    requires a <= x < b && p >= 1
    ensures a * p <= x * p < b * p
  {
    MulMonotone(a, x, p);
    MulMonotone(x + 1, b, p);
    assert (x + 1) * p == x * p + p;
  }

  /**
   One call in numbers: the symbol is the one between whose edges of the current range the value lies, the new range
   is the distance of the edges scaled by a power of two to sixteen bits, and the new value is the distance to the lower
   edge scaled alike, less the bits shifted in.
   */
  lemma StepMeans(data: bytes, st: Registers, cdf: Cdf) returns (low: int, high: int, shift: nat)
    requires EngineOk(data, st) && ValidCdf(cdf)
    ensures var s := DecodeStep(data, st, cdf).0;
            && low <= st.value < high
            && 2 * (low - 4 * (|cdf| - 2 - s)) <= (st.range / 256) * ((32768 - cdf[s]) / 64)
            && (st.range / 256) * ((32768 - cdf[s]) / 64) < 2 * (low - 4 * (|cdf| - 2 - s)) + 2
            && (s == 0 ==> high == st.range)
            && (s > 0 ==> 2 * (high - 4 * (|cdf| - 1 - s)) <= (st.range / 256) * ((32768 - cdf[s - 1]) / 64))
            && (s > 0 ==> (st.range / 256) * ((32768 - cdf[s - 1]) / 64) < 2 * (high - 4 * (|cdf| - 1 - s)) + 2)
    ensures var next := DecodeStep(data, st, cdf).1;
            && next.range == (high - low) * Pow2(shift) && 0x8000 <= next.range < 0x1_0000 && shift <= 13
            && next.value == (st.value - low + 1) * Pow2(shift) - 1 - ReadBits(data, 8 * |data| - st.maxBits, shift)
            && next.maxBits == st.maxBits - shift
            && next.pos == Min(8 * |data|, st.pos + shift)
  {
    hide SplitPoint, FindSymbol, ReadBits, FloorLog2, Pow2;
    var s := FindSymbol(st.value, st.range, cdf, 0);
    FoundBetweenEdges(st.value, st.range, cdf, 0);
    EdgesInRange(st.range, cdf, s);
    low, high := Edge(st.range, cdf, s + 1), Edge(st.range, cdf, s);
    NormalisedWidth(high - low);
    shift := ShiftFor(high - low);
    RenormalisedUnclamped(data, st, low, high);
    EdgeMeans(st.range, cdf, s);
    if s > 0 {
      EdgeMeans(st.range, cdf, s - 1);
    }
  }

  // ----- Every call keeps the engine running

  lemma InitialEngineOk(data: bytes)
    ensures EngineOk(data, InitialRegisters(data))
    ensures var st := InitialRegisters(data);
            && st.value + 1 + ReadBits(data, 0, 15) == 0x8000 && st.range == 0x8000
            && st.maxBits == 8 * |data| - 15 && st.pos == Min(8 * |data|, 15)
  {
    var numBits := Min(8 * |data|, 15);
    ReadBitsSplit(data, 0, numBits, 15 - numBits);
    if numBits < 15 {
      ReadBitsPastEnd(data, numBits, 15 - numBits);
    }
    ReadBitsBound(data, 0, numBits);
    ShiftedReadBound(ReadBits(data, 0, numBits), numBits, 15);
    Pow2Values();
  }

  lemma ShiftedReadBound(bits: nat, numBits: nat, total: nat)
    requires numBits <= total && bits < Pow2(numBits)
    ensures 0 <= Shl(bits, total - numBits) < Pow2(total)
  {
    var p := Pow2(total - numBits);
    Pow2Add(numBits, total - numBits);
    MulMonotone(bits + 1, Pow2(numBits), p);
    assert (bits + 1) * p == bits * p + p;
    MulMonotone(0, bits, p);
  }

  lemma RenormalisedOk(data: bytes, st: Registers, low: int, high: int)
    requires low <= st.value < high && EC_MIN_PROB <= high - low < 0x1_0000
    requires st.pos + Max(0, st.maxBits) == 8 * |data|
    ensures EngineOk(data, Renormalised(data, st, low, high))
    ensures 0 <= st.maxBits - Renormalised(data, st, low, high).maxBits <= 13
  {
    hide Pow2, ReadBits, FloorLog2;
    NormalisedWidth(high - low);
    var shift := ShiftFor(high - low);
    var numBits := Min(shift, Max(0, st.maxBits));
    ReadBitsBound(data, st.pos, numBits);
    ShiftedReadBound(ReadBits(data, st.pos, numBits), numBits, shift);
    ShiftedValueBound(st.value - low, high - low, Pow2(shift),
                      Shl(ReadBits(data, st.pos, numBits), shift - numBits));
  }

  lemma ShiftedValueBound(v: int, width: int, p: int, bits: int)
    requires 0 <= v < width && 0 <= bits < p
    ensures 0 <= (v + 1) * p - 1 - bits < width * p
  {
    MulMonotone(0, v, p);
    MulMonotone(v + 1, width, p);
    assert (v + 1) * p == v * p + p;
  }

  /** The value register stays inside the range, the range stays normalised and no read leaves the buffer. */
  lemma StepKeepsEngine(data: bytes, st: Registers, cdf: Cdf)
    requires EngineOk(data, st) && ValidCdf(cdf)
    ensures EngineOk(data, DecodeStep(data, st, cdf).1)
    ensures 0 <= st.maxBits - DecodeStep(data, st, cdf).1.maxBits <= 13
  {
    hide SplitPoint, FindSymbol, Renormalised;
    var symbol := FindSymbol(st.value, st.range, cdf, 0);
    FoundBetweenEdges(st.value, st.range, cdf, 0);
    EdgesInRange(st.range, cdf, symbol);
    RenormalisedOk(data, st, Edge(st.range, cdf, symbol + 1), Edge(st.range, cdf, symbol));
  }

  /** The clamped, left-shifted read is an unclamped read of the zero-extended stream. */
  lemma ClampedRead(data: bytes, pos: nat, maxBits: int, bits: nat)
    requires pos + Max(0, maxBits) == 8 * |data|
    requires 8 * |data| - maxBits >= 0
    ensures var numBits := Min(bits, Max(0, maxBits));
            Shl(ReadBits(data, pos, numBits), bits - numBits) == ReadBits(data, 8 * |data| - maxBits, bits)
  {
    var numBits := Min(bits, Max(0, maxBits));
    if maxBits <= 0 {
      ReadBitsPastEnd(data, 8 * |data| - maxBits, bits);
    } else {
      ReadBitsSplit(data, pos, numBits, bits - numBits);
      if numBits < bits {
        ReadBitsPastEnd(data, pos + numBits, bits - numBits);
      }
    }
  }

  /** Renormalisation with the clamped read spelled as a read of the zero-extended stream. */
  lemma RenormalisedUnclamped(data: bytes, st: Registers, low: int, high: int)
    requires low <= st.value < high && EC_MIN_PROB <= high - low < 0x1_0000
    requires st.pos + Max(0, st.maxBits) == 8 * |data| && 8 * |data| >= st.maxBits
    ensures 0 <= ShiftFor(high - low) <= 13
    ensures var shift := ShiftFor(high - low);
            var next := Renormalised(data, st, low, high);
            && next.value == Shl(st.value - low + 1, shift) - 1 - ReadBits(data, 8 * |data| - st.maxBits, shift)
            && next.range == Shl(high - low, shift)
            && next.maxBits == st.maxBits - shift
  {
    hide Pow2, ReadBits, FloorLog2;
    NormalisedWidth(high - low);
    ClampedRead(data, st.pos, st.maxBits, ShiftFor(high - low));
  }

  // ----- The imperative decoder

  class SymbolDecoder {
    const r: BitReader
    var value: int
    var range: int
    var maxBits: int
    const disableCdfUpdate: bool

    ghost function State(): Registers
      reads this, r
    {
      Registers(value, range, maxBits, r.pos)
    }

    ghost predicate Valid()
      reads this, r
    {
      EngineOk(r.data, State())
    }

    constructor (data: bytes, disableCdfUpdate: bool)
      ensures Valid() && fresh(r)
      ensures r.data == data && this.disableCdfUpdate == disableCdfUpdate
      ensures State() == InitialRegisters(data)
    {
      hide Pow2, Xor;
      var reader := new BitReader(data);
      var sz := |data|;
      var numBits := Min(sz * 8, 15);
      var buf := reader.Get(numBits);
      var paddedBuf := Shl(buf, 15 - numBits);
      Pow2Values();
      InitialEngineOk(data);
      ReadBitsBound(data, 0, numBits);
      ShiftedReadBound(buf, numBits, 15);
      XorLowOnes(paddedBuf, 1, 15);
      XorCommutes(paddedBuf, Shl(1, 15) - 1);
      r := reader;
      value := Xor(Shl(1, 15) - 1, paddedBuf);
      range := Shl(1, 15);
      maxBits := 8 * sz - 15;
      this.disableCdfUpdate := disableCdfUpdate;
    }

    /** Decodes one symbol, moves the registers on and adapts the table in place. */
    method ReadSymbol(cdf: array<int>) returns (symbol: int)
      requires Valid() && ValidCdf(cdf[..])
      modifies this, r, cdf
      ensures Valid()
      ensures (symbol, State()) == DecodeStep(r.data, old(State()), old(cdf[..]))
      ensures cdf[..] == if disableCdfUpdate then old(cdf[..]) else Adapted(old(cdf[..]), symbol)
      ensures ValidCdf(cdf[..])
    {
      hide SplitPoint, FindSymbol, Renormalised, Adapted;
      ghost var st, table := State(), cdf[..];
      ghost var next := DecodeStep(r.data, st, table).1;
      StepKeepsEngine(r.data, st, table);
      var prev, cur;
      symbol, prev, cur := Search(cdf);
      EdgesInRange(st.range, table, symbol);
      Consume(prev, cur);
      assert State() == next;
      assert cdf[..] == table;
      AdaptKeepsValid(table, symbol);
      if !disableCdfUpdate {
        Adapt(cdf, symbol);
      }
      assert State() == next;
    }

    /** The search loop: walks down the range split until the value is no longer below it. */
    method Search(cdf: array<int>) returns (symbol: int, prev: int, cur: int)
      requires Valid() && ValidCdf(cdf[..])
      ensures 0 <= symbol < cdf.Length - 1
      ensures symbol == FindSymbol(value, range, cdf[..], 0)
      ensures prev == Edge(range, cdf[..], symbol) && cur == Edge(range, cdf[..], symbol + 1)
      ensures cur <= value < prev
      ensures var share := cur - 4 * (cdf.Length - 2 - symbol);
              2 * share <= (range / 256) * ((32768 - cdf[symbol]) / 64) < 2 * share + 2
      ensures symbol == 0 ==> prev == range
      ensures symbol > 0 ==>
                var share := prev - 4 * (cdf.Length - 1 - symbol);
                2 * share <= (range / 256) * ((32768 - cdf[symbol - 1]) / 64) < 2 * share + 2
    {
      hide SplitPoint, Pow2;
      ghost var table := cdf[..];
      var n := cdf.Length - 1;
      cur := range;
      symbol := -1;
      prev := cur;
      while symbol < 0 || value < cur
        invariant -1 <= symbol < n
        invariant cur == Edge(range, table, symbol + 1)
        invariant symbol >= 0 ==> prev == Edge(range, table, symbol)
        invariant value < prev
        invariant FindSymbol(value, range, table, 0) == FindSymbol(value, range, table, Max(symbol, 0))
        decreases n - symbol
      {
        if symbol == n - 1 {
          EdgeGap(range, table, symbol);
          assert false;
        }
        symbol := symbol + 1;
        prev := cur;
        Pow2Values();
        assert table[symbol] <= table[n - 1];
        var f := Shl(1, 15) - cdf[symbol];
        ShiftsAreDivisions(range, f);
        cur := Shr(Shr(range, 8) * Shr(f, 6), 1);
        cur := cur + EC_MIN_PROB * (n - symbol - 1);
      }
      hide Edge, FindSymbol;
      EdgeMeans(range, table, symbol);
      if symbol > 0 {
        EdgeMeans(range, table, symbol - 1);
      }
    }

    /** Narrows the range to the chosen sub-interval, renormalises it and shifts new bits in. */
    method Consume(prev: int, cur: int)
      requires Valid()
      requires cur <= value < prev && EC_MIN_PROB <= prev - cur < 0x1_0000
      modifies this, r
      ensures State() == Renormalised(r.data, old(State()), cur, prev)
    {
      hide Pow2, ReadBits, Xor, FloorLog2;
      range := prev - cur;
      value := value - cur;
      NormalisedWidth(range);
      var bits := 15 - FloorLog2(range);
      range := Shl(range, bits);
      var numBits := Min(bits, Max(0, maxBits));
      var newData := r.Get(numBits);
      var paddedData := Shl(newData, bits - numBits);
      ReadBitsBound(r.data, old(r.pos), numBits);
      ShiftedReadBound(newData, numBits, bits);
      XorLowOnes(paddedData, value + 1, bits);
      value := Xor(paddedData, Shl(value + 1, bits) - 1);
      maxBits := maxBits - bits;
    }
  }
}
