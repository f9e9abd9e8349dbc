/**
 Cumulative distribution tables of the AV1 symbol decoder and their adaptation.
 A table for `N` symbols is `N` cumulative frequencies out of 2^15 followed by a counter.
 */
module Av1Cdf {
  import opened Bits

  type Cdf = seq<int>

  const ONE := 0x8000

  function SymbolCount(cdf: Cdf): int {
    |cdf| - 1
  }

  ghost predicate ValidCdf(cdf: Cdf) {
    && 2 <= |cdf| <= 17
    && cdf[0] >= 1
    && cdf[|cdf| - 2] == ONE
    && (forall i, j :: 0 <= i <= j < |cdf| - 1 ==> cdf[i] <= cdf[j])
    && 0 <= cdf[|cdf| - 1] <= 32
  }

  function FloorLog2(x: nat): (l: nat)
    requires x > 0
  {
    BitLengthBounds(x);
    BitLength(x) - 1
  }

  lemma FloorLog2Bounds(x: nat)
    requires x > 0
    ensures Pow2(FloorLog2(x)) <= x < Pow2(FloorLog2(x) + 1)
  {
    hide Pow2, BitLength;
    BitLengthBounds(x);
  }

  function Rate(cdf: Cdf): (rate: nat)
    requires |cdf| >= 2
    ensures 3 <= rate <= 7
  {
    var n := SymbolCount(cdf);
    3 + (if cdf[n] > 15 then 1 else 0) + (if cdf[n] > 31 then 1 else 0) + Min(FloorLog2(n), 2)
  }

  /** Moves `x` towards zero by the fraction `2^-rate`. */
  function Decay(x: nat, rate: nat): (y: int) {
    x - Shr(x, rate)
  }

  /** The entry at `i` after `symbol` was decoded: entries below it decay to 0, the others to 2^15. */
  function AdaptedEntry(x: int, below: bool, rate: nat): int
    requires 0 <= x <= ONE
  {
    if below then Decay(x, rate) else ONE - Decay(ONE - x, rate)
  }

  /** The whole table after `symbol` was decoded. */
  function Adapted(cdf: Cdf, symbol: nat): (r: Cdf)
    requires ValidCdf(cdf)
    ensures |r| == |cdf|
  {
    var n := SymbolCount(cdf);
    seq(|cdf|, i requires 0 <= i < |cdf| =>
      if i < n - 1 then AdaptedEntry(cdf[i], i < symbol, Rate(cdf))
      else if i == n then (if cdf[n] < 32 then cdf[n] + 1 else cdf[n])
      else cdf[i])
  }

  /** Decay is monotone and never stretches a gap. */
  lemma DecayGap(x: nat, y: nat, rate: nat)
    requires x <= y
    ensures 0 <= Decay(y, rate) - Decay(x, rate) <= y - x
    ensures 0 <= Decay(x, rate) <= x
    ensures rate >= 1 && x >= 1 ==> Decay(x, rate) >= 1
  {
    var p := Pow2(rate);
    DivModIdentity(x, p);
    DivModIdentity(y, p);
    QuotientMonotone(x, y, p);
    StepOverMultiples(x, y, p);
    QuotientAtMost(x, p);
    if rate >= 1 && x >= 1 {
      assert p == 2 * Pow2(rate - 1);
      HalfAtMost(x, p);
    }
  }

  lemma QuotientAtMost(x: nat, p: nat)
    requires p >= 1
    ensures x / p <= x
  {
    DivModIdentity(x, p);
    if x / p >= 1 {
      MulPositive(x / p, p);
    }
  }

  lemma HalfAtMost(x: nat, p: nat)
    requires p >= 2 && x >= 1
    ensures x / p < x
  {
    DivModIdentity(x, p);
    MulMonotone(2, p, x / p);
    assert (x / p) * p == p * (x / p);
  }

  lemma StepOverMultiples(x: nat, y: nat, p: nat)
    requires p >= 1 && x <= y
    ensures y / p - x / p <= y - x
  {
    DivModIdentity(x, p);
    DivModIdentity(y, p);
    var d := y / p - x / p;
    if d > y - x {
      assert d * p == (y / p) * p - (x / p) * p;
      assert d * p < (y - x) + p;
      assert d * p == (d - 1) * p + p;
      MulPositive(if d >= 2 then d - 1 else 1, p);
    }
  }

  /** Adaptation keeps every table valid, which the next call to the decoder relies on. */
  lemma AdaptKeepsValid(cdf: Cdf, symbol: nat)
    requires ValidCdf(cdf)
    ensures ValidCdf(Adapted(cdf, symbol))
  {
    hide Decay, Rate;
    var r, n, rate := Adapted(cdf, symbol), SymbolCount(cdf), Rate(cdf);
    if n >= 2 {
      DecayGap(cdf[0], cdf[0], rate);
      DecayGap(ONE - cdf[0], ONE - cdf[0], rate);
    }
    forall i, j | 0 <= i <= j < n
      ensures r[i] <= r[j]
    {
      DecayGap(cdf[i], cdf[j], rate);
      DecayGap(ONE - cdf[j], ONE - cdf[i], rate);
      DecayGap(ONE - cdf[i], ONE - cdf[i], rate);
    }
  }

  /** The probability mass of `symbol`, out of 2^15. */
  function Mass(cdf: Cdf, symbol: nat): int
    requires symbol < |cdf|
  {
    cdf[symbol] - (if symbol == 0 then 0 else cdf[symbol - 1])
  }

  /** Adaptation never takes mass from the decoded symbol and never gives mass to another one. */
  lemma AdaptFavoursSymbol(cdf: Cdf, symbol: nat, other: nat)
    requires ValidCdf(cdf) && symbol < SymbolCount(cdf) && other < SymbolCount(cdf)
    ensures Mass(Adapted(cdf, symbol), symbol) >= Mass(cdf, symbol)
    ensures other != symbol ==> 0 <= Mass(Adapted(cdf, symbol), other) <= Mass(cdf, other)
  {
    MassStep(cdf, symbol, symbol);
    MassStep(cdf, symbol, other);
  }

  lemma MassStep(cdf: Cdf, symbol: nat, i: nat)
    requires ValidCdf(cdf) && symbol < SymbolCount(cdf) && i < SymbolCount(cdf)
    ensures i == symbol ==> Mass(Adapted(cdf, symbol), i) >= Mass(cdf, i)
    ensures i != symbol ==> 0 <= Mass(Adapted(cdf, symbol), i) <= Mass(cdf, i)
  {
    hide Adapted, Decay, Rate, Pow2;
    var rate := Rate(cdf);
    var x := cdf[i];
    var w := if i == 0 then 0 else cdf[i - 1];
    assert 0 <= w <= x <= ONE;
    AdaptedAt(cdf, symbol, i);
    if i > 0 {
      AdaptedAt(cdf, symbol, i - 1);
    }
    if i < symbol {
      DecayZero(rate);
      DecayGap(w, x, rate);
    } else if i == symbol {
      DecayGap(ONE - x, ONE - x, rate);
      DecayGap(w, w, rate);
    } else {
      DecayGap(ONE - x, ONE - w, rate);
    }
  }

  lemma AdaptedAt(cdf: Cdf, symbol: nat, i: nat)
    requires ValidCdf(cdf) && symbol < SymbolCount(cdf) && i < SymbolCount(cdf)
    ensures 0 <= cdf[i] <= ONE
    ensures Adapted(cdf, symbol)[i] == AdaptedEntry(cdf[i], i < symbol, Rate(cdf))
  {
    hide Decay, Pow2;
    DecayZero(Rate(cdf));
    assert cdf[0] <= cdf[i] <= cdf[|cdf| - 2];
  }

  lemma DecayZero(rate: nat)
    ensures Decay(0, rate) == 0
  {
    DivModUnique(0, Pow2(rate), 0, 0);
  }

  // ----- Adaptation in numbers

  /** The rate by the number of symbols and the counter. */
  lemma RateMeans(cdf: Cdf)
    requires ValidCdf(cdf)
    ensures var n := |cdf| - 1;
            Rate(cdf) == (if n == 1 then 3 else if n <= 3 then 4 else 5)
                         + (if cdf[n] <= 15 then 0 else if cdf[n] <= 31 then 1 else 2)
  {
    var n := |cdf| - 1;
    FloorLog2Bounds(n);
    assert Pow2(1) == 2 && Pow2(2) == 4;
    var l := FloorLog2(n);
    if l >= 2 {
      Pow2Monotone(2, l);
    } else if l == 1 {
      assert n < Pow2(2);
    } else {
      assert Pow2(l + 1) == 2;
    }
  }

  /**
   From table `was` to table `now`: entries below the symbol come closer to 0 and the others to 2^15, by the fraction
   `2^-rate` of their distance, rounded down, where the rate depends on the number of symbols and on the counter. The
   last cumulative frequency is 2^15 and the counter goes up to 32.
   */
  ghost predicate IsAdapted(was: Cdf, now: Cdf, symbol: int) {
    && |was| == |now| >= 2
    && var n := |was| - 1;
       var rate := (if n == 1 then 3 else if n <= 3 then 4 else 5)
                   + (if was[n] <= 15 then 0 else if was[n] <= 31 then 1 else 2);
    && now[n - 1] == 32768 && now[n] == (if was[n] < 32 then was[n] + 1 else 32)
    && forall i :: 0 <= i < n - 1 ==>
         var d, e := if i < symbol then was[i] else 32768 - was[i], if i < symbol then now[i] else 32768 - now[i];
         0 <= e <= d && Pow2(rate) * (d - e) <= d < Pow2(rate) * (d - e + 1)
  }

  lemma AdaptedMeans(cdf: Cdf, symbol: nat)
    requires ValidCdf(cdf) && symbol < |cdf| - 1
    ensures IsAdapted(cdf, Adapted(cdf, symbol), symbol)
  {
    hide Pow2, Rate, Decay;
    var n, r := |cdf| - 1, Adapted(cdf, symbol);
    RateMeans(cdf);
    forall i | 0 <= i < n - 1
      ensures var d, e := if i < symbol then cdf[i] else 32768 - cdf[i], if i < symbol then r[i] else 32768 - r[i];
              0 <= e <= d && Pow2(Rate(cdf)) * (d - e) <= d < Pow2(Rate(cdf)) * (d - e + 1)
    {
      AdaptedAt(cdf, symbol, i);
      DecayMeans(if i < symbol then cdf[i] else 32768 - cdf[i], Rate(cdf));
    }
  }

  lemma DecayMeans(x: nat, rate: nat)
    ensures var y := Decay(x, rate); 0 <= y <= x && Pow2(rate) * (x - y) <= x < Pow2(rate) * (x - y + 1)
  {
    hide Pow2;
    var p := Pow2(rate);
    DivModIdentity(x, p);
    QuotientAtMost(x, p);
    QuotientNotNegative(x, p);
    var q := x / p;
    assert q * p == p * q && p * (q + 1) == p * q + p;
  }

  /** The table after several symbols. */
  function AdaptedBy(cdf: Cdf, symbols: seq<nat>): (r: Cdf)
    requires ValidCdf(cdf)
    ensures ValidCdf(r) && |r| == |cdf|
    decreases |symbols|
  {
    if symbols == [] then cdf
    else
      AdaptKeepsValid(cdf, symbols[0]);
      AdaptedBy(Adapted(cdf, symbols[0]), symbols[1..])
  }

  /** The counter counts the symbols up to 32. */
  lemma {:induction false} CounterCounts(cdf: Cdf, symbols: seq<nat>)
    requires ValidCdf(cdf) && forall s :: s in symbols ==> s < |cdf| - 1
    ensures AdaptedBy(cdf, symbols)[|cdf| - 1] == Min(32, cdf[|cdf| - 1] + |symbols|)
    decreases |symbols|
  {
    hide Adapted, ValidCdf;
    if symbols != [] {
      assert symbols[0] in symbols;
      AdaptedMeans(cdf, symbols[0]);
      AdaptKeepsValid(cdf, symbols[0]);
      assert forall s :: s in symbols[1..] ==> s in symbols;
      CounterCounts(Adapted(cdf, symbols[0]), symbols[1..]);
    } else {
      CounterBound(cdf);
    }
  }

  lemma CounterBound(cdf: Cdf)
    requires ValidCdf(cdf)
    ensures 0 <= cdf[|cdf| - 1] <= 32
  {
  }

  /** The in-place update at the end of `read_symbol`. */
  method Adapt(cdf: array<int>, symbol: nat)
    requires ValidCdf(cdf[..]) && symbol < cdf.Length - 1
    modifies cdf
    ensures cdf[..] == Adapted(old(cdf[..]), symbol)
    ensures IsAdapted(old(cdf[..]), cdf[..], symbol)
  {
    hide Pow2, FloorLog2, IsAdapted;
    var n := cdf.Length - 1;
    ghost var was := cdf[..];
    var rate := 3 + (if cdf[n] > 15 then 1 else 0) + (if cdf[n] > 31 then 1 else 0) + Min(FloorLog2(n), 2);
    var tmp := 0;
    for i := 0 to n - 1
      invariant cdf.Length == |was|
      invariant tmp == if i <= symbol then 0 else ONE
      invariant forall j :: 0 <= j < i ==> cdf[j] == AdaptedEntry(was[j], j < symbol, rate)
      invariant forall j :: i <= j <= n ==> cdf[j] == was[j]
    {
      if i == symbol {
        tmp := ONE;
      }
      assert 0 <= cdf[i] <= ONE;
      DivModUnique(0, Pow2(rate), 0, 0);
      if tmp < cdf[i] {
        cdf[i] := cdf[i] - Shr(cdf[i] - tmp, rate);
      } else {
        cdf[i] := cdf[i] + Shr(tmp - cdf[i], rate);
      }
    }
    cdf[n] := cdf[n] + (if cdf[n] < 32 then 1 else 0);
    assert cdf[..] == Adapted(was, symbol);
    AdaptedMeans(was, symbol);
  }
}
