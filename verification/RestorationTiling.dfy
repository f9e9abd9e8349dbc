/**
 How the loop-restoration oracle cuts a plane into tiles: 64-row stripes that start eight rows early
 (32 and four on a vertically subsampled plane) crossed with a rounded number of unit columns
 (section 7.17 of the AV1 Bitstream & Decoding Process Specification).
 */
module RestorationTiling {
  import opened Bits

  function Clamp(v: int, lo: int, hi: int): int {
    if v < lo then lo else if v > hi then hi else v
  }

  /** The arguments of `run` that shape the tiling; a plane has at least one column. */
  datatype Plane = Plane(width: int, height: int, subY: nat, unit: int) {
    ghost predicate Valid() {
      width >= 1 && height >= 0 && subY <= 1 && unit >= 1
    }

    /** `v >> sub_y`, which rounds towards minus infinity. */
    function Scale(v: int): int {
      if subY == 0 then v else v / 2
    }

    function StripeHeight(): int {
      Scale(64)
    }

    function Overlap(): int {
      Scale(8)
    }

    function Start(stripe: nat): int {
      Scale(stripe * 64 - 8)
    }

    function Top(stripe: nat): int {
      if Start(stripe) < 0 then 0 else Start(stripe)
    }

    function Bottom(stripe: nat): int {
      var end := Start(stripe) + StripeHeight();
      if end > height then height else end
    }

    /** `(length + unit / 2) / unit`, but at least one. */
    function Units(length: int): int
      requires unit >= 1
    {
      Max((length + unit / 2) / unit, 1)
    }

    function Left(column: int): int {
      column * unit
    }

    function Right(column: int): int
      requires unit >= 1
    {
      if column + 1 == Units(width) then width else Left(column) + unit
    }

    /** The row of restoration units a stripe takes its parameters from. */
    function UnitRow(stripe: nat): int
      requires unit >= 1
    {
      UnitRowOf(Top(stripe))
    }

    /** The row of restoration units that picture row `y` belongs to. */
    function UnitRowOf(y: int): int
      requires unit >= 1
    {
      Clamp((y + Overlap()) / unit, 0, Units(height) - 1)
    }

    ghost predicate InTile(x: int, y: int, stripe: nat, column: int)
      requires unit >= 1
    {
      Left(column) <= x < Right(column) && Top(stripe) <= y < Bottom(stripe)
    }

    function StripeOf(y: nat): nat
      requires subY <= 1
    {
      (y + Overlap()) / StripeHeight()
    }

    function ColumnOf(x: nat): int
      requires unit >= 1
    {
      Min(x / unit, Units(width) - 1)
    }
  }

  // ----- The tiles partition the picture

  lemma StripeArithmetic(p: Plane, stripe: nat)
    requires p.Valid()
    ensures p.Start(stripe) == stripe * p.StripeHeight() - p.Overlap()
    ensures p.StripeHeight() == 8 * p.Overlap() && p.Overlap() >= 4
    ensures p.Start(stripe + 1) == p.Start(stripe) + p.StripeHeight()
  {
  }

  /**
   In numbers: on a full-height plane stripe `s` holds the picture rows from `64 * s - 8` to `64 * s + 55`, on a
   vertically subsampled one those from `32 * s - 4` to `32 * s + 27`; the unit row of a row counts with the same shift.
   */
  lemma StripeRows(p: Plane, stripe: nat, y: int)
    requires p.Valid()
    ensures var h, o := if p.subY == 0 then 64 else 32, if p.subY == 0 then 8 else 4;
            && p.StripeHeight() == h && p.Start(stripe) == stripe * h - o
            && (p.Top(stripe) <= y < p.Bottom(stripe)
                <==> 0 <= y < p.height && stripe * h - o <= y < (stripe + 1) * h - o)
            && p.Top(stripe) == (if stripe == 0 then 0 else stripe * h - o)
            && p.Bottom(stripe) == (if (stripe + 1) * h - o < p.height then (stripe + 1) * h - o else p.height)
  {
  }

  /** In numbers: the rows of restoration units, and the one a picture row belongs to. */
  lemma UnitRowNumbers(p: Plane, stripe: nat, y: nat)
    requires p.Valid()
    ensures var o, count := if p.subY == 0 then 8 else 4, (p.height + p.unit / 2) / p.unit;
            && p.Units(p.height) == (if count < 1 then 1 else count)
            && p.UnitRowOf(y)
            == (if count <= 1 then 0 else if (y + o) / p.unit < count then (y + o) / p.unit else count - 1)
            && p.UnitRow(stripe) == p.UnitRowOf(p.Top(stripe))
  {
    QuotientWithin(y + (if p.subY == 0 then 8 else 4), p.unit, 0);
  }

  /** In numbers: the columns of restoration units and where they lie. */
  lemma UnitColumnNumbers(p: Plane, x: nat, column: int)
    requires p.Valid()
    ensures var units := (p.width + p.unit / 2) / p.unit;
            var count := if units < 1 then 1 else units;
            && p.Units(p.width) == count
            && p.ColumnOf(x) == (if x / p.unit < count then x / p.unit else count - 1)
            && p.Left(column) == column * p.unit
            && p.Right(column) == (if column + 1 == count then p.width else (column + 1) * p.unit)
  {
    QuotientWithin(x, p.unit, 0);
    assert (column + 1) * p.unit == column * p.unit + p.unit;
  }

  /** Row `y` lies in the stripe with the computed number and in no other. */
  lemma RowInOneStripe(p: Plane, y: nat, stripe: nat)
    requires p.Valid() && y < p.height
    ensures p.Top(stripe) <= y < p.Bottom(stripe) <==> stripe == p.StripeOf(y)
  {
    StripeArithmetic(p, stripe);
    var h, o := p.StripeHeight(), p.Overlap();
    DivModIdentity(y + o, h);
    if stripe * h <= y + o < stripe * h + h {
      DivModUnique(y + o, h, stripe, y + o - stripe * h);
    }
  }

  lemma UnitArithmetic(p: Plane, length: int)
    requires p.Valid() && length >= 0
    ensures var n := p.Units(length);
            && n >= 1
            && (length >= 1 ==> (n - 1) * p.unit < length)
            && 2 * (length - (n - 1) * p.unit) < 3 * p.unit
            && (length + p.unit / 2 >= p.unit ==> 2 * (length - (n - 1) * p.unit) >= p.unit)
  {
    var q := (length + p.unit / 2) / p.unit;
    DivModIdentity(length + p.unit / 2, p.unit);
    assert (q - 1) * p.unit == q * p.unit - p.unit;
    if q <= 0 {
      assert q * p.unit <= 0;
      assert length + p.unit / 2 < p.unit;
    }
    if length + p.unit / 2 >= p.unit && q <= 0 {
      assert false;
    }
  }

  /** Column `x` lies in the unit column with the computed number and in no other. */
  lemma ColumnInOneUnit(p: Plane, x: nat, column: int)
    requires p.Valid() && x < p.width && 0 <= column < p.Units(p.width)
    ensures p.Left(column) <= x < p.Right(column) <==> column == p.ColumnOf(x)
  {
    UnitArithmetic(p, p.width);
    QuotientWithin(x, p.unit, column);
  }

  lemma QuotientWithin(x: int, d: int, q: int)
    requires d >= 1
    ensures q * d <= x < q * d + d <==> x / d == q
    ensures q * d <= x <==> q <= x / d
  {
    DivModIdentity(x, d);
    var r := x / d;
    if q * d <= x < q * d + d {
      DivModUnique(x, d, q, x - q * d);
    }
    if r < q {
      MulMonotone(r + 1, q, d);
      assert (r + 1) * d == r * d + d;
    } else {
      MulMonotone(q, r, d);
    }
  }

  /** Every pixel lies in exactly one tile, and that tile is one the loops visit. */
  lemma TilesPartition(p: Plane, x: nat, y: nat, stripe: nat, column: int)
    requires p.Valid() && x < p.width && y < p.height && 0 <= column < p.Units(p.width)
    ensures p.InTile(x, y, stripe, column) <==> stripe == p.StripeOf(y) && column == p.ColumnOf(x)
    ensures 0 <= p.ColumnOf(x) < p.Units(p.width) && p.Top(p.StripeOf(y)) < p.height
  {
    RowInOneStripe(p, y, stripe);
    RowInOneStripe(p, y, p.StripeOf(y));
    ColumnInOneUnit(p, x, column);
    QuotientWithin(x, p.unit, 0);
  }

  /** Every tile the loops visit lies inside the picture and is not empty. */
  lemma TilesInside(p: Plane, stripe: nat, column: int)
    requires p.Valid() && p.Top(stripe) < p.height && 0 <= column < p.Units(p.width)
    ensures 0 <= p.Left(column) < p.Right(column) <= p.width
    ensures 0 <= p.Top(stripe) < p.Bottom(stripe) <= p.height
    ensures p.Bottom(stripe) - p.Top(stripe) <= p.StripeHeight() <= 64
  {
    StripeArithmetic(p, stripe);
    MulMonotone(0, stripe, p.StripeHeight());
    UnitArithmetic(p, p.width);
    var n := p.Units(p.width);
    MulMonotone(0, column, p.unit);
    if column + 1 < n {
      MulMonotone(column + 1, n - 1, p.unit);
      assert (column + 1) * p.unit == column * p.unit + p.unit;
    } else {
      assert column == n - 1;
    }
  }

  /** The last column is wider than half a unit and narrower than one and a half, unless the plane is that narrow. */
  lemma LastColumnWidth(p: Plane)
    requires p.Valid()
    ensures var last := p.Units(p.width) - 1;
            var w := p.Right(last) - p.Left(last);
            && 0 < w && 2 * w < 3 * p.unit
            && (p.width + p.unit / 2 >= p.unit ==> 2 * w >= p.unit)
            && (p.width + p.unit / 2 < p.unit ==> last == 0 && w == p.width)
  {
    UnitArithmetic(p, p.width);
    if p.width + p.unit / 2 < p.unit {
      DivModUnique(p.width + p.unit / 2, p.unit, 0, p.width + p.unit / 2);
    }
  }

  // ----- Stripes and rows of restoration units

  /** If the unit size is a multiple of the stripe height, all rows of a stripe use the stripe's unit row. */
  lemma OneUnitRow(p: Plane, stripe: nat, y: int)
    requires p.Valid() && p.unit % (if p.subY == 0 then 64 else 32) == 0
    requires p.Top(stripe) <= y < p.Bottom(stripe)
    ensures p.UnitRowOf(y) == p.UnitRow(stripe)
  {
    StripeArithmetic(p, stripe);
    var h, o := p.StripeHeight(), p.Overlap();
    var k := p.unit / h;
    DivModIdentity(p.unit, h);
    SameQuotient(y + o, p.Top(stripe) + o, stripe, h, k);
  }

  /** Two numbers with the same quotient by `h` have the same quotient by a multiple of `h`. */
  lemma SameQuotient(a: int, b: int, stripe: nat, h: int, k: int)
    requires h >= 1 && k >= 1 && stripe * h <= a < stripe * h + h && stripe * h <= b < stripe * h + h
    ensures a / (k * h) == b / (k * h)
  {
    DivModUnique(a, h, stripe, a - stripe * h);
    DivModUnique(b, h, stripe, b - stripe * h);
    assert k * h == h * k;
    DivThenDiv(a, h, k);
    DivThenDiv(b, h, k);
  }

  /** Row `m` of restoration units starts inside the picture. */
  predicate UnitRowStarts(p: Plane, m: int)
    requires p.unit >= 1
  {
    1 <= m < p.Units(p.height) && p.Overlap() < m * p.unit
  }

  /** In numbers: unit row `m` of at least two starts at picture row `m * unit - 8` (`- 4`), behind row 0. */
  lemma UnitRowStartNumbers(p: Plane, m: int)
    requires p.Valid()
    ensures UnitRowStarts(p, m)
       <==> 1 <= m < (p.height + p.unit / 2) / p.unit && m * p.unit > (if p.subY == 0 then 8 else 4)
  {
  }

  lemma RowBelow(x: int, m: int, d: int)
    requires d >= 1
    ensures x / d < m <==> x < m * d
  {
    QuotientWithin(x, d, m);
  }

  /** A stripe with rows of two unit rows has the start of a unit row among its rows, behind its first. */
  lemma StraddleStart(p: Plane, stripe: nat, y: int) returns (m: int)
    requires p.Valid() && p.Top(stripe) <= y < p.Bottom(stripe) && p.UnitRowOf(y) != p.UnitRow(stripe)
    ensures UnitRowStarts(p, m)
    ensures stripe * p.StripeHeight() < m * p.unit < (stripe + 1) * p.StripeHeight()
  {
    StripeArithmetic(p, stripe);
    var o, u := p.Overlap(), p.unit;
    var first, later := p.Top(stripe) + o, y + o;
    assert (stripe + 1) * p.StripeHeight() == stripe * p.StripeHeight() + p.StripeHeight();
    QuotientMonotone(first, later, u);
    QuotientWithin(first, u, 0);
    UnitArithmetic(p, p.height);
    m := Min(later / u, p.Units(p.height) - 1);
    RowBelow(first, m, u);
    RowBelow(later, m, u);
  }

  lemma NotMultiple(x: int, k: int, h: int)
    requires h >= 1 && k * h < x < (k + 1) * h
    ensures x % h != 0
  {
    assert (k + 1) * h == k * h + h;
    DivModUnique(x, h, k, x - k * h);
  }

  /** A unit row that starts behind the first row of a stripe makes that stripe straddle. */
  lemma StartStraddles(p: Plane, m: int) returns (stripe: nat, y: int)
    requires p.Valid() && UnitRowStarts(p, m) && m * p.unit % p.StripeHeight() != 0
    ensures p.Top(stripe) <= y < p.Bottom(stripe) && p.UnitRowOf(y) != p.UnitRow(stripe)
  {
    var h, o, u := p.StripeHeight(), p.Overlap(), p.unit;
    var start := m * u;
    QuotientWithin(start, h, 0);
    stripe := start / h;
    DivModIdentity(start, h);
    StripeArithmetic(p, stripe);
    UnitArithmetic(p, p.height);
    MulMonotone(m, p.Units(p.height) - 1, u);
    RowBelow(p.Top(stripe) + o, m, u);
    DivModUnique(start, u, m, 0);
    y := start - o;
    assert p.Top(stripe) <= y < p.Bottom(stripe);
    assert p.UnitRowOf(y) == m;
  }

  /**
   No stripe of a plane mixes unit rows if and only if every unit row that starts inside the picture starts at a
   multiple of 64, or of 32 on a vertically subsampled plane, and so with a stripe.
   */
  lemma PlaneStraddlesExactly(p: Plane)
    requires p.Valid()
    ensures (forall stripe: nat, y: int ::
               p.Top(stripe) <= y < p.Bottom(stripe) ==> p.UnitRowOf(y) == p.UnitRow(stripe))
       <==> forall m: int :: UnitRowStarts(p, m) ==> m * p.unit % (if p.subY == 0 then 64 else 32) == 0
  {
    StripeRows(p, 0, 0);
    if forall m: int :: UnitRowStarts(p, m) ==> m * p.unit % (if p.subY == 0 then 64 else 32) == 0 {
      forall stripe: nat, y: int | p.Top(stripe) <= y < p.Bottom(stripe)
        ensures p.UnitRowOf(y) == p.UnitRow(stripe)
      {
        if p.UnitRowOf(y) != p.UnitRow(stripe) {
          var m := StraddleStart(p, stripe, y);
          NotMultiple(m * p.unit, stripe, p.StripeHeight());
        }
      }
    } else {
      var m :| UnitRowStarts(p, m) && m * p.unit % (if p.subY == 0 then 64 else 32) != 0;
      var stripe, y := StartStraddles(p, m);
    }
  }

  /** If the unit size is no multiple of the stripe height, some unit row of a tall plane starts inside a stripe. */
  lemma SomeUnitRowInside(subY: nat, unit: int) returns (p: Plane, m: int)
    requires subY <= 1 && unit >= 1 && unit % Plane(1, 1, subY, unit).StripeHeight() != 0
    ensures p.Valid() && p.subY == subY && p.unit == unit
    ensures UnitRowStarts(p, m) && m * unit % p.StripeHeight() != 0
  {
    var o := Plane(1, 1, subY, unit).Overlap();
    m := if unit > o then 1 else o / unit + 1;
    DivModIdentity(o, unit);
    assert unit <= o ==> m * unit == (o / unit) * unit + unit;
    QuotientWithin(o, unit, 0);
    assert (m + 1) * unit == m * unit + unit;
    p := Plane(1, (m + 1) * unit, subY, unit);
    DivModUnique((m + 1) * unit + unit / 2, unit, m + 1, unit / 2);
    if unit <= o {
      NotMultiple(m * unit, 0, p.StripeHeight());
    }
  }

  /**
   No stripe of any plane mixes unit rows if and only if the unit size is a multiple of the stripe height: of 64, or
   of 32 on a vertically subsampled plane.
   */
  lemma NoStripeStraddlesExactly(subY: nat, unit: int)
    requires subY <= 1 && unit >= 1
    ensures unit % (if subY == 0 then 64 else 32) == 0
       <==> forall p: Plane, stripe: nat, y: int ::
              p.Valid() && p.subY == subY && p.unit == unit && p.Top(stripe) <= y < p.Bottom(stripe) ==>
                p.UnitRowOf(y) == p.UnitRow(stripe)
  {
    hide UnitRowStarts;
    StripeRows(Plane(1, 1, subY, unit), 0, 0);
    if unit % (if subY == 0 then 64 else 32) == 0 {
      forall p: Plane, stripe: nat, y: int |
        p.Valid() && p.subY == subY && p.unit == unit && p.Top(stripe) <= y < p.Bottom(stripe)
        ensures p.UnitRowOf(y) == p.UnitRow(stripe)
      {
        OneUnitRow(p, stripe, y);
      }
    } else {
      var p, m := SomeUnitRowInside(subY, unit);
      var stripe, y := StartStraddles(p, m);
    }
  }

  // ----- Edge flags

  datatype Edges = Edges(left: bool, right: bool, top: bool, bottom: bool)

  function EdgesOf(p: Plane, stripe: nat, column: int): Edges
    requires p.unit >= 1
  {
    Edges(p.Left(column) > 0, p.Right(column) < p.width, p.Top(stripe) > 0, p.Bottom(stripe) < p.height)
  }

  /** A flag is set exactly if there is another tile on that side. */
  lemma EdgesMeanNeighbours(p: Plane, stripe: nat, column: int)
    requires p.Valid() && p.Top(stripe) < p.height && 0 <= column < p.Units(p.width)
    ensures EdgesOf(p, stripe, column)
         == Edges(column > 0, column + 1 < p.Units(p.width), stripe > 0, p.Top(stripe + 1) < p.height)
  {
    StripeArithmetic(p, stripe);
    MulMonotone(0, stripe, p.StripeHeight());
    if stripe > 0 {
      MulMonotone(1, stripe, p.StripeHeight());
    }
    UnitArithmetic(p, p.width);
    if column > 0 {
      MulPositive(column, p.unit);
    }
    if column + 1 < p.Units(p.width) {
      MulMonotone(column + 1, p.Units(p.width) - 1, p.unit);
      assert (column + 1) * p.unit == column * p.unit + p.unit;
    }
  }

  // ----- The Wiener taps

  /**
   Fills seven symmetric taps from three coefficients; the centre tap is what is missing to 128, or to 0
   for the horizontal pass of the 8-bit filter, which adds the 128 itself.
   */
  method WienerTaps(c: seq<int>, subY: nat, pass: nat, eightBit: bool) returns (taps: array<int>)
    requires |c| == 3
    ensures fresh(taps) && taps.Length == 7
    ensures taps[0] == taps[6] == (if subY != 0 then 0 else c[0])
    ensures taps[1] == taps[5] == c[1] && taps[2] == taps[4] == c[2]
    ensures taps[0] + taps[1] + taps[2] + taps[3] + taps[4] + taps[5] + taps[6]
         == if eightBit && pass == 0 then 0 else 128
  {
    taps := new int[7];
    var center := 128;
    for tap := 0 to 3
      invariant tap > 0 ==> taps[0] == taps[6] == (if subY != 0 then 0 else c[0])
      invariant tap > 1 ==> taps[1] == taps[5] == c[1]
      invariant tap > 2 ==> taps[2] == taps[4] == c[2]
      invariant center == 128 - 2 * ((if tap > 0 then taps[0] else 0) + (if tap > 1 then taps[1] else 0)
                                     + (if tap > 2 then taps[2] else 0))
    {
      var value := if subY != 0 && tap == 0 then 0 else c[tap];
      taps[tap] := value;
      taps[6 - tap] := value;
      center := center - 2 * value;
    }
    if eightBit && pass == 0 {
      center := center - 128;
    }
    taps[3] := center;
  }
}
