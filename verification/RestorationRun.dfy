/**
 The oracle's driver: it filters every tile from an untouched copy of the picture and copies the tile's
 rectangle to the output. The filter itself is a parameter confined to its rectangle.
 */
module RestorationRun {
  import opened Bits
  import opened RestorationTiling

  type Rows = seq<seq<int>>

  /** Everything one call of the filter is given. */
  datatype TileArgs = TileArgs(picture: Rows, x0: int, y0: int, w: int, h: int, left: Rows, lpf: Rows,
                               unitIndex: int, edges: Edges)

  /** `sample(x, y, after)`. */
  type Sample = (int, int, bool) -> int

  /** The filtered value at an offset inside the tile. */
  type Filter = (TileArgs, int, int) -> int

  // ----- What each tile is filtered from

  function Picture(p: Plane, sample: Sample): Rows
    requires p.Valid()
  {
    seq(p.height, y => seq(p.width, x => sample(x, y, true)))
  }

  /** The picture rows behind the eight loop-filtered rows: two above the stripe, six around its end. */
  function LpfRow(p: Plane, stripe: nat, i: int): int {
    var start := p.Start(stripe);
    Clamp(if i < 2 then start - 2 + i else start + p.StripeHeight() + i - 6, 0, p.height - 1)
  }

  function LpfRows(p: Plane, sample: Sample, stripe: nat): Rows
    requires p.Valid()
  {
    seq(8, i => seq(p.width, x => sample(x, LpfRow(p, stripe, i), false)))
  }

  function LeftColumn(p: Plane, column: int, k: int): int {
    Clamp(p.Left(column) - 4 + k, 0, p.width - 1)
  }

  function LeftRows(p: Plane, sample: Sample, stripe: nat, column: int): Rows
    requires p.Valid() && p.Top(stripe) <= p.Bottom(stripe)
  {
    seq(p.Bottom(stripe) - p.Top(stripe), j => seq(4, k => sample(LeftColumn(p, column, k), p.Top(stripe) + j, true)))
  }

  function ArgsOf(p: Plane, sample: Sample, stripe: nat, column: int): TileArgs
    requires p.Valid() && p.Top(stripe) <= p.Bottom(stripe)
  {
    TileArgs(Picture(p, sample), p.Left(column), p.Top(stripe),
             p.Right(column) - p.Left(column), p.Bottom(stripe) - p.Top(stripe),
             LeftRows(p, sample, stripe, column), LpfRows(p, sample, stripe),
             p.UnitRow(stripe) * p.Units(p.width) + column, EdgesOf(p, stripe, column))
  }

  /** The value of the output at a pixel, by the tile the pixel lies in. */
  function Expected(p: Plane, sample: Sample, filter: Filter, x: nat, y: nat): int
    requires p.Valid() && x < p.width && y < p.height
  {
    RowInOneStripe(p, y, p.StripeOf(y));
    filter(ArgsOf(p, sample, p.StripeOf(y), p.ColumnOf(x)),
           x - p.Left(p.ColumnOf(x)), y - p.Top(p.StripeOf(y)))
  }

  // ----- The same in numbers

  /** `v`, or the nearer of 0 and `n - 1` if it lies outside. */
  function Inside(v: int, n: int): (r: int)
    ensures v < 0 ==> r == 0
    ensures 0 <= v < n ==> r == v
    ensures 0 <= v && v >= n ==> r == n - 1
  {
    if v < 0 then 0 else if v >= n then n - 1 else v
  }

  /** The tile of the pixel in column `x` of row `y`: its rectangle, its number and its neighbours. */
  ghost predicate IsTileOf(p: Plane, x: nat, y: nat, a: TileArgs)
    requires p.Valid()
  {
    var h, o := if p.subY == 0 then 64 else 32, if p.subY == 0 then 8 else 4;
    var start := (y + o) / h * h - o;
    var units, rows := (p.width + p.unit / 2) / p.unit, (p.height + p.unit / 2) / p.unit;
    var count := if units < 1 then 1 else units;
    var column := if x / p.unit < count then x / p.unit else count - 1;
    var unitRow := (a.y0 + o) / p.unit;
    && a.y0 == (if start < 0 then 0 else start)
    && a.y0 + a.h == (if start + h < p.height then start + h else p.height)
    && a.x0 == column * p.unit
    && a.x0 + a.w == (if column + 1 == count then p.width else a.x0 + p.unit)
    && a.unitIndex == (if rows <= 1 then 0 else if unitRow < rows then unitRow else rows - 1) * count + column
    && a.edges == Edges(column > 0, column + 1 < count, start > 0, start + h < p.height)
  }

  /**
   The samples of a tile: the whole picture, eight rows around the stripe taken before the last filters, and the four
   columns at the tile's left, with positions outside the picture moved to its border.
   */
  ghost predicate HasSamples(p: Plane, sample: Sample, y: nat, a: TileArgs)
    requires p.Valid()
  {
    var h, o := if p.subY == 0 then 64 else 32, if p.subY == 0 then 8 else 4;
    var start := (y + o) / h * h - o;
    && |a.picture| == p.height && (forall j :: 0 <= j < p.height ==> |a.picture[j]| == p.width)
    && (forall j, k :: 0 <= j < p.height && 0 <= k < p.width ==> a.picture[j][k] == sample(k, j, true))
    && |a.lpf| == 8 && (forall i :: 0 <= i < 8 ==> |a.lpf[i]| == p.width)
    && (forall i, k :: 0 <= i < 8 && 0 <= k < p.width ==>
          a.lpf[i][k] == sample(k, Inside(if i < 2 then start - 2 + i else start + h + i - 6, p.height), false))
    && |a.left| == a.h && (forall j :: 0 <= j < a.h ==> |a.left[j]| == 4)
    && (forall j, k :: 0 <= j < a.h && 0 <= k < 4 ==>
          a.left[j][k] == sample(Inside(a.x0 - 4 + k, p.width), a.y0 + j, true))
  }

  lemma TileOfPixel(p: Plane, sample: Sample, x: nat, y: nat)
    requires p.Valid() && x < p.width && y < p.height
    requires p.Top(p.StripeOf(y)) <= y < p.Bottom(p.StripeOf(y))
    ensures IsTileOf(p, x, y, ArgsOf(p, sample, p.StripeOf(y), p.ColumnOf(x)))
  {
    hide Picture, LpfRows, LeftRows;
    var stripe, column := p.StripeOf(y), p.ColumnOf(x);
    StripeArithmetic(p, stripe);
    StripeRows(p, stripe, y);
    TilesPartition(p, x, y, stripe, column);
    UnitColumnNumbers(p, x, column);
    UnitRowNumbers(p, stripe, p.Top(stripe));
    EdgesMeanNeighbours(p, stripe, column);
  }

  lemma LpfSamples(p: Plane, sample: Sample, stripe: nat, start: int, h: int)
    requires p.Valid() && start == p.Start(stripe) && h == p.StripeHeight()
    ensures var lpf := LpfRows(p, sample, stripe);
            && |lpf| == 8 && (forall i :: 0 <= i < 8 ==> |lpf[i]| == p.width)
            && (forall i, k :: 0 <= i < 8 && 0 <= k < p.width ==>
                  lpf[i][k] == sample(k, Inside(if i < 2 then start - 2 + i else start + h + i - 6, p.height), false))
  {
    var lpf := LpfRows(p, sample, stripe);
    forall i, k | 0 <= i < 8 && 0 <= k < p.width
      ensures lpf[i][k] == sample(k, Inside(if i < 2 then start - 2 + i else start + h + i - 6, p.height), false)
    {
      assert LpfRow(p, stripe, i) == Inside(if i < 2 then start - 2 + i else start + h + i - 6, p.height);
    }
  }

  lemma LeftSamples(p: Plane, sample: Sample, stripe: nat, column: int)
    requires p.Valid() && p.Top(stripe) <= p.Bottom(stripe)
    ensures var left := LeftRows(p, sample, stripe, column);
            && |left| == p.Bottom(stripe) - p.Top(stripe) && (forall j :: 0 <= j < |left| ==> |left[j]| == 4)
            && (forall j, k :: 0 <= j < |left| && 0 <= k < 4 ==>
                  left[j][k] == sample(Inside(p.Left(column) - 4 + k, p.width), p.Top(stripe) + j, true))
  {
    var left := LeftRows(p, sample, stripe, column);
    forall j, k | 0 <= j < |left| && 0 <= k < 4
      ensures left[j][k] == sample(Inside(p.Left(column) - 4 + k, p.width), p.Top(stripe) + j, true)
    {
      assert LeftColumn(p, column, k) == Inside(p.Left(column) - 4 + k, p.width);
    }
  }

  lemma SamplesOfPixel(p: Plane, sample: Sample, x: nat, y: nat)
    requires p.Valid() && x < p.width && y < p.height
    requires p.Top(p.StripeOf(y)) <= y < p.Bottom(p.StripeOf(y))
    ensures HasSamples(p, sample, y, ArgsOf(p, sample, p.StripeOf(y), p.ColumnOf(x)))
  {
    hide LpfRows, LeftRows, Inside, EdgesOf;
    var stripe, column := p.StripeOf(y), p.ColumnOf(x);
    StripeRows(p, stripe, y);
    LpfSamples(p, sample, stripe, p.Start(stripe), p.StripeHeight());
    LeftSamples(p, sample, stripe, column);
  }

  /** The output at a pixel is the filter's value for the tile that holds the pixel, from the tile's own samples. */
  lemma ExpectedMeans(p: Plane, sample: Sample, filter: Filter, x: nat, y: nat) returns (a: TileArgs)
    requires p.Valid() && x < p.width && y < p.height
    ensures Expected(p, sample, filter, x, y) == filter(a, x - a.x0, y - a.y0)
    ensures IsTileOf(p, x, y, a) && HasSamples(p, sample, y, a)
  {
    hide IsTileOf, HasSamples;
    RowInOneStripe(p, y, p.StripeOf(y));
    a := ArgsOf(p, sample, p.StripeOf(y), p.ColumnOf(x));
    TileOfPixel(p, sample, x, y);
    SamplesOfPixel(p, sample, x, y);
  }

  // ----- Buffers

  /** `(width + 64) & ~31`. */
  function Stride(width: nat): (stride: nat)
    ensures width + 32 < stride <= width + 64 && stride % 32 == 0
  {
    (width + 64) / 32 * 32
  }

  /** The flat position of column `x` of row `y`: inside the buffer, and a different one for every pixel. */
  lemma FlatIndex(y: nat, x: nat, y': nat, x': nat, stride: nat, rows: nat)
    requires x < stride && x' < stride && y < rows && y' < rows
    ensures 0 <= y * stride + x < rows * stride
    ensures y * stride + x == y' * stride + x' ==> y == y' && x == x'
  {
    MulMonotone(y + 1, rows, stride);
    assert (y + 1) * stride == y * stride + stride;
    MulMonotone(0, y, stride);
    if y * stride + x == y' * stride + x' {
      QuotientUnique(stride, y, x, y', x');
    }
  }

  /** The first `h` rows and `w` columns of a buffer. */
  function Corner(a: array2<int>, h: nat, w: nat): Rows
    requires h <= a.Length0 && w <= a.Length1
    reads a
  {
    seq(h, y requires 0 <= y < h reads a => seq(w, x requires 0 <= x < w reads a => a[y, x]))
  }

  /** Two tables of rows are equal if they agree cell by cell. */
  lemma SameRows(a: Rows, b: Rows)
    requires |a| == |b| && forall i :: 0 <= i < |a| ==> |a[i]| == |b[i]|
    requires forall i, k :: 0 <= i < |a| && 0 <= k < |a[i]| ==> a[i][k] == b[i][k]
    ensures a == b
  {
    forall i | 0 <= i < |a|
      ensures a[i] == b[i]
    {
    }
  }

  method FillPicture(after: array2<int>, p: Plane, sample: Sample)
    requires p.Valid() && p.height <= after.Length0 && p.width <= after.Length1
    modifies after
    ensures forall y, x :: 0 <= y < p.height && 0 <= x < p.width ==> after[y, x] == sample(x, y, true)
  {
    for y := 0 to p.height
      invariant forall j, x :: 0 <= j < y && 0 <= x < p.width ==> after[j, x] == sample(x, j, true)
    {
      for x := 0 to p.width
        invariant forall j, k :: 0 <= j < y && 0 <= k < p.width ==> after[j, k] == sample(k, j, true)
        invariant forall k :: 0 <= k < x ==> after[y, k] == sample(k, y, true)
      {
        after[y, x] := sample(x, y, true);
      }
    }
  }

  method FillLpf(lpf: array2<int>, p: Plane, sample: Sample, stripe: nat)
    requires p.Valid() && lpf.Length0 == 8 && p.width <= lpf.Length1
    modifies lpf
    ensures Corner(lpf, 8, p.width) == LpfRows(p, sample, stripe)
  {
    for i := 0 to 8
      invariant forall j, x :: 0 <= j < i && 0 <= x < p.width ==> lpf[j, x] == sample(x, LpfRow(p, stripe, j), false)
    {
      var start := p.Start(stripe);
      var end := start + p.StripeHeight();
      var row := Clamp(if i < 2 then start - 2 + i else end + i - 6, 0, p.height - 1);
      for x := 0 to p.width
        invariant forall j, k :: 0 <= j < i && 0 <= k < p.width ==> lpf[j, k] == sample(k, LpfRow(p, stripe, j), false)
        invariant forall k :: 0 <= k < x ==> lpf[i, k] == sample(k, row, false)
      {
        lpf[i, x] := sample(x, row, false);
      }
    }
    SameRows(Corner(lpf, 8, p.width), LpfRows(p, sample, stripe));
  }

  method FillLeft(left: array2<int>, after: array2<int>, p: Plane, sample: Sample, stripe: nat, column: int)
    requires p.Valid() && left != after && left.Length0 == 64 && left.Length1 == 4
    requires p.Top(stripe) < p.height && 0 <= column < p.Units(p.width)
    requires p.height <= after.Length0 && p.width <= after.Length1
    requires forall y, x :: 0 <= y < p.height && 0 <= x < p.width ==> after[y, x] == sample(x, y, true)
    modifies left
    ensures 0 <= p.Bottom(stripe) - p.Top(stripe) <= 64
    ensures Corner(left, p.Bottom(stripe) - p.Top(stripe), 4) == LeftRows(p, sample, stripe, column)
  {
    TilesInside(p, stripe, column);
    var y0, y1, x0 := p.Top(stripe), p.Bottom(stripe), p.Left(column);
    for y := y0 to y1
      invariant forall j, k :: 0 <= j < y - y0 && 0 <= k < 4 ==>
          left[j, k] == sample(LeftColumn(p, column, k), y0 + j, true)
    {
      for x := 0 to 4
        invariant forall j, k :: 0 <= j < y - y0 && 0 <= k < 4 ==>
            left[j, k] == sample(LeftColumn(p, column, k), y0 + j, true)
        invariant forall k :: 0 <= k < x ==> left[y - y0, k] == sample(LeftColumn(p, column, k), y, true)
      {
        left[y - y0, x] := after[y, Clamp(x0 - 4 + x, 0, p.width - 1)];
      }
    }
    SameRows(Corner(left, y1 - y0, 4), LeftRows(p, sample, stripe, column));
  }

  /** The foreign filter: rewrites its rectangle of `work` and nothing else. */
  method ApplyFilter(work: array2<int>, filter: Filter, args: TileArgs)
    requires 0 <= args.x0 && 0 <= args.w && args.x0 + args.w <= work.Length1
    requires 0 <= args.y0 && 0 <= args.h && args.y0 + args.h <= work.Length0
    modifies work
    ensures forall y, x :: 0 <= y < work.Length0 && 0 <= x < work.Length1 ==>
              work[y, x] == if args.y0 <= y < args.y0 + args.h && args.x0 <= x < args.x0 + args.w
                            then filter(args, x - args.x0, y - args.y0) else old(work[y, x])
  {
    forall y, x | args.y0 <= y < args.y0 + args.h && args.x0 <= x < args.x0 + args.w {
      work[y, x] := filter(args, x - args.x0, y - args.y0);
    }
  }

  method CopyRows(output: array2<int>, work: array2<int>, y0: int, y1: int, x0: int, x1: int)
    requires output != work && 0 <= y0 <= y1 <= output.Length0 && 0 <= x0 <= x1 <= output.Length1
    requires y1 <= work.Length0 && x1 <= work.Length1
    modifies output
    ensures forall y, x :: 0 <= y < output.Length0 && 0 <= x < output.Length1 ==>
              output[y, x] == if y0 <= y < y1 && x0 <= x < x1 then work[y, x] else old(output[y, x])
  {
    for y := y0 to y1
      invariant forall j, x :: 0 <= j < output.Length0 && 0 <= x < output.Length1 ==>
                  output[j, x] == if y0 <= j < y && x0 <= x < x1 then work[j, x] else old(output[j, x])
    {
      forall x | x0 <= x < x1 {
        output[y, x] := work[y, x];
      }
    }
  }

  // ----- The driver

  /** Copies the whole picture to the work buffer and fills the two side buffers. */
  method LoadTile(work: array2<int>, after: array2<int>, lpf: array2<int>, left: array2<int>,
                  p: Plane, sample: Sample, stripe: nat, column: int, unitIndex: int) returns (args: TileArgs)
    requires p.Valid() && p.Top(stripe) < p.height && 0 <= column < p.Units(p.width)
    requires unitIndex == p.UnitRow(stripe) * p.Units(p.width) + column
    requires work != after && work != lpf && work != left && after != lpf && after != left && lpf != left
    requires work.Length0 == after.Length0 >= p.height && work.Length1 == after.Length1 >= p.width
    requires lpf.Length0 == 8 && lpf.Length1 >= p.width && left.Length0 == 64 && left.Length1 == 4
    requires forall y, x :: 0 <= y < p.height && 0 <= x < p.width ==> after[y, x] == sample(x, y, true)
    modifies work, lpf, left
    ensures p.Top(stripe) <= p.Bottom(stripe) && args == ArgsOf(p, sample, stripe, column)
  {
    hide LpfRows, LeftRows;
    TilesInside(p, stripe, column);
    forall y, x | 0 <= y < work.Length0 && 0 <= x < work.Length1 {
      work[y, x] := after[y, x];
    }
    FillLpf(lpf, p, sample, stripe);
    FillLeft(left, after, p, sample, stripe, column);
    SameRows(Corner(work, p.height, p.width), Picture(p, sample));
    args := TileArgs(Corner(work, p.height, p.width), p.Left(column), p.Top(stripe),
                     p.Right(column) - p.Left(column), p.Bottom(stripe) - p.Top(stripe),
                     Corner(left, p.Bottom(stripe) - p.Top(stripe), 4), Corner(lpf, 8, p.width),
                     unitIndex, EdgesOf(p, stripe, column));
  }

  /** One pass of the inner loop: the tile's pixels get their values, every other output pixel keeps its own. */
  method FilterTile(output: array2<int>, work: array2<int>, after: array2<int>, lpf: array2<int>, left: array2<int>,
                    p: Plane, sample: Sample, filter: Filter, stripe: nat, column: int, unitIndex: int)
    requires p.Valid() && p.Top(stripe) < p.height && 0 <= column < p.Units(p.width)
    requires unitIndex == p.UnitRow(stripe) * p.Units(p.width) + column
    requires output != work && output != after && output != lpf && output != left
    requires work != after && work != lpf && work != left && after != lpf && after != left && lpf != left
    requires output.Length0 == work.Length0 == after.Length0 >= p.height
    requires output.Length1 == work.Length1 == after.Length1 >= p.width
    requires lpf.Length0 == 8 && lpf.Length1 >= p.width && left.Length0 == 64 && left.Length1 == 4
    requires forall y, x :: 0 <= y < p.height && 0 <= x < p.width ==> after[y, x] == sample(x, y, true)
    modifies output, work, lpf, left
    ensures forall y, x :: 0 <= y < p.height && 0 <= x < p.width ==>
              output[y, x] == if p.InTile(x, y, stripe, column) then Expected(p, sample, filter, x, y)
                              else old(output[y, x])
  {
    hide Expected;
    TilesInside(p, stripe, column);
    var args := LoadTile(work, after, lpf, left, p, sample, stripe, column, unitIndex);
    ApplyFilter(work, filter, args);
    CopyRows(output, work, p.Top(stripe), p.Bottom(stripe), p.Left(column), p.Right(column));
    forall y, x | 0 <= y < p.height && 0 <= x < p.width
      ensures output[y, x] == if p.InTile(x, y, stripe, column) then Expected(p, sample, filter, x, y)
                              else old(output[y, x])
    {
      if p.InTile(x, y, stripe, column) {
        ExpectedInTile(p, sample, filter, stripe, column, x, y);
      }
    }
  }

  lemma ExpectedInTile(p: Plane, sample: Sample, filter: Filter, stripe: nat, column: int, x: nat, y: nat)
    requires p.Valid() && x < p.width && y < p.height && 0 <= column < p.Units(p.width)
    requires p.InTile(x, y, stripe, column)
    ensures Expected(p, sample, filter, x, y)
         == filter(ArgsOf(p, sample, stripe, column), x - p.Left(column), y - p.Top(stripe))
  {
    hide ArgsOf;
    TilesPartition(p, x, y, stripe, column);
  }

  /** The pixels in stripes before this one, and those of this stripe in columns before this one. */
  ghost predicate Done(p: Plane, stripe: nat, column: int, x: int, y: int)
    requires p.Valid()
  {
    y < p.Top(stripe) || (y < p.Bottom(stripe) && (column == p.Units(p.width) || x < p.Left(column)))
  }

  /** What is done after a tile is what was done before it and the tile itself. */
  lemma ColumnDone(p: Plane, stripe: nat, column: int)
    requires p.Valid() && 0 <= column < p.Units(p.width)
    ensures forall x, y :: 0 <= x < p.width && 0 <= y < p.height ==>
              (Done(p, stripe, column + 1, x, y) <==> Done(p, stripe, column, x, y) || p.InTile(x, y, stripe, column))
  {
    assert (column + 1) * p.unit == column * p.unit + p.unit;
  }

  lemma NothingDone(p: Plane, stripe: nat, x: int, y: int)
    requires p.Valid() && 0 <= x
    ensures Done(p, stripe, 0, x, y) <==> y < p.Top(stripe)
  {
    UnitArithmetic(p, p.width);
  }

  /** The loops over stripes and unit columns. */
  method Run(p: Plane, sample: Sample, filter: Filter) returns (output: array2<int>)
    requires p.Valid()
    ensures fresh(output) && output.Length0 == p.height + 8 && output.Length1 == Stride(p.width)
    ensures forall y, x :: 0 <= y < p.height && 0 <= x < p.width ==> output[y, x] == Expected(p, sample, filter, x, y)
  {
    hide Expected;
    var stride := Stride(p.width);
    var after := new int[p.height + 8, stride]((_, _) => 0);
    var work := new int[p.height + 8, stride]((_, _) => 0);
    output := new int[p.height + 8, stride]((_, _) => 0);
    var lpf := new int[8, stride]((_, _) => 0);
    var left := new int[64, 4]((_, _) => 0);
    FillPicture(after, p, sample);
    var stripe: nat := 0;
    StripeArithmetic(p, 0);
    while p.Top(stripe) < p.height
      invariant forall y, x :: 0 <= y < p.height && 0 <= x < p.width ==> after[y, x] == sample(x, y, true)
      invariant forall y, x :: 0 <= y < p.height && y < p.Top(stripe) && 0 <= x < p.width ==>
                  output[y, x] == Expected(p, sample, filter, x, y)
      decreases p.height - p.Start(stripe)
    {
      var unitRow := Clamp((p.Top(stripe) + p.Overlap()) / p.unit, 0, p.Units(p.height) - 1);
      var columns := p.Units(p.width);
      forall x, y | 0 <= x < p.width && 0 <= y < p.height
        ensures Done(p, stripe, 0, x, y) <==> y < p.Top(stripe)
      {
        NothingDone(p, stripe, x, y);
      }
      for column := 0 to columns
        invariant forall y, x :: 0 <= y < p.height && 0 <= x < p.width ==> after[y, x] == sample(x, y, true)
        invariant forall y, x :: 0 <= y < p.height && 0 <= x < p.width && Done(p, stripe, column, x, y) ==>
                    output[y, x] == Expected(p, sample, filter, x, y)
      {
        FilterTile(output, work, after, lpf, left, p, sample, filter, stripe, column, unitRow * columns + column);
        ColumnDone(p, stripe, column);
      }
      StripeArithmetic(p, stripe);
      StripeArithmetic(p, stripe + 1);
      stripe := stripe + 1;
    }
  }
}
