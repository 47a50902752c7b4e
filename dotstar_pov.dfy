/** The precompute of the DotStar persistence-of-vision script: a gamma table,
    a gamma-corrected column buffer of the source image, and a polar buffer of
    360 angular steps by 72 radial steps gathered from the column buffer.

    The floating-point library calls are inputs: `curve[i]` is what
    `pow(i / 255.0, 2.7)` returns, `trig.cos[d]` and `trig.sin[d]` are what
    `math.cos(math.radians(d))` and `math.sin(math.radians(d))` return for a
    whole number of degrees `d`. Arithmetic on them is exact. */
module DotstarPov {
  import opened PyNum

  newtype byte = x: int | 0 <= x < 256

  /** Length of the LED strip; also the radial resolution of the polar buffer. */
  const NumPixels: int := 72
  /** Angular steps in one sweep. */
  const Angles: int := 360
  /** Entries of the gamma table, one per 8-bit channel value. */
  const GammaSize: int := 256
  /** Scale of the gamma table. */
  const Brightness: real := 0.25
  /** The fourth element of every buffer cell. */
  const CellBrightness: real := 0.5
  /** Source coordinate that radius 0 maps to, on both axes. */
  const Centre: int := 128
  /** Source pixels per radial step. */
  const Ratio: real := 128.0 / 72.0

  /** One pixel of the decoded RGB image. */
  datatype Rgb = Rgb(r: byte, g: byte, b: byte)

  /** A four-element buffer cell: red, green, blue and brightness. */
  datatype Cell = Cell(red: int, green: int, blue: int, brightness: real)

  /** A freshly allocated cell, `[0, 0, 0, 0]`. */
  const Blank: Cell := Cell(0, 0, 0, 0.0)

  /** How the resample ends: it completes, or it stops with an `IndexError`
      at the first (angle, radius) whose source cell lies outside the column
      buffer. */
  datatype Outcome = Pass | IndexError(angle: int, radius: int)

  /** Cosine and sine of every whole degree in [0, 360). */
  datatype Trig = Trig(cos: seq<real>, sin: seq<real>)

  predicate ValidTrig(t: Trig)
  {
    |t.cos| == Angles && |t.sin| == Angles &&
    forall d :: 0 <= d < Angles ==> -1.0 <= t.cos[d] <= 1.0 && -1.0 <= t.sin[d] <= 1.0
  }

  /** `curve[i]` is `pow(i / 255.0, 2.7)`: within [0, 1], exactly 0 at 0 and
      exactly 1 at 255. */
  predicate ValidCurve(curve: seq<real>)
  {
    |curve| == GammaSize && curve[0] == 0.0 && curve[GammaSize - 1] == 1.0 &&
    forall i :: 0 <= i < |curve| ==> 0.0 <= curve[i] <= 1.0
  }

  // ---------------------------------------------------------------------
  // Gamma table

  /** One gamma-table entry from its curve value `p`: `p * 0.25 * 255`
      rounded half up, which always fits a byte. */
  function GammaEntry(p: real): (g: int)
    requires 0.0 <= p <= 1.0
    ensures 0 <= g <= 64
    ensures p * Brightness * 255.0 - 0.5 < g as real <= p * Brightness * 255.0 + 0.5
  {
    Trunc(p * Brightness * 255.0 + 0.5)
  }

  /** The whole table; black stays black and full intensity becomes 64. */
  function GammaTable(curve: seq<real>): (t: seq<byte>)
    requires ValidCurve(curve)
    ensures |t| == GammaSize && t[0] == 0 && t[GammaSize - 1] == 64
  {
    seq(GammaSize, i requires 0 <= i < GammaSize => GammaEntry(curve[i]) as byte)
  }

  /** A non-decreasing curve gives a non-decreasing table. */
  lemma GammaMonotone(curve: seq<real>)
    requires ValidCurve(curve)
    requires forall i, j :: 0 <= i <= j < GammaSize ==> curve[i] <= curve[j]
    ensures forall i, j :: 0 <= i <= j < GammaSize ==> GammaTable(curve)[i] <= GammaTable(curve)[j]
  {
  }

  /** Fills a zeroed 256-byte table entry by entry. */
  method BuildGamma(curve: seq<real>) returns (gamma: array<byte>)
    requires ValidCurve(curve)
    ensures fresh(gamma)
    ensures gamma.Length == GammaSize && gamma[..] == GammaTable(curve)
  {
    gamma := new byte[GammaSize](_ => 0);
    for i := 0 to GammaSize
      invariant forall k :: 0 <= k < i ==> gamma[k] == GammaTable(curve)[k]
    {
      gamma[i] := GammaEntry(curve[i]) as byte;
    }
  }

  // ---------------------------------------------------------------------
  // Buffer allocation

  /** A `rows` by `cols` grid of blank cells, filled row by row. */
  method AllocateGrid(rows: nat, cols: nat) returns (grid: array2<Cell>)
    ensures fresh(grid)
    ensures grid.Length0 == rows && grid.Length1 == cols
    ensures forall x, y :: 0 <= x < rows && 0 <= y < cols ==> grid[x, y] == Blank
  {
    grid := new Cell[rows, cols];
    for x := 0 to rows
      invariant forall i, j :: 0 <= i < x && 0 <= j < cols ==> grid[i, j] == Blank
    {
      for y := 0 to cols
        invariant forall i, j :: 0 <= i < x && 0 <= j < cols ==> grid[i, j] == Blank
        invariant forall j :: 0 <= j < y ==> grid[x, j] == Blank
      {
        grid[x, y] := Blank;
      }
    }
  }

  /** The polar buffer: one row per angular step, one cell per LED. */
  method AllocateFinal() returns (final: array2<Cell>)
    ensures fresh(final)
    ensures final.Length0 == Angles && final.Length1 == NumPixels
    ensures forall a, r :: 0 <= a < Angles && 0 <= r < NumPixels ==> final[a, r] == Blank
  {
    final := AllocateGrid(Angles, NumPixels);
  }

  // ---------------------------------------------------------------------
  // Column buffer

  /** The cell a source pixel becomes: each channel through the gamma table. */
  function ConvertPixel(gamma: seq<byte>, p: Rgb): Cell
    requires |gamma| == GammaSize
  {
    Cell(gamma[p.r] as int, gamma[p.g] as int, gamma[p.b] as int, CellBrightness)
  }

  /** Overwrites every cell of `column` with its own pixel, gamma-corrected. */
  method ConvertImage(pixels: array2<Rgb>, gamma: array<byte>, column: array2<Cell>)
    requires gamma.Length == GammaSize
    requires column.Length0 == pixels.Length0 && column.Length1 == pixels.Length1
    modifies column
    ensures forall x, y :: 0 <= x < column.Length0 && 0 <= y < column.Length1 ==>
      column[x, y] == ConvertPixel(gamma[..], pixels[x, y])
  {
    for x := 0 to pixels.Length0
      invariant forall i, j :: 0 <= i < x && 0 <= j < column.Length1 ==>
        column[i, j] == ConvertPixel(gamma[..], pixels[i, j])
      invariant forall i, j :: x <= i < column.Length0 && 0 <= j < column.Length1 ==>
        column[i, j] == old(column[i, j])
    {
      for y := 0 to pixels.Length1
        invariant forall i, j :: 0 <= i < x && 0 <= j < column.Length1 ==>
          column[i, j] == ConvertPixel(gamma[..], pixels[i, j])
        invariant forall j :: 0 <= j < y ==> column[x, j] == ConvertPixel(gamma[..], pixels[x, j])
        invariant forall j :: y <= j < column.Length1 ==> column[x, j] == old(column[x, j])
        invariant forall i, j :: x < i < column.Length0 && 0 <= j < column.Length1 ==>
          column[i, j] == old(column[i, j])
      {
        var value := pixels[x, y];
        column[x, y] := column[x, y].(red := gamma[value.r] as int);
        column[x, y] := column[x, y].(green := gamma[value.g] as int);
        column[x, y] := column[x, y].(blue := gamma[value.b] as int);
        column[x, y] := column[x, y].(brightness := CellBrightness);
      }
    }
  }

  // ---------------------------------------------------------------------
  // Polar resample

  /** Source pixels from the centre at radial step `r`. */
  function Distance(r: int): real
  {
    Ratio * r as real
  }

  /** The outermost radial step, 71, is 126.2 source pixels out. */
  lemma DistanceBound(r: int)
    requires 0 <= r < NumPixels
    ensures 0.0 <= Distance(r) <= 126.25
  {
  }

  /** `d * c` lies within `d` of zero when `c` is a cosine or sine. */
  lemma ScaledUnit(d: real, c: real)
    requires 0.0 <= d && -1.0 <= c <= 1.0
    ensures -d <= d * c <= d
  {
  }

  /** Before rounding, both source coordinates lie in [1.75, 254.25]. */
  lemma OffsetRange(d: real, c: real)
    requires 0.0 <= d <= 126.25 && -1.0 <= c <= 1.0
    ensures 1.75 <= d * c + 128.0 <= 254.25
    ensures 1.75 <= 128.0 - d * c <= 254.25
  {
    ScaledUnit(d, c);
  }

  /** Rounding a value in [1.75, 254.25] lands in [2, 254]. */
  lemma RoundRange(v: real)
    requires 1.75 <= v <= 254.25
    ensures 2 <= Round(v) <= 254
  {
  }

  /** Horizontal source coordinate for angle `a` and radius `r`: the nearest
      integer to `128 + distance * cos(a)`; always in [2, 254], so never
      negative. */
  function SourceX(trig: Trig, a: int, r: int): (fx: int)
    requires ValidTrig(trig) && 0 <= a < Angles && 0 <= r < NumPixels
    ensures fx as real - 0.5 <= Distance(r) * trig.cos[a] + 128.0 <= fx as real + 0.5
    ensures 2 <= fx <= 254
  {
    DistanceBound(r);
    OffsetRange(Distance(r), trig.cos[a]);
    RoundRange(Distance(r) * trig.cos[a] + 128.0);
    Round(Distance(r) * trig.cos[a] + 128.0)
  }

  /** Vertical source coordinate for angle `a` and radius `r`: the nearest
      integer to `128 - distance * sin(r)`. The sine is taken of the radial
      step `r`, not of the angle, as the script does. Always in [2, 254]. */
  function SourceY(trig: Trig, a: int, r: int): (fy: int)
    requires ValidTrig(trig) && 0 <= a < Angles && 0 <= r < NumPixels
    ensures fy as real - 0.5 <= 128.0 - Distance(r) * trig.sin[r] <= fy as real + 0.5
    ensures 2 <= fy <= 254
  {
    DistanceBound(r);
    OffsetRange(Distance(r), trig.sin[r]);
    RoundRange(128.0 - Distance(r) * trig.sin[r]);
    Round(128.0 - Distance(r) * trig.sin[r])
  }

  /** The source cell of (a, r) exists in a `width` by `height` buffer. */
  predicate InBoundsAt(trig: Trig, width: int, height: int, a: int, r: int)
    requires ValidTrig(trig) && 0 <= a < Angles && 0 <= r < NumPixels
  {
    SourceX(trig, a, r) < width && SourceY(trig, a, r) < height
  }

  /** Every (a, r) of the sweep reads a cell that exists. */
  predicate SourcesInBounds(trig: Trig, width: int, height: int)
    requires ValidTrig(trig)
  {
    forall a, r :: 0 <= a < Angles && 0 <= r < NumPixels ==> InBoundsAt(trig, width, height, a, r)
  }

  /** The polar cell made from a column cell: its colour, brightness 0.5. */
  function PolarCell(c: Cell): Cell
  {
    Cell(c.red, c.green, c.blue, CellBrightness)
  }

  /** `c` is the resample at (a, r): its source cell exists and `c` is made
      from it. */
  ghost predicate ResampledAt(trig: Trig, column: array2<Cell>, a: int, r: int, c: Cell)
    requires ValidTrig(trig) && 0 <= a < Angles && 0 <= r < NumPixels
    reads column
  {
    InBoundsAt(trig, column.Length0, column.Length1, a, r) &&
    c == PolarCell(column[SourceX(trig, a, r), SourceY(trig, a, r)])
  }

  /** (a, r) comes before (a0, r0) in the order the sweep visits cells. */
  predicate Before(a: int, r: int, a0: int, r0: int)
  {
    a < a0 || (a == a0 && r < r0)
  }

  /** At radius 0 the distance is 0, so every angle reads the centre. */
  lemma CentreAtRadiusZero(trig: Trig, a: int)
    requires ValidTrig(trig) && 0 <= a < Angles
    ensures SourceX(trig, a, 0) == Centre && SourceY(trig, a, 0) == Centre
  {
  }

  /** The vertical coordinate depends on the radius only: every angle at
      radius `r` reads the same source row. */
  lemma RowIgnoresAngle(trig: Trig, a1: int, a2: int, r: int)
    requires ValidTrig(trig) && 0 <= a1 < Angles && 0 <= a2 < Angles && 0 <= r < NumPixels
    ensures SourceY(trig, a1, r) == SourceY(trig, a2, r)
  {
  }

  /** Since the sine of 0 to 71 degrees is not negative, no radius reads
      below the centre row: the lower half of the image is never shown. */
  lemma RowsAboveCentre(trig: Trig, a: int, r: int)
    requires ValidTrig(trig) && 0 <= a < Angles && 0 <= r < NumPixels
    requires forall d :: 0 <= d < NumPixels ==> 0.0 <= trig.sin[d]
    ensures SourceY(trig, a, r) <= Centre
  {
    DistanceBound(r);
    NonNegProduct(Distance(r), trig.sin[r]);
  }

  lemma NonNegProduct(d: real, s: real)
    requires 0.0 <= d && 0.0 <= s
    ensures 0.0 <= d * s
  {
  }

  /** An image of at least 255 by 255 pixels keeps every read in range. */
  lemma LargeImageInBounds(trig: Trig, width: int, height: int)
    requires ValidTrig(trig) && 255 <= width && 255 <= height
    ensures SourcesInBounds(trig, width, height)
  {
  }

  /** Given the sign of the sines, 129 rows suffice when the width is 255. */
  lemma ShortImageInBounds(trig: Trig, width: int, height: int)
    requires ValidTrig(trig) && 255 <= width && 129 <= height
    requires forall d :: 0 <= d < NumPixels ==> 0.0 <= trig.sin[d]
    ensures SourcesInBounds(trig, width, height)
  {
    forall a, r | 0 <= a < Angles && 0 <= r < NumPixels
      ensures InBoundsAt(trig, width, height, a, r)
    {
      RowsAboveCentre(trig, a, r);
    }
  }

  /** Every read in range forces the centre (128, 128) into the image. */
  lemma CentreMustBeInside(trig: Trig, width: int, height: int)
    requires ValidTrig(trig) && SourcesInBounds(trig, width, height)
    ensures Centre < width && Centre < height
  {
    assert InBoundsAt(trig, width, height, 0, 0);
    CentreAtRadiusZero(trig, 0);
  }

  /** With `cos 0 == 1`, angle 0 at the outermost radius reads column 254,
      so no image narrower than 255 pixels keeps every read in range. */
  lemma WidthMustReach255(trig: Trig, width: int, height: int)
    requires ValidTrig(trig) && trig.cos[0] == 1.0
    requires SourcesInBounds(trig, width, height)
    ensures 255 <= width
  {
    assert InBoundsAt(trig, width, height, 0, NumPixels - 1);
  }

  /** Writes the colour channels of `src` and brightness 0.5 into cell
      (a, r) of `final`, one element at a time. */
  method CopyCell(final: array2<Cell>, a: int, r: int, src: Cell)
    requires 0 <= a < final.Length0 && 0 <= r < final.Length1
    modifies final
    ensures final[a, r] == PolarCell(src)
    ensures forall i, j :: 0 <= i < final.Length0 && 0 <= j < final.Length1 && (i != a || j != r) ==>
      final[i, j] == old(final[i, j])
  {
    final[a, r] := final[a, r].(red := src.red);
    final[a, r] := final[a, r].(green := src.green);
    final[a, r] := final[a, r].(blue := src.blue);
    final[a, r] := final[a, r].(brightness := CellBrightness);
  }

  /** Every radius of angle `a` reads a cell that exists. */
  predicate RowInBounds(trig: Trig, width: int, height: int, a: int)
    requires ValidTrig(trig) && 0 <= a < Angles
  {
    forall r :: 0 <= r < NumPixels ==> InBoundsAt(trig, width, height, a, r)
  }

  /** The inner loop of the sweep: the 72 cells of angle `a`, radius by
      radius, stopping at the first source cell that does not exist. */
  method ResampleRow(column: array2<Cell>, trig: Trig, final: array2<Cell>, a: int) returns (outcome: Outcome)
    requires ValidTrig(trig) && 0 <= a < Angles
    requires final.Length0 == Angles && final.Length1 == NumPixels
    requires final != column
    modifies final
    ensures outcome == Pass <==> RowInBounds(trig, column.Length0, column.Length1, a)
    ensures outcome == Pass ==> forall r :: 0 <= r < NumPixels ==> ResampledAt(trig, column, a, r, final[a, r])
    ensures outcome.IndexError? ==>
      outcome.angle == a && 0 <= outcome.radius < NumPixels &&
      !InBoundsAt(trig, column.Length0, column.Length1, a, outcome.radius) &&
      (forall r :: 0 <= r < outcome.radius ==> ResampledAt(trig, column, a, r, final[a, r])) &&
      (forall r :: outcome.radius <= r < NumPixels ==> final[a, r] == old(final[a, r]))
    ensures forall i, j :: 0 <= i < Angles && 0 <= j < NumPixels && i != a ==> final[i, j] == old(final[i, j])
  {
    for r := 0 to NumPixels
      invariant forall j :: 0 <= j < r ==> InBoundsAt(trig, column.Length0, column.Length1, a, j)
      invariant forall j :: 0 <= j < r ==> ResampledAt(trig, column, a, j, final[a, j])
      invariant forall j :: r <= j < NumPixels ==> final[a, j] == old(final[a, j])
      invariant forall i, j :: 0 <= i < Angles && 0 <= j < NumPixels && i != a ==> final[i, j] == old(final[i, j])
    {
      var fx := SourceX(trig, a, r);
      var fy := SourceY(trig, a, r);
      if !(fx < column.Length0 && fy < column.Length1) {
        assert !InBoundsAt(trig, column.Length0, column.Length1, a, r);
        assert !RowInBounds(trig, column.Length0, column.Length1, a);
        outcome := IndexError(a, r);
        return;
      }
      CopyCell(final, a, r, column[fx, fy]);
    }
    assert RowInBounds(trig, column.Length0, column.Length1, a);
    outcome := Pass;
  }

  /** Gathers every polar cell from the column buffer, angle by angle and
      radius by radius. The source index is not checked before the read: a
      cell outside the column buffer stops the sweep with an `IndexError`,
      leaving the cells already visited written and the rest untouched. */
  method Resample(column: array2<Cell>, trig: Trig, final: array2<Cell>) returns (outcome: Outcome)
    requires ValidTrig(trig)
    requires final.Length0 == Angles && final.Length1 == NumPixels
    requires final != column
    modifies final
    ensures outcome == Pass <==> SourcesInBounds(trig, column.Length0, column.Length1)
    ensures outcome == Pass ==> forall a, r :: 0 <= a < Angles && 0 <= r < NumPixels ==>
      ResampledAt(trig, column, a, r, final[a, r])
    ensures outcome == Pass ==> (Centre < column.Length0 && Centre < column.Length1 &&
      forall a :: 0 <= a < Angles ==> final[a, 0] == PolarCell(column[Centre, Centre]))
    ensures outcome.IndexError? ==>
      0 <= outcome.angle < Angles && 0 <= outcome.radius < NumPixels &&
      !InBoundsAt(trig, column.Length0, column.Length1, outcome.angle, outcome.radius)
    ensures outcome.IndexError? ==> forall a, r :: 0 <= a < Angles && 0 <= r < NumPixels ==>
      if Before(a, r, outcome.angle, outcome.radius) then ResampledAt(trig, column, a, r, final[a, r])
      else final[a, r] == old(final[a, r])
  {
    for a := 0 to Angles
      invariant forall i :: 0 <= i < a ==> RowInBounds(trig, column.Length0, column.Length1, i)
      invariant forall i, j :: 0 <= i < a && 0 <= j < NumPixels ==> ResampledAt(trig, column, i, j, final[i, j])
      invariant forall i, j :: a <= i < Angles && 0 <= j < NumPixels ==> final[i, j] == old(final[i, j])
    {
      outcome := ResampleRow(column, trig, final, a);
      if outcome.IndexError? {
        assert !SourcesInBounds(trig, column.Length0, column.Length1);
        return;
      }
    }
    outcome := Pass;
    forall i, j | 0 <= i < Angles && 0 <= j < NumPixels
      ensures InBoundsAt(trig, column.Length0, column.Length1, i, j)
    {
      assert RowInBounds(trig, column.Length0, column.Length1, i);
    }
    CentreAtRadiusZero(trig, 0);
    assert ResampledAt(trig, column, 0, 0, final[0, 0]);
    forall a | 0 <= a < Angles
      ensures final[a, 0] == PolarCell(column[Centre, Centre])
    {
      assert ResampledAt(trig, column, a, 0, final[a, 0]);
      CentreAtRadiusZero(trig, a);
    }
  }

  // ---------------------------------------------------------------------
  // The whole precompute

  /** Gamma table, column buffer and polar buffer, in the script's order. */
  method Precompute(curve: seq<real>, trig: Trig, pixels: array2<Rgb>)
    returns (gamma: array<byte>, column: array2<Cell>, final: array2<Cell>, outcome: Outcome)
    requires ValidCurve(curve) && ValidTrig(trig)
    ensures fresh(gamma) && fresh(column) && fresh(final)
    ensures gamma[..] == GammaTable(curve)
    ensures column.Length0 == pixels.Length0 && column.Length1 == pixels.Length1
    ensures forall x, y :: 0 <= x < column.Length0 && 0 <= y < column.Length1 ==>
      column[x, y] == ConvertPixel(GammaTable(curve), pixels[x, y])
    ensures final.Length0 == Angles && final.Length1 == NumPixels
    ensures outcome == Pass <==> SourcesInBounds(trig, pixels.Length0, pixels.Length1)
    ensures 255 <= pixels.Length0 && 255 <= pixels.Length1 ==> outcome == Pass
    ensures outcome == Pass ==> forall a, r :: 0 <= a < Angles && 0 <= r < NumPixels ==>
      InBoundsAt(trig, pixels.Length0, pixels.Length1, a, r) &&
      final[a, r] == PolarCell(ConvertPixel(GammaTable(curve), pixels[SourceX(trig, a, r), SourceY(trig, a, r)]))
    ensures forall p: Rgb :: outcome == Pass && (forall x, y :: 0 <= x < pixels.Length0 && 0 <= y < pixels.Length1 ==> pixels[x, y] == p) ==>
      forall a, r :: 0 <= a < Angles && 0 <= r < NumPixels ==> final[a, r] == PolarCell(ConvertPixel(GammaTable(curve), p))
  {
    gamma := BuildGamma(curve);
    column := AllocateGrid(pixels.Length0, pixels.Length1);
    ConvertImage(pixels, gamma, column);
    final := AllocateFinal();
    outcome := Resample(column, trig, final);
    if 255 <= pixels.Length0 && 255 <= pixels.Length1 {
      LargeImageInBounds(trig, pixels.Length0, pixels.Length1);
    }
    forall p: Rgb, a, r | outcome == Pass && 0 <= a < Angles && 0 <= r < NumPixels &&
        (forall x, y :: 0 <= x < pixels.Length0 && 0 <= y < pixels.Length1 ==> pixels[x, y] == p)
      ensures final[a, r] == PolarCell(ConvertPixel(GammaTable(curve), p))
    {
      assert ResampledAt(trig, column, a, r, final[a, r]);
    }
  }

  /** A solid red image: every polar cell is full red through the table, 64,
      with brightness 0.5. */
  lemma SolidRed(curve: seq<real>)
    requires ValidCurve(curve)
    ensures PolarCell(ConvertPixel(GammaTable(curve), Rgb(255, 0, 0))) == Cell(64, 0, 0, CellBrightness)
  {
  }
}
