/** The back buffer of `Renderer::Render` (source/Renderer.cpp) as a value:
    row-major addressing of a `width` x `height` pixel grid, and the frame the
    per-pixel pass leaves in it. `IsInTriangle` is not part of this model; it
    is a parameter of type `CoverageTest`. */
module FrameBuffer {
  import opened Raster
  import opened Colors

  /** `Utils::IsInTriangle(pixel, v0, v1, v2)`: the coverage answer for a
      point against three raster vertices. */
  type CoverageTest = (Vector2, Vector2, Vector2, Vector2) -> bool

  /** The cell `px + py * width` that holds pixel (px, py): row py occupies
      the block of `width` cells starting at `py * width`. */
  function RowMajor(px: nat, py: nat, width: nat): (i: nat)
    ensures px < width ==> py * width <= i < (py + 1) * width
  {
    px + py * width
  }

  /** Every pixel of the grid is addressed inside `[0, width * height)`. */
  lemma RowMajorInBounds(px: nat, py: nat, width: nat, height: nat)
    requires px < width && py < height
    ensures RowMajor(px, py, width) < width * height
  {
    assert py * width <= (height - 1) * width by {
      MulMonotone(py, height - 1, width);
    }
    assert (height - 1) * width + width == height * width;
  }

  /** A cell recovers its pixel: column by remainder, row by quotient. */
  lemma RowMajorDecode(px: nat, py: nat, width: nat)
    requires px < width
    ensures RowMajor(px, py, width) % width == px
    ensures RowMajor(px, py, width) / width == py
  {
    DivModUnique(RowMajor(px, py, width), width, py, px);
  }

  /** Two pixels of the grid share a cell only if they are the same pixel. */
  lemma RowMajorInjective(colA: nat, rowA: nat, colB: nat, rowB: nat, width: nat)
    requires colA < width && colB < width
    requires RowMajor(colA, rowA, width) == RowMajor(colB, rowB, width)
    ensures colA == colB && rowA == rowB
  {
    RowMajorDecode(colA, rowA, width);
    RowMajorDecode(colB, rowB, width);
  }

  /** Every cell of the buffer is the cell of one pixel of the grid. */
  lemma RowMajorCovers(i: nat, width: nat, height: nat)
    requires i < width * height
    ensures width > 0
    ensures i % width < width && i / width < height
    ensures RowMajor(i % width, i / width, width) == i
  {
    assert width > 0;
    var q := i / width;
    assert q * width <= i;
    MulMonotone(height, q, width);
  }

  lemma MulMonotone(a: nat, b: nat, c: nat)
    ensures a <= b ==> a * c <= b * c
  {
    if a <= b {
      assert b * c - a * c == (b - a) * c;
    }
  }

  lemma DivModUnique(n: nat, d: nat, q: nat, r: nat)
    requires r < d && n == q * d + r
    ensures n % d == r && n / d == q
  {
    var q', r' := n / d, n % d;
    assert n == q' * d + r';
    if q' < q {
      MulMonotone(q' + 1, q, d);
    } else if q < q' {
      MulMonotone(q + 1, q', d);
    }
  }

  /** Whether pixel (px, py), taken as the point (px, py), is covered by the
      raster triangle. */
  predicate Covered(isInTriangle: CoverageTest, raster: seq<Vector2>, px: nat, py: nat)
    requires |raster| == 3
  {
    isInTriangle(Vector2(px as real, py as real), raster[0], raster[1], raster[2])
  }

  /** The frame the per-pixel pass leaves: cell i holds the colour of the
      pixel at column `i % width`, row `i / width`. */
  function ExpectedFrame(width: nat, height: nat, isInTriangle: CoverageTest, raster: seq<Vector2>): (frame: seq<Pixel>)
    requires |raster| == 3
    ensures |frame| == width * height
  {
    if width == 0 then
      assert width * height == 0;
      []
    else
      seq(width * height, i requires 0 <= i < width * height =>
        PixelColor(Covered(isInTriangle, raster, i % width, i / width)))
  }

  /** Pixel (px, py) of the frame is white exactly when it is covered and
      black otherwise. */
  lemma ExpectedFrameAt(width: nat, height: nat, isInTriangle: CoverageTest, raster: seq<Vector2>, px: nat, py: nat)
    requires |raster| == 3 && px < width && py < height
    ensures RowMajor(px, py, width) < width * height
    ensures var cell := ExpectedFrame(width, height, isInTriangle, raster)[RowMajor(px, py, width)];
      (cell == White <==> Covered(isInTriangle, raster, px, py)) &&
      (cell == Black <==> !Covered(isInTriangle, raster, px, py))
  {
    RowMajorInBounds(px, py, width, height);
    RowMajorDecode(px, py, width);
  }

  /** A cell depends on nothing but its own pixel's coverage: two coverage
      tests that agree on pixel (px, py) give that cell the same colour,
      whatever they answer elsewhere. */
  lemma ExpectedFrameLocal(width: nat, height: nat, t1: CoverageTest, t2: CoverageTest,
                           raster: seq<Vector2>, px: nat, py: nat)
    requires |raster| == 3 && px < width && py < height
    requires Covered(t1, raster, px, py) == Covered(t2, raster, px, py)
    ensures RowMajor(px, py, width) < width * height
    ensures ExpectedFrame(width, height, t1, raster)[RowMajor(px, py, width)]
         == ExpectedFrame(width, height, t2, raster)[RowMajor(px, py, width)]
  {
    ExpectedFrameAt(width, height, t1, raster, px, py);
    ExpectedFrameAt(width, height, t2, raster, px, py);
  }

  /** Every cell of the frame is full white or black: each channel is 0 or
      255, never a value in between. */
  lemma ExpectedFrameSaturated(width: nat, height: nat, isInTriangle: CoverageTest, raster: seq<Vector2>, i: nat)
    requires |raster| == 3 && i < width * height
    ensures var cell := ExpectedFrame(width, height, isInTriangle, raster)[i];
      cell.r == cell.g == cell.b && (cell.r == 0 || cell.r == 255)
  {
  }

  /** A buffer of `width * height` cells in which every pixel's cell holds
      that pixel's colour is the expected frame: the pixels of the grid
      account for every cell. */
  lemma {:induction false} GridDeterminesFrame(cells: seq<Pixel>, width: nat, height: nat,
                                               isInTriangle: CoverageTest, raster: seq<Vector2>)
    requires |raster| == 3 && |cells| == width * height
    requires forall qx: nat, qy: nat :: qx < width && qy < height ==>
      RowMajor(qx, qy, width) < |cells| &&
      cells[RowMajor(qx, qy, width)] == PixelColor(Covered(isInTriangle, raster, qx, qy))
    ensures cells == ExpectedFrame(width, height, isInTriangle, raster)
  {
    var frame := ExpectedFrame(width, height, isInTriangle, raster);
    forall i | 0 <= i < width * height
      ensures cells[i] == frame[i]
    {
      RowMajorCovers(i, width, height);
      var qx, qy := i % width, i / width;
      assert RowMajor(qx, qy, width) == i;
      assert frame[i] == PixelColor(Covered(isInTriangle, raster, qx, qy));
    }
  }

  /** A count of `width * height` cells that is 1 at every pixel's cell is 1
      everywhere. */
  lemma {:induction false} GridCountsOnce(counts: seq<nat>, width: nat, height: nat)
    requires |counts| == width * height
    requires forall qx: nat, qy: nat :: qx < width && qy < height ==>
      RowMajor(qx, qy, width) < |counts| && counts[RowMajor(qx, qy, width)] == 1
    ensures forall i :: 0 <= i < width * height ==> counts[i] == 1
  {
    forall i | 0 <= i < width * height
      ensures counts[i] == 1
    {
      RowMajorCovers(i, width, height);
      assert RowMajor(i % width, i / width, width) == i;
    }
  }
}
