/** The first half of `Renderer::Render` (source/Renderer.cpp): the fixed
    triangle in normalised device coordinates (NDC) and its mapping to raster
    (screen) space. Arithmetic is over `real`; the source's `float` rounding
    is not modelled. */
module Raster {

  datatype Vector2 = Vector2(x: real, y: real)
  datatype Vector3 = Vector3(x: real, y: real, z: real)

  /** The three NDC vertices `Render` defines, in the order it lists them:
      three distinct points strictly inside the NDC square, all at depth 1. */
  function TriangleNdc(): (tri: seq<Vector3>)
    ensures |tri| == 3
    ensures forall i :: 0 <= i < 3 ==>
      -1.0 < tri[i].x < 1.0 && -1.0 < tri[i].y < 1.0 && tri[i].z == 1.0
    ensures tri[0] != tri[1] && tri[1] != tri[2] && tri[0] != tri[2]
  {
    [Vector3(0.0, 0.5, 1.0), Vector3(0.5, -0.5, 1.0), Vector3(-0.5, -0.5, 1.0)]
  }

  /** NDC to raster space: x from [-1, 1] onto [0, width], y from [-1, 1]
      onto [height, 0] (raster rows grow downwards). Depth is dropped. The
      left and right edges of the NDC square go to columns 0 and width, the
      top edge (y = 1) to row 0 and the bottom edge (y = -1) to row height. */
  function NdcToRaster(v: Vector3, width: nat, height: nat): (r: Vector2)
    ensures v.x == -1.0 ==> r.x == 0.0
    ensures v.x == 1.0 ==> r.x == width as real
    ensures v.y == 1.0 ==> r.y == 0.0
    ensures v.y == -1.0 ==> r.y == height as real
  {
    Vector2((v.x + 1.0) / 2.0 * width as real, (1.0 - v.y) / 2.0 * height as real)
  }

  /** Raster space back to NDC for a surface of positive size, with the depth
      supplied again: the inverse of `NdcToRaster`. */
  function RasterToNdc(p: Vector2, z: real, width: nat, height: nat): Vector3
    requires width > 0 && height > 0
  {
    Vector3(2.0 * p.x / width as real - 1.0, 1.0 - 2.0 * p.y / height as real, z)
  }

  /** The raster points of a whole vertex list, one per vertex, in order. */
  function RasterOf(ndc: seq<Vector3>, width: nat, height: nat): (raster: seq<Vector2>)
    ensures |raster| == |ndc|
  {
    seq(|ndc|, i requires 0 <= i < |ndc| => NdcToRaster(ndc[i], width, height))
  }

  /** The loop that fills `verticesRaster`: one raster point is appended per
      NDC vertex, so the output has the input's length and order. */
  method ToRaster(ndc: seq<Vector3>, width: nat, height: nat) returns (raster: seq<Vector2>)
    ensures |raster| == |ndc|
    ensures forall i :: 0 <= i < |ndc| ==> raster[i] == NdcToRaster(ndc[i], width, height)
  {
    raster := [];
    for i := 0 to |ndc|
      invariant |raster| == i
      invariant forall j :: 0 <= j < i ==> raster[j] == NdcToRaster(ndc[j], width, height)
    {
      raster := raster + [NdcToRaster(ndc[i], width, height)];
    }
  }

  /** A point of the NDC square lands inside the raster rectangle. */
  lemma NdcToRasterBounds(v: Vector3, width: nat, height: nat)
    requires -1.0 <= v.x <= 1.0 && -1.0 <= v.y <= 1.0
    ensures 0.0 <= NdcToRaster(v, width, height).x <= width as real
    ensures 0.0 <= NdcToRaster(v, width, height).y <= height as real
  {
    var w, h := width as real, height as real;
    var tx, ty := (v.x + 1.0) / 2.0, (1.0 - v.y) / 2.0;
    var r := NdcToRaster(v, width, height);
    assert r.x == tx * w && r.y == ty * h;
    assert 0.0 <= tx <= 1.0 && 0.0 <= ty <= 1.0;
    ScaleUnit(tx, w);
    ScaleUnit(ty, h);
  }

  /** The mapping keeps the order of x and reverses the order of y: a point
      higher in NDC is never lower on the screen. */
  lemma NdcToRasterOrder(a: Vector3, b: Vector3, width: nat, height: nat)
    requires a.x <= b.x && a.y <= b.y
    ensures NdcToRaster(a, width, height).x <= NdcToRaster(b, width, height).x
    ensures NdcToRaster(b, width, height).y <= NdcToRaster(a, width, height).y
  {
    var w, h := width as real, height as real;
    assert (a.x + 1.0) / 2.0 * w <= (b.x + 1.0) / 2.0 * w by {
      MonotoneScale((a.x + 1.0) / 2.0, (b.x + 1.0) / 2.0, w);
    }
    assert (1.0 - b.y) / 2.0 * h <= (1.0 - a.y) / 2.0 * h by {
      MonotoneScale((1.0 - b.y) / 2.0, (1.0 - a.y) / 2.0, h);
    }
  }

  lemma ScaleUnit(t: real, w: real)
    requires 0.0 <= t <= 1.0 && 0.0 <= w
    ensures 0.0 <= t * w <= w
  {
    MonotoneScale(0.0, t, w);
    MonotoneScale(t, 1.0, w);
  }

  lemma MonotoneScale(s: real, t: real, w: real)
    requires s <= t && 0.0 <= w
    ensures s * w <= t * w
  {
    assert t * w - s * w == (t - s) * w;
  }

  /** On a surface of positive size the mapping loses nothing but depth:
      mapping back recovers the NDC point. */
  lemma NdcRasterRoundTrip(v: Vector3, width: nat, height: nat)
    requires width > 0 && height > 0
    ensures RasterToNdc(NdcToRaster(v, width, height), v.z, width, height) == v
  {
    var w, h := width as real, height as real;
    var p := NdcToRaster(v, width, height);
    assert 2.0 * p.x / w == v.x + 1.0 by {
      assert p.x == (v.x + 1.0) / 2.0 * w;
      assert 2.0 * p.x == (v.x + 1.0) * w;
      Cancel(2.0 * p.x, v.x + 1.0, w);
    }
    assert 2.0 * p.y / h == 1.0 - v.y by {
      assert p.y == (1.0 - v.y) / 2.0 * h;
      assert 2.0 * p.y == (1.0 - v.y) * h;
      Cancel(2.0 * p.y, 1.0 - v.y, h);
    }
  }

  /** And every raster point of a surface of positive size is the image of
      exactly one NDC point: mapping to NDC and back is the identity. */
  lemma RasterNdcRoundTrip(p: Vector2, z: real, width: nat, height: nat)
    requires width > 0 && height > 0
    ensures NdcToRaster(RasterToNdc(p, z, width, height), width, height) == p
  {
    var w, h := width as real, height as real;
    var v := RasterToNdc(p, z, width, height);
    assert (v.x + 1.0) / 2.0 * w == p.x by {
      assert v.x + 1.0 == 2.0 * p.x / w;
      Cancel(2.0 * p.x, 2.0 * p.x / w, w);
    }
    assert (1.0 - v.y) / 2.0 * h == p.y by {
      assert 1.0 - v.y == 2.0 * p.y / h;
      Cancel(2.0 * p.y, 2.0 * p.y / h, h);
    }
  }

  lemma Cancel(q: real, a: real, w: real)
    requires w != 0.0 && q == a * w
    ensures q / w == a
  {
  }

  /** The raster triangle `Render` tests pixels against. */
  lemma RasterTriangle(width: nat, height: nat)
    ensures var w, h := width as real, height as real;
      RasterOf(TriangleNdc(), width, height) ==
        [Vector2(w / 2.0, h / 4.0), Vector2(3.0 * w / 4.0, 3.0 * h / 4.0), Vector2(w / 4.0, 3.0 * h / 4.0)]
  {
  }
}
