/** `dae::Renderer` (source/Renderer.h, source/Renderer.cpp): the object that
    owns the back buffer, the depth buffer and the two display modes, and
    whose `Render` fills the back buffer one pixel at a time. The SDL window
    and surfaces, the camera, the textures and the mesh are not part of this
    model; the window size is a constructor parameter and `IsInTriangle` is a
    parameter of `Render`. */
module Rendering {
  import opened RenderModes
  import opened Raster
  import opened Colors
  import opened FrameBuffer

  /** `FLT_MAX`, the largest finite single-precision value: the depth
      buffer's "nothing drawn here yet" sentinel. */
  const FltMax: real := 340282346638528859811704183484516925440.0

  class Renderer {
    const width: nat
    const height: nat
    /** The back-buffer surface's pixels, `width * height` of them in row-major order. */
    const backBuffer: array<Pixel>
    /** The depth buffer. Its allocation is commented out in the source, so a
        freshly constructed renderer holds no depth buffer. */
    var depthBuffer: array?<real>
    var renderMode: RenderMode
    var shadingMode: ShadingMode

    /** The back buffer covers the window, and both modes hold live values. */
    ghost predicate Valid()
      reads this
    {
      backBuffer.Length == width * height &&
      renderMode != RenderMode.End &&
      shadingMode != ShadingMode.End
    }

    /** A renderer for a window of the given size starts in the default
        render mode with combined shading, over a zero-filled (black) back
        buffer and without a depth buffer. */
    constructor (width: nat, height: nat)
      ensures Valid()
      ensures this.width == width && this.height == height
      ensures renderMode == Default && shadingMode == Combined
      ensures fresh(backBuffer) && forall i :: 0 <= i < backBuffer.Length ==> backBuffer[i] == Black
      ensures depthBuffer == null
    {
      this.width := width;
      this.height := height;
      backBuffer := new Pixel[width * height](_ => Black);
      depthBuffer := null;
      renderMode := Default;
      shadingMode := Combined;
    }

    /** Advances the render mode to the next one in declaration order,
        wrapping at the sentinel; nothing else changes. */
    method NextRenderMode()
      requires Valid()
      modifies this
      ensures Valid()
      ensures renderMode == NextRender(old(renderMode))
      ensures shadingMode == old(shadingMode) && depthBuffer == old(depthBuffer)
    {
      renderMode := RenderModeOf((RenderOrdinal(renderMode) + 1) % RenderOrdinal(RenderMode.End));
    }

    /** Advances the shading mode to the next one in declaration order,
        wrapping at the sentinel; nothing else changes. */
    method NextShadeMode()
      requires Valid()
      modifies this
      ensures Valid()
      ensures shadingMode == NextShade(old(shadingMode))
      ensures renderMode == old(renderMode) && depthBuffer == old(depthBuffer)
    {
      shadingMode := ShadingModeOf((ShadingOrdinal(shadingMode) + 1) % ShadingOrdinal(ShadingMode.End));
    }

    /** `std::fill_n(depth, width * height, FLT_MAX)`: the first
        `width * height` cells become the sentinel and the rest of the array
        is untouched. With no cells to fill the buffer need not exist. */
    method ResetDepthBuffer()
      requires width * height == 0 || (depthBuffer != null && width * height <= depthBuffer.Length)
      modifies depthBuffer
      ensures depthBuffer != null ==>
        forall i :: 0 <= i < width * height ==> depthBuffer[i] == FltMax
      ensures depthBuffer != null ==>
        forall i :: width * height <= i < depthBuffer.Length ==> depthBuffer[i] == old(depthBuffer[i])
    {
      for i := 0 to width * height
        invariant depthBuffer != null ==>
          forall j :: 0 <= j < i ==> depthBuffer[j] == FltMax
        invariant depthBuffer != null ==>
          forall j :: i <= j < depthBuffer.Length ==> depthBuffer[j] == old(depthBuffer[j])
      {
        depthBuffer[i] := FltMax;
      }
    }

    /** One frame: the fixed NDC triangle is mapped to raster space, then
        every pixel (px, py), column by column, is tested for coverage and
        its cell `px + py * width` set to white or black. The back buffer
        ends up as `ExpectedFrame`; `writes` counts the writes each cell
        received, and every cell received exactly one. */
    method Render(isInTriangle: CoverageTest) returns (ghost writes: seq<nat>)
      requires Valid()
      modifies backBuffer
      ensures Valid()
      ensures backBuffer[..] == ExpectedFrame(width, height, isInTriangle, RasterOf(TriangleNdc(), width, height))
      ensures |writes| == width * height
      ensures forall i :: 0 <= i < width * height ==> writes[i] == 1
    {
      var verticesRaster := ToRaster(TriangleNdc(), width, height);
      assert verticesRaster == RasterOf(TriangleNdc(), width, height);

      writes := seq(width * height, _ => 0);
      forall qx: nat, qy: nat | qx < width && qy < height
        ensures RowMajor(qx, qy, width) < width * height
      {
        RowMajorInBounds(qx, qy, width, height);
      }

      for px := 0 to width
        invariant |writes| == width * height
        invariant forall qx: nat, qy: nat :: qx < width && qy < height ==>
          writes[RowMajor(qx, qy, width)] == if qx < px then 1 else 0
        invariant forall qx: nat, qy: nat :: qx < px && qy < height ==>
          backBuffer[RowMajor(qx, qy, width)] == PixelColor(Covered(isInTriangle, verticesRaster, qx, qy))
      {
        for py := 0 to height
          invariant |writes| == width * height
          invariant forall qx: nat, qy: nat :: qx < width && qy < height ==>
            writes[RowMajor(qx, qy, width)] == if qx < px || (qx == px && qy < py) then 1 else 0
          invariant forall qx: nat, qy: nat :: (qx < px || (qx == px && qy < py)) && qy < height ==>
            backBuffer[RowMajor(qx, qy, width)] == PixelColor(Covered(isInTriangle, verticesRaster, qx, qy))
        {
          var currentPixel := Vector2(px as real, py as real);
          var hitTriangle := isInTriangle(currentPixel, verticesRaster[0], verticesRaster[1], verticesRaster[2]);
          var v := if hitTriangle then 1.0 else 0.0;
          var finalColor := MaxToOne(ColorRGB(v, v, v));

          var cell := RowMajor(px, py, width);
          forall qx: nat, qy: nat | qx < width && qy < height && RowMajor(qx, qy, width) == cell
            ensures qx == px && qy == py
          {
            RowMajorInjective(qx, qy, px, py, width);
          }
          backBuffer[cell] := MapRGB(ToByte(finalColor.r), ToByte(finalColor.g), ToByte(finalColor.b));
          writes := writes[cell := writes[cell] + 1];
        }
      }

      GridDeterminesFrame(backBuffer[..], width, height, isInTriangle, verticesRaster);
      GridCountsOnce(writes, width, height);
    }
  }
}
