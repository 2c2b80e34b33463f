# Rasterizer renderer core in Dafny

This project models the bookkeeping core of the `dae::Renderer` class of a
small CPU rasterizer (source/Renderer.h, source/Renderer.cpp):

- the two display-mode enumerations, `RenderMode` (Default, Depth) and
  `ShadingMode` (ObservedArea, Diffuse, Specular, Combined), each closed by
  an `END` sentinel, and the `NextRenderMode` / `NextShadeMode` steps that
  cycle them with `(m + 1) % END` (module `RenderModes`, file `modes.dfy`);
- the colour path of one pixel: a `ColorRGB` built from the coverage
  answer, `MaxToOne`, the truncating conversion of each channel to a byte,
  and the pixel `SDL_MapRGB` packs (module `Colors`, `colors.dfy`);
- the fixed NDC triangle of `Render` and the loop that maps it to raster
  space (module `Raster`, `raster.dfy`);
- row-major addressing of the back buffer and the frame the per-pixel pass
  leaves in it (module `FrameBuffer`, `framebuffer.dfy`);
- the `Renderer` object itself, with its mode fields, its back buffer, its
  depth buffer, `ResetDepthBuffer` and `Render` as methods that update them in
  place (module `Rendering`, `renderer.dfy`).

`Utils::IsInTriangle` is not part of this model: `Render` takes it as a
parameter (`CoverageTest`), so everything proved holds for every coverage
test. Arithmetic on coordinates is over `real`.

Points of the code's behaviour worth noting:

- the depth sentinel is `FLT_MAX`;
- `Render` neither resets nor tests the depth buffer: it only fills the back
  buffer;
- a pixel is tested at the point `(px, py)`;
- the depth buffer is never allocated (the allocation in the constructor is
  commented out), so a new renderer holds none, and `ResetDepthBuffer`
  requires an array of at least `width * height` cells unless the window is
  empty.

## Model

| member | source | states |
|---|---|---|
| RenderModes.RenderOrdinal | source/Renderer.h:47-50 | `RenderMode` converts to 0, 1, 2 in declaration order; the ordinal is 2 exactly for `END` |
| RenderModes.RenderModeOf | source/Renderer.h:38 | converting an ordinal in range back to a `RenderMode` inverts `RenderOrdinal` |
| RenderModes.ShadingOrdinal | source/Renderer.h:51-58 | `ShadingMode` converts to 0..4 in declaration order; the ordinal is 4 exactly for `END` |
| RenderModes.ShadingModeOf | source/Renderer.h:43 | converting an ordinal in range back to a `ShadingMode` inverts `ShadingOrdinal` |
| RenderModes.NextRender | source/Renderer.h:36-39 | the render-mode step never yields `END`, even from `END`, and moves each live mode to a different one |
| RenderModes.NextShade | source/Renderer.h:41-44 | the shading-mode step never yields `END`, even from `END`, and moves each live mode to a different one |
| RenderModes.RenderModeOrder | source/Renderer.h:36-50 | render modes alternate Default, Depth, Default |
| RenderModes.ShadingModeOrder | source/Renderer.h:41-58 | shading modes go ObservedArea, Diffuse, Specular, Combined, then back to ObservedArea |
| RenderModes.RenderModeCycle | source/Renderer.h:38 | from a live render mode, one step changes it and two steps return to it: period exactly 2 |
| RenderModes.ShadingModeCycle | source/Renderer.h:43 | from a live shading mode, one, two or three steps change it and four return to it: period exactly 4 |
| RenderModes.RenderModeSteps | source/Renderer.h:36-39 | any number k of render-mode steps has the effect of k mod 2 steps |
| RenderModes.ShadingModeSteps | source/Renderer.h:41-44 | any number k of shading-mode steps has the effect of k mod 4 steps |
| Colors.MaxToOne | source/Renderer.cpp:78 | afterwards no channel exceeds 1; a colour already in range is unchanged; an out-of-range colour has its largest channel at exactly 1; non-negative channels stay non-negative |
| Colors.ToByte | source/Renderer.cpp:81-83 | `static_cast<uint8_t>(c * 255)` truncates toward zero: for c >= 0 the byte is the whole part of c * 255, and for c <= 0 it is 0; defined only where the result fits a byte |
| Colors.PixelColor | source/Renderer.cpp:74-83 | the packed pixel is full white (255, 255, 255) when the pixel is covered and black (0, 0, 0) when it is not |
| Raster.TriangleNdc | source/Renderer.cpp:50-55 | the triangle `Render` draws is the fixed list (0, 0.5, 1), (0.5, -0.5, 1), (-0.5, -0.5, 1): three distinct vertices strictly inside the NDC square, all at depth 1 |
| Raster.NdcToRaster | source/Renderer.cpp:63 | defines the raster point `((x + 1) / 2 * width, (1 - y) / 2 * height)` of an NDC vertex, dropping depth; the NDC edges x = -1 and x = 1 go to columns 0 and width, y = 1 to row 0 and y = -1 to row height |
| Raster.RasterOf | source/Renderer.cpp:59-64 | the raster list has one point per NDC vertex |
| Raster.ToRaster | source/Renderer.cpp:57-64 | the loop appends exactly one raster point per NDC vertex: same length, and point i is the mapping of vertex i |
| Raster.NdcToRasterBounds | source/Renderer.cpp:63 | x in [-1, 1] lands in [0, width] and y in [-1, 1] in [0, height] |
| Raster.NdcToRasterOrder | source/Renderer.cpp:63 | the mapping keeps the order of x and reverses the order of y |
| Raster.NdcRasterRoundTrip | source/Renderer.cpp:63 | on a surface of positive size, mapping to raster space and back recovers the NDC point |
| Raster.RasterNdcRoundTrip | source/Renderer.cpp:63 | on a surface of positive size, mapping a raster point to NDC and back recovers it, so the mapping is onto |
| Raster.RasterTriangle | source/Renderer.cpp:50-64 | the fixed triangle lands at (w/2, h/4), (3w/4, 3h/4), (w/4, 3h/4) |
| FrameBuffer.RowMajor | source/Renderer.cpp:80 | defines the write index `px + py * width` of pixel (px, py); for px < width it lies in row py's block `[py * width, (py + 1) * width)` |
| FrameBuffer.Covered | source/Renderer.cpp:72-74 | defines the coverage answer of pixel (px, py) as `IsInTriangle` asked at the point (px as real, py as real) against the three raster vertices in their listed order |
| FrameBuffer.RowMajorInBounds | source/Renderer.cpp:67-80 | every write index `px + py * width` with px < width and py < height lies in [0, width * height) |
| FrameBuffer.RowMajorDecode | source/Renderer.cpp:80 | the index of pixel (px, py) gives back px as its remainder and py as its quotient by width |
| FrameBuffer.RowMajorInjective | source/Renderer.cpp:67-84 | distinct pixels of the grid are written to distinct cells |
| FrameBuffer.RowMajorCovers | source/Renderer.cpp:67-84 | every cell in [0, width * height) is the index of some pixel of the grid, so the loops reach every cell |
| FrameBuffer.ExpectedFrame | source/Renderer.cpp:67-84 | the frame after the pass has exactly width * height cells |
| FrameBuffer.ExpectedFrameAt | source/Renderer.cpp:72-83 | the cell of pixel (px, py) is white exactly when the coverage test holds at (px, py) and black exactly when it does not |
| FrameBuffer.ExpectedFrameLocal | source/Renderer.cpp:72-83 | a cell's colour depends only on its own pixel's coverage: two coverage tests that agree there give the same colour there |
| FrameBuffer.ExpectedFrameSaturated | source/Renderer.cpp:75-83 | every cell has equal channels, each 0 or 255 |
| FrameBuffer.GridDeterminesFrame | source/Renderer.cpp:67-84 | a buffer of width * height cells in which every pixel's cell holds that pixel's colour is the expected frame: the pixel loops leave no cell unset |
| FrameBuffer.GridCountsOnce | source/Renderer.cpp:67-84 | a write count that is 1 at every pixel's cell is 1 at every cell, so the loops write each cell exactly once |
| Rendering.Renderer.constructor | source/Renderer.cpp:16-31 | a new renderer has the window's size, render mode Default and shading mode Combined (source/Renderer.h:78-79), a black back buffer of width * height pixels, and no depth buffer |
| Rendering.Renderer.NextRenderMode | source/Renderer.h:36-39 | the render mode becomes `NextRender` of the old one and stays live; the shading mode and the depth buffer are unchanged |
| Rendering.Renderer.NextShadeMode | source/Renderer.h:41-44 | the shading mode becomes `NextShade` of the old one and stays live; the render mode and the depth buffer are unchanged |
| Rendering.Renderer.ResetDepthBuffer | source/Renderer.h:103 | every cell in [0, width * height) holds `FLT_MAX` afterwards and every cell beyond is unchanged |
| Rendering.Renderer.Render | source/Renderer.cpp:49-85 | the back buffer ends up equal to `ExpectedFrame` for the raster triangle, and every cell in [0, width * height) is written exactly once |

## Left out

- The SDL window and surfaces: `SDL_GetWindowSize`, `SDL_CreateRGBSurface`, `SDL_LockSurface`, `SDL_UnlockSurface`, `SDL_BlitSurface` and `SDL_UpdateWindowSurface` are presentation and I/O. The window size is a constructor parameter, and the back buffer is a plain array of `width * height` pixels.
- `SDL_MapRGB`: the surface's pixel format is not modelled; a pixel is the three bytes packed into it.
- `ClearBackground` and `SaveBufferToImage`: presentation and image export.
- `Update` and the camera (source/Camera.h): keyboard and mouse polling, and float trigonometry and matrix code that is not shown.
- `Utils::IsInTriangle`: its source is not shown, so it is a parameter of `Render`.
- `VertexTransformationFunction`: an empty stub whose definition does not match its declaration.
- `RenderMeshTriangle` and `PixelShading`: declared without bodies in the shown files.
- The lighting constants, the normal-map and rotation switches and the `m_F*Held` key-edge flags: float constants and input state that nothing modelled reads.
- Single-precision rounding in the NDC-to-raster mapping and in `static_cast<float>(px)`: all coordinates are `real`.
- 32-bit `int` overflow of `px + py * m_Width` and `m_Width * m_Height`: sizes are unbounded naturals, so windows too large for `int` are not modelled.
- Colors.MaxToOne: `ColorRGB` (DataTypes.h) is not part of this model, so the body (divide every channel by the largest when it exceeds 1) is assumed, not taken from the source. `Render` relies only on two of its ensures: no channel exceeds 1 afterwards, and a colour already in range is unchanged.
- Depth-buffer allocation and release: commented out in the source, so no operation allocates the array.
