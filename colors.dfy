/** Colours as the per-pixel pass of `Renderer::Render` produces them
    (source/Renderer.cpp): a floating-point `ColorRGB`, the `MaxToOne`
    normalisation, the truncating conversion of each channel to a byte, and
    the pixel value `SDL_MapRGB` packs from three bytes. */
module Colors {

  newtype byte = x: int | 0 <= x < 256

  /** A colour with one real channel each for red, green and blue. */
  datatype ColorRGB = ColorRGB(r: real, g: real, b: real)

  /** A packed back-buffer pixel. The surface's pixel format is not modelled:
      a pixel is exactly the three bytes that were packed into it. */
  datatype Pixel = MapRGB(r: byte, g: byte, b: byte)

  const White: Pixel := MapRGB(255, 255, 255)
  const Black: Pixel := MapRGB(0, 0, 0)

  function MaxChannel(c: ColorRGB): real
  {
    if c.r >= c.g && c.r >= c.b then c.r else if c.g >= c.b then c.g else c.b
  }

  /** `ColorRGB::MaxToOne`, whose definition is not part of this model, taken
      as: when the largest channel exceeds 1 the colour is divided by it,
      otherwise it is left as it is. Afterwards no channel is
      above 1, a colour already in range is unchanged, an out-of-range one
      has its largest channel at exactly 1, and non-negative channels stay
      non-negative. */
  function MaxToOne(c: ColorRGB): (m: ColorRGB)
    ensures m.r <= 1.0 && m.g <= 1.0 && m.b <= 1.0
    ensures MaxChannel(c) <= 1.0 ==> m == c
    ensures MaxChannel(c) > 1.0 ==> MaxChannel(m) == 1.0
    ensures 0.0 <= c.r ==> 0.0 <= m.r
    ensures 0.0 <= c.g ==> 0.0 <= m.g
    ensures 0.0 <= c.b ==> 0.0 <= m.b
  {
    var top := MaxChannel(c);
    if top > 1.0 then
      ScaledChannel(c.r, top);
      ScaledChannel(c.g, top);
      ScaledChannel(c.b, top);
      ColorRGB(c.r / top, c.g / top, c.b / top)
    else
      c
  }

  /** Dividing a channel by a positive bound it does not exceed keeps it at
      most 1 and keeps its sign. */
  lemma ScaledChannel(x: real, top: real)
    requires 0.0 < top && x <= top
    ensures x / top <= 1.0
    ensures x == top ==> x / top == 1.0
    ensures 0.0 <= x ==> 0.0 <= x / top
  {
    assert x / top * top == x;
  }

  /** `static_cast<uint8_t>(channel * 255)`: the product is truncated toward
      zero. The conversion is defined only where the truncated value fits a
      byte, which is what the precondition says. */
  function ToByte(channel: real): (v: byte)
    requires -1.0 < channel * 255.0 < 256.0
    ensures 0.0 <= channel ==> v as real <= channel * 255.0 < v as real + 1.0
    ensures channel <= 0.0 ==> v == 0
  {
    var scaled := channel * 255.0;
    if scaled < 0.0 then 0 else scaled.Floor as byte
  }

  /** The pixel `Render` writes for a coverage answer: the colour
      `{hit, hit, hit}`, normalised by `MaxToOne`, each channel converted to
      a byte and packed. It is full white exactly when the pixel is covered
      and black otherwise, so every channel is 0 or 255. */
  function PixelColor(hit: bool): (p: Pixel)
    ensures hit ==> p == White
    ensures !hit ==> p == Black
  {
    var v := if hit then 1.0 else 0.0;
    var finalColor := MaxToOne(ColorRGB(v, v, v));
    MapRGB(ToByte(finalColor.r), ToByte(finalColor.g), ToByte(finalColor.b))
  }
}
