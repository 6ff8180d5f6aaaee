/**
 * RGBA8 raster data: the pixel and image-buffer values every other module
 * works on. Both images must already decode as RGBA8 (the program panics
 * on any other pixel format), so the type itself stands for that
 * requirement.
 */
module Raster {

  /** One 8-bit channel value. */
  type Byte = x: int | 0 <= x < 256

  /** The largest channel value: alpha 255 means fully opaque. */
  const Opaque: Byte := 255

  /** One RGBA8 pixel; `a` is channel 3, the alpha channel. */
  datatype Pixel = Pixel(r: Byte, g: Byte, b: Byte, a: Byte)

  /** Two pixels agree on their colour channels (R, G and B). */
  predicate SameColour(p: Pixel, q: Pixel)
  {
    p.r == q.r && p.g == q.g && p.b == q.b
  }

  /**
   * An image buffer: `pixels` in row-major order. A well-formed buffer holds
   * exactly `width * height` pixels.
   */
  datatype Image = Image(width: nat, height: nat, pixels: seq<Pixel>)
  {
    predicate Valid()
    {
      |pixels| == width * height
    }
  }
}
