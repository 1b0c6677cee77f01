/** Pixel-level vocabulary shared by the dithering and packing stages. */
module Raster {

  /** One 8-bit unsigned channel value (numpy `uint8`, a PIL "L" or "RGBA" band). */
  newtype byte = x: int | 0 <= x < 256

  /** One pixel of a PIL "RGBA" image. */
  datatype Pixel = Pixel(r: byte, g: byte, b: byte, a: byte)

  /** The fill colour `(0, 0, 0, 0)` of a freshly created sprite sheet. */
  const Transparent: Pixel := Pixel(0, 0, 0, 0)
}
