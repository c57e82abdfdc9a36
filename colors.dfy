/** Pixel colours: an `r, g, b` triple of unsigned 8-bit channels. */
module Colors {

  /** An unsigned 8-bit value (`unsigned char`). */
  type byte = x: int | 0 <= x < 256

  /** A colour. The constructor takes its channels in the order red, green,
      blue, which is the order in which the C++ constructor stores its three
      arguments. Colours are values: copying one copies its three channels. */
  datatype Color = Color(r: byte, g: byte, b: byte)

  /** The default colour given to every cell of a new image. */
  const Black: Color := Color(0, 0, 0)

  /** Channel-by-channel comparison of two colours. */
  function Equals(c: Color, d: Color): (same: bool)
    ensures same <==> c == d
  {
    c.r == d.r && c.g == d.g && c.b == d.b
  }
}
