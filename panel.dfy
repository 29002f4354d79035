/** The pixel grid of the 88x88 panel, as a value. */
module Panel {
  import opened Bits

  /** MATRIX_WIDTH and MATRIX_HEIGHT. */
  const Width: nat := 88
  const Height: nat := 88

  /** Three independent 16-bit PWM intensities. */
  datatype Pixel = Pixel(r: u16, g: u16, b: u16)

  const Black := Pixel(0, 0, 0)
  const White := Pixel(0xFFFF, 0xFFFF, 0xFFFF)

  /** A snapshot of the frame buffer, indexed `[row][column]` as in the source. */
  type Grid = g: seq<seq<Pixel>> | |g| == Height && forall y :: 0 <= y < |g| ==> |g[y]| == Width
    witness seq(Height, y => seq(Width, x => Black))
}
