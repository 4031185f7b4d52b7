/** Pixel types shared by the chessboard and the Mandelbrot renderer: the `u8`
    channels and `Rgb<u8>` pixels of the `image` crate, and the `u32` the
    program uses for sizes and iteration counts. */
module Image {

  /** An 8-bit colour channel (`u8`). */
  type Byte = x: int | 0 <= x < 256

  /** An unsigned 32-bit integer (`u32`). */
  type U32 = x: int | 0 <= x < 0x1_0000_0000

  /** An RGB pixel (`Rgb<u8>`). */
  datatype Rgb = Rgb(r: Byte, g: Byte, b: Byte)
  {
    /** A shade of grey: all three channels are equal. */
    predicate IsGrey() {
      r == g == b
    }
  }

  /** An RGBA colour as `to_rgba8` returns it (`[u8; 4]`). */
  datatype Rgba = Rgba(r: Byte, g: Byte, b: Byte, a: Byte)

  /** The value every pixel of a fresh `RgbImage` holds (zero bytes). */
  const Black := Rgb(0, 0, 0)
  const White := Rgb(255, 255, 255)
}
