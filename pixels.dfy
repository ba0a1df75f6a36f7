/**
 * The data model of the blur engine: an RGB colour with 8-bit channels and an
 * image as a sequence of rows, together with the two pieces of C++ integer
 * semantics the engine relies on (truncating division and the narrowing cast
 * to uint8_t).
 */
module Pixels {

  /** The values of a uint8_t. */
  type Byte = v: int | 0 <= v < 256

  /** static_cast<uint8_t>: reduction modulo 256. */
  function ToByte(v: int): (b: Byte)
    ensures 0 <= v < 256 ==> b == v
    ensures (b - v) % 256 == 0
  {
    v % 256
  }

  /** The C++ '/' on int: the quotient truncated toward zero. */
  function CDiv(a: int, b: int): (q: int)
    requires b != 0
    ensures a >= 0 && b > 0 ==> q == a / b
    ensures a <= 0 && b > 0 ==> q == -((-a) / b)
  {
    var n := if a < 0 then -a else a;
    var d := if b < 0 then -b else b;
    if (a < 0) != (b < 0) then -(n / d) else n / d
  }

  /** The three channels of a colour. */
  datatype Channel = Red | Green | Blue

  /** An RGB triple. */
  datatype Color = Color(r: Byte, g: Byte, b: Byte)
  {
    function Get(ch: Channel): Byte
    {
      match ch
      case Red => r
      case Green => g
      case Blue => b
    }
  }

  /** An image is a sequence of rows; row y, column x is img[y][x]. */
  type Image = seq<seq<Color>>

  /** The width the engine uses for every row: that of row 0 (0 for an image without rows). */
  function Width(img: Image): nat
  {
    if |img| == 0 then 0 else |img[0]|
  }

  /** Every row has the same length. */
  predicate Rectangular(img: Image)
  {
    forall y :: 0 <= y < |img| ==> |img[y]| == Width(img)
  }

  /** (nx, ny) names a cell of img. */
  predicate InBounds(img: Image, nx: int, ny: int)
  {
    0 <= nx < Width(img) && 0 <= ny < |img|
  }

  /** Every cell of img has colour c. */
  predicate Uniform(img: Image, c: Color)
  {
    forall y, x :: 0 <= y < |img| && 0 <= x < |img[y]| ==> img[y][x] == c
  }
}
