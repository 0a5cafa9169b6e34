// Per-pixel brightness and its quantisation onto the character ramp
// (public/script.js, ASCII_CHARS and the body of the inner pixel loop).
//
// The source computes `0.299 * r + 0.587 * g + 0.114 * b` in floating point
// and then `Math.floor((brightness / 255) * (ASCII_CHARS.length - 1))`.
// This model keeps the brightness in thousandths, so every step is exact
// integer arithmetic.
module Brightness {
  import opened Arith

  /** One channel value of a canvas RGBA buffer (a Uint8ClampedArray element). */
  type byte = x: int | 0 <= x < 256

  /** The character ramp, from darkest to brightest. */
  const Ramp: string := " .:-=+*#%@"

  /** The largest brightness in thousandths: 255 * (299 + 587 + 114). */
  const MaxLuma: int := 255000

  /** BT.601 luma of a pixel, in thousandths of a channel unit: 1000 times the
    * brightness. The weights sum to 1000, so the luma of bytes stays within 0..255
    * (in thousandths), and only white reaches the top. */
  function Luma(r: byte, g: byte, b: byte): (l: nat)
    ensures l <= MaxLuma
    ensures l == MaxLuma <==> r == 255 && g == 255 && b == 255
  {
    299 * r + 587 * g + 114 * b
  }

  /** Position in Ramp of the character that stands for a pixel. */
  function CharIndex(r: byte, g: byte, b: byte): (i: nat)
    ensures i < |Ramp|
  {
    Luma(r, g, b) * (|Ramp| - 1) / MaxLuma
  }

  /** The character that stands for a pixel. */
  function PixelChar(r: byte, g: byte, b: byte): (c: char)
    ensures c in Ramp
  {
    Ramp[CharIndex(r, g, b)]
  }

  /** A pixel that is no darker in any channel gets a character no earlier in Ramp. */
  lemma CharIndexMonotone(r: byte, g: byte, b: byte, r': byte, g': byte, b': byte)
    requires r <= r' && g <= g' && b <= b'
    ensures CharIndex(r, g, b) <= CharIndex(r', g', b')
  {
  }

  /** A pixel is drawn as a space exactly when its luma is below one ninth of the range. */
  lemma DarkIsSpace(r: byte, g: byte, b: byte)
    ensures CharIndex(r, g, b) == 0 <==> Luma(r, g, b) * (|Ramp| - 1) < MaxLuma
  {
  }

  /** Only a white pixel reaches the last character of Ramp. */
  lemma OnlyWhiteIsBrightest(r: byte, g: byte, b: byte)
    ensures CharIndex(r, g, b) == |Ramp| - 1 <==> r == 255 && g == 255 && b == 255
  {
  }

  /** The first and last characters of Ramp. */
  lemma RampEnds()
    ensures |Ramp| == 10 && Ramp[0] == ' ' && Ramp[9] == '@'
  {
  }

  /** A black pixel is drawn as a space, the first character of Ramp. */
  lemma BlackIsSpace()
    ensures CharIndex(0, 0, 0) == 0
    ensures PixelChar(0, 0, 0) == ' '
  {
    DarkIsSpace(0, 0, 0);
    RampEnds();
  }

  /** A white pixel is drawn as '@', the last character of Ramp. */
  lemma WhiteIsAt()
    ensures CharIndex(255, 255, 255) == |Ramp| - 1
    ensures PixelChar(255, 255, 255) == '@'
  {
    OnlyWhiteIsBrightest(255, 255, 255);
    RampEnds();
  }

  /** A grey pixel (v, v, v) has luma v exactly, so its index is floor(9 * v / 255). */
  lemma GreyIndex(v: byte)
    ensures Luma(v, v, v) == 1000 * v
    ensures CharIndex(v, v, v) == 9 * v / 255
  {
  }
}
