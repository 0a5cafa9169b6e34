// The image `onload` conversion of public/script.js: the output height, the
// row-major walk over the RGBA buffer and the accumulation of the ASCII text.
//
// The canvas resampling (`drawImage` and `getImageData`) is the platform's;
// the model takes the resulting RGBA buffer as an input.
module Conversion {
  import opened Arith
  import opened Brightness

  /** Number of characters per output row. */
  const Width: nat := 100

  /** Output height for an image of imgW x imgH pixels: floor(imgH / imgW * Width * 0.5). */
  function Height(imgW: nat, imgH: nat): (h: nat)
    requires imgW > 0
    ensures 2 * imgW * h <= Width * imgH < 2 * imgW * (h + 1)
  {
    var n, d := Width * imgH, 2 * imgW;
    DivBounds(n, d);
    n / d
  }

  /** An RGBA buffer holding exactly width x height pixels. */
  predicate Fits(pixels: seq<byte>, width: nat, height: nat)
  {
    |pixels| == width * height * 4
  }

  /** Index of the red byte of pixel (x, y) in a row-major RGBA buffer: the start of
    * the group of four bytes of pixel number y * width + x. */
  function Offset(width: nat, y: nat, x: nat): (o: nat)
    ensures o % 4 == 0 && o / 4 == y * width + x
  {
    (y * width + x) * 4
  }

  /** All four bytes of every pixel of the grid lie inside a buffer that fits it. */
  lemma OffsetInRange(width: nat, height: nat, y: nat, x: nat)
    requires y < height && x < width
    ensures Offset(width, y, x) + 3 < width * height * 4
  {
    assert y * width + x + 1 <= width * (y + 1);
    MulMonotone(width, y + 1, height);
    assert width * height == width * height * 1;
  }

  /** Every byte of pixel (x, y) lies inside a buffer that fits the grid. */
  lemma PixelInBuffer(pixels: seq<byte>, width: nat, height: nat, y: nat, x: nat)
    requires Fits(pixels, width, height) && y < height && x < width
    ensures Offset(width, y, x) + 3 < |pixels|
  {
    OffsetInRange(width, height, y, x);
  }

  /** Character drawn for pixel (x, y); the alpha byte at offset + 3 is not read. */
  function Cell(pixels: seq<byte>, width: nat, height: nat, y: nat, x: nat): (c: char)
    requires Fits(pixels, width, height) && y < height && x < width
    ensures c in Ramp
  {
    PixelInBuffer(pixels, width, height, y, x);
    var offset := Offset(width, y, x);
    PixelChar(pixels[offset], pixels[offset + 1], pixels[offset + 2])
  }

  /** The character grid of a buffer: cell (x, y) is the character of pixel (x, y).
    * The text never reads a position outside the grid, so those are left blank. */
  function Grid(pixels: seq<byte>, width: nat, height: nat): (nat, nat) -> char
    requires Fits(pixels, width, height)
  {
    (y: nat, x: nat) => if y < height && x < width then Cell(pixels, width, height, y, x) else ' '
  }

  // The text layout of a character grid, independent of where its cells come from:
  // row by row, each row's cells left to right and then a newline.

  /** The first n characters of row y. */
  function RowPrefix(cell: (nat, nat) -> char, y: nat, n: nat): (s: string)
    ensures |s| == n
  {
    if n == 0 then "" else RowPrefix(cell, y, n - 1) + [cell(y, n - 1)]
  }

  /** Row y of the text: its width cells, then a newline. */
  function Row(cell: (nat, nat) -> char, width: nat, y: nat): string
  {
    RowPrefix(cell, y, width) + "\n"
  }

  /** The first m rows of the text. */
  function Rows(cell: (nat, nat) -> char, width: nat, m: nat): string
  {
    if m == 0 then "" else Rows(cell, width, m - 1) + Row(cell, width, m - 1)
  }

  /** The first m rows hold m * (width + 1) characters. */
  lemma {:induction false} RowsLength(cell: (nat, nat) -> char, width: nat, m: nat)
    ensures |Rows(cell, width, m)| == m * (width + 1)
  {
    if m > 0 {
      RowsLength(cell, width, m - 1);
      assert m * (width + 1) == (m - 1) * (width + 1) + (width + 1);
    }
  }

  /** Character x of a row prefix is cell (x, y). */
  lemma {:induction false} RowPrefixAt(cell: (nat, nat) -> char, y: nat, n: nat, x: nat)
    requires x < n
    ensures RowPrefix(cell, y, n)[x] == cell(y, x)
  {
    if x < n - 1 {
      RowPrefixAt(cell, y, n - 1, x);
    }
  }

  /** Adding rows keeps the rows before them: the first m rows begin with the first k. */
  lemma {:induction false} RowsExtend(cell: (nat, nat) -> char, width: nat, k: nat, m: nat, i: nat)
    requires k <= m && i < |Rows(cell, width, k)|
    ensures i < |Rows(cell, width, m)| && Rows(cell, width, m)[i] == Rows(cell, width, k)[i]
  {
    if k < m {
      RowsExtend(cell, width, k, m - 1, i);
    }
  }

  /** Row y starts right after the first y rows: in the first m > y rows, position
    * |Rows(y)| + x holds cell (x, y), or the newline that ends row y when x == width. */
  lemma RowsAt(cell: (nat, nat) -> char, width: nat, m: nat, y: nat, x: nat)
    requires y < m && x <= width
    ensures |Rows(cell, width, y)| + x < |Rows(cell, width, m)|
    ensures Rows(cell, width, m)[|Rows(cell, width, y)| + x] == if x < width then cell(y, x) else '\n'
  {
    var i := |Rows(cell, width, y)| + x;
    assert Rows(cell, width, y + 1)[i] == Row(cell, width, y)[x];
    if x < width {
      RowPrefixAt(cell, y, width, x);
    }
    RowsExtend(cell, width, y + 1, m, i);
  }

  /** Position in the text of column x of row y; column width is the row's newline. */
  function Position(width: nat, y: nat, x: nat): nat
  {
    y * (width + 1) + x
  }

  /** The text of a grid of height rows. */
  function Text(cell: (nat, nat) -> char, width: nat, height: nat): (s: string)
    ensures |s| == height * (width + 1)
  {
    RowsLength(cell, width, height);
    Rows(cell, width, height)
  }

  /** Every position of the text is a cell or a row terminator:
    * column x of row y is cell (x, y) for x < width and '\n' for x == width. */
  lemma TextAt(cell: (nat, nat) -> char, width: nat, height: nat, y: nat, x: nat)
    requires y < height && x <= width
    ensures Position(width, y, x) < |Text(cell, width, height)|
    ensures Text(cell, width, height)[Position(width, y, x)] == if x < width then cell(y, x) else '\n'
  {
    RowsAt(cell, width, height, y, x);
    RowsLength(cell, width, y);
  }

  /** The whole ASCII art: height rows of width characters, each ended by a newline. */
  function Render(pixels: seq<byte>, width: nat, height: nat): (s: string)
    requires Fits(pixels, width, height)
    ensures |s| == height * (width + 1)
  {
    Text(Grid(pixels, width, height), width, height)
  }

  /** Column x of row y of the ASCII art is pixel (x, y) for x < width,
    * and '\n' for x == width. */
  lemma RenderAt(pixels: seq<byte>, width: nat, height: nat, y: nat, x: nat)
    requires Fits(pixels, width, height) && y < height && x <= width
    ensures Position(width, y, x) < |Render(pixels, width, height)|
    ensures Render(pixels, width, height)[Position(width, y, x)]
         == if x < width then Cell(pixels, width, height, y, x) else '\n'
  {
    var cell := Grid(pixels, width, height);
    TextAt(cell, width, height, y, x);
    if x < width {
      assert cell(y, x) == Cell(pixels, width, height, y, x);
    }
  }

  /** Every position of a text of height rows is column i % (width + 1) of row
    * i / (width + 1), and that row is one of the height rows. */
  lemma RowColumn(i: nat, width: nat, height: nat) returns (y: nat, x: nat)
    requires i < height * (width + 1)
    ensures y == i / (width + 1) && x == i % (width + 1)
    ensures y < height && x <= width && i == Position(width, y, x)
  {
    var w := width + 1;
    y, x := i / w, i % w;
    DivBounds(i, w);
    if height <= y {
      MulMonotone(w, height, y);
    }
  }

  /** The output has newlines exactly at the end of each row, and every other
    * character comes from Ramp. */
  lemma RenderCharacters(pixels: seq<byte>, width: nat, height: nat, i: nat)
    requires Fits(pixels, width, height) && i < |Render(pixels, width, height)|
    ensures Render(pixels, width, height)[i] == '\n' <==> i % (width + 1) == width
    ensures Render(pixels, width, height)[i] != '\n' ==> Render(pixels, width, height)[i] in Ramp
  {
    var y, x := RowColumn(i, width, height);
    RenderAt(pixels, width, height, y, x);
    assert '\n' !in Ramp;
  }

  /** A pixel's character does not depend on its alpha byte. */
  lemma CellAlphaIgnored(pixels: seq<byte>, pixels': seq<byte>, width: nat, height: nat, y: nat, x: nat)
    requires Fits(pixels, width, height) && |pixels'| == |pixels|
    requires forall i | 0 <= i < |pixels| && i % 4 != 3 :: pixels[i] == pixels'[i]
    requires y < height && x < width
    ensures Cell(pixels, width, height, y, x) == Cell(pixels', width, height, y, x)
  {
    var offset := Offset(width, y, x);
    OffsetInRange(width, height, y, x);
    assert pixels[offset] == pixels'[offset];
    assert pixels[offset + 1] == pixels'[offset + 1];
    assert pixels[offset + 2] == pixels'[offset + 2];
  }

  /** Two buffers that differ only in alpha bytes render to the same text. */
  lemma AlphaIgnored(pixels: seq<byte>, pixels': seq<byte>, width: nat, height: nat)
    requires Fits(pixels, width, height) && |pixels'| == |pixels|
    requires forall i | 0 <= i < |pixels| && i % 4 != 3 :: pixels[i] == pixels'[i]
    ensures Render(pixels, width, height) == Render(pixels', width, height)
  {
    var s, s' := Render(pixels, width, height), Render(pixels', width, height);
    forall i | 0 <= i < |s|
      ensures s[i] == s'[i]
    {
      var y, x := RowColumn(i, width, height);
      RenderAt(pixels, width, height, y, x);
      RenderAt(pixels', width, height, y, x);
      if x < width {
        CellAlphaIgnored(pixels, pixels', width, height, y, x);
      }
    }
  }

  /** The height is 0 exactly when the image is more than 50 times wider than tall. */
  lemma WideImageHasNoRows(imgW: nat, imgH: nat)
    requires imgW > 0
    ensures Height(imgW, imgH) == 0 <==> Width * imgH < 2 * imgW
  {
    if Width * imgH < 2 * imgW {
      DivUnique(Width * imgH, 2 * imgW, 0, Width * imgH);
    }
  }

  /** An image whose pixels all have colour (r, g, b) renders as that colour's
    * character everywhere except the newlines that end the rows. */
  lemma UniformImage(pixels: seq<byte>, width: nat, height: nat, r: byte, g: byte, b: byte, i: nat)
    requires Fits(pixels, width, height)
    requires forall k | 0 <= k < width * height ::
      pixels[4 * k] == r && pixels[4 * k + 1] == g && pixels[4 * k + 2] == b
    requires i < |Render(pixels, width, height)|
    ensures Render(pixels, width, height)[i] == if i % (width + 1) == width then '\n' else PixelChar(r, g, b)
  {
    var y, x := RowColumn(i, width, height);
    RenderAt(pixels, width, height, y, x);
    if x < width {
      OffsetInRange(width, height, y, x);
      var k := y * width + x;
      assert Offset(width, y, x) == 4 * k;
    }
  }

  /** An image of one colour darker than one ninth of full brightness (black
    * included) renders as rows of spaces. */
  lemma DarkImageIsBlank(pixels: seq<byte>, width: nat, height: nat, r: byte, g: byte, b: byte)
    requires Fits(pixels, width, height) && Luma(r, g, b) * (|Ramp| - 1) < MaxLuma
    requires forall k | 0 <= k < width * height ::
      pixels[4 * k] == r && pixels[4 * k + 1] == g && pixels[4 * k + 2] == b
    ensures forall i | 0 <= i < |Render(pixels, width, height)| ::
      Render(pixels, width, height)[i] == if i % (width + 1) == width then '\n' else ' '
  {
    DarkIsSpace(r, g, b);
    RampEnds();
    forall i | 0 <= i < |Render(pixels, width, height)|
      ensures Render(pixels, width, height)[i] == if i % (width + 1) == width then '\n' else ' '
    {
      UniformImage(pixels, width, height, r, g, b, i);
    }
  }

  /** The inner loop of the onload callback: appends the character of each pixel of
    * row y, left to right, to the text built so far. */
  method AppendRow(pixels: seq<byte>, width: nat, height: nat, y: nat, done: string)
    returns (asciiStr: string)
    requires Fits(pixels, width, height) && y < height
    ensures asciiStr == done + RowPrefix(Grid(pixels, width, height), y, width)
  {
    ghost var cell := Grid(pixels, width, height);
    asciiStr := done;
    for x := 0 to width
      invariant asciiStr == done + RowPrefix(cell, y, x)
    {
      var offset := Offset(width, y, x);
      PixelInBuffer(pixels, width, height, y, x);
      var r, g, b := pixels[offset], pixels[offset + 1], pixels[offset + 2];
      var charIndex := CharIndex(r, g, b);
      assert Ramp[charIndex] == cell(y, x);
      asciiStr := asciiStr + [Ramp[charIndex]];
    }
  }

  /** The outer loop of the onload callback: each row's characters, then a newline. */
  method RenderPixels(pixels: seq<byte>, width: nat, height: nat) returns (asciiStr: string)
    requires Fits(pixels, width, height)
    ensures asciiStr == Render(pixels, width, height)
  {
    ghost var cell := Grid(pixels, width, height);
    asciiStr := "";
    for y := 0 to height
      invariant asciiStr == Rows(cell, width, y)
    {
      asciiStr := AppendRow(pixels, width, height, y, asciiStr);
      asciiStr := asciiStr + "\n";
    }
  }

  /** How the onload callback ends: the text it assigns to the output area, or the
    * IndexSizeError that `getImageData` throws for a zero-height rectangle, after
    * which nothing is assigned and the output area keeps its earlier text. */
  datatype Outcome = Shown(text: string) | Thrown

  /** The whole onload callback once the resampled RGBA buffer is in hand. */
  method ConvertImage(imgW: nat, imgH: nat, pixels: seq<byte>) returns (outcome: Outcome)
    requires imgW > 0
    requires Fits(pixels, Width, Height(imgW, imgH))
    ensures outcome.Thrown? <==> Height(imgW, imgH) == 0
    ensures outcome.Shown? ==> outcome.text == Render(pixels, Width, Height(imgW, imgH))
    ensures outcome.Shown? ==> |outcome.text| == Height(imgW, imgH) * (Width + 1) >= Width + 1
  {
    var width := Width;
    var height := Height(imgW, imgH);
    if height == 0 {
      return Thrown;
    }
    var asciiStr := RenderPixels(pixels, width, height);
    outcome := Shown(asciiStr);
  }
}
