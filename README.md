# ASCII-art converter: a verified model

This project models the image-to-ASCII-art converter in `public/script.js`. The browser script reads an image, resamples it onto a canvas that is 100 pixels wide, turns the brightness of each pixel into one character of the ramp `" .:-=+*#%@"` (darkest to brightest), and ends each row with a newline. It then lets the user copy or download the text, unless the output area still shows its placeholder.

The model has four modules:

- `Arith` (`arith.dfy`): facts about multiplication and Euclidean division that the other proofs use.
- `Brightness` (`brightness.dfy`): the ramp `Ramp`, the BT.601 luma of a pixel and its character index.
  - The luma is kept in thousandths, `Luma = 299 r + 587 g + 114 b`, so all arithmetic is exact.
  - The index is `Luma * (|Ramp| - 1) / 255000`. This is `floor(brightness / 255 * 9)` computed without rounding.
- `Conversion` (`conversion.dfy`): the conversion done in the image `onload` callback.
  - `Height` computes the output height. Since the row width is 100 and the correction factor is 0.5, this is `floor(imgH * 100 / (2 * imgW))`.
  - `Cell` is the character of one pixel, read at byte offset `(y·width + x)·4`. `Grid` is the grid of these characters.
  - `Text` and its helpers (`RowPrefix`, `Row`, `Rows`) lay out any character grid row by row, each row ended by a newline. They are stated over a cell function `(y, x) -> char`, so the layout facts hold independently of the pixel arithmetic.
  - `Render` is the text of the buffer's grid.
  - `RenderPixels` is the outer `for` loop and `AppendRow` the inner one. Together they build the string with `+=`, and they are proved to produce exactly `Render`.
  - `ConvertImage` is the whole callback once the resampled RGBA buffer is in hand. It returns the text shown (`Shown`), or `Thrown` when the zero-height `getImageData` call throws.
- `Export` (`export.dfy`): the copy and download click handlers. Each returns the action it takes (`Alert`, `WriteClipboard` or `SaveFile`) instead of performing it.

The model follows the code in two places where a more defensive design might be expected:

- The code does not raise a zero height to 1. An image more than 50 times wider than it is tall gets height 0 (`WideImageHasNoRows`). `getImageData` then throws before the loop starts, so the callback shows nothing and the output area keeps its earlier text. `ConvertImage` returns `Thrown` in exactly that case.
- The code does not clamp the character index. With exact arithmetic no clamp is needed, because `CharIndex` is proved to stay below `|Ramp|`.

`RenderPixels` and the `Render` functions take the grid width as a parameter. The callback always passes the constant `Width` (100) for it, and `ConvertImage` does the same.

## Model

| member | source | states |
|---|---|---|
| `Brightness.Luma` | public/script.js:49 | `Luma` is 1000 × the brightness. Because the weights sum to 1, the brightness of any byte triple lies in 0..255 (0..255000 in thousandths), and it reaches 255 exactly for white. |
| `Brightness.CharIndex` | public/script.js:52 | The computed `charIndex` is always a valid position in `ASCII_CHARS`: it is at least 0 and below the ramp's length, 10. |
| `Brightness.PixelChar` | public/script.js:52-53 | The character appended for a pixel always belongs to the ramp. |
| `Brightness.CharIndexMonotone` | public/script.js:49-52 | A pixel that is no darker in each of R, G and B gets an index no smaller. Darker-to-brighter order is preserved. |
| `Brightness.DarkIsSpace` | public/script.js:49-53 | A pixel is drawn as a space exactly when 9 × its luma is below 255000, i.e. its brightness is below 255/9. |
| `Brightness.OnlyWhiteIsBrightest` | public/script.js:49-53 | A pixel gets the last ramp character exactly when it is white (255, 255, 255). |
| `Brightness.BlackIsSpace` | public/script.js:11 | Black (0, 0, 0) maps to index 0, the space character. |
| `Brightness.WhiteIsAt` | public/script.js:11 | White (255, 255, 255) maps to index 9, the character `'@'`. |
| `Brightness.GreyIndex` | public/script.js:49-52 | A grey pixel (v, v, v) has brightness exactly v and index `floor(9 v / 255)`. For example, v = 128 gives index 4. |
| `Conversion.Height` | public/script.js:23-27 | The height is `floor(imgH / imgW × 100 × 0.5)`: the largest h with `2·imgW·h <= 100·imgH`. |
| `Conversion.WideImageHasNoRows` | public/script.js:27 | The height is 0 exactly when `100·imgH < 2·imgW`, i.e. the image is more than 50 times wider than tall. |
| `Conversion.Offset` | public/script.js:43 | The offset is `(y·width + x)·4`: a multiple of 4, and the start of the four bytes of pixel number `y·width + x`. |
| `Conversion.Cell` | public/script.js:43-53 | The character of pixel (x, y) is `ASCII_CHARS[charIndex]` of the R, G and B bytes at offset, offset + 1 and offset + 2. It always belongs to the ramp. The alpha byte is not read. |
| `Conversion.OffsetInRange` | public/script.js:43-46 | For every pixel (x, y) of the grid, the bytes at `(y·width + x)·4 + k`, k in 0..3, lie inside a buffer of `width·height·4` bytes. |
| `Conversion.RowPrefix` | public/script.js:41-54 | After x steps of the inner loop, the current row holds exactly x characters. |
| `Conversion.RowsLength` | public/script.js:40-56 | After m steps of the outer loop, the text holds exactly `m·(width + 1)` characters. |
| `Conversion.Text` | public/script.js:37-56 | The text of a grid of height rows has length `height·(width + 1)`. |
| `Conversion.Render` | public/script.js:37-56 | The finished text has length `height·(width + 1)`. |
| `Conversion.RowPrefixAt` | public/script.js:41-53 | Character x of row y is the cell in column x of row y. |
| `Conversion.RowsExtend` | public/script.js:40-56 | Later rows only append: every character of the first k rows keeps its position and value in the first m >= k rows. |
| `Conversion.RowsAt` | public/script.js:40-56 | Row y starts right after the first y rows: in any m > y rows, the x-th character after the first y rows is cell (x, y) for x < width, and `"\n"` for x = width. |
| `Conversion.TextAt` | public/script.js:40-56 | The text is row-major: position `y·(width + 1) + x` is cell (x, y) for x < width, and each row ends in `"\n"`. |
| `Conversion.RenderAt` | public/script.js:40-56 | Position `y·(width + 1) + x` of the ASCII art is the character of pixel (x, y), read from offset `(y·width + x)·4`, for x < width. Each row ends in `"\n"`. |
| `Conversion.RenderCharacters` | public/script.js:40-56 | A position of the text holds `"\n"` exactly when it ends a row. Every other character belongs to the ramp. |
| `Conversion.CellAlphaIgnored` | public/script.js:43-46 | A pixel's character does not depend on its alpha byte at `offset + 3`. |
| `Conversion.AlphaIgnored` | public/script.js:40-56 | Two buffers that differ only in alpha bytes give the same text. |
| `Conversion.UniformImage` | public/script.js:40-56 | If every pixel has colour (r, g, b), each position of the text is that colour's character, except the row ends, which are `"\n"`. |
| `Conversion.DarkImageIsBlank` | public/script.js:40-56 | An image of one colour with brightness below 255/9, black included, renders as rows of spaces. |
| `Conversion.AppendRow` | public/script.js:41-54 | The inner loop appends exactly the characters of row y, left to right, to the text built so far. |
| `Conversion.RenderPixels` | public/script.js:37-56 | The nested loop that accumulates `asciiStr` returns exactly `Render(pixels, width, height)`. |
| `Conversion.ConvertImage` | public/script.js:23-56 | The callback throws (`Thrown`) exactly when the computed height is 0, where `getImageData` is called with a zero height. Otherwise it shows `Render` of the buffer at width 100 and the computed height, a text of `height·101 >= 101` characters. |
| `Export.Copy` | public/script.js:67-76 | The copy button raises the "convert first" alert exactly when the displayed text is the placeholder. Otherwise it writes the displayed text, unchanged, to the clipboard. |
| `Export.Download` | public/script.js:79-97 | The download button raises the same alert exactly for the placeholder. Otherwise it saves the displayed text, unchanged, as a `text/plain` file with the fixed name. |
| `Export.RenderIsNotPlaceholder` | public/script.js:67-72 | No conversion result equals the placeholder string. |
| `Export.ConversionIsExported` | public/script.js:67-97 | Any text the conversion can show passes the placeholder guard and is copied and downloaded verbatim. |

## Left out

- File reading and image decoding (`FileReader`, `Image`, `readAsDataURL`; public/script.js:13-21, 61-63) are browser I/O. The model starts from the decoded dimensions and the resampled buffer.
- Canvas resampling (`drawImage`, `getImageData`; public/script.js:30-36) is done by the platform's resampler, which is not visible. The RGBA buffer is an input of `RenderPixels` and `ConvertImage`.
- A zero-height canvas: under the HTML canvas rules, `getImageData` (public/script.js:35) throws an `IndexSizeError` when its height argument is 0. The callback has no handler, so it stops there. Nothing is assigned to the output area, which keeps its earlier text (the placeholder or a previous result). The model captures this as the `Thrown` outcome of `ConvertImage`. It does not model the uncaught error itself or how the browser reports it. `Render` of a zero-height grid is the empty string, but the program never shows it.
- Floating point: the source computes the brightness, the division by 255 and `img.height / img.width` in IEEE-754 doubles. The model uses exact integer arithmetic. The two can differ when the exact value lies on a quantisation boundary, where the program's index or height can come out one lower than the model's. For example:
  - The pixel (6, 140, 9) has exact luma 85000 and index 3 (`'-'`). Its double sum on line 49 is 84.99999999999999, so the program draws index 2 (`':'`).
  - 35 of the 206 byte triples that lie exactly on an index boundary floor one lower in doubles, and none floor higher.
  - For the height on line 27, imgW = 5 and imgH = 23 give exactly 230, but `(23 / 5) * 100 * 0.5` is 229.99999999999997, which floors to 229.
  - Pure white is not such a case: its double sum is exactly 255, so both give `'@'`.
- A zero image width gives Infinity or NaN in the source. The model makes `imgW > 0` a precondition of `Height` and `ConvertImage`.
- Assigning `textContent` (public/script.js:59) and the display state it updates are not modelled. `Copy` and `Download` take the displayed text as a parameter.
- What happens after the clipboard write or download starts (public/script.js:73-75, 86-96) is not modelled: the promise's success or failure alert, and creating and revoking the object URL. The handlers return the action they would start.
- Event-callback ordering, and a stale conversion overwriting a newer one, are concurrency. The source has no guard against either.
