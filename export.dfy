// The guard shared by the copy and download click handlers of public/script.js:
// both export the displayed text unless it is still the placeholder.
//
// The clipboard write, the Blob download and `alert` are platform effects; the
// model returns the action a handler takes instead of performing it.
module Export {
  import opened Brightness
  import opened Conversion

  /** Text shown in the output area before any conversion. */
  const Placeholder: string := "여기에 결과가 나타납니다..."

  /** Alert shown when export is attempted before any conversion. */
  const ConvertFirst: string := "먼저 이미지를 변환해주세요!"

  /** Name of the downloaded text file. */
  const FileName: string := "설날음식_아스키아트.txt"

  /** What a click handler does with the displayed text. */
  datatype Action =
    | Alert(message: string)
    | WriteClipboard(text: string)
    | SaveFile(text: string, fileName: string, mimeType: string)

  /** The copy button: the displayed text goes to the clipboard unless it is the placeholder. */
  function Copy(display: string): (a: Action)
    ensures a.Alert? <==> display == Placeholder
    ensures a.Alert? ==> a.message == ConvertFirst
    ensures !a.Alert? ==> a == WriteClipboard(display)
  {
    if display == Placeholder then Alert(ConvertFirst) else WriteClipboard(display)
  }

  /** The download button: the displayed text is saved as a plain-text file unless it is
    * the placeholder. */
  function Download(display: string): (a: Action)
    ensures a.Alert? <==> display == Placeholder
    ensures a.Alert? ==> a.message == ConvertFirst
    ensures !a.Alert? ==> a == SaveFile(display, FileName, "text/plain")
  {
    if display == Placeholder then Alert(ConvertFirst) else SaveFile(display, FileName, "text/plain")
  }

  /** No conversion result is the placeholder: its characters come from Ramp or are
    * newlines, and the placeholder starts with a Hangul syllable. */
  lemma RenderIsNotPlaceholder(pixels: seq<byte>, width: nat, height: nat)
    requires Fits(pixels, width, height)
    ensures Render(pixels, width, height) != Placeholder
  {
    var s := Render(pixels, width, height);
    if |s| > 0 {
      RenderCharacters(pixels, width, height, 0);
      assert s[0] == '\n' || s[0] in Ramp;
      assert Placeholder[0] !in Ramp && Placeholder[0] != '\n';
    }
  }

  /** Every text the conversion can show is exported verbatim by both buttons. */
  lemma ConversionIsExported(pixels: seq<byte>, width: nat, height: nat)
    requires Fits(pixels, width, height)
    ensures Copy(Render(pixels, width, height)) == WriteClipboard(Render(pixels, width, height))
    ensures Download(Render(pixels, width, height))
         == SaveFile(Render(pixels, width, height), FileName, "text/plain")
  {
    RenderIsNotPlaceholder(pixels, width, height);
  }
}
