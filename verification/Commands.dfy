/** The external programs.  Each program with its arguments is a Command: any function from the
    contents of its input file to the contents of its output file.  One request runs no command
    twice on the same input, so a timeout is just a failure on that input.
 */
module Commands {
  import opened Wrappers
  import OcrText

  // None when the command fails.
  type Command = string -> Option<string>

  // Two commands in a row, the second on the output of the first.
  function Both(first: Command, second: Command, input: string): Option<string> {
    var middle := first(input);
    if middle.None? then None else second(middle.value)
  }

  // What holds of a command's input holds of its output.
  ghost predicate Preserves(command: Command, p: string -> bool) {
    forall x :: p(x) && command(x).Some? ==> p(command(x).value)
  }

  // It holds of every output of the command.
  ghost predicate MakesAlways(command: Command, p: string -> bool) {
    forall x :: command(x).Some? ==> p(command(x).value)
  }

  // gm prepares a picture, tesseract reads it; `lower` is strings.ToLower.
  datatype Ocr = Ocr(gm: Command, tesseract: Command, lower: string -> string)

  function Recognised(ocr: Ocr, original: string): Option<string> {
    var text := Both(ocr.gm, ocr.tesseract, original);
    if text.None? then None else Some(ocr.lower(OcrText.TrimSpace(text.value)))
  }

  // A circle is cut out of the square in a second step.  A shape whose own checks refuse the
  // requested size is a command that fails.
  datatype Thumb = Thumb(name: string, circle: bool, gm: Command, round: Command)

  function Picture(thumb: Thumb, original: string): Option<string> {
    if thumb.circle then Both(thumb.gm, thumb.round, original) else thumb.gm(original)
  }

  // The square of a circle is made, but not the circle.
  predicate SquareOnly(thumb: Thumb, original: string) {
    thumb.circle && thumb.gm(original).Some? && Picture(thumb, original).None?
  }

  // Both OCR commands succeed on this image.
  predicate Hears(meme: Ocr, standard: Ocr, original: string) {
    Recognised(meme, original).Some? && Recognised(standard, original).Some?
  }

  // Every thumbnail can be drawn from this image.
  predicate Drawable(thumbs: seq<Thumb>, original: string) {
    forall k :: 0 <= k < |thumbs| ==> Picture(thumbs[k], original).Some?
  }

  // thumb is given the thumbnail's name and the image's MIME type, which fix its arguments.
  datatype Tools = Tools(
    orient: Command, jpegtran: Command, optipng: Command, exiftool: Command, jpeg: Command,
    quality: int -> Command, resize: int -> Command,
    meme: Ocr, standard: Ocr,
    thumb: (string, string) -> Command, round: string -> Command,
    decodes: string -> bool)   // whether the image's dimensions can be read
}
