/** The processors and the three strategies.  The parallel stage is written here in one order,
    OCR first; its contract says that when it succeeds every other order ends the same.
 */
module ImageProcessor {
  import opened Wrappers
  import opened Commands
  import opened Files
  import opened UploadedFile
  import ImageScaler
  import Interleaving
  import MultiOcr
  import OcrText
  import ParallelOutcome
  import ParallelStage

  // ---------- The sequential stage: specification ----------

  function Oriented(tools: Tools, image: Image): Option<Image> {
    Link(image, ORIENTED, tools.orient)
  }

  function Compressed(tools: Tools, image: Image): Option<Image> {
    if JpegMime(image.mime) then Link(image, JPEGTRAN, tools.jpegtran)
    else if PngMime(image.mime) then Link(image, OPTIPNG, tools.optipng)
    else if GifMime(image.mime) then Some(image)
    else None
  }

  // exiftool rewrites the file in place.
  function Stripped(tools: Tools, image: Image): Option<Image> {
    if !JpegMime(image.mime) then Some(image)
    else
      var made := tools.exiftool(image.contents);
      if made.None? then None else Some(image.(contents := made.value))
  }

  // Orienting, compressing and stripping.
  function Prepared(tools: Tools, image: Image): Option<Image> {
    var oriented := Oriented(tools, image);
    if oriented.None? then None
    else
      var compressed := Compressed(tools, oriented.value);
      if compressed.None? then None else Stripped(tools, compressed.value)
  }

  // All the steps; whether the image is scaled is settled by its size before any of them.
  ghost function Steps(tools: Tools, limit: int, image: Image): Option<Image> {
    var prepared := Prepared(tools, image);
    if prepared.None? || |image.contents| <= limit then prepared
    else ImageScaler.Scaled(tools, limit, prepared.value)
  }

  // What lossless compression adds to the path.
  function Suffix(mime: string): string {
    if JpegMime(mime) then JPEGTRAN else if PngMime(mime) then OPTIPNG else ""
  }

  lemma PreparedKeepsMime(tools: Tools, image: Image)
    requires Prepared(tools, image).Some?
    ensures var after := Prepared(tools, image).value;
            && after.mime == image.mime && (JpegMime(image.mime) || PngMime(image.mime) || GifMime(image.mime))
            && after.path == image.path + ORIENTED + Suffix(image.mime)
  {
    assert image.path + ORIENTED + "" == image.path + ORIENTED;
  }

  // What the steps promise: an image over the limit, which cannot be a GIF, ends as JPEG
  // strictly under it; one within it keeps its MIME type.  The path shows the steps taken.
  lemma StepsKeepTheLimit(tools: Tools, limit: int, image: Image)
    requires Steps(tools, limit, image).Some?
    ensures var after := Steps(tools, limit, image).value;
            var prepared := image.path + ORIENTED + Suffix(image.mime);
            if |image.contents| > limit then
              && !GifMime(image.mime) && JpegMime(after.mime) && |after.contents| < limit
              && (after.path in ScaledPaths(prepared, image.mime)
                  || exists n: nat :: n <= 9 && after.path == ResizedPath(prepared, image.mime, n))
            else
              after.mime == image.mime && after.path == prepared
  {
    PreparedKeepsMime(tools, image);
    if |image.contents| > limit {
      var n := ImageScaler.ScaledFits(tools, limit, Prepared(tools, image).value);
      var prepared := image.path + ORIENTED + Suffix(image.mime);
      assert n > 0 ==> Steps(tools, limit, image).value.path == ResizedPath(prepared, image.mime, n);
    }
  }

  function ScaledPaths(path: string, mime: string): set<string> {
    var jpeg := path + if PngMime(mime) then JPEG else "";
    {jpeg + QUALITY, jpeg + QUALITY + QUALITY}
  }

  function ResizedPath(path: string, mime: string, n: nat): string {
    path + (if PngMime(mime) then JPEG else "") + QUALITY + QUALITY + ImageScaler.Repeat(RESIZED, n)
  }

  // ---------- The sequential stage in the commands' own terms ----------

  // A JPEG is oriented, then optimised, then stripped of its metadata, and scaled when the
  // upload was over the limit.
  lemma JpegStepsIff(tools: Tools, limit: int, image: Image)
    requires image.mime == "image/jpeg" || image.mime == "image/jpg"
    ensures var steps, oriented := Steps(tools, limit, image), tools.orient(image.contents);
            if oriented.None? then steps == None
            else
              var optimised := tools.jpegtran(oriented.value);
              if optimised.None? then steps == None
              else
                var stripped := tools.exiftool(optimised.value);
                if stripped.None? then steps == None
                else
                  var prepared := Image(image.path + "_ort" + "_opti", image.mime, stripped.value);
                  steps == if |image.contents| <= limit then Some(prepared)
                           else ImageScaler.Scaled(tools, limit, prepared)
  {
  }

  // A PNG is oriented, then optimised, and scaled when the upload was over the limit.
  lemma PngStepsIff(tools: Tools, limit: int, image: Image)
    requires image.mime == "image/png"
    ensures var steps, oriented := Steps(tools, limit, image), tools.orient(image.contents);
            if oriented.None? then steps == None
            else
              var optimised := tools.optipng(oriented.value);
              if optimised.None? then steps == None
              else
                var prepared := Image(image.path + "_ort" + "_opi", image.mime, optimised.value);
                steps == if |image.contents| <= limit then Some(prepared)
                         else ImageScaler.Scaled(tools, limit, prepared)
  {
  }

  // A GIF within the limit is oriented; a larger one, and anything else, fails.
  lemma OtherStepsIff(tools: Tools, limit: int, image: Image)
    requires image.mime != "image/jpeg" && image.mime != "image/jpg" && image.mime != "image/png"
    ensures var steps, oriented := Steps(tools, limit, image), tools.orient(image.contents);
            steps == if image.mime == "image/gif" && |image.contents| <= limit && oriented.Some?
                     then Some(Image(image.path + "_ort", image.mime, oriented.value)) else None
  {
    if Prepared(tools, image).Some? {
      ImageScaler.OthersAreScaledIff(tools, limit, Prepared(tools, image).value);
    }
  }

  // The commands that can follow the stripping of metadata preserve p.
  ghost predicate ScalingPreserves(tools: Tools, p: string -> bool) {
    && Preserves(tools.quality(90), p) && Preserves(tools.quality(70), p)
    && forall percent :: Preserves(tools.resize(percent), p)
  }

  // No JPEG leaves the steps with what exiftool removes, if scaling does not bring it back.
  lemma MetadataIsStripped(tools: Tools, limit: int, image: Image, p: string -> bool)
    requires image.mime == "image/jpeg" || image.mime == "image/jpg"
    requires Steps(tools, limit, image).Some?
    requires MakesAlways(tools.exiftool, p) && ScalingPreserves(tools, p)
    ensures p(Steps(tools, limit, image).value.contents)
  {
    JpegStepsIff(tools, limit, image);
    hide Steps;
    if |image.contents| > limit {
      var optimised := tools.jpegtran(tools.orient(image.contents).value).value;
      ImageScaler.ScaledKeeps(tools, limit, Image(image.path + "_ort" + "_opti", image.mime,
                                                  tools.exiftool(optimised).value), p);
    }
  }

  // What jpegtran gives a JPEG, and optipng a PNG, stays with it through the later commands.
  lemma CompressionIsKept(tools: Tools, limit: int, image: Image, p: string -> bool)
    requires Steps(tools, limit, image).Some? && ScalingPreserves(tools, p)
    requires
      || (image.mime in {"image/jpeg", "image/jpg"} && MakesAlways(tools.jpegtran, p) && Preserves(tools.exiftool, p))
      || (image.mime == "image/png" && MakesAlways(tools.optipng, p) && Preserves(tools.jpeg, p))
    ensures p(Steps(tools, limit, image).value.contents)
  {
    var oriented := tools.orient(image.contents).value;
    if image.mime == "image/png" {
      PngStepsIff(tools, limit, image);
      hide Steps;
      if |image.contents| > limit {
        ImageScaler.ScaledKeeps(tools, limit, Image(image.path + "_ort" + "_opi", image.mime,
                                                    tools.optipng(oriented).value), p);
      }
    } else {
      JpegStepsIff(tools, limit, image);
      hide Steps;
      var optimised := tools.jpegtran(oriented).value;
      assert p(tools.exiftool(optimised).value);
      if |image.contents| > limit {
        ImageScaler.ScaledKeeps(tools, limit, Image(image.path + "_ort" + "_opti", image.mime,
                                                    tools.exiftool(optimised).value), p);
      }
    }
  }

  // The orientation that every upload is given stays with it through the later commands.
  lemma OrientationIsKept(tools: Tools, limit: int, image: Image, p: string -> bool)
    requires Steps(tools, limit, image).Some? && MakesAlways(tools.orient, p) && ScalingPreserves(tools, p)
    requires Preserves(tools.jpegtran, p) && Preserves(tools.optipng, p) && Preserves(tools.exiftool, p)
    requires Preserves(tools.jpeg, p)
    ensures p(Steps(tools, limit, image).value.contents)
  {
    var oriented := tools.orient(image.contents).value;
    if image.mime == "image/png" {
      PngStepsIff(tools, limit, image);
      hide Steps;
      if |image.contents| > limit {
        ImageScaler.ScaledKeeps(tools, limit, Image(image.path + "_ort" + "_opi", image.mime,
                                                    tools.optipng(oriented).value), p);
      }
    } else if image.mime == "image/jpeg" || image.mime == "image/jpg" {
      JpegStepsIff(tools, limit, image);
      hide Steps;
      var optimised := tools.jpegtran(oriented).value;
      assert p(tools.exiftool(optimised).value);
      if |image.contents| > limit {
        ImageScaler.ScaledKeeps(tools, limit, Image(image.path + "_ort" + "_opti", image.mime,
                                                    tools.exiftool(optimised).value), p);
      }
    } else {
      OtherStepsIff(tools, limit, image);
    }
  }

  // ---------- The sequential stage: code ----------

  method Orient(image: Upload, tools: Tools, ghost root: string) returns (ok: bool)
    requires image.Sole(root)
    modifies image`path, image.fs
    ensures Foreign(image.fs.files, root) == old(Foreign(image.fs.files, root))
    ensures image.Reached(root, Oriented(tools, old(image.Now())), ok)
  {
    ok := image.Advance(ORIENTED, tools.orient, root);
  }

  method CompressLosslessly(image: Upload, tools: Tools, ghost root: string) returns (ok: bool)
    requires image.Sole(root)
    modifies image`path, image.fs
    ensures Foreign(image.fs.files, root) == old(Foreign(image.fs.files, root))
    ensures image.Reached(root, Compressed(tools, old(image.Now())), ok)
  {
    if image.IsJpeg() {
      ok := image.Advance(JPEGTRAN, tools.jpegtran, root);
    } else if image.IsPng() {
      ok := image.Advance(OPTIPNG, tools.optipng, root);
    } else {
      ok := image.IsGif();
      ImageScaler.SoleIsOneStray(image, root);
    }
  }

  method StripExif(image: Upload, tools: Tools, ghost root: string) returns (ok: bool)
    requires image.Sole(root)
    modifies image.fs
    ensures Foreign(image.fs.files, root) == old(Foreign(image.fs.files, root))
    ensures image.Reached(root, Stripped(tools, old(image.Now())), ok)
  {
    if !image.IsJpeg() {
      return true;
    }
    ghost var before := image.fs.files;
    ok := RunCommand(image.fs, image.path, image.path, tools.exiftool);
    OnlyOutputChanges(before, image.fs.files, root, image.path);
    ghost var own := Own(image.fs.files, root);
    assert forall p :: p in own && p != image.path ==> p in own - {image.path};
    assert image.path in own;
    assert own == {image.path};
  }

  method RunSteps(image: Upload, tools: Tools, maxFileSize: int, ghost root: string) returns (ok: bool)
    requires image.Sole(root)
    modifies image`path, image`mime, image.fs
    ensures Foreign(image.fs.files, root) == old(Foreign(image.fs.files, root))
    ensures image.Reached(root, Steps(tools, maxFileSize, old(image.Now())), ok)
  {
    hide Own, Foreign, ImageScaler.Scaled;
    var size, err := image.FileSize();
    ok := !err;
    if ok {
      ok := Orient(image, tools, root);
    }
    if ok {
      ok := CompressLosslessly(image, tools, root);
    }
    if ok {
      ok := StripExif(image, tools, root);
    }
    if ok && size > maxFileSize {
      ok := ImageScaler.Scale(image, tools, maxFileSize, root);
    }
  }

  // ---------- OCR ----------

  // Preprocess, recognise, read; the two scratch files are deleted on the way out, each
  // only once the command that makes it has succeeded.
  method OcrCommand(fs: FileSystem, image: string, picture: string, text: string, ocr: Ocr)
      returns (result: Option<string>)
    requires picture != text && image in fs.files
    modifies fs
    ensures result == Recognised(ocr, old(fs.files)[image])
    ensures var scratch := {ParallelStage.Beside(image, picture), ParallelStage.Beside(image, text)};
            && fs.files - scratch == old(fs.files) - scratch
            && (result.Some? ==> fs.files == old(fs.files) - scratch)
  {
    var p, t := ParallelStage.Beside(image, picture), ParallelStage.Beside(image, text);
    ParallelStage.BesideIsInjective(image, picture, text);
    ghost var before := fs.files;
    result := None;
    var ok := RunCommand(fs, image, p, ocr.gm);
    ScratchOnly(before, fs.files, p, p, t);
    if !ok {
      return;
    }
    ghost var middle := fs.files;
    ok := RunCommand(fs, p, t, ocr.tesseract);
    ScratchOnly(middle, fs.files, t, p, t);
    if ok {
      result := Some(ocr.lower(OcrText.TrimSpace(fs.files[t])));
      fs.Remove(t);
    }
    fs.Remove(p);
  }

  lemma ScratchOnly(before: Tree, after: Tree, out: string, p: string, t: string)
    requires after - {out} == before - {out} && out in {p, t}
    ensures after - {p, t} == before - {p, t}
  {
    assert after - {p, t} == (after - {out}) - {p, t};
    assert before - {p, t} == (before - {out}) - {p, t};
  }

  ghost predicate KeepsImage(path: string, before: Tree, after: Tree) {
    path in before ==> path in after && after[path] == before[path]
  }

  lemma BesideIsOwn(path: string, root: string, name: string)
    requires root <= path
    ensures root <= ParallelStage.Beside(path, name) && ParallelStage.Beside(path, name) != path
  {
    Extends(root, path, "_" + name);
    assert path + ("_" + name) == ParallelStage.Beside(path, name);
  }

  lemma ScratchIsOwn(path: string, before: Tree, after: Tree, root: string, picture: string, text: string, done: bool)
    requires root <= path
    requires var scratch := {ParallelStage.Beside(path, picture), ParallelStage.Beside(path, text)};
             after - scratch == before - scratch && (done ==> after == before - scratch)
    ensures Foreign(after, root) == Foreign(before, root)
    ensures KeepsImage(path, before, after)
    ensures done && path in before && Own(before, root) == {path} ==> Own(after, root) == {path}
  {
    var p, t := ParallelStage.Beside(path, picture), ParallelStage.Beside(path, text);
    BesideIsOwn(path, root, picture);
    BesideIsOwn(path, root, text);
    forall q | q != p && q != t ensures (q in after <==> q in before) && (q in before ==> after[q] == before[q]) {
      assert q in after <==> q in after - {p, t};
      assert q in before <==> q in before - {p, t};
      assert q in before ==> (before - {p, t})[q] == before[q];
      assert q in after ==> (after - {p, t})[q] == after[q];
    }
    assert Foreign(after, root) == Foreign(before, root);
    if done && path in before && Own(before, root) == {path} {
      assert path in Own(after, root);
      assert forall q :: q in Own(after, root) ==> q in Own(before, root);
    }
  }

  // The two texts the upload may end with, depending on which arrives first.
  ghost predicate IsOcrText(tools: Tools, speller: Option<OcrText.Speller>, original: string, text: string) {
    && Hears(tools.meme, tools.standard, original)
    && var meme, standard := Recognised(tools.meme, original).value, Recognised(tools.standard, original).value;
       text in {MultiOcr.BetterOf(speller, meme, standard), MultiOcr.BetterOf(speller, standard, meme)}
  }

  // MultiOCRCommand.Run once both commands have succeeded; either may arrive first.
  method BestText(memeText: string, standardText: string, speller: Option<OcrText.Speller>)
      returns (text: string, ghost memeFirst: bool)
    ensures text == Interleaving.Settled(speller, memeFirst, memeText, standardText)
  {
    var meme := new OcrText.OcrResult("MemeOCR", memeText);
    var standard := new OcrText.OcrResult("StandardOCR", standardText);
    var memeArrivesFirst: bool := *;
    memeFirst := memeArrivesFirst;
    var results := if memeArrivesFirst then [meme, standard] else [standard, meme];
    ghost var texts := if memeFirst then [memeText, standardText] else [standardText, memeText];
    var best, at := MultiOcr.Collect(results, speller, texts);
    MultiOcr.EarliestBestOfTwo(speller, texts[0], texts[1], at);
    assert texts == [texts[0], texts[1]];
    text := best.text;
  }

  // Both commands, then the better of their texts.
  method RunOcr(image: Upload, tools: Tools, speller: Option<OcrText.Speller>, ghost root: string)
      returns (ok: bool, ghost memeFirst: bool)
    requires image.Sole(root)
    modifies image`ocrText, image.fs
    ensures Foreign(image.fs.files, root) == old(Foreign(image.fs.files, root))
    ensures KeepsImage(image.path, old(image.fs.files), image.fs.files)
    ensures var original := old(image.Now()).contents;
            && (ok <==> Hears(tools.meme, tools.standard, original))
            && (ok ==> image.ocrText == Interleaving.Settled(speller, memeFirst, Recognised(tools.meme, original).value,
                                                             Recognised(tools.standard, original).value))
    ensures ok ==> image.Sole(root)
  {
    hide Recognised, OcrText.Filtered, MultiOcr.Score, Interleaving.Settled;
    memeFirst := true;
    ghost var before := image.fs.files;
    var meme := OcrCommand(image.fs, image.path, ParallelStage.MEME_PICTURE, ParallelStage.MEME_TEXT, tools.meme);
    ScratchIsOwn(image.path, before, image.fs.files, root, ParallelStage.MEME_PICTURE, ParallelStage.MEME_TEXT,
                 meme.Some?);
    ghost var middle := image.fs.files;
    var standard := OcrCommand(image.fs, image.path, ParallelStage.STANDARD_PICTURE, ParallelStage.STANDARD_TEXT,
                               tools.standard);
    ScratchIsOwn(image.path, middle, image.fs.files, root, ParallelStage.STANDARD_PICTURE, ParallelStage.STANDARD_TEXT,
                 standard.Some?);
    ok := meme.Some? && standard.Some?;
    if ok {
      image.ocrText, memeFirst := BestText(meme.value, standard.value, speller);
    }
  }

  // ---------- Thumbnails ----------

  function ThumbNames(thumbs: seq<ThumbFile>): (names: seq<string>)
    ensures |names| == |thumbs| && forall k :: 0 <= k < |thumbs| ==> names[k] == thumbs[k].name
  {
    seq(|thumbs|, k requires 0 <= k < |thumbs| => thumbs[k].name)
  }

  function DrawingOf(t: ThumbFile, tools: Tools, mime: string): Thumb {
    Thumb(t.name, t.circle, tools.thumb(t.name, mime), tools.round(t.name))
  }

  // The commands that draw the thumbnails of an image of this type.
  function DrawingsOf(thumbs: seq<ThumbFile>, tools: Tools, mime: string): (drawings: seq<Thumb>)
    ensures |drawings| == |thumbs|
    ensures forall k :: 0 <= k < |thumbs| ==> drawings[k] == DrawingOf(thumbs[k], tools, mime)
    ensures ParallelStage.Names(drawings) == ThumbNames(thumbs)
  {
    seq(|thumbs|, k requires 0 <= k < |thumbs| => DrawingOf(thumbs[k], tools, mime))
  }

  // As parseThumbs makes them: proper names, and no files yet.
  ghost predicate Requested(thumbs: seq<ThumbFile>)
    reads thumbs
  {
    && ParallelStage.NamesOk(ThumbNames(thumbs))
    && Different(thumbs)
    && (forall k :: 0 <= k < |thumbs| ==> thumbs[k].localPath == "")
  }

  ghost predicate Different(thumbs: seq<ThumbFile>) {
    forall j, k :: 0 <= j < |thumbs| && 0 <= k < |thumbs| && j != k ==> thumbs[j] != thumbs[k]
  }

  // Each thumbnail has adopted its path.
  ghost predicate Adopted(path: string, thumbs: seq<ThumbFile>)
    reads thumbs
  {
    forall k :: 0 <= k < |thumbs| ==> thumbs[k].localPath == ParallelStage.Beside(path, thumbs[k].name)
  }

  ghost predicate AdoptedOrEmpty(path: string, thumbs: seq<ThumbFile>)
    reads thumbs
  {
    forall k :: 0 <= k < |thumbs| ==> thumbs[k].localPath in {"", ParallelStage.Beside(path, thumbs[k].name)}
  }

  // The square of each circle that could not be cut out is there, and is nobody's.
  ghost predicate SquaresLeft(path: string, thumbs: seq<ThumbFile>, drawings: seq<Thumb>, original: string, files: Tree)
    requires |drawings| == |thumbs|
    reads thumbs
  {
    forall k :: 0 <= k < |thumbs| && SquareOnly(drawings[k], original) ==>
      ParallelStage.Beside(path, thumbs[k].name) in files && thumbs[k].localPath == ""
  }

  method RunThumb(image: Upload, t: ThumbFile, tools: Tools, ghost root: string) returns (ok: bool)
    requires root <= image.path && image.path in image.fs.files
    modifies image.fs, t`localPath
    ensures Foreign(image.fs.files, root) == old(Foreign(image.fs.files, root))
    ensures KeepsImage(image.path, old(image.fs.files), image.fs.files)
    ensures t.localPath == if ok then ParallelStage.Beside(image.path, t.name) else old(t.localPath)
    ensures var drawing, original := DrawingOf(t, tools, image.mime), old(image.Now()).contents;
            var out := ParallelStage.Beside(image.path, t.name);
            && KeptElsewhere(old(image.fs.files), image.fs.files, out)
            && Made(drawing, original, out, image.fs.files)
            && (ok <==> Picture(drawing, original).Some?)
    ensures ok ==> Own(image.fs.files, root) == old(Own(image.fs.files, root)) + {t.localPath}
  {
    ghost var before := image.fs.files;
    ok := t.Process(image.fs, image.path, tools.thumb(t.name, image.mime), tools.round(t.name));
    ghost var out := ParallelStage.Beside(image.path, t.name);
    BesideIsOwn(image.path, root, t.name);
    OnlyOutputChanges(before, image.fs.files, root, out);
    if ok {
      AddsOne(Own(before, root), Own(image.fs.files, root), out);
    }
  }

  // What one thumbnail's commands leave at its path.
  ghost predicate Made(drawing: Thumb, original: string, out: string, files: Tree) {
    && (Picture(drawing, original).Some? ==> out in files && Picture(drawing, original) == Some(files[out]))
    && (SquareOnly(drawing, original) ==> out in files)
  }

  ghost predicate KeptElsewhere(before: Tree, after: Tree, out: string) {
    forall p :: p != out && p in before ==> p in after && after[p] == before[p]
  }

  lemma AddsOne(before: set<string>, after: set<string>, out: string)
    requires after - {out} == before - {out} && out in after
    ensures after == before + {out}
  {
    forall p ensures p in after <==> p in before + {out} {
      assert p in after && p != out <==> p in after - {out};
      assert p in before && p != out <==> p in before - {out};
    }
  }

  // After n thumbnails, each has left what its commands make.
  ghost predicate MadeUpTo(path: string, drawings: seq<Thumb>, original: string, files: Tree, n: nat)
    requires n <= |drawings|
  {
    forall k :: 0 <= k < n ==> Made(drawings[k], original, ParallelStage.Beside(path, drawings[k].name), files)
  }

  lemma OneMoreMade(path: string, drawings: seq<Thumb>, original: string, before: Tree, after: Tree, n: nat)
    requires n < |drawings| && ParallelStage.AllDifferent(ParallelStage.Names(drawings))
    requires MadeUpTo(path, drawings, original, before, n)
    requires var out := ParallelStage.Beside(path, drawings[n].name);
             KeptElsewhere(before, after, out) && Made(drawings[n], original, out, after)
    ensures MadeUpTo(path, drawings, original, after, n + 1)
  {
    var names := ParallelStage.Names(drawings);
    forall k | 0 <= k < n
      ensures ParallelStage.Beside(path, drawings[k].name) != ParallelStage.Beside(path, drawings[n].name)
    {
      assert names[k] != names[n];
      ParallelStage.BesideIsInjective(path, drawings[k].name, drawings[n].name);
    }
    hide Picture, SquareOnly, ParallelStage.Beside;
  }

  // The upload owns the image and the outputs of the first n thumbnails.
  ghost predicate OwnsUpTo(path: string, root: string, names: seq<string>, files: Tree, n: nat)
    requires n <= |names|
  {
    Own(files, root) == {path} + ParallelOutcome.Outs(path, names[..n])
  }

  lemma OwnsOneMore(path: string, root: string, names: seq<string>, before: Tree, after: Tree, n: nat)
    requires n < |names| && OwnsUpTo(path, root, names, before, n)
    requires Own(after, root) == Own(before, root) + {ParallelStage.Beside(path, names[n])}
    ensures OwnsUpTo(path, root, names, after, n + 1)
  {
    assert forall k :: 0 <= k < n ==> names[..n + 1][k] == names[..n][k];
    assert names[..n + 1][n] == names[n];
    forall p ensures p in ParallelOutcome.Outs(path, names[..n + 1]) <==>
                     p in ParallelOutcome.Outs(path, names[..n]) + {ParallelStage.Beside(path, names[n])}
    {
      if p in ParallelOutcome.Outs(path, names[..n]) {
        var k :| 0 <= k < n && p == ParallelStage.Beside(path, names[..n][k]);
        assert p == ParallelStage.Beside(path, names[..n + 1][k]);
      }
    }
  }

  // Of the first n thumbnails those that were drawn have adopted their path, the others none.
  ghost predicate PathsUpTo(path: string, thumbs: seq<ThumbFile>, drawings: seq<Thumb>, original: string, n: nat)
    requires |drawings| == |thumbs|
    reads thumbs
  {
    forall k :: 0 <= k < |thumbs| ==>
      thumbs[k].localPath ==
      if k < n && Picture(drawings[k], original).Some? then ParallelStage.Beside(path, thumbs[k].name) else ""
  }

  lemma OneMoreDrawable(drawings: seq<Thumb>, original: string, n: nat)
    requires n < |drawings|
    ensures Drawable(drawings[..n + 1], original) <==>
            Drawable(drawings[..n], original) && Picture(drawings[n], original).Some?
  {
    assert drawings[..n + 1] == drawings[..n] + [drawings[n]];
  }

  // Where the loop stands after i thumbnails: `ok` says that all of them were drawn, and `sole`
  // that the upload owned nothing but the image before them.
  ghost predicate DrawnSoFar(image: Upload, root: string, drawings: seq<Thumb>, original: string, i: nat, ok: bool,
                             sole: bool)
    reads image, image.fs, image.thumbs
  {
    && i <= |drawings| && |drawings| == |image.thumbs|
    && image.path in image.fs.files && image.fs.files[image.path] == original
    && PathsUpTo(image.path, image.thumbs, drawings, original, i)
    && MadeUpTo(image.path, drawings, original, image.fs.files, i)
    && (ok <==> Drawable(drawings[..i], original))
    && (sole && ok ==> OwnsUpTo(image.path, root, ThumbNames(image.thumbs), image.fs.files, i))
  }

  method DrawNext(image: Upload, t: ThumbFile, tools: Tools, i: nat, ghost root: string, ghost drawings: seq<Thumb>,
                  ghost original: string, ghost ok: bool, ghost sole: bool) returns (done: bool)
    requires i < |image.thumbs| && t == image.thumbs[i] && root <= image.path
    requires drawings == DrawingsOf(image.thumbs, tools, image.mime)
    requires ParallelStage.AllDifferent(ParallelStage.Names(drawings)) && Different(image.thumbs)
    requires DrawnSoFar(image, root, drawings, original, i, ok, sole)
    modifies image.fs, t`localPath
    ensures Foreign(image.fs.files, root) == old(Foreign(image.fs.files, root))
    ensures DrawnSoFar(image, root, drawings, original, i + 1, ok && done, sole)
  {
    OneMoreDrawable(drawings, original, i);
    hide Own, Foreign, Picture, MadeUpTo, OwnsUpTo, Made, KeptElsewhere, ParallelStage.Beside, Drawable;
    ghost var before := image.fs.files;
    done := RunThumb(image, t, tools, root);
    OneMoreMade(image.path, drawings, original, before, image.fs.files, i);
    if sole && ok && done {
      OwnsOneMore(image.path, root, ThumbNames(image.thumbs), before, image.fs.files, i);
    }
  }

  // The loop: every thumbnail is attempted, whether or not another fails.
  method DrawAll(image: Upload, tools: Tools, ghost root: string, ghost drawings: seq<Thumb>, ghost original: string,
                 ghost sole: bool) returns (ok: bool)
    requires root <= image.path
    requires drawings == DrawingsOf(image.thumbs, tools, image.mime)
    requires ParallelStage.AllDifferent(ParallelStage.Names(drawings)) && Different(image.thumbs)
    requires DrawnSoFar(image, root, drawings, original, 0, true, sole)
    modifies image.fs, image.thumbs
    ensures Foreign(image.fs.files, root) == old(Foreign(image.fs.files, root))
    ensures DrawnSoFar(image, root, drawings, original, |image.thumbs|, ok, sole)
  {
    hide *;
    var thumbs := image.thumbs;
    ok := true;
    for i := 0 to |thumbs|
      invariant Foreign(image.fs.files, root) == old(Foreign(image.fs.files, root))
      invariant DrawnSoFar(image, root, drawings, original, i, ok, sole)
    {
      var done := DrawNext(image, thumbs[i], tools, i, root, drawings, original, ok, sole);
      ok := ok && done;
    }
  }

  // All thumbnails; before them the upload may own more than the image, when OCR has failed.
  method RunThumbs(image: Upload, tools: Tools, ghost root: string) returns (ok: bool)
    requires root <= image.path && image.path in image.fs.files && Requested(image.thumbs)
    modifies image.fs, image.thumbs
    ensures Foreign(image.fs.files, root) == old(Foreign(image.fs.files, root))
    ensures KeepsImage(image.path, old(image.fs.files), image.fs.files)
    ensures AdoptedOrEmpty(image.path, image.thumbs)
    ensures var drawings, original := DrawingsOf(image.thumbs, tools, image.mime), old(image.Now()).contents;
            && (ok <==> Drawable(drawings, original))
            && SquaresLeft(image.path, image.thumbs, drawings, original, image.fs.files)
            && (ok ==> Adopted(image.path, image.thumbs)
                       && ParallelOutcome.Drawn(image.path, drawings, original, image.fs.files))
    ensures ok && old(image.Sole(root)) ==> Own(image.fs.files, root) == {image.path} + image.ThumbPaths()
  {
    ghost var drawings, original := DrawingsOf(image.thumbs, tools, image.mime), image.Now().contents;
    ghost var sole := image.Sole(root);
    assert MadeUpTo(image.path, drawings, original, image.fs.files, 0);
    assert sole ==> OwnsUpTo(image.path, root, ThumbNames(image.thumbs), image.fs.files, 0);
    hide Own, Foreign, Picture, MadeUpTo, OwnsUpTo, ParallelStage.Beside, SquareOnly, Requested;
    assert Requested(image.thumbs);
    ok := DrawAll(image, tools, root, drawings, original, sole);
    assert drawings[..|drawings|] == drawings;
    AllMade(image, drawings, original);
    if ok && sole {
      AllOwned(image, root, ThumbNames(image.thumbs));
    }
  }

  lemma AllMade(image: Upload, drawings: seq<Thumb>, original: string)
    requires |drawings| == |image.thumbs| && ParallelStage.Names(drawings) == ThumbNames(image.thumbs)
    requires MadeUpTo(image.path, drawings, original, image.fs.files, |drawings|)
    requires PathsUpTo(image.path, image.thumbs, drawings, original, |drawings|)
    ensures SquaresLeft(image.path, image.thumbs, drawings, original, image.fs.files)
    ensures Drawable(drawings, original) ==> ParallelOutcome.Drawn(image.path, drawings, original, image.fs.files)
  {
    forall k | 0 <= k < |drawings| ensures drawings[k].name == image.thumbs[k].name {
      assert ParallelStage.Names(drawings)[k] == ThumbNames(image.thumbs)[k];
    }
  }

  lemma AllOwned(image: Upload, root: string, names: seq<string>)
    requires Adopted(image.path, image.thumbs) && names == ThumbNames(image.thumbs)
    requires OwnsUpTo(image.path, root, names, image.fs.files, |names|)
    ensures Own(image.fs.files, root) == {image.path} + image.ThumbPaths()
  {
    assert names[..|names|] == names;
    OutsAreAdopted(image, names);
  }

  lemma OutsAreAdopted(image: Upload, names: seq<string>)
    requires Adopted(image.path, image.thumbs) && names == ThumbNames(image.thumbs)
    ensures image.ThumbPaths() == ParallelOutcome.Outs(image.path, names)
  {
  }

  // ---------- The thumbnails in the commands' own terms ----------

  // Every thumbnail can be drawn exactly when the command for its name and the image's type
  // succeeds on the image and, for a circle, the second command on what the first has made.
  lemma DrawableIff(thumbs: seq<ThumbFile>, tools: Tools, mime: string, original: string)
    ensures Drawable(DrawingsOf(thumbs, tools, mime), original) <==>
            forall k :: 0 <= k < |thumbs| ==>
              var square := tools.thumb(thumbs[k].name, mime)(original);
              square.Some? && (thumbs[k].circle ==> tools.round(thumbs[k].name)(square.value).Some?)
  {
    assert forall k :: 0 <= k < |thumbs| ==> DrawingsOf(thumbs, tools, mime)[k] == DrawingOf(thumbs[k], tools, mime);
  }

  // The file beside the image holds the square, or for a circle what is made of the square.
  lemma DrawnMeans(path: string, thumbs: seq<ThumbFile>, tools: Tools, mime: string, original: string, files: Tree)
    requires ParallelOutcome.Drawn(path, DrawingsOf(thumbs, tools, mime), original, files)
    ensures forall k :: 0 <= k < |thumbs| ==>
              var square, file := tools.thumb(thumbs[k].name, mime)(original), path + "_" + thumbs[k].name;
              && square.Some? && file in files
              && Some(files[file]) == if thumbs[k].circle then tools.round(thumbs[k].name)(square.value) else square
  {
    assert forall k :: 0 <= k < |thumbs| ==> DrawingsOf(thumbs, tools, mime)[k] == DrawingOf(thumbs[k], tools, mime);
  }

  // Whatever the shape: if every square made satisfies s, and rounding takes s to r, then the
  // files of squares satisfy s and those of circles r.
  lemma DrawnShapes(path: string, thumbs: seq<ThumbFile>, tools: Tools, mime: string, original: string, files: Tree,
                    s: string -> bool, r: string -> bool)
    requires ParallelOutcome.Drawn(path, DrawingsOf(thumbs, tools, mime), original, files)
    requires forall name :: MakesAlways(tools.thumb(name, mime), s)
    requires forall name, x :: s(x) && tools.round(name)(x).Some? ==> r(tools.round(name)(x).value)
    ensures forall k :: 0 <= k < |thumbs| ==>
              && path + "_" + thumbs[k].name in files
              && if thumbs[k].circle then r(files[path + "_" + thumbs[k].name])
                 else s(files[path + "_" + thumbs[k].name])
  {
    DrawnMeans(path, thumbs, tools, mime, original, files);
    hide ParallelOutcome.Drawn, DrawingsOf;
    forall k | 0 <= k < |thumbs| ensures MakesAlways(tools.thumb(thumbs[k].name, mime), s) {
    }
  }

  // ---------- The parallel stage ----------

  function PlanOf(tools: Tools, speller: Option<OcrText.Speller>, mime: string, thumbs: seq<ThumbFile>)
      : ParallelStage.Plan {
    ParallelStage.Plan(tools.meme, tools.standard, speller, DrawingsOf(thumbs, tools, mime))
  }

  // OCR and the thumbnails in one order, the thumbnails even when OCR fails.  They succeed
  // exactly when every command does; then the files and the paths they leave are those that
  // every interleaving of these very commands leaves, and the text is that of every
  // interleaving in which the same OCR result arrives first.
  method RunParallel(image: Upload, tools: Tools, speller: Option<OcrText.Speller>, ghost root: string)
      returns (ok: bool, ghost memeFirst: bool)
    requires image.Sole(root) && Requested(image.thumbs)
    modifies image`ocrText, image.fs, image.thumbs
    ensures Foreign(image.fs.files, root) == old(Foreign(image.fs.files, root))
    ensures KeepsImage(image.path, old(image.fs.files), image.fs.files)
    ensures AdoptedOrEmpty(image.path, image.thumbs)
    ensures var plan, original := PlanOf(tools, speller, image.mime, image.thumbs), old(image.Now()).contents;
            && (ok <==> ParallelStage.Succeeds(plan, original))
            && SquaresLeft(image.path, image.thumbs, plan.thumbs, original, image.fs.files)
            && (ok ==> ParallelOutcome.LeftByOneOrder(image.path, root, plan, old(image.fs.files), image.fs.files))
            && (ok ==> image.ocrText == ParallelStage.TextOf(plan, memeFirst, original))
            && (ok ==> ParallelOutcome.EveryScheduleGives(image.path, plan, old(image.fs.files), image.fs.files,
                                                          original))
    ensures ok ==> Own(image.fs.files, root) == {image.path} + image.ThumbPaths() && Adopted(image.path, image.thumbs)
  {
    hide Own, Foreign, Recognised, Interleaving.Settled, ParallelOutcome.EveryScheduleGives, SquaresLeft;
    ghost var before := image.fs.files;
    var heard;
    heard, memeFirst := RunOcr(image, tools, speller, root);
    assert image.Now().contents == before[image.path];
    ok := RunThumbs(image, tools, root);
    ok := ok && heard;
    if ok {
      OutsAreAdopted(image, ThumbNames(image.thumbs));
      ghost var plan := PlanOf(tools, speller, image.mime, image.thumbs);
      ParallelOutcome.OneOrderIsEveryOrder(image.path, root, plan, before, image.fs.files);
    }
  }

  // ---------- Strategies ----------

  datatype Strategy = Passthrough | Thumbnails | Everything

  // The image each strategy hands on, when its sequential steps succeed.
  ghost function Processed(strategy: Strategy, tools: Tools, limit: int, image: Image): Option<Image> {
    if strategy.Everything? then Steps(tools, limit, image) else Some(image)
  }

  // Every command that a strategy runs succeeds.
  ghost predicate CommandsSucceed(strategy: Strategy, tools: Tools, limit: int, image: Image, thumbs: seq<ThumbFile>) {
    var processed := Processed(strategy, tools, limit, image);
    && processed.Some?
    && (strategy.Everything? ==> Hears(tools.meme, tools.standard, processed.value.contents))
    && (!strategy.Passthrough? ==> Drawable(DrawingsOf(thumbs, tools, processed.value.mime), processed.value.contents))
  }

  // What a successful run leaves, in terms of the image as it is now: the image and its
  // thumbnails, and no other file of the upload's; every thumbnail holds its picture.
  ghost predicate Developed(image: Upload, tools: Tools, root: string)
    reads image, image.fs, image.thumbs
  {
    && root <= image.path && image.path in image.fs.files
    && Own(image.fs.files, root) == {image.path} + image.ThumbPaths() && Adopted(image.path, image.thumbs)
    && ParallelOutcome.Drawn(image.path, DrawingsOf(image.thumbs, tools, image.mime), image.Now().contents,
                             image.fs.files)
  }

  // What every run leaves, failed or not: squares that never became circles.
  ghost predicate LeavesSquares(image: Upload, tools: Tools)
    reads image, image.fs, image.thumbs
  {
    SquaresLeft(image.path, image.thumbs, DrawingsOf(image.thumbs, tools, image.mime), image.Now().contents,
                image.fs.files)
  }

  method RunEverything(image: Upload, tools: Tools, maxFileSize: int, speller: Option<OcrText.Speller>,
                       ghost root: string) returns (ok: bool)
    requires image.Sole(root) && Requested(image.thumbs)
    modifies image`path, image`mime, image`ocrText, image.fs, image.thumbs
    ensures Foreign(image.fs.files, root) == old(Foreign(image.fs.files, root))
    ensures root <= image.path && AdoptedOrEmpty(image.path, image.thumbs)
    ensures ok <==> CommandsSucceed(Everything, tools, maxFileSize, old(image.Now()), image.thumbs)
    ensures var steps := Steps(tools, maxFileSize, old(image.Now()));
            if steps.Some? then
              steps == Some(image.Now()) && image.path in image.fs.files && LeavesSquares(image, tools)
            else
              image.OneStray(root) && forall k :: 0 <= k < |image.thumbs| ==> image.thumbs[k].localPath == ""
    ensures ok ==> Developed(image, tools, root) && IsOcrText(tools, speller, image.Now().contents, image.ocrText)
  {
    hide Own, Foreign, Recognised, MultiOcr.BetterOf, ParallelOutcome.EveryScheduleGives, ParallelOutcome.Drawn, Steps;
    hide SquaresLeft;
    ok := RunSteps(image, tools, maxFileSize, root);
    if ok {
      ghost var memeFirst;
      ok, memeFirst := RunParallel(image, tools, speller, root);
    }
  }

  // The paths Clean deletes are the upload's own, or empty.
  ghost predicate CleanIsSafe(root: string, path: string, thumbPaths: set<string>) {
    root <= path && forall p :: p in thumbPaths ==> p == "" || root <= p
  }

  lemma EmptyOrBeside(image: Upload, root: string)
    requires root <= image.path && AdoptedOrEmpty(image.path, image.thumbs)
    ensures CleanIsSafe(root, image.path, image.ThumbPaths())
  {
    forall k | 0 <= k < |image.thumbs| ensures root <= ParallelStage.Beside(image.path, image.thumbs[k].name) {
      BesideIsOwn(image.path, root, image.thumbs[k].name);
    }
  }

  // A strategy succeeds exactly when all its commands do.  Then the image is the one
  // specified, every file left to the upload is known to Clean, and, unless the strategy
  // makes none, the thumbnails are drawn from that image.  When it fails, a failed step of
  // the chain has left at most one stray file, and a circle that could not be cut out its
  // square.
  method RunStrategy(image: Upload, strategy: Strategy, tools: Tools, maxFileSize: int,
                     speller: Option<OcrText.Speller>, ghost root: string) returns (ok: bool)
    requires image.Sole(root) && Requested(image.thumbs)
    modifies image`path, image`mime, image`ocrText, image.fs, image.thumbs
    ensures Foreign(image.fs.files, root) == old(Foreign(image.fs.files, root))
    ensures CleanIsSafe(root, image.path, image.ThumbPaths()) && AdoptedOrEmpty(image.path, image.thumbs)
    ensures ok <==> CommandsSucceed(strategy, tools, maxFileSize, old(image.Now()), image.thumbs)
    ensures var processed := Processed(strategy, tools, maxFileSize, old(image.Now()));
            if processed.Some? then processed == Some(image.Now()) && image.path in image.fs.files
            else image.OneStray(root) && forall k :: 0 <= k < |image.thumbs| ==> image.thumbs[k].localPath == ""
    ensures ok ==> Own(image.fs.files, root) <= {image.path} + image.ThumbPaths()
    ensures ok && !strategy.Passthrough? ==> Developed(image, tools, root)
    ensures Processed(strategy, tools, maxFileSize, old(image.Now())).Some? && !strategy.Passthrough? ==>
              LeavesSquares(image, tools)
    ensures ok && strategy.Everything? ==> IsOcrText(tools, speller, image.Now().contents, image.ocrText)
    ensures strategy.Passthrough? ==> forall k :: 0 <= k < |image.thumbs| ==> image.thumbs[k].localPath == ""
  {
    hide Foreign, Recognised, MultiOcr.BetterOf, ParallelOutcome.Drawn, Steps, CleanIsSafe, SquaresLeft, Drawable;
    match strategy {
      case Passthrough =>
        ok := true;
      case Thumbnails =>
        ok := RunThumbs(image, tools, root);
      case Everything =>
        ok := RunEverything(image, tools, maxFileSize, speller, root);
    }
    EmptyOrBeside(image, root);
  }
}
