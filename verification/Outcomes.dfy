/** What a whole request comes to, in terms of the commands alone: when UploadFile answers 200,
    which commands on which inputs have made the stored bytes, and which text is returned.
 */
module Outcomes {
  import opened Wrappers
  import opened Commands
  import opened UploadedFile
  import opened ImageProcessor
  import opened Server
  import HashGenerator
  import ImageScaler
  import MultiOcr
  import OcrText
  import ParallelStage

  // All that UploadFile returns and leaves: the answer, the upload's type and text, and the store.
  datatype Answer = Answer(status: Status, size: nat, response: map<string, string>, mime: string, ocrText: string,
                           after: map<string, string>)

  ghost predicate IsAnswerTo(r: Request, before: map<string, string>, a: Answer) {
    IsAnswer(r, a.status, a.size, a.response, a.mime, a.ocrText, before, a.after)
  }

  // The names of a request's thumbnails differ, and its hash is the generator's.
  predicate ProperRequest(r: Request) {
    ParallelStage.AllDifferent(ThumbNames(r.thumbs)) && HashGenerator.IsHash(r.hash)
  }

  // ---------- When a request succeeds ----------

  lemma HearsIff(meme: Ocr, standard: Ocr, original: string)
    ensures Hears(meme, standard, original) <==>
            && meme.gm(original).Some? && meme.tesseract(meme.gm(original).value).Some?
            && standard.gm(original).Some? && standard.tesseract(standard.gm(original).value).Some?
  {
  }

  // Without the sequential steps: every thumbnail is drawn from the image as uploaded, its
  // dimensions can be read, and where no thumbnails are made none are asked for.
  lemma UnprocessedOkIff(r: Request, before: map<string, string>, a: Answer)
    requires IsAnswerTo(r, before, a) && !r.strategy.Everything?
    ensures a.status.StatusOK? <==>
            && r.tools.decodes(r.image.contents)
            && if r.strategy.Passthrough? then r.thumbs == []
               else forall k :: 0 <= k < |r.thumbs| ==>
                 var square := r.tools.thumb(r.thumbs[k].name, r.image.mime)(r.image.contents);
                 square.Some? && (r.thumbs[k].circle ==> r.tools.round(r.thumbs[k].name)(square.value).Some?)
  {
    DrawableIff(r.thumbs, r.tools, r.image.mime, r.image.contents);
    hide Drawable, DrawingsOf;
  }

  // With them: the steps succeed, and on the image they end with both OCR commands do, every
  // thumbnail is drawn, and the dimensions can be read.
  lemma EverythingOkIff(r: Request, before: map<string, string>, a: Answer)
    requires IsAnswerTo(r, before, a) && r.strategy.Everything?
    ensures a.status.StatusOK? <==>
            var steps := Steps(r.tools, r.limit, r.image);
            && steps.Some?
            && var contents := steps.value.contents;
               && (forall ocr :: ocr in [r.tools.meme, r.tools.standard] ==>
                     var picture := ocr.gm(contents);
                     picture.Some? && ocr.tesseract(picture.value).Some?)
               && (forall k :: 0 <= k < |r.thumbs| ==>
                     var square := r.tools.thumb(r.thumbs[k].name, steps.value.mime)(contents);
                     square.Some? && (r.thumbs[k].circle ==> r.tools.round(r.thumbs[k].name)(square.value).Some?))
               && r.tools.decodes(contents)
  {
    var steps := Steps(r.tools, r.limit, r.image);
    if steps.Some? {
      DrawableIff(r.thumbs, r.tools, steps.value.mime, steps.value.contents);
      HearsIff(r.tools.meme, r.tools.standard, steps.value.contents);
      assert r.tools.meme in [r.tools.meme, r.tools.standard] && r.tools.standard in [r.tools.meme, r.tools.standard];
    }
    hide Steps, Drawable, DrawingsOf, Hears;
  }

  // ---------- What a 200 has stored ----------

  // The type of the image a request ends with: a PNG over the limit has become a JPEG.
  lemma TypeOf(r: Request, before: map<string, string>, a: Answer)
    requires IsAnswerTo(r, before, a) && a.status.StatusOK?
    ensures a.mime == if r.strategy.Everything? && r.image.mime == "image/png" && |r.image.contents| > r.limit
                      then "image/jpeg" else r.image.mime
  {
    if r.strategy.Everything? {
      StepsType(r.tools, r.limit, r.image);
    }
  }

  lemma StepsType(tools: Tools, limit: int, image: Image)
    requires Steps(tools, limit, image).Some?
    ensures Steps(tools, limit, image).value.mime ==
            if image.mime == "image/png" && |image.contents| > limit then "image/jpeg" else image.mime
  {
    PreparedKeepsMime(tools, image);
    if |image.contents| > limit {
      var prepared := Prepared(tools, image).value;
      if image.mime == "image/png" {
        ImageScaler.OthersAreScaledIff(tools, limit, prepared);
      } else {
        StepsKeepTheLimit(tools, limit, image);
        var n := ImageScaler.ScaledJpegFits(tools, limit, prepared);
      }
    }
  }

  // The stored original is the upload itself, or what the sequential steps make of it.
  lemma StoredOriginal(r: Request, before: map<string, string>, a: Answer)
    requires IsAnswerTo(r, before, a) && a.status.StatusOK? && ProperRequest(r)
    ensures r.hash in a.after && a.size == |a.after[r.hash]|
    ensures if !r.strategy.Everything? then a.after[r.hash] == r.image.contents && a.mime == r.image.mime
            else var steps := Steps(r.tools, r.limit, r.image);
                 steps.Some? && a.after[r.hash] == steps.value.contents && a.mime == steps.value.mime
  {
    OkMeansStored(r.strategy, r.tools, r.limit, r.image, r.thumbs, r.hash, before);
    hide Steps, AfterUpload, Picture, DrawingsOf, Drawable, Recognised;
  }

  // Within the limit: a JPEG is stored oriented, optimised and stripped of its metadata, a PNG
  // oriented and optimised, a GIF oriented; nothing else is accepted.
  lemma WithinLimitStores(r: Request, before: map<string, string>, a: Answer)
    requires IsAnswerTo(r, before, a) && a.status.StatusOK? && ProperRequest(r)
    requires r.strategy.Everything? && |r.image.contents| <= r.limit
    ensures r.hash in a.after && r.image.mime in {"image/jpeg", "image/jpg", "image/png", "image/gif"}
    ensures var oriented := r.tools.orient(r.image.contents);
            && oriented.Some?
            && if r.image.mime == "image/png" then r.tools.optipng(oriented.value) == Some(a.after[r.hash])
               else if r.image.mime == "image/gif" then oriented == Some(a.after[r.hash])
               else
                 var optimised := r.tools.jpegtran(oriented.value);
                 optimised.Some? && r.tools.exiftool(optimised.value) == Some(a.after[r.hash])
  {
    StoredOriginal(r, before, a);
    StepsByType(r.tools, r.limit, r.image);
    hide Steps, IsAnswerTo, ProperRequest;
  }

  // The three laws of the steps, whichever type applies.
  lemma StepsByType(tools: Tools, limit: int, image: Image)
    requires Steps(tools, limit, image).Some?
    ensures image.mime in {"image/jpeg", "image/jpg", "image/png", "image/gif"}
    ensures var steps, oriented := Steps(tools, limit, image), tools.orient(image.contents);
            && oriented.Some?
            && if image.mime == "image/png" then
                 var optimised := tools.optipng(oriented.value);
                 && optimised.Some?
                 && steps == if |image.contents| <= limit
                             then Some(Image(image.path + "_ort" + "_opi", image.mime, optimised.value))
                             else ImageScaler.Scaled(tools, limit, Image(image.path + "_ort" + "_opi", image.mime,
                                                                         optimised.value))
               else if image.mime == "image/gif" then
                 |image.contents| <= limit && steps == Some(Image(image.path + "_ort", image.mime, oriented.value))
               else
                 var optimised := tools.jpegtran(oriented.value);
                 && optimised.Some?
                 && var stripped := tools.exiftool(optimised.value);
                    && stripped.Some?
                    && steps == if |image.contents| <= limit
                                then Some(Image(image.path + "_ort" + "_opti", image.mime, stripped.value))
                                else ImageScaler.Scaled(tools, limit, Image(image.path + "_ort" + "_opti", image.mime,
                                                                            stripped.value))
  {
    if image.mime == "image/png" {
      PngStepsIff(tools, limit, image);
    } else if image.mime == "image/jpeg" || image.mime == "image/jpg" {
      JpegStepsIff(tools, limit, image);
    } else {
      OtherStepsIff(tools, limit, image);
    }
    hide Steps;
  }

  // Over the limit: the JPEG that the upload has been made into is stored at quality 90 if that
  // is small enough, or at quality 70 of that, or at the end of a trail of resizes.
  lemma OverLimitStores(r: Request, before: map<string, string>, a: Answer) returns (jpeg: string)
    requires IsAnswerTo(r, before, a) && a.status.StatusOK? && ProperRequest(r)
    requires r.strategy.Everything? && |r.image.contents| > r.limit
    ensures r.hash in a.after && r.image.mime in {"image/jpeg", "image/jpg", "image/png"}
    ensures MadeIntoJpeg(r.tools, r.image, jpeg) && CutDown(r.tools, r.limit, jpeg, a.after[r.hash])
  {
    StoredOriginal(r, before, a);
    jpeg := StepsCutDown(r.tools, r.limit, r.image);
    hide Steps, IsAnswerTo, ProperRequest, MadeIntoJpeg, CutDown;
  }

  // From JPEG: oriented, optimised, stripped.  From PNG: oriented, optimised, converted.
  ghost predicate MadeIntoJpeg(tools: Tools, image: Image, jpeg: string) {
    var oriented := tools.orient(image.contents);
    && oriented.Some?
    && var optimised := if image.mime == "image/png" then tools.optipng(oriented.value)
                        else tools.jpegtran(oriented.value);
       && optimised.Some?
       && Some(jpeg) == if image.mime == "image/png" then tools.jpeg(optimised.value)
                        else tools.exiftool(optimised.value)
  }

  ghost predicate CutDown(tools: Tools, limit: int, jpeg: string, stored: string) {
    var q90 := tools.quality(90)(jpeg);
    && |stored| < limit
    && q90.Some?
    && if |q90.value| < limit then stored == q90.value
       else
         var q70 := tools.quality(70)(q90.value);
         && q70.Some?
         && if |q70.value| < limit then stored == q70.value
            else
              var excess := |q70.value| - limit;
              var start := if excess >= 15 * 1024 * 1024 then 30
                           else if excess >= 10 * 1024 * 1024 then 40
                           else if excess >= 5 * 1024 * 1024 then 60
                           else 90;
              exists trail :: ImageScaler.IsTrail(tools, q70.value, start, limit, trail)
                              && stored == trail[|trail| - 1]
  }

  lemma ScaledCutsDown(tools: Tools, limit: int, image: Image)
    requires (image.mime == "image/jpeg" || image.mime == "image/jpg") && ImageScaler.Scaled(tools, limit, image).Some?
    ensures CutDown(tools, limit, image.contents, ImageScaler.Scaled(tools, limit, image).value.contents)
  {
    ImageScaler.JpegIsScaledIff(tools, limit, image);
    var n := ImageScaler.ScaledFits(tools, limit, image);
    hide ImageScaler.Scaled, ImageScaler.IsTrail;
  }

  lemma StepsCutDown(tools: Tools, limit: int, image: Image) returns (jpeg: string)
    requires Steps(tools, limit, image).Some? && |image.contents| > limit
    ensures image.mime in {"image/jpeg", "image/jpg", "image/png"}
    ensures MadeIntoJpeg(tools, image, jpeg)
    ensures CutDown(tools, limit, jpeg, Steps(tools, limit, image).value.contents)
  {
    StepsByType(tools, limit, image);
    hide Steps, CutDown;
    var oriented := tools.orient(image.contents).value;
    if image.mime == "image/png" {
      var optimised := Image(image.path + "_ort" + "_opi", image.mime, tools.optipng(oriented).value);
      ImageScaler.OthersAreScaledIff(tools, limit, optimised);
      jpeg := tools.jpeg(optimised.contents).value;
      ScaledCutsDown(tools, limit, Image(optimised.path + "_jpg", "image/jpeg", jpeg));
    } else {
      jpeg := tools.exiftool(tools.jpegtran(oriented).value).value;
      ScaledCutsDown(tools, limit, Image(image.path + "_ort" + "_opti", image.mime, jpeg));
    }
  }

  // No stored JPEG has what exiftool removes, if scaling does not bring it back.
  lemma StoredIsStripped(r: Request, before: map<string, string>, a: Answer, p: string -> bool)
    requires IsAnswerTo(r, before, a) && a.status.StatusOK? && ProperRequest(r) && r.strategy.Everything?
    requires r.image.mime == "image/jpeg" || r.image.mime == "image/jpg"
    requires MakesAlways(r.tools.exiftool, p) && ScalingPreserves(r.tools, p)
    ensures r.hash in a.after && p(a.after[r.hash])
  {
    StoredOriginal(r, before, a);
    MetadataIsStripped(r.tools, r.limit, r.image, p);
  }

  // Under hash, slash, name is what the command for that name and the stored image's type makes
  // of the stored image; for a circle, what the second command makes of that.
  lemma StoredThumbs(r: Request, before: map<string, string>, a: Answer)
    requires IsAnswerTo(r, before, a) && a.status.StatusOK? && ProperRequest(r)
    ensures r.hash in a.after
    ensures forall k :: 0 <= k < |r.thumbs| ==>
              var name, key := r.thumbs[k].name, r.hash + "/" + r.thumbs[k].name;
              var square := r.tools.thumb(name, a.mime)(a.after[r.hash]);
              && key in a.after && square.Some?
              && Some(a.after[key]) == if r.thumbs[k].circle then r.tools.round(name)(square.value) else square
  {
    OkMeansStored(r.strategy, r.tools, r.limit, r.image, r.thumbs, r.hash, before);
    hide Steps, AfterUpload, DrawingsOf, Drawable, Recognised;
  }

  // Whatever the shape: if every square made satisfies s, and rounding takes s to r, then the
  // stored squares satisfy s and the stored circles r.
  lemma StoredShapes(r: Request, before: map<string, string>, a: Answer, square: string -> bool, disc: string -> bool)
    requires IsAnswerTo(r, before, a) && a.status.StatusOK? && ProperRequest(r)
    requires forall name :: MakesAlways(r.tools.thumb(name, a.mime), square)
    requires forall name, x :: square(x) && r.tools.round(name)(x).Some? ==> disc(r.tools.round(name)(x).value)
    ensures forall k :: 0 <= k < |r.thumbs| ==>
              var key := r.hash + "/" + r.thumbs[k].name;
              key in a.after && if r.thumbs[k].circle then disc(a.after[key]) else square(a.after[key])
  {
    StoredThumbs(r, before, a);
    hide IsAnswerTo, ProperRequest;
    forall k | 0 <= k < |r.thumbs| ensures MakesAlways(r.tools.thumb(r.thumbs[k].name, a.mime), square) {
    }
  }

  // A request that is answered 500 and has changed the store has stored an original whose
  // dimensions cannot be read, or was asked for thumbnails by a strategy that makes none.
  lemma FailedYetStored(r: Request, before: map<string, string>, a: Answer)
    requires IsAnswerTo(r, before, a) && !a.status.StatusOK? && a.after != before && ProperRequest(r)
    ensures r.hash in a.after
    ensures !r.tools.decodes(a.after[r.hash]) || (r.strategy.Passthrough? && r.thumbs != [])
  {
    if CommandsSucceed(r.strategy, r.tools, r.limit, r.image, r.thumbs) {
      OriginalOf(r, before);
    }
    hide Steps, DrawingsOf, Drawable, Recognised, WithThumbs;
  }

  lemma OriginalOf(r: Request, before: map<string, string>)
    requires ProperRequest(r) && CommandsSucceed(r.strategy, r.tools, r.limit, r.image, r.thumbs)
    ensures var after := AfterUpload(r.strategy, r.tools, r.limit, r.image, r.thumbs, r.hash, before);
            && r.hash in after
            && after[r.hash] == Processed(r.strategy, r.tools, r.limit, r.image).value.contents
  {
    hide Steps, Picture, Recognised;
    if !r.strategy.Passthrough? {
      var processed := Processed(r.strategy, r.tools, r.limit, r.image).value;
      var saved := before[r.hash := processed.contents];
      var pictures := Pictures(DrawingsOf(r.thumbs, r.tools, processed.mime), processed.contents);
      ThumbsReadBack(saved, r.hash, ThumbNames(r.thumbs), pictures, |r.thumbs|);
      assert SameAt(saved, WithThumbs(saved, r.hash, ThumbNames(r.thumbs), pictures, |r.thumbs|), r.hash);
    }
  }

  // No other key is touched, whatever the answer.
  lemma NothingElseChanges(r: Request, before: map<string, string>, a: Answer, key: string)
    requires IsAnswerTo(r, before, a) && ProperRequest(r)
    requires key != r.hash && forall k :: 0 <= k < |r.thumbs| ==> key != r.hash + "/" + r.thumbs[k].name
    ensures (key in a.after <==> key in before) && (key in before ==> a.after[key] == before[key])
  {
    assert NoThumbKey(r.hash, ThumbNames(r.thumbs), |r.thumbs|, key);
    OtherKeysAreKept(r.strategy, r.tools, r.limit, r.image, r.thumbs, r.hash, before, key);
    hide AfterUpload, AnsweredOk;
  }

  // ---------- The text of a 200 ----------

  // Of the two texts that tesseract reads off the two pictures made of the stored image, each
  // trimmed, lower-cased and filtered, the one with more words; either, when they have equally
  // many.
  lemma TextIs(r: Request, before: map<string, string>, a: Answer) returns (meme: string, standard: string)
    requires IsAnswerTo(r, before, a) && a.status.StatusOK? && ProperRequest(r) && r.strategy.Everything?
    ensures r.hash in a.after
    ensures var picture := r.tools.meme.gm(a.after[r.hash]);
            picture.Some? && r.tools.meme.tesseract(picture.value) == Some(meme)
    ensures var picture := r.tools.standard.gm(a.after[r.hash]);
            picture.Some? && r.tools.standard.tesseract(picture.value) == Some(standard)
    ensures var first := OcrText.Filtered(r.speller, r.tools.meme.lower(OcrText.TrimSpace(meme)));
            var second := OcrText.Filtered(r.speller, r.tools.standard.lower(OcrText.TrimSpace(standard)));
            && a.ocrText in {first, second}
            && (MultiOcr.WordsIn(first) > MultiOcr.WordsIn(second) ==> a.ocrText == first)
            && (MultiOcr.WordsIn(second) > MultiOcr.WordsIn(first) ==> a.ocrText == second)
  {
    StoredOriginal(r, before, a);
    meme, standard := OcrTextIs(r.tools, r.speller, a.after[r.hash], a.ocrText);
    hide Steps, AfterUpload, OcrText.Filtered, Recognised, CommandsSucceed, MultiOcr.WordsIn, IsOcrText;
  }

  lemma OcrTextIs(tools: Tools, speller: Option<OcrText.Speller>, original: string, text: string)
      returns (meme: string, standard: string)
    requires IsOcrText(tools, speller, original, text)
    ensures var picture := tools.meme.gm(original);
            picture.Some? && tools.meme.tesseract(picture.value) == Some(meme)
    ensures var picture := tools.standard.gm(original);
            picture.Some? && tools.standard.tesseract(picture.value) == Some(standard)
    ensures var first := OcrText.Filtered(speller, tools.meme.lower(OcrText.TrimSpace(meme)));
            var second := OcrText.Filtered(speller, tools.standard.lower(OcrText.TrimSpace(standard)));
            && text in {first, second}
            && (MultiOcr.WordsIn(first) > MultiOcr.WordsIn(second) ==> text == first)
            && (MultiOcr.WordsIn(second) > MultiOcr.WordsIn(first) ==> text == second)
  {
    meme := tools.meme.tesseract(tools.meme.gm(original).value).value;
    standard := tools.standard.tesseract(tools.standard.gm(original).value).value;
    var first := tools.meme.lower(OcrText.TrimSpace(meme));
    var second := tools.standard.lower(OcrText.TrimSpace(standard));
    MultiOcr.BetterIsWordier(speller, first, second);
    MultiOcr.BetterIsWordier(speller, second, first);
    hide OcrText.Filtered, MultiOcr.BetterOf, MultiOcr.WordsIn;
  }
}
