/** Server.uploadFile and buildThumbResponse over an in-memory store, from the point where the
    upload's temporary file has been recognised as an image.
 */
module Server {
  import opened Wrappers
  import opened Commands
  import opened Files
  import opened UploadedFile
  import opened ImageProcessor
  import opened MemoryStore
  import opened KeySpace
  import HashGenerator
  import OcrText
  import ParallelStage
  import Pigeonhole

  datatype Status = StatusOK | StatusInternalServerError

  // ---------- The specification ----------

  // The store after the first n thumbnails have been saved one by one under hash/name.
  function WithThumbs(files: map<string, string>, hash: string, names: seq<string>, pictures: seq<string>, n: nat)
      : map<string, string>
    requires n <= |names| && |names| == |pictures|
  {
    if n == 0 then files
    else WithThumbs(files, hash, names, pictures, n - 1)[ThumbKey(hash, names[n - 1]) := pictures[n - 1]]
  }

  lemma OneMoreThumb(files: map<string, string>, hash: string, names: seq<string>, pictures: seq<string>, n: nat)
    requires n < |names| && |names| == |pictures|
    ensures WithThumbs(files, hash, names, pictures, n + 1)
         == WithThumbs(files, hash, names, pictures, n)[ThumbKey(hash, names[n]) := pictures[n]]
  {
  }

  lemma ThumbKeysDiffer(hash: string, a: string, b: string)
    ensures ThumbKey(hash, a) == ThumbKey(hash, b) ==> a == b
  {
    assert ThumbKey(hash, a)[|hash| + 1..] == a;
    assert ThumbKey(hash, b)[|hash| + 1..] == b;
  }

  // Each thumbnail reads back under its own key, and no other key is touched; the original,
  // whose key is a hash, least of all.
  lemma {:induction false} ThumbsReadBack(files: map<string, string>, hash: string, names: seq<string>,
                                          pictures: seq<string>, n: nat)
    requires n <= |names| && |names| == |pictures| && ParallelStage.AllDifferent(names)
    ensures forall k :: 0 <= k < n ==>
              && ThumbKey(hash, names[k]) in WithThumbs(files, hash, names, pictures, n)
              && WithThumbs(files, hash, names, pictures, n)[ThumbKey(hash, names[k])] == pictures[k]
    ensures forall key :: NoThumbKey(hash, names, n, key) ==>
              SameAt(files, WithThumbs(files, hash, names, pictures, n), key)
    ensures forall key :: HashGenerator.IsHash(key) ==> SameAt(files, WithThumbs(files, hash, names, pictures, n), key)
  {
    if n > 0 {
      ThumbsReadBack(files, hash, names, pictures, n - 1);
      ThumbKeyIsNoHash(hash, names[n - 1]);
      forall k | 0 <= k < n - 1 ensures ThumbKey(hash, names[k]) != ThumbKey(hash, names[n - 1]) {
        ThumbKeysDiffer(hash, names[k], names[n - 1]);
      }
      forall key | NoThumbKey(hash, names, n, key)
        ensures SameAt(files, WithThumbs(files, hash, names, pictures, n), key)
      {
        assert NoThumbKey(hash, names, n - 1, key) && key != ThumbKey(hash, names[n - 1]);
      }
    }
  }

  predicate NoThumbKey(hash: string, names: seq<string>, n: nat, key: string)
    requires n <= |names|
  {
    forall k :: 0 <= k < n ==> key != ThumbKey(hash, names[k])
  }

  predicate SameAt(before: map<string, string>, after: map<string, string>, key: string) {
    (key in after <==> key in before) && (key in before ==> after[key] == before[key])
  }

  // The pictures the thumbnails' commands make of an image.
  function Pictures(drawings: seq<Thumb>, original: string): (pictures: seq<string>)
    requires Drawable(drawings, original)
    ensures |pictures| == |drawings|
    ensures forall k :: 0 <= k < |drawings| ==> Picture(drawings[k], original) == Some(pictures[k])
  {
    seq(|drawings|, k requires 0 <= k < |drawings| => Picture(drawings[k], original).value)
  }

  // What a request makes of the store, whether or not it is answered with an error later: the
  // processed image under its hash and each picture under hash/name, once every command has
  // succeeded.  A strategy that makes no thumbnails stores none.
  ghost function AfterUpload(strategy: Strategy, tools: Tools, limit: int, image: Image, thumbs: seq<ThumbFile>,
                             hash: string, files: map<string, string>): map<string, string>
  {
    if !CommandsSucceed(strategy, tools, limit, image, thumbs) then files
    else
      var processed := Processed(strategy, tools, limit, image).value;
      var saved := files[hash := processed.contents];
      if strategy.Passthrough? then saved
      else
        var pictures := Pictures(DrawingsOf(thumbs, tools, processed.mime), processed.contents);
        WithThumbs(saved, hash, ThumbNames(thumbs), pictures, |thumbs|)
  }

  // A request is answered 200 exactly when every command succeeds, there is a file for every
  // thumbnail asked for, and the processed image's dimensions can be read.
  ghost predicate AnsweredOk(strategy: Strategy, tools: Tools, limit: int, image: Image, thumbs: seq<ThumbFile>) {
    && CommandsSucceed(strategy, tools, limit, image, thumbs)
    && (strategy.Passthrough? ==> thumbs == [])
    && tools.decodes(Processed(strategy, tools, limit, image).value.contents)
  }

  // The response lists exactly the requested thumbnails.  The in-memory store leaves URLs empty.
  ghost predicate Answered(response: map<string, string>, names: seq<string>) {
    && (forall name :: name in response <==> name in names)
    && (forall name :: name in response ==> response[name] == "")
  }

  ghost predicate AnsweredUpTo(response: map<string, string>, names: seq<string>, n: nat)
    requires n <= |names|
  {
    Answered(response, names[..n])
  }

  lemma AnsweredOneMore(response: map<string, string>, names: seq<string>, n: nat)
    requires n < |names| && AnsweredUpTo(response, names, n)
    ensures AnsweredUpTo(response[names[n] := ""], names, n + 1)
  {
    assert names[..n + 1] == names[..n] + [names[n]];
  }

  lemma AnsweredAll(response: map<string, string>, names: seq<string>)
    requires AnsweredUpTo(response, names, |names|)
    ensures Answered(response, names)
  {
    assert names[..|names|] == names;
  }

  // What a 200 promises, read off the specification: the original reads back under its hash as
  // the processed bytes; each thumbnail reads back under hash/name as the picture its commands
  // make of those very bytes; an upload over the limit was cut below it.
  lemma OkMeansStored(strategy: Strategy, tools: Tools, limit: int, image: Image, thumbs: seq<ThumbFile>,
                      hash: string, files: map<string, string>)
    requires AnsweredOk(strategy, tools, limit, image, thumbs) && HashGenerator.IsHash(hash)
    requires ParallelStage.AllDifferent(ThumbNames(thumbs))
    ensures var processed := Processed(strategy, tools, limit, image).value;
            var after := AfterUpload(strategy, tools, limit, image, thumbs, hash, files);
            && hash in after && after[hash] == processed.contents
            && (forall k :: 0 <= k < |thumbs| ==>
                  && ThumbKey(hash, thumbs[k].name) in after
                  && Picture(DrawingOf(thumbs[k], tools, processed.mime), processed.contents)
                     == Some(after[ThumbKey(hash, thumbs[k].name)]))
            && (strategy.Everything? && |image.contents| > limit ==>
                  |processed.contents| < limit && JpegMime(processed.mime) && !GifMime(image.mime))
  {
    hide Steps, Picture, Recognised;
    var processed := Processed(strategy, tools, limit, image).value;
    var saved := files[hash := processed.contents];
    if !strategy.Passthrough? {
      var pictures := Pictures(DrawingsOf(thumbs, tools, processed.mime), processed.contents);
      ThumbsReadBack(saved, hash, ThumbNames(thumbs), pictures, |thumbs|);
      assert SameAt(saved, WithThumbs(saved, hash, ThumbNames(thumbs), pictures, |thumbs|), hash);
    }
    if strategy.Everything? {
      StepsKeepTheLimit(tools, limit, image);
    }
  }

  // Whatever the answer, only the hash and the keys of the requested thumbnails can change.
  lemma OtherKeysAreKept(strategy: Strategy, tools: Tools, limit: int, image: Image, thumbs: seq<ThumbFile>,
                         hash: string, files: map<string, string>, key: string)
    requires ParallelStage.AllDifferent(ThumbNames(thumbs))
    requires key != hash && NoThumbKey(hash, ThumbNames(thumbs), |thumbs|, key)
    ensures SameAt(files, AfterUpload(strategy, tools, limit, image, thumbs, hash, files), key)
  {
    hide Steps, Picture, Recognised;
    if CommandsSucceed(strategy, tools, limit, image, thumbs) && !strategy.Passthrough? {
      var processed := Processed(strategy, tools, limit, image).value;
      var pictures := Pictures(DrawingsOf(thumbs, tools, processed.mime), processed.contents);
      ThumbsReadBack(files[hash := processed.contents], hash, ThumbNames(thumbs), pictures, |thumbs|);
    }
  }

  // The saves of one upload as steps of the key space machine.
  function ThumbSaves(hash: string, names: seq<string>, pictures: seq<string>, n: nat): seq<KeySpace.Action>
    requires n <= |names| && |names| == |pictures|
  {
    if n == 0 then []
    else ThumbSaves(hash, names, pictures, n - 1) + [SaveThumb(hash, names[n - 1], pictures[n - 1])]
  }

  lemma {:induction false} ThumbSavesAreSteps(s: KeySpace.State, hash: string, names: seq<string>,
                                              pictures: seq<string>, n: nat)
    requires n <= |names| && |names| == |pictures| && hash in s.files
    ensures var run := ThumbSaves(hash, names, pictures, n);
            && KeySpace.Legal(s, run) && NoRedraw(s, run)
            && KeySpace.Exec(s, run) == s.(files := WithThumbs(s.files, hash, names, pictures, n))
            && hash in WithThumbs(s.files, hash, names, pictures, n)
  {
    if n > 0 {
      ThumbSavesAreSteps(s, hash, names, pictures, n - 1);
      KeySpace.RunThen(s, ThumbSaves(hash, names, pictures, n - 1), SaveThumb(hash, names[n - 1], pictures[n - 1]));
    }
  }

  lemma UploadIsARunWith(s: KeySpace.State, hash: string, processed: string, names: seq<string>, pictures: seq<string>)
    requires hash in s.inFlight && |names| == |pictures|
    ensures var run := [SaveOriginal(hash, processed)] + ThumbSaves(hash, names, pictures, |names|);
            && KeySpace.Legal(s, run) && NoRedraw(s, run)
            && KeySpace.Exec(s, run).files == WithThumbs(s.files[hash := processed], hash, names, pictures, |names|)
  {
    var saved := KeySpace.Step(s, SaveOriginal(hash, processed));
    ThumbSavesAreSteps(saved, hash, names, pictures, |names|);
    KeySpace.Unroll(s, SaveOriginal(hash, processed), ThumbSaves(hash, names, pictures, |names|));
  }

  // What a request makes of the store is a run of the key space machine: nothing, or the
  // original saved by the upload that holds the hash and then thumbnails under it.
  lemma UploadIsARun(strategy: Strategy, tools: Tools, limit: int, image: Image, thumbs: seq<ThumbFile>, hash: string,
                     s: KeySpace.State) returns (run: seq<KeySpace.Action>)
    requires hash in s.inFlight
    ensures KeySpace.Legal(s, run) && NoRedraw(s, run)
    ensures KeySpace.Exec(s, run).files == AfterUpload(strategy, tools, limit, image, thumbs, hash, s.files)
    ensures if CommandsSucceed(strategy, tools, limit, image, thumbs)
            then run != [] && run[0] == SaveOriginal(hash, Processed(strategy, tools, limit, image).value.contents)
            else run == []
    ensures forall k :: 1 <= k < |run| ==> run[k].SaveThumb? && run[k].owner == hash
  {
    hide Steps, Picture, Recognised;
    run := [];
    if CommandsSucceed(strategy, tools, limit, image, thumbs) {
      var processed := Processed(strategy, tools, limit, image).value;
      var names: seq<string>, pictures: seq<string> := [], [];
      if !strategy.Passthrough? {
        names := ThumbNames(thumbs);
        pictures := Pictures(DrawingsOf(thumbs, tools, processed.mime), processed.contents);
      }
      UploadIsARunWith(s, hash, processed.contents, names, pictures);
      SavesAreThumbs(hash, names, pictures, |names|);
      run := [SaveOriginal(hash, processed.contents)] + ThumbSaves(hash, names, pictures, |names|);
    }
  }

  lemma {:induction false} SavesAreThumbs(hash: string, names: seq<string>, pictures: seq<string>, n: nat)
    requires n <= |names| && |names| == |pictures|
    ensures forall a :: a in ThumbSaves(hash, names, pictures, n) ==> a.SaveThumb? && a.owner == hash
  {
    if n > 0 {
      SavesAreThumbs(hash, names, pictures, n - 1);
    }
  }

  // So a request that holds its hash alone leaves every stored original as it was.
  lemma UploadKeepsOriginals(strategy: Strategy, tools: Tools, limit: int, image: Image, thumbs: seq<ThumbFile>,
                             hash: string, s: KeySpace.State, id: string)
    requires KeySpace.Inv(s) && hash in s.inFlight && id in s.originals
    ensures var after := AfterUpload(strategy, tools, limit, image, thumbs, hash, s.files);
            id in after && after[id] == s.originals[id]
  {
    var run := UploadIsARun(strategy, tools, limit, image, thumbs, hash, s);
    KeySpace.RunKeepsInv(s, run);
  }

  // ---------- The code ----------

  method ReadFile(fs: FileSystem, path: string) returns (contents: Option<string>)
    ensures contents == if path in fs.files then Some(fs.files[path]) else None
  {
    contents := if path in fs.files then Some(fs.files[path]) else None;
  }

  // If thumbnail k has a file, it holds pictures[k].
  ghost predicate Hold(upload: Upload, pictures: seq<string>)
    reads upload`thumbs, upload.fs, upload.thumbs
  {
    && |pictures| == |upload.thumbs|
    && forall k :: 0 <= k < |pictures| && upload.thumbs[k].localPath in upload.fs.files ==>
         upload.fs.files[upload.thumbs[k].localPath] == pictures[k]
  }

  // The first n thumbnails have files.
  ghost predicate HaveFiles(upload: Upload, n: nat)
    reads upload`thumbs, upload.fs, upload.thumbs
  {
    forall k :: 0 <= k < n && k < |upload.thumbs| ==> upload.thumbs[k].localPath in upload.fs.files
  }

  // Saves every thumbnail under hash/name, stopping at the first without a file; those before
  // it have been saved.
  method BuildThumbResponse(upload: Upload, store: InMemoryImageStore, ghost pictures: seq<string>)
      returns (ok: bool, response: map<string, string>, ghost saved: nat)
    requires Hold(upload, pictures)
    modifies store
    ensures saved <= |upload.thumbs| && HaveFiles(upload, saved)
    ensures ok <==> saved == |upload.thumbs|
    ensures !ok ==> upload.thumbs[saved].localPath !in upload.fs.files
    ensures store.files == WithThumbs(old(store.files), upload.hash, ThumbNames(upload.thumbs), pictures, saved)
    ensures ok ==> Answered(response, ThumbNames(upload.thumbs))
  {
    var thumbs, names := upload.thumbs, ThumbNames(upload.thumbs);
    ok, response, saved := true, map[], 0;
    assert AnsweredUpTo(response, names, 0);
    assert WithThumbs(store.files, upload.hash, names, pictures, 0) == store.files;
    hide WithThumbs, Answered, AnsweredUpTo, ThumbKey, ThumbNames;
    for i := 0 to |thumbs|
      invariant saved == i && HaveFiles(upload, i)
      invariant store.files == WithThumbs(old(store.files), upload.hash, names, pictures, i)
      invariant AnsweredUpTo(response, names, i)
    {
      OneMoreThumb(old(store.files), upload.hash, names, pictures, i);
      AnsweredOneMore(response, names, i);
      var t := thumbs[i];
      var src := ReadFile(upload.fs, t.localPath);
      ok := store.Save(src, ThumbKey(upload.hash, t.name));
      if !ok {
        return;
      }
      saved := saved + 1;
      response := response[t.name := ""];
    }
    AnsweredAll(response, names);
  }

  // Saving the processed image and its thumbnails, and answering.
  method StoreUpload(upload: Upload, tools: Tools, store: InMemoryImageStore, hash: string, ghost pictures: seq<string>)
      returns (status: Status, size: nat, response: map<string, string>, ghost saved: nat)
    requires Hold(upload, pictures)
    modifies upload`hash, store
    ensures upload.hash == hash
    ensures upload.path !in upload.fs.files ==> status.StatusInternalServerError? && store.files == old(store.files)
    ensures upload.path in upload.fs.files ==>
              && saved <= |upload.thumbs| && HaveFiles(upload, saved)
              && (saved < |upload.thumbs| ==> upload.thumbs[saved].localPath !in upload.fs.files)
              && store.files == WithThumbs(old(store.files)[hash := upload.fs.files[upload.path]], hash,
                                           ThumbNames(upload.thumbs), pictures, saved)
              && (status.StatusOK? <==> saved == |upload.thumbs| && tools.decodes(upload.fs.files[upload.path]))
    ensures status.StatusOK? ==>
              size == |upload.fs.files[upload.path]| && Answered(response, ThumbNames(upload.thumbs))
  {
    hide WithThumbs, Answered, HaveFiles, ThumbNames;
    status, size, response, saved := StatusInternalServerError, 0, map[], 0;
    upload.hash := hash;
    var src := ReadFile(upload.fs, upload.path);
    var ok := store.Save(src, hash);
    if !ok {
      return;
    }
    ok, response, saved := BuildThumbResponse(upload, store, pictures);
    if !ok {
      return;
    }
    var err;
    size, err := upload.FileSize();
    if err || !tools.decodes(src.value) {
      return;
    }
    status := StatusOK;
  }

  // An upload as it comes from NewUploadedFile and parseThumbs: one temporary file, and
  // thumbnails with proper names and no files yet.
  ghost predicate Fresh(upload: Upload)
    reads upload, upload.fs, upload.thumbs
  {
    && upload.path != "" && "" !in upload.fs.files && upload.Sole(upload.path)
    && Requested(upload.thumbs)
  }

  // The pictures a successful run has left in the thumbnails' files; the passthrough strategy
  // leaves none.
  function PicturesFor(strategy: Strategy, tools: Tools, processed: Image, thumbs: seq<ThumbFile>)
      : (pictures: seq<string>)
    requires !strategy.Passthrough? ==> Drawable(DrawingsOf(thumbs, tools, processed.mime), processed.contents)
    ensures |pictures| == |thumbs|
  {
    if strategy.Passthrough? then seq(|thumbs|, _ => "")
    else Pictures(DrawingsOf(thumbs, tools, processed.mime), processed.contents)
  }

  // No thumbnail has a file.
  ghost predicate NoFiles(upload: Upload)
    reads upload`thumbs, upload.fs, upload.thumbs
  {
    forall k :: 0 <= k < |upload.thumbs| ==> upload.thumbs[k].localPath !in upload.fs.files
  }

  // After a successful strategy each thumbnail's file holds its picture, and either all of
  // them have a file or, under the passthrough strategy, none has.
  lemma ReadyToStore(upload: Upload, strategy: Strategy, tools: Tools, root: string)
    requires strategy.Passthrough? ==>
               "" !in upload.fs.files && forall k :: 0 <= k < |upload.thumbs| ==> upload.thumbs[k].localPath == ""
    requires !strategy.Passthrough? ==>
               && Developed(upload, tools, root)
               && Drawable(DrawingsOf(upload.thumbs, tools, upload.mime), upload.Now().contents)
    ensures Hold(upload, PicturesFor(strategy, tools, upload.Now(), upload.thumbs))
    ensures if strategy.Passthrough? then NoFiles(upload) else HaveFiles(upload, |upload.thumbs|)
  {
    hide Picture, ParallelStage.Beside;
    var drawings := DrawingsOf(upload.thumbs, tools, upload.mime);
    if !strategy.Passthrough? {
      forall k | 0 <= k < |upload.thumbs|
        ensures upload.thumbs[k].localPath in upload.fs.files
        ensures upload.fs.files[upload.thumbs[k].localPath]
             == PicturesFor(strategy, tools, upload.Now(), upload.thumbs)[k]
      {
        assert drawings[k].name == upload.thumbs[k].name;
      }
    }
  }

  // Where BuildThumbResponse stops.
  lemma StopsAt(upload: Upload, saved: nat)
    requires saved <= |upload.thumbs| && HaveFiles(upload, saved)
    requires saved < |upload.thumbs| ==> upload.thumbs[saved].localPath !in upload.fs.files
    ensures HaveFiles(upload, |upload.thumbs|) ==> saved == |upload.thumbs|
    ensures NoFiles(upload) ==> saved == 0
  {
    assert saved > 0 ==> upload.thumbs[0].localPath in upload.fs.files;
  }

  lemma StoredAsSpecified(strategy: Strategy, tools: Tools, limit: int, image: Image, thumbs: seq<ThumbFile>,
                          hash: string, before: map<string, string>, saved: nat)
    requires CommandsSucceed(strategy, tools, limit, image, thumbs)
    requires saved == if strategy.Passthrough? then 0 else |thumbs|
    ensures AfterUpload(strategy, tools, limit, image, thumbs, hash, before)
         == WithThumbs(before[hash := Processed(strategy, tools, limit, image).value.contents], hash,
                       ThumbNames(thumbs),
                       PicturesFor(strategy, tools, Processed(strategy, tools, limit, image).value, thumbs), saved)
  {
    hide Processed, Picture, Recognised, Drawable, Pictures;
  }

  // Storing after a successful strategy on what was once `image`.
  method StoreProcessed(upload: Upload, strategy: Strategy, tools: Tools, maxFileSize: int, hash: string,
                        store: InMemoryImageStore, ghost root: string, ghost image: Image)
      returns (status: Status, size: nat, response: map<string, string>)
    requires CommandsSucceed(strategy, tools, maxFileSize, image, upload.thumbs)
    requires Processed(strategy, tools, maxFileSize, image) == Some(upload.Now()) && upload.path in upload.fs.files
    requires strategy.Passthrough? ==>
               "" !in upload.fs.files && forall k :: 0 <= k < |upload.thumbs| ==> upload.thumbs[k].localPath == ""
    requires !strategy.Passthrough? ==> Developed(upload, tools, root)
    modifies upload`hash, store
    ensures upload.hash == hash
    ensures status.StatusOK? <==> AnsweredOk(strategy, tools, maxFileSize, image, upload.thumbs)
    ensures store.files == AfterUpload(strategy, tools, maxFileSize, image, upload.thumbs, hash, old(store.files))
    ensures status.StatusOK? ==> size == |upload.Now().contents| && Answered(response, ThumbNames(upload.thumbs))
  {
    hide WithThumbs, Answered, Processed, HaveFiles, NoFiles, Hold, PicturesFor, AfterUpload, Recognised, Developed;
    hide Drawable, DrawingsOf, ThumbNames;
    ghost var before := store.files;
    ReadyToStore(upload, strategy, tools, root);
    ghost var pictures := PicturesFor(strategy, tools, upload.Now(), upload.thumbs);
    ghost var saved;
    status, size, response, saved := StoreUpload(upload, tools, store, hash, pictures);
    StopsAt(upload, saved);
    StoredAsSpecified(strategy, tools, maxFileSize, image, upload.thumbs, hash, before, saved);
  }

  // A request as it comes, with the hash the generator hands over.
  datatype Request = Request(strategy: Strategy, tools: Tools, limit: int, speller: Option<OcrText.Speller>,
                             image: Image, thumbs: seq<ThumbFile>, hash: string)

  // The answer to a request, the upload's type and text at the end, and the store after it.
  ghost predicate IsAnswer(r: Request, status: Status, size: nat, response: map<string, string>, mime: string,
                           ocrText: string, before: map<string, string>, after: map<string, string>)
  {
    && (status.StatusOK? <==> AnsweredOk(r.strategy, r.tools, r.limit, r.image, r.thumbs))
    && after == AfterUpload(r.strategy, r.tools, r.limit, r.image, r.thumbs, r.hash, before)
    && (status.StatusOK? ==>
          var processed := Processed(r.strategy, r.tools, r.limit, r.image).value;
          && size == |processed.contents| && mime == processed.mime && Answered(response, ThumbNames(r.thumbs))
          && (r.strategy.Everything? ==> IsOcrText(r.tools, r.speller, processed.contents, ocrText)))
  }

  // Everything between NewUploadedFile and the deferred Clean.
  method ProcessAndStore(upload: Upload, strategy: Strategy, tools: Tools, maxFileSize: int,
                         speller: Option<OcrText.Speller>, hash: string, store: InMemoryImageStore, ghost root: string)
      returns (status: Status, size: nat, response: map<string, string>)
    requires Fresh(upload) && root == upload.path
    modifies upload, upload.fs, upload.thumbs, store
    ensures upload.thumbs == old(upload.thumbs)
    ensures IsAnswer(Request(strategy, tools, maxFileSize, speller, old(upload.Now()), upload.thumbs, hash),
                     status, size, response, upload.mime, upload.ocrText, old(store.files), store.files)
    ensures CommandsSucceed(strategy, tools, maxFileSize, old(upload.Now()), upload.thumbs) ==>
              upload.hash == hash && Own(upload.fs.files, root) <= {upload.path} + upload.ThumbPaths()
    ensures Foreign(upload.fs.files, root) == old(Foreign(upload.fs.files, root))
    ensures CleanIsSafe(root, upload.path, upload.ThumbPaths()) && AdoptedOrEmpty(upload.path, upload.thumbs)
    ensures var processed := Processed(strategy, tools, maxFileSize, old(upload.Now()));
            && (processed.None? ==>
                  upload.OneStray(root) && forall k :: 0 <= k < |upload.thumbs| ==> upload.thumbs[k].localPath == "")
            && (processed.Some? ==> processed == Some(upload.Now()))
            && (processed.Some? && !strategy.Passthrough? ==> LeavesSquares(upload, tools))
  {
    hide Own, Foreign, Answered, IsOcrText, CleanIsSafe, Processed, AfterUpload, AnsweredOk, Developed, ThumbNames;
    status, size, response := StatusInternalServerError, 0, map[];
    ghost var image, first := upload.Now(), upload.fs.files;
    var ok := RunStrategy(upload, strategy, tools, maxFileSize, speller, root);
    if ok {
      StillNoEmptyPath(first, upload.fs.files, root);
      status, size, response := StoreProcessed(upload, strategy, tools, maxFileSize, hash, store, root, image);
    } else {
      NothingStored(strategy, tools, maxFileSize, image, upload.thumbs, hash, store.files);
    }
  }

  lemma NothingStored(strategy: Strategy, tools: Tools, limit: int, image: Image, thumbs: seq<ThumbFile>, hash: string,
                      files: map<string, string>)
    requires !CommandsSucceed(strategy, tools, limit, image, thumbs)
    ensures AfterUpload(strategy, tools, limit, image, thumbs, hash, files) == files
    ensures !AnsweredOk(strategy, tools, limit, image, thumbs)
  {
  }

  // The square of each circle that could not be cut out is among these files.
  ghost predicate SquaresRemain(path: string, names: seq<string>, drawings: seq<Thumb>, original: string, files: Tree)
    requires |drawings| == |names|
  {
    forall k :: 0 <= k < |names| && SquareOnly(drawings[k], original) ==> ParallelStage.Beside(path, names[k]) in files
  }

  // What a request leaves among the temporary files: at most one file when a step of the chain
  // fails, and after that, certainly the square of each circle that could not be cut out.
  ghost predicate Leaves(r: Request, files: Tree) {
    var processed := Processed(r.strategy, r.tools, r.limit, r.image);
    && (processed.None? ==> |Own(files, r.image.path)| <= 1)
    && (processed.Some? && !r.strategy.Passthrough? ==> SquaresOf(r, processed.value, files))
  }

  ghost predicate SquaresOf(r: Request, processed: Image, files: Tree) {
    SquaresRemain(processed.path, ThumbNames(r.thumbs), DrawingsOf(r.thumbs, r.tools, processed.mime),
                  processed.contents, files)
  }

  lemma LeftAsSpecified(r: Request, now: Image, files: Tree)
    requires var processed := Processed(r.strategy, r.tools, r.limit, r.image);
             if processed.None? then |Own(files, r.image.path)| <= 1
             else processed == Some(now) && (!r.strategy.Passthrough? ==>
               SquaresRemain(now.path, ThumbNames(r.thumbs), DrawingsOf(r.thumbs, r.tools, now.mime), now.contents,
                             files))
    ensures Leaves(r, files)
  {
  }

  // The deferred Clean, and what it misses.
  method CleanUp(upload: Upload, ghost root: string, ghost drawings: seq<Thumb>, ghost original: string)
    requires "" !in upload.fs.files && CleanIsSafe(root, upload.path, upload.ThumbPaths())
    requires AdoptedOrEmpty(upload.path, upload.thumbs) && |drawings| == |upload.thumbs|
    requires ParallelStage.AllDifferent(ThumbNames(upload.thumbs))
    modifies upload.fs
    ensures Foreign(upload.fs.files, root) == old(Foreign(upload.fs.files, root))
    ensures old(Own(upload.fs.files, root)) <= {upload.path} + upload.ThumbPaths() ==>
              upload.fs.files == old(Foreign(upload.fs.files, root))
    ensures old(upload.OneStray(root)) ==> |Own(upload.fs.files, root)| <= 1
    ensures SquaresLeft(upload.path, upload.thumbs, drawings, original, old(upload.fs.files)) ==>
              SquaresRemain(upload.path, ThumbNames(upload.thumbs), drawings, original, upload.fs.files)
  {
    ghost var before, known := upload.fs.files, upload.ThumbPaths();
    upload.Clean();
    hide Own, Foreign, CleanIsSafe, SquaresRemain, SquaresLeft, AdoptedOrEmpty, ThumbNames;
    CleanedUp(before, upload.fs.files, root, upload.path, known);
    if upload.path in Own(before, root) && |Own(before, root)| <= 2 {
      OneIsLeft(before, upload.fs.files, root, upload.path, known);
    }
    if SquaresLeft(upload.path, upload.thumbs, drawings, original, before) {
      SquaresSurvive(upload, drawings, original, before);
    }
  }

  // The same, after a request has been processed and stored or has failed.
  method Finish(upload: Upload, ghost r: Request)
    requires "" !in upload.fs.files && CleanIsSafe(r.image.path, upload.path, upload.ThumbPaths())
    requires AdoptedOrEmpty(upload.path, upload.thumbs) && r.thumbs == upload.thumbs
    requires ParallelStage.AllDifferent(ThumbNames(upload.thumbs))
    requires var processed := Processed(r.strategy, r.tools, r.limit, r.image);
             if processed.None? then upload.OneStray(r.image.path)
             else processed == Some(upload.Now()) && (!r.strategy.Passthrough? ==> LeavesSquares(upload, r.tools))
    modifies upload.fs
    ensures Foreign(upload.fs.files, r.image.path) == old(Foreign(upload.fs.files, r.image.path))
    ensures old(Own(upload.fs.files, r.image.path)) <= {upload.path} + upload.ThumbPaths() ==>
              upload.fs.files == old(Foreign(upload.fs.files, r.image.path))
    ensures Leaves(r, upload.fs.files)
  {
    ghost var now, drawings := upload.Now(), DrawingsOf(upload.thumbs, r.tools, upload.mime);
    assert LeavesSquares(upload, r.tools) ==>
             SquaresLeft(now.path, upload.thumbs, drawings, now.contents, upload.fs.files);
    hide Own, Foreign, CleanIsSafe, SquaresRemain, SquaresLeft, AdoptedOrEmpty, Processed, DrawingsOf, ThumbNames;
    CleanUp(upload, r.image.path, drawings, now.contents);
    LeftAsSpecified(r, now, upload.fs.files);
  }

  // The whole request; `hash` is what the generator hands over.  The answer, the store and the
  // remaining files are those specified: no temporary file of the request is left once its
  // commands have succeeded, even when it is answered 500, and no other file is ever touched.
  method UploadFile(upload: Upload, strategy: Strategy, tools: Tools, maxFileSize: int,
                    speller: Option<OcrText.Speller>, hash: string, store: InMemoryImageStore)
      returns (status: Status, size: nat, response: map<string, string>)
    requires Fresh(upload)
    modifies upload, upload.fs, upload.thumbs, store
    ensures IsAnswer(Request(strategy, tools, maxFileSize, speller, old(upload.Now()), old(upload.thumbs), hash),
                     status, size, response, upload.mime, upload.ocrText, old(store.files), store.files)
    ensures CommandsSucceed(strategy, tools, maxFileSize, old(upload.Now()), old(upload.thumbs)) ==>
              upload.hash == hash && upload.fs.files == old(Foreign(upload.fs.files, upload.path))
    ensures Foreign(upload.fs.files, old(upload.path)) == old(Foreign(upload.fs.files, upload.path))
    ensures Leaves(Request(strategy, tools, maxFileSize, speller, old(upload.Now()), old(upload.thumbs), hash),
                   upload.fs.files)
  {
    ghost var r := Request(strategy, tools, maxFileSize, speller, upload.Now(), upload.thumbs, hash);
    ghost var first := upload.fs.files;
    assert upload.path != "" && "" !in first && ParallelStage.AllDifferent(ThumbNames(upload.thumbs));
    assert r.image.path == upload.path;
    hide *;
    status, size, response := ProcessAndStore(upload, strategy, tools, maxFileSize, speller, hash, store, r.image.path);
    StillNoEmptyPath(first, upload.fs.files, r.image.path);
    Finish(upload, r);
  }

  lemma StillNoEmptyPath(before: Tree, after: Tree, root: string)
    requires root != "" && "" !in before && Foreign(after, root) == Foreign(before, root)
    ensures "" !in after
  {
    assert "" in after ==> "" in Foreign(after, root);
  }

  // Clean does not know the squares that never became circles.
  lemma SquaresSurvive(upload: Upload, drawings: seq<Thumb>, original: string, before: Tree)
    requires |drawings| == |upload.thumbs|
    requires ParallelStage.AllDifferent(ThumbNames(upload.thumbs)) && AdoptedOrEmpty(upload.path, upload.thumbs)
    requires SquaresLeft(upload.path, upload.thumbs, drawings, original, before) && "" !in before
    requires upload.fs.files == before - ({upload.path} + upload.ThumbPaths())
    ensures SquaresRemain(upload.path, ThumbNames(upload.thumbs), drawings, original, upload.fs.files)
  {
    hide SquareOnly;
    var names := ThumbNames(upload.thumbs);
    forall k | 0 <= k < |upload.thumbs| && SquareOnly(drawings[k], original)
      ensures ParallelStage.Beside(upload.path, upload.thumbs[k].name) in upload.fs.files
    {
      ParallelStage.BesideIsInjective(upload.path, names[k], names[k]);
      forall j | 0 <= j < |upload.thumbs|
        ensures upload.thumbs[j].localPath != ParallelStage.Beside(upload.path, upload.thumbs[k].name)
      {
        ParallelStage.BesideIsInjective(upload.path, names[j], names[k]);
        assert j < k ==> names[j] != names[k];
        assert k < j ==> names[k] != names[j];
      }
    }
  }

  lemma OneIsLeft(before: Tree, after: Tree, root: string, path: string, thumbPaths: set<string>)
    requires after == before - ({path} + thumbPaths)
    requires path in Own(before, root) && |Own(before, root)| <= 2
    ensures |Own(after, root)| <= 1
  {
    Pigeonhole.SubsetSize(Own(after, root), Own(before, root) - {path});
  }

  // Clean deletes only the upload's own files, and all of them if it knows their paths.
  lemma CleanedUp(before: Tree, after: Tree, root: string, path: string, thumbPaths: set<string>)
    requires after == before - ({path} + thumbPaths)
    requires "" !in before && CleanIsSafe(root, path, thumbPaths)
    ensures Foreign(after, root) == Foreign(before, root)
    ensures Own(before, root) <= {path} + thumbPaths ==> after == Foreign(before, root)
  {
    if Own(before, root) <= {path} + thumbPaths {
      forall p ensures p in after <==> p in Foreign(before, root) {
        assert p in before && root <= p ==> p in Own(before, root);
      }
    }
  }
}
