/** UploadedFile and ThumbFile: who owns which temporary file. */
module UploadedFile {
  import opened Wrappers
  import opened Commands
  import opened Files

  class ThumbFile {
    const name: string
    const circle: bool       // circles take a second command on the same output
    var localPath: string

    constructor (name: string, circle: bool)
      ensures this.name == name && this.circle == circle && localPath == ""
    {
      this.name, this.circle, localPath := name, circle, "";
    }

    // The path is adopted only when there is a file.
    method SetPath(fs: FileSystem, path: string) returns (ok: bool)
      modifies this`localPath
      ensures ok <==> path in fs.files
      ensures localPath == if ok then path else old(localPath)
    {
      ok := path in fs.files;
      if ok {
        localPath := path;
      }
    }

    // One command, or two for a circle, writes original_name.  When the second one fails the
    // square is left there, and is not adopted.
    method Process(fs: FileSystem, original: string, gm: Command, round: Command) returns (ok: bool)
      modifies fs, this`localPath
      ensures var out := original + "_" + name;
              && fs.files - {out} == old(fs.files) - {out}
              && (ok <==> original in old(fs.files) && Drawn(gm, round, old(fs.files)[original]).Some?)
              && (ok ==> fs.files == old(fs.files)[out := Drawn(gm, round, old(fs.files)[original]).value])
              && (original in old(fs.files) && SquareOnly(Thumb(name, circle, gm, round), old(fs.files)[original]) ==>
                    out in fs.files)
              && localPath == if ok then out else old(localPath)
      ensures original in old(fs.files) ==>
                var square := gm(old(fs.files)[original]);
                && (ok <==> square.Some? && (circle ==> round(square.value).Some?))
                && (ok ==> Some(fs.files[original + "_" + name]) == if circle then round(square.value) else square)
    {
      var out := original + "_" + name;
      ok := RunCommand(fs, original, out, gm);
      if ok && circle {
        ok := RunCommand(fs, out, out, round);
      }
      if ok {
        ok := SetPath(fs, out);
      }
    }

    function Drawn(gm: Command, round: Command, original: string): Option<string> {
      Picture(Thumb(name, circle, gm, round), original)
    }
  }

  // What the processing chain works on.
  datatype Image = Image(path: string, mime: string, contents: string)

  // One link of the chain: the command's output, at the path with a suffix.
  function Link(image: Image, suffix: string, command: Command): Option<Image> {
    var made := command(image.contents);
    if made.None? then None else Some(Image(image.path + suffix, image.mime, made.value))
  }

  predicate JpegMime(mime: string) { mime == "image/jpeg" || mime == "image/jpg" }
  predicate PngMime(mime: string) { mime == "image/png" }
  predicate GifMime(mime: string) { mime == "image/gif" }

  class Upload {
    const fs: FileSystem
    var path: string
    var mime: string
    var hash: string
    var ocrText: string
    var thumbs: seq<ThumbFile>

    constructor (fs: FileSystem, path: string, mime: string, thumbs: seq<ThumbFile>)
      ensures this.fs == fs && this.path == path && this.mime == mime && this.thumbs == thumbs
      ensures hash == "" && ocrText == ""
    {
      this.fs, this.path, this.mime, this.thumbs, hash, ocrText := fs, path, mime, thumbs, "", "";
    }

    // Deletes the old file, then adopts the new path: the new file survives exactly when the
    // two paths differ.
    method SetPath(newPath: string)
      modifies this`path, fs
      ensures path == newPath
      ensures fs.files == old(fs.files) - {old(path)}
      ensures newPath in fs.files <==> newPath in old(fs.files) && newPath != old(path)
    {
      fs.Remove(path);
      path := newPath;
    }

    method FileSize() returns (size: nat, err: bool)
      ensures err <==> path !in fs.files
      ensures size == if err then 0 else |fs.files[path]|
    {
      err := path !in fs.files;
      size := if err then 0 else |fs.files[path]|;
    }

    method Clean()
      modifies fs
      ensures fs.files == old(fs.files) - ({path} + ThumbPaths())
    {
      fs.Remove(path);
      for i := 0 to |thumbs|
        invariant fs.files == old(fs.files) - ({path} + set k | 0 <= k < i :: thumbs[k].localPath)
      {
        fs.Remove(thumbs[i].localPath);
      }
    }

    ghost function ThumbPaths(): set<string>
      reads this`thumbs, thumbs
    {
      set k | 0 <= k < |thumbs| :: thumbs[k].localPath
    }

    predicate IsJpeg() reads this`mime { JpegMime(mime) }
    predicate IsPng() reads this`mime { PngMime(mime) }
    predicate IsGif() reads this`mime { GifMime(mime) }

    ghost function Now(): Image
      reads this`path, this`mime, fs
    {
      Image(path, mime, if path in fs.files then fs.files[path] else "")
    }

    // The upload's one live temporary file is its current path.
    ghost predicate Sole(root: string)
      reads this`path, fs
    {
      root <= path && path in fs.files && Own(fs.files, root) == {path}
    }

    // After a failed command: the current file is still there, with at most one stray beside it.
    ghost predicate OneStray(root: string)
      reads this`path, fs
    {
      root <= path && path in Own(fs.files, root) && |Own(fs.files, root)| <= 2
    }

    // A step of the chain has ended: where its specification says, with one live file; or it
    // has failed, as its specification does.
    ghost predicate Reached(root: string, next: Option<Image>, ok: bool)
      reads this`path, this`mime, fs
    {
      && (ok <==> next.Some?)
      && if ok then Sole(root) && Now() == next.value else OneStray(root)
    }

    // Convert the current file and adopt the result.
    method Advance(suffix: string, command: Command, ghost root: string) returns (ok: bool)
      requires Sole(root) && suffix != ""
      modifies this`path, fs
      ensures Foreign(fs.files, root) == old(Foreign(fs.files, root))
      ensures Reached(root, Link(old(Now()), suffix, command), ok)
      ensures !ok ==> path == old(path)
    {
      ghost var before := fs.files;
      var filename;
      filename, ok := Convert(fs, path, suffix, command);
      Extends(root, path, suffix);
      OnlyOutputChanges(before, fs.files, root, filename);
      assert |filename| > |path|;
      if ok {
        BothOwned(Own(fs.files, root), path, filename);
        ghost var middle := fs.files;
        SetPath(filename);
        assert Own(fs.files, root) == Own(middle, root) - {old(path)};
      } else {
        AtMostTwo(Own(fs.files, root), path, filename);
      }
    }
  }

  lemma BothOwned(s: set<string>, a: string, b: string)
    requires s - {b} == {a} - {b} && b in s && a != b
    ensures s == {a, b}
  {
    assert forall x :: x in s && x != b ==> x in s - {b};
    assert a in s - {b};
  }

  lemma AtMostTwo(s: set<string>, a: string, b: string)
    requires s - {b} == {a} - {b} && a != b
    ensures a in s && |s| <= 2
  {
    assert forall x :: x in s && x != b ==> x in s - {b};
    assert a in s - {b};
    assert s <= {a, b};
    assert {a, b} == s + ({a, b} - s);
  }
}
