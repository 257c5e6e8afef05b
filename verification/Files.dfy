/** The temporary files and the external commands that write them.  When a command succeeds its
    output path holds what it makes of its input; when it fails there may be anything at its
    output path.  Nothing else changes.
 */
module Files {
  import opened Wrappers
  import opened Commands

  type Tree = map<string, string>   // path -> contents

  class FileSystem {
    var files: Tree

    method Remove(path: string)
      modifies this
      ensures files == old(files) - {path}
    {
      files := files - {path};
    }
  }

  // runProcessorCommand for a command that reads `infile` and writes `outfile`.
  method RunCommand(fs: FileSystem, infile: string, outfile: string, command: Command) returns (ok: bool)
    modifies fs
    ensures ok <==> infile in old(fs.files) && command(old(fs.files)[infile]).Some?
    ensures ok ==> fs.files == old(fs.files)[outfile := command(old(fs.files)[infile]).value]
    ensures fs.files - {outfile} == old(fs.files) - {outfile}
    ensures outfile in old(fs.files) ==> outfile in fs.files
  {
    ok := infile in fs.files && command(fs.files[infile]).Some?;
    if ok {
      fs.files := fs.files[outfile := command(fs.files[infile]).value];
    } else {
      var left: Option<string> := *;
      if left.Some? {
        fs.files := fs.files[outfile := left.value];
      }
    }
  }

  // Converting `filename` into `filename + suffix`: the shape of FixOrientation, Jpegtran,
  // Optipng, ConvertToJpeg, Quality and ResizePercent.
  method Convert(fs: FileSystem, filename: string, suffix: string, command: Command)
      returns (outfile: string, ok: bool)
    modifies fs
    ensures outfile == filename + suffix
    ensures ok <==> filename in old(fs.files) && command(old(fs.files)[filename]).Some?
    ensures ok ==> fs.files == old(fs.files)[outfile := command(old(fs.files)[filename]).value]
    ensures fs.files - {outfile} == old(fs.files) - {outfile}
    ensures outfile in old(fs.files) ==> outfile in fs.files
  {
    outfile := filename + suffix;
    ok := RunCommand(fs, filename, outfile, command);
  }

  const ORIENTED := "_ort"
  const JPEGTRAN := "_opti"
  const OPTIPNG := "_opi"
  const JPEG := "_jpg"
  const QUALITY := "_q"
  const RESIZED := "_rp"

  // Everything an upload writes has the path of its first temporary file as a prefix.
  ghost function Own(files: Tree, root: string): set<string> {
    set p | p in files && root <= p
  }

  ghost function Foreign(files: Tree, root: string): Tree {
    map p | p in files && !(root <= p) :: files[p]
  }

  lemma OnlyOutputChanges(before: Tree, after: Tree, root: string, outfile: string)
    requires after - {outfile} == before - {outfile} && root <= outfile
    ensures Foreign(after, root) == Foreign(before, root)
    ensures Own(after, root) - {outfile} == Own(before, root) - {outfile}
    ensures forall p :: p != outfile && p in before ==> p in after && after[p] == before[p]
  {
    assert forall p :: p != outfile ==> (p in after <==> p in after - {outfile});
    assert forall p :: p != outfile ==> (p in before <==> p in before - {outfile});
    assert forall p :: p != outfile && p in before ==> (before - {outfile})[p] == before[p];
    assert forall p :: p != outfile && p in after ==> (after - {outfile})[p] == after[p];
  }

  lemma Extends(root: string, path: string, suffix: string)
    requires root <= path
    ensures root <= path + suffix
  {
    assert (path + suffix)[..|root|] == path[..|root|];
  }
}
