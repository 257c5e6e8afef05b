/** InMemoryImageStore: a map from object id to contents, changed under a lock, so that each
    operation is one atomic step.
 */
module MemoryStore {
  import opened Wrappers

  class InMemoryImageStore {
    var files: map<string, string>

    constructor ()
      ensures files == map[]
    {
      files := map[];
    }

    // Absence is an answer here, not an error.
    method Exists(id: string) returns (present: bool)
      ensures present <==> id in files
    {
      present := id in files;
    }

    // src is what reading the source file gave: its bytes, or None when it cannot be read.
    method Save(src: Option<string>, id: string) returns (ok: bool)
      modifies this
      ensures ok <==> src.Some?
      ensures files == if ok then old(files)[id := src.value] else old(files)
    {
      ok := src.Some?;
      if ok {
        files := files[id := src.value];
      }
    }

    method Get(id: string) returns (reader: Option<string>)
      ensures reader == if id in files then Some(files[id]) else None
    {
      reader := if id in files then Some(files[id]) else None;
    }
  }
}
