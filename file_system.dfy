/** The file system the patching steps read and write, as a map from path to contents. */
module FileSystem {
  import opened Base

  /**
   * The files the patchers read and write, by path, and the paths written so
   * far in order (so that rewriting a file with its own contents is still
   * visible as a write).
   */
  class FileStore {
    var files: map<string, string>
    var writes: seq<string>

    constructor(files: map<string, string>)
      ensures this.files == files && writes == []
    {
      this.files := files;
      writes := [];
    }

    /** `fs.readFile`: a missing file makes the call fail. */
    method ReadFile(path: string) returns (r: Option<string>)
      ensures r == (if path in files then Some(files[path]) else None)
    {
      r := if path in files then Some(files[path]) else None;
    }

    /** `fs.exists`. */
    method Exists(path: string) returns (r: bool)
      ensures r == (path in files)
    {
      r := path in files;
    }

    /** `fs.writeFile`. */
    method WriteFile(path: string, contents: string)
      modifies this
      ensures files == old(files)[path := contents]
      ensures writes == old(writes) + [path]
    {
      files := files[path := contents];
      writes := writes + [path];
    }
  }
}
