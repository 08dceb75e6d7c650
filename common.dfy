/** Vocabulary shared by both download front ends: optional values, file
    bodies, what the operating system reports about the output path, and the
    output directory that the download loops write into. */
module Common {

  datatype Option<+T> = None | Some(value: T)

  /** The bytes of a file on disk or of an HTTP response body. */
  type Bytes = seq<bv8>

  /** What os.path.exists / os.path.isdir report about the chosen output path. */
  datatype PathKind = Missing | RegularFile | Dir

  /** The output directory: the names of the files in it and their contents.
      Both front ends create and overwrite files in it in place. */
  class Directory {
    var files: map<string, Bytes>

    constructor (initial: map<string, Bytes>)
      ensures files == initial
    {
      files := initial;
    }

    /** os.path.exists on a path inside the directory. */
    method Exists(name: string) returns (present: bool)
      ensures present <==> name in files
    {
      present := name in files;
    }

    /** open(path, "wb") followed by writing `body`: the file is created, or
        truncated if it exists, and holds exactly `body` afterwards; no other
        file changes. */
    method Write(name: string, body: Bytes)
      modifies this
      ensures files == old(files)[name := body]
    {
      files := files[name := body];
    }
  }
}
