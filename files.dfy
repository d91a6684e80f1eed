/** The part of the local filesystem the script touches: regular files by path. */
module Files {
  import opened Wrappers

  newtype byte = x: int | 0 <= x < 256

  type Bytes = seq<byte>

  type Path = string

  /** Why `FileUtils.cp` raises: the source is missing, or source and destination are the same. */
  datatype CopyError = NoSuchFile | SameFile

  class FileSystem {
    var files: map<Path, Bytes>

    constructor (files: map<Path, Bytes>)
      ensures this.files == files
    {
      this.files := files;
    }

    /** `File.exist?`. */
    method Exists(path: Path) returns (found: bool)
      ensures found <==> path in files
    {
      found := path in files;
    }

    /** What curl's `-o` leaves at a path. */
    method Write(path: Path, contents: Bytes)
      modifies this
      ensures files == old(files)[path := contents]
    {
      files := files[path := contents];
    }

    /** `File.delete`, which the script only calls on a path it has just seen exist. */
    method Delete(path: Path)
      requires path in files
      modifies this
      ensures files == old(files) - {path}
    {
      files := files - {path};
    }

    /** `FileUtils.cp`: overwrites the destination with the source's bytes. */
    method Copy(src: Path, dst: Path) returns (outcome: Outcome<CopyError>)
      modifies this
      ensures src !in old(files) ==> outcome == Fail(NoSuchFile) && files == old(files)
      ensures src in old(files) && src == dst ==> outcome == Fail(SameFile) && files == old(files)
      ensures src in old(files) && src != dst ==>
                outcome == Pass && files == old(files)[dst := old(files)[src]]
    {
      if src !in files {
        return Fail(NoSuchFile);
      }
      if src == dst {
        return Fail(SameFile);
      }
      files := files[dst := files[src]];
      outcome := Pass;
    }
  }
}
