/**
 * What the filesystem answers, taken as an input: the paths that exist as
 * regular files, and for each directory the entry names `readdir` lists.
 */
module FileSystems {

  datatype FileSystem = FileSystem(files: set<string>, dirs: map<string, seq<string>>) {

    /** `access(p)` succeeds. */
    predicate Exists(p: string)
    {
      p in files || p in dirs
    }

    /** `isDir(p)`: `stat(p).isDirectory()`, and false when `stat` fails. */
    predicate IsDir(p: string)
      ensures IsDir(p) ==> Exists(p)
    {
      p in dirs
    }
  }
}
