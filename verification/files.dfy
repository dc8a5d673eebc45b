/** The filesystem as the generator sees it: a fixed snapshot that
    answers `Path.exists()`, `Path.is_file()`, `Path.is_dir()` and
    `Path.rglob('*')`. Paths are already-normalised POSIX strings. */
module Files {

  datatype FileSystem = FileSystem(
    entries: set<string>,          // every path that exists
    files: set<string>,            // the regular files among them
    dirs: set<string>,             // the directories among them
    below: map<string, seq<string>> // what `rglob('*')` yields under a directory, in its own order
  ) {

    /** A snapshot a real filesystem could give: files and directories
        exist and are disjoint, only directories have a walk, and a walk
        lists existing paths. */
    predicate Valid() {
      files <= entries && dirs <= entries && files !! dirs &&
      (forall p :: p in below ==> p in dirs) &&
      (forall p, q :: p in below && q in below[p] ==> q in entries)
    }

    predicate Exists(p: string) {
      p in entries
    }

    predicate IsFile(p: string) {
      p in files
    }

    predicate IsDir(p: string) {
      p in dirs
    }

    /** Every entry below `p`, at any depth; nothing for a path that is
        not a directory. */
    function RGlob(p: string): seq<string> {
      if p in below then below[p] else []
    }
  }
}
