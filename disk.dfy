/**
 * The file system as the gallery sees it: the set of regular files and the set
 * of directories that exist, by path, and the two primitive changes the
 * gallery makes (unlinking a file, removing a directory) and one it needs for
 * writing derivatives (creating a file).
 */
module FileSystem {
  import NodePath

  /** What exists at one moment. */
  datatype Snapshot = Snapshot(files: set<string>, dirs: set<string>)

  /** No path is both a file and a directory. */
  predicate Consistent(s: Snapshot) {
    s.files !! s.dirs
  }

  /** `fs.exists` / `fs.existsSync`. */
  predicate Exists(s: Snapshot, p: string) {
    p in s.files || p in s.dirs
  }

  /** `q` lies strictly inside the directory `dir`. */
  predicate Below(q: string, dir: string) {
    var d := NodePath.Segments(dir);
    var e := NodePath.Segments(q);
    NodePath.IsAbsolute(q) == NodePath.IsAbsolute(dir) && |d| < |e| && e[..|d|] == d
  }

  /** `fs.readdirSync(dir).length == 0`: nothing exists inside `dir`. */
  predicate IsEmptyDir(s: Snapshot, dir: string) {
    forall q :: q in s.files + s.dirs ==> !Below(q, dir)
  }

  /** The mutable file system. */
  class Disk {
    var files: set<string>
    var dirs: set<string>

    function State(): Snapshot
      reads this
    {
      Snapshot(files, dirs)
    }

    constructor (files: set<string>, dirs: set<string>)
      ensures State() == Snapshot(files, dirs)
    {
      this.files := files;
      this.dirs := dirs;
    }

    /** `fs.unlink`: the file is gone, nothing else changes. */
    method Unlink(p: string)
      modifies this
      ensures State() == Snapshot(old(files) - {p}, old(dirs))
    {
      files := files - {p};
    }

    /** `fs.rmdir`: the directory is gone, nothing else changes. */
    method RemoveDirectory(p: string)
      modifies this
      ensures State() == Snapshot(old(files), old(dirs) - {p})
    {
      dirs := dirs - {p};
    }

    /** A file written at `p`, as `sharp(...).toFile(p)` leaves it. */
    method WriteFile(p: string)
      modifies this
      ensures State() == Snapshot(old(files) + {p}, old(dirs))
    {
      files := files + {p};
    }
  }
}
