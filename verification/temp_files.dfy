/** The slice of the file system the two handlers touch: which regular files and which
    directories exist, the two Node `path` helpers they use, and the two ways they delete
    their temporary files. */
module TempFiles {
  import opened Wrappers
  import opened JsStrings

  datatype Disk = Disk(files: set<string>, dirs: set<string>) {
    /** A path is a file or a directory, never both. */
    predicate Valid() {
      files !! dirs
    }
  }

  /** `fs.existsSync`: true for files and directories alike. */
  predicate Exists(disk: Disk, path: string) {
    path in disk.files || path in disk.dirs
  }

  /** What `path.join` puts in front of a file name: the directory and one separator, which is
      not doubled when the directory already ends with one. */
  function JoinPrefix(dir: string): (p: string)
    ensures |p| > 0 && p[|p| - 1] == '/'
    ensures |p| >= |dir| && p[..|dir|] == dir
  {
    if |dir| > 0 && dir[|dir| - 1] == '/' then dir else dir + "/"
  }

  /** `path.join` of a directory and one plain file name (no normalisation of `.`, `..` or
      separators inside the directory). */
  function Join(dir: string, name: string): string {
    JoinPrefix(dir) + name
  }

  /** A directory as `os.tmpdir()` and `mkdtemp` report it: not empty, and without a trailing
      separator unless it is the root. */
  predicate IsDirPath(dir: string) {
    dir != "" && (dir == "/" || dir[|dir| - 1] != '/')
  }

  /** The backward scan of `path.dirname` over the positions `i - 1` down to 1: trailing
      separators are passed over while `trailing` holds, and the first separator met after a
      non-separator ends the scan at its position. */
  function DirnameEnd(path: string, i: nat, trailing: bool): (r: Option<nat>)
    requires i <= |path|
    ensures r.Some? ==> 1 <= r.value < i && path[r.value] == '/'
    decreases i
  {
    if i <= 1 then None
    else if path[i - 1] == '/' then (if trailing then DirnameEnd(path, i - 1, true) else Some(i - 1))
    else DirnameEnd(path, i - 1, false)
  }

  /** `path.dirname` (POSIX): `.` for the empty path or a path without an inner separator, `/`
      for a rooted one, `//` when the only separator left is the second of two leading ones,
      and otherwise everything before the last separator that follows a name. */
  function Dirname(path: string): (d: string)
    ensures d != ""
  {
    if |path| == 0 then "."
    else match DirnameEnd(path, |path|, true)
      case None => if path[0] == '/' then "/" else "."
      case Some(end) => if path[0] == '/' && end == 1 then "//" else path[..end]
  }

  /** Scanning back over a stretch without separators reaches its start with `trailing` off. */
  lemma {:induction false} DirnameEndSkipsName(path: string, k: nat, i: nat, trailing: bool)
    requires k < i <= |path|
    requires forall j :: k <= j < |path| ==> path[j] != '/'
    ensures DirnameEnd(path, i, trailing) == DirnameEnd(path, k, false)
    decreases i
  {
    if i > 1 && i - 1 > k {
      DirnameEndSkipsName(path, k, i - 1, false);
    }
  }

  /** The directory of a plain name joined onto a directory is that directory. */
  lemma DirnameJoin(dir: string, name: string)
    requires IsDirPath(dir) && name != "" && '/' !in name
    ensures Dirname(Join(dir, name)) == dir
  {
    var path, pre := Join(dir, name), JoinPrefix(dir);
    forall j | |pre| <= j < |path| ensures path[j] != '/' {
      assert path[j] == name[j - |pre|];
    }
    DirnameEndSkipsName(path, |pre|, |path|, true);
    assert path[..|pre|] == pre;
    if dir != "/" {
      assert pre == dir + "/";
      assert path[|pre| - 1] == '/';
      assert path[..|dir|] == dir;
    }
  }

  /** `path.dirname` on paths where a trailing separator, a doubled root or an inner doubled
      separator matters. */
  lemma DirnameExamples()
    ensures Dirname("a/b/") == "a" && Dirname("/a/") == "/" && Dirname("//a") == "//"
    ensures Dirname("a") == "." && Dirname("/") == "/" && Dirname("a//b") == "a/" && Dirname("") == "."
  {
    assert DirnameEnd("a/b/", 4, true) == Some(1);
    assert DirnameEnd("/a/", 3, true) == None;
    assert DirnameEnd("//a", 3, true) == Some(1);
    assert DirnameEnd("a", 1, true) == None;
    assert DirnameEnd("/", 1, true) == None;
    assert DirnameEnd("a//b", 4, true) == Some(2);
  }

  /** `fs.unlinkSync`: removes a regular file; throws (`None`) on a directory or a missing path. */
  function Unlink(disk: Disk, path: string): (r: Option<Disk>)
    ensures r.Some? <==> path in disk.files
    ensures r.Some? ==> r.value.dirs == disk.dirs
    ensures r.Some? ==> path !in r.value.files && r.value.files + {path} == disk.files
    ensures r.Some? && disk.Valid() ==> r.value.Valid() && !Exists(r.value, path)
  {
    if path in disk.files then Some(Disk(disk.files - {path}, disk.dirs)) else None
  }

  /** Nothing is left whose parent is `dir`. */
  predicate IsEmptyDir(disk: Disk, dir: string) {
    && (forall p :: p in disk.files ==> Dirname(p) != dir)
    && (forall p :: p in disk.dirs ==> Dirname(p) != dir)
  }

  /** `fs.rmdirSync`: removes an empty directory; throws (`None`) when the path is not a
      directory or the directory still holds something. */
  function Rmdir(disk: Disk, dir: string): (r: Option<Disk>)
    ensures r.Some? <==> dir in disk.dirs && IsEmptyDir(disk, dir)
    ensures r.Some? ==> r.value.files == disk.files
    ensures r.Some? ==> dir !in r.value.dirs && r.value.dirs + {dir} == disk.dirs
    ensures r.Some? && disk.Valid() ==> r.value.Valid() && !Exists(r.value, dir) && IsEmptyDir(r.value, dir)
  {
    if dir in disk.dirs && IsEmptyDir(disk, dir) then Some(Disk(disk.files, disk.dirs - {dir})) else None
  }

  /** Where a sequence of deletions got to, and whether one of them threw. */
  datatype Progress = Progress(disk: Disk, threw: bool)

  /** The paths of a list, as a set. */
  function Elems(paths: seq<string>): set<string> {
    set p | p in paths
  }

  lemma ElemsPair(a: string, b: string)
    ensures Elems([a, b]) == {a, b}
  {
    assert forall p :: p in [a, b] <==> p == a || p == b;
  }

  lemma ElemsTriple(a: string, b: string, c: string)
    ensures Elems([a, b, c]) == {a, b, c}
  {
    assert forall p :: p in [a, b, c] <==> p == a || p == b || p == c;
  }

  predicate Distinct(paths: seq<string>) {
    forall i, j :: 0 <= i < j < |paths| ==> paths[i] != paths[j]
  }

  // ---------------------------------------------------------------------------------------
  // The podcast handler's `finally`
  // ---------------------------------------------------------------------------------------

  /** `tempFiles.forEach(file => { if (fs.existsSync(file)) fs.unlinkSync(file); })`: missing
      paths are passed over, the first throw ends the walk. */
  function UnlinkExisting(disk: Disk, paths: seq<string>): Progress
    decreases |paths|
  {
    if |paths| == 0 then Progress(disk, false)
    else if !Exists(disk, paths[0]) then UnlinkExisting(disk, paths[1..])
    else match Unlink(disk, paths[0])
      case None => Progress(disk, true)
      case Some(d) => UnlinkExisting(d, paths[1..])
  }

  /** The run-scoped bookkeeping: the disk, the registered paths and the directory, if any. */
  datatype Registry = Registry(disk: Disk, tempFiles: seq<string>, tempDir: Option<string>)

  /** The whole `finally` block; every throw inside it is caught and only logged, so the result is
      simply the disk as the block left it. */
  function Cleanup(reg: Registry): (r: Disk)
    ensures reg.tempFiles == [] && reg.tempDir.None? ==> r == reg.disk
  {
    var p := UnlinkExisting(reg.disk, reg.tempFiles);
    if p.threw then p.disk
    else if Truthy(reg.tempDir) && Exists(p.disk, reg.tempDir.value) then
      match Rmdir(p.disk, reg.tempDir.value)
      case None => p.disk
      case Some(d) => d
    else p.disk
  }

  /** The walk deletes nothing but registered files and never touches a directory. */
  lemma {:induction false} UnlinkExistingFrame(disk: Disk, paths: seq<string>)
    ensures var r := UnlinkExisting(disk, paths);
      && r.disk.dirs == disk.dirs
      && r.disk.files <= disk.files
      && forall p :: p in disk.files && p !in r.disk.files ==> p in paths
    decreases |paths|
  {
    if |paths| > 0 {
      if !Exists(disk, paths[0]) {
        UnlinkExistingFrame(disk, paths[1..]);
      } else if paths[0] in disk.files {
        UnlinkExistingFrame(Disk(disk.files - {paths[0]}, disk.dirs), paths[1..]);
      }
    }
  }

  /** When no registered path is a directory the walk never throws and deletes exactly the
      registered files; otherwise it throws. */
  lemma {:induction false} UnlinkExistingSpec(disk: Disk, paths: seq<string>)
    requires disk.Valid()
    ensures var r := UnlinkExisting(disk, paths);
      && (r.threw <==> exists i :: 0 <= i < |paths| && paths[i] in disk.dirs)
      && (!r.threw ==> r.disk == Disk(disk.files - Elems(paths), disk.dirs))
    decreases |paths|
  {
    if |paths| > 0 {
      var rest := paths[1..];
      assert forall i :: 0 < i < |paths| ==> paths[i] == rest[i - 1];
      if !Exists(disk, paths[0]) {
        UnlinkExistingSpec(disk, rest);
        assert (Elems(paths)) == (Elems(rest)) + {paths[0]};
      } else if paths[0] in disk.files {
        var d := Disk(disk.files - {paths[0]}, disk.dirs);
        UnlinkExistingSpec(d, rest);
        assert (Elems(paths)) == (Elems(rest)) + {paths[0]};
      }
    }
  }

  /** After a `finally` whose registered paths are all files (or missing), none of them exists,
      no other file has gone, and the directory has gone exactly when it was set, existed and
      held nothing else. */
  lemma CleanupSpec(reg: Registry)
    requires reg.disk.Valid()
    requires forall i :: 0 <= i < |reg.tempFiles| ==> reg.tempFiles[i] !in reg.disk.dirs
    ensures var r := Cleanup(reg);
      var rest := reg.disk.files - Elems(reg.tempFiles);
      && r.files == rest
      && (forall i :: 0 <= i < |reg.tempFiles| ==> !Exists(r, reg.tempFiles[i]))
      && r.dirs == if Truthy(reg.tempDir) && reg.tempDir.value in reg.disk.dirs
                      && IsEmptyDir(Disk(rest, reg.disk.dirs), reg.tempDir.value)
                   then reg.disk.dirs - {reg.tempDir.value}
                   else reg.disk.dirs
  {
    UnlinkExistingSpec(reg.disk, reg.tempFiles);
  }

  /** Whatever the disk holds, the `finally` deletes only registered files and the registered
      directory. */
  lemma CleanupFrame(reg: Registry)
    ensures var r := Cleanup(reg);
      && r.files <= reg.disk.files
      && (forall p :: p in reg.disk.files && p !in r.files ==> p in reg.tempFiles)
      && r.dirs <= reg.disk.dirs
      && (forall p :: p in reg.disk.dirs && p !in r.dirs ==> reg.tempDir == Some(p))
  {
    UnlinkExistingFrame(reg.disk, reg.tempFiles);
  }

  // ---------------------------------------------------------------------------------------
  // The video handler's success-path deletions
  // ---------------------------------------------------------------------------------------

  /** Consecutive `fs.unlinkSync` calls inside one `try`: the first throw skips the rest. */
  function UnlinkInOrder(disk: Disk, paths: seq<string>): Progress
    decreases |paths|
  {
    if |paths| == 0 then Progress(disk, false)
    else match Unlink(disk, paths[0])
      case None => Progress(disk, true)
      case Some(d) => UnlinkInOrder(d, paths[1..])
  }

  /** One step of the sequence: deleting an existing first file and going on with the rest. */
  lemma UnlinkInOrderStep(disk: Disk, paths: seq<string>)
    requires |paths| > 0 && paths[0] in disk.files
    ensures UnlinkInOrder(disk, paths) == UnlinkInOrder(Disk(disk.files - {paths[0]}, disk.dirs), paths[1..])
  {
  }

  /** Distinct existing files are all deleted and nothing else changes. */
  lemma {:induction false} UnlinkInOrderAll(disk: Disk, paths: seq<string>)
    requires Distinct(paths)
    requires forall i :: 0 <= i < |paths| ==> paths[i] in disk.files
    ensures UnlinkInOrder(disk, paths) == Progress(Disk(disk.files - Elems(paths), disk.dirs), false)
    decreases |paths|
  {
    if |paths| > 0 {
      var rest := paths[1..];
      var d := Disk(disk.files - {paths[0]}, disk.dirs);
      assert Distinct(rest) && forall i :: 0 <= i < |rest| ==> rest[i] in d.files by {
        forall i | 0 <= i < |rest| ensures rest[i] in d.files {
          assert rest[i] == paths[i + 1] != paths[0];
        }
        forall i, j | 0 <= i < j < |rest| ensures rest[i] != rest[j] {
          assert rest[i] == paths[i + 1] && rest[j] == paths[j + 1];
        }
      }
      var after := Disk(d.files - Elems(rest), disk.dirs);
      assert UnlinkInOrder(d, rest) == Progress(after, false) by {
        UnlinkInOrderAll(d, rest);
      }
      assert after == Disk(disk.files - Elems(paths), disk.dirs) by {
        assert Elems(paths) == Elems(rest) + {paths[0]} by {
          assert paths == [paths[0]] + rest;
        }
      }
      UnlinkInOrderStep(disk, paths);
    }
  }

  /** If the `k`-th deletion is the first to fail, the ones before it happened and the ones after
      it never run. */
  lemma {:induction false} UnlinkInOrderStops(disk: Disk, paths: seq<string>, k: nat)
    requires k < |paths| && Distinct(paths[..k])
    requires forall i :: 0 <= i < k ==> paths[i] in disk.files
    requires paths[k] !in disk.files || paths[k] in paths[..k]
    ensures UnlinkInOrder(disk, paths) == Progress(Disk(disk.files - Elems(paths[..k]), disk.dirs), true)
    decreases k
  {
    if k > 0 {
      var rest, done := paths[1..], paths[..k];
      var later := rest[..k - 1];
      var d := Disk(disk.files - {paths[0]}, disk.dirs);
      assert done == [paths[0]] + later;
      assert Distinct(later) && (forall i :: 0 <= i < k - 1 ==> rest[i] in d.files)
          && (rest[k - 1] !in d.files || rest[k - 1] in later) by {
        forall i | 0 <= i < k - 1 ensures rest[i] in d.files {
          assert rest[i] == done[i + 1] != done[0];
        }
        forall i, j | 0 <= i < j < |later| ensures later[i] != later[j] {
          assert later[i] == done[i + 1] && later[j] == done[j + 1];
        }
        assert rest[k - 1] == paths[k];
      }
      var after := Disk(d.files - Elems(later), disk.dirs);
      assert UnlinkInOrder(d, rest) == Progress(after, true) by {
        UnlinkInOrderStops(d, rest, k - 1);
      }
      assert after == Disk(disk.files - Elems(done), disk.dirs) by {
        assert Elems(done) == Elems(later) + {paths[0]};
      }
      UnlinkInOrderStep(disk, paths);
    } else {
      assert Elems(paths[..0]) == {};
    }
  }
}
