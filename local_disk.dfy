/**
 * The local disk and process table as the preview sees them through Node's
 * `fs/promises` and `child_process`: a set of directories, a map from file
 * paths to contents, and the command lines of the processes started.
 */
module LocalDisk {
  import opened Wrappers

  type Path = string

  newtype byte = x: int | 0 <= x < 256

  type Bytes = seq<byte>

  /** Index of the last '/' in p, or -1 when there is none. */
  function LastSlash(p: Path): (k: int)
    ensures -1 <= k < |p|
    ensures k >= 0 ==> p[k] == '/'
    ensures forall i :: k < i < |p| ==> p[i] != '/'
  {
    if p == [] then -1
    else if p[|p| - 1] == '/' then |p| - 1
    else LastSlash(p[..|p| - 1])
  }

  /** p lies in a directory other than the file system root. */
  predicate HasParent(p: Path) {
    LastSlash(p) > 0
  }

  /** The directory holding p: everything before its last '/'. */
  function Parent(p: Path): (q: Path)
    requires HasParent(p)
    ensures 0 < |q| < |p| && q == p[..|q|] && p[|q|] == '/'
  {
    p[..LastSlash(p)]
  }

  /** The last component of p. */
  function BaseName(p: Path): Path
    requires HasParent(p)
  {
    p[LastSlash(p) + 1..]
  }

  /** A directory entry name: not empty, no '/'. */
  predicate IsName(n: string) {
    |n| > 0 && forall i :: 0 <= i < |n| ==> n[i] != '/'
  }

  /** `path.join(dir, name)` for a directory without a trailing '/' and a plain name. */
  function Join(dir: Path, name: string): Path {
    dir + "/" + name
  }

  lemma JoinSplits(dir: Path, name: string)
    requires |dir| > 0 && IsName(name)
    ensures LastSlash(Join(dir, name)) == |dir|
  {
    var p := Join(dir, name);
    var k := LastSlash(p);
    assert p[|dir|] == '/';
  }

  /** The parent and base name of dir/name are dir and name. */
  lemma ParentOfJoin(dir: Path, name: string)
    requires |dir| > 0 && IsName(name)
    ensures HasParent(Join(dir, name))
    ensures Parent(Join(dir, name)) == dir && BaseName(Join(dir, name)) == name
  {
    JoinSplits(dir, name);
  }

  lemma JoinInjective(dir: Path, a: string, b: string)
    requires Join(dir, a) == Join(dir, b)
    ensures a == b
  {
    assert a == Join(dir, a)[|dir| + 1..];
    assert b == Join(dir, b)[|dir| + 1..];
  }

  /** p is root itself or lies somewhere below it. */
  predicate Under(p: Path, root: Path) {
    p == root || root + "/" <= p
  }

  /** p together with all the directories above it. */
  function Ancestry(p: Path): (a: set<Path>)
    ensures p in a
    ensures forall q :: q in a ==> |q| <= |p| && q <= p
    decreases |p|
  {
    {p} + if HasParent(p) then Ancestry(Parent(p)) else {}
  }

  /**
   * The shape of a file system: nothing is both a file and a directory, and
   * the directory holding each entry exists.
   */
  predicate Tree(dirs: set<Path>, files: set<Path>) {
    dirs !! files &&
    (forall d :: d in dirs && HasParent(d) ==> Parent(d) in dirs) &&
    (forall f :: f in files && HasParent(f) ==> Parent(f) in dirs)
  }

  /** No entry of s lies directly in d. */
  predicate NoneIn(s: set<Path>, d: Path) {
    forall e :: e in s && HasParent(e) ==> Parent(e) != d
  }

  /** Adding a directory with all its ancestors keeps the shape of a tree. */
  lemma {:induction false} AncestryClosed(p: Path, q: Path)
    requires q in Ancestry(p) && HasParent(q)
    ensures Parent(q) in Ancestry(p)
    decreases |p|
  {
    if q != p {
      AncestryClosed(Parent(p), q);
    }
  }

  /** A path strictly below root reaches root's subtree through its parent. */
  lemma ParentUnder(e: Path, root: Path)
    requires Under(e, root) && e != root && |root| > 0
    ensures HasParent(e) && Under(Parent(e), root)
  {
    var k := LastSlash(e);
    assert e[|root|] == '/';
    assert k >= |root|;
    if k > |root| {
      assert Parent(e)[..|root| + 1] == e[..|root| + 1];
    }
  }

  /** An entry's parent lies in root's subtree only when the entry does. */
  lemma UnderFromParent(e: Path, root: Path)
    requires HasParent(e) && Under(Parent(e), root)
    ensures Under(e, root)
  {
    var q := Parent(e);
    if q == root {
      assert e[..|root| + 1] == root + "/";
    } else {
      assert e[..|root| + 1] == q[..|root| + 1];
    }
  }

  /** In a tree, whatever lies below root has root as an existing directory. */
  lemma {:induction false} SubtreeHasRoot(dirs: set<Path>, files: set<Path>, e: Path, root: Path)
    requires Tree(dirs, files) && |root| > 0
    requires (e in dirs || e in files) && Under(e, root) && e != root
    ensures root in dirs
    decreases |e|
  {
    ParentUnder(e, root);
    var q := Parent(e);
    if q != root {
      SubtreeHasRoot(dirs, files, q, root);
    }
  }

  /** What a process run reports: its exit status (none when it was killed or failed to start), its standard error and the files it wrote into its output directory. */
  datatype ProcResult = ProcResult(status: Option<int>, stderr: string, written: map<string, Bytes>)

  /** The files a process writes into dir, keyed by their paths. */
  function Written(dir: Path, written: map<string, Bytes>): (m: map<Path, Bytes>)
    ensures forall n :: n in written ==> Join(dir, n) in m && m[Join(dir, n)] == written[n]
    ensures forall p :: p in m ==> exists n :: n in written && p == Join(dir, n)
  {
    forall a, b | Join(dir, a) == Join(dir, b) ensures a == b { JoinInjective(dir, a, b); }
    map n | n in written :: Join(dir, n) := written[n]
  }

  /** The directories of s outside root's subtree. */
  function PruneSet(s: set<Path>, root: Path): (r: set<Path>)
    ensures forall q :: q in r <==> q in s && !Under(q, root)
  {
    set q | q in s && !Under(q, root)
  }

  /** The files of m outside root's subtree, with their contents. */
  function Prune(m: map<Path, Bytes>, root: Path): (r: map<Path, Bytes>)
    ensures forall q :: q in r <==> q in m && !Under(q, root)
    ensures forall q :: q in r ==> r[q] == m[q]
  {
    map q | q in m && !Under(q, root) :: m[q]
  }

  /** The random part `mkdtemp` appends: six letters or digits. */
  predicate IsTempSuffix(s: string) {
    |s| == 6 && forall i :: 0 <= i < |s| ==> ('a' <= s[i] <= 'z' || 'A' <= s[i] <= 'Z' || '0' <= s[i] <= '9')
  }

  class Host {
    var dirs: set<Path>
    var files: map<Path, Bytes>
    /** Command lines of the processes started, oldest first. */
    var spawned: seq<seq<string>>

    ghost predicate Valid()
      reads this
    {
      Tree(dirs, files.Keys)
    }

    constructor (dirs0: set<Path>, files0: map<Path, Bytes>)
      requires Tree(dirs0, files0.Keys)
      ensures Valid()
      ensures dirs == dirs0 && files == files0 && spawned == []
    {
      dirs, files, spawned := dirs0, files0, [];
    }

    /** What `readdir(d)` enumerates: the names of the entries directly in d. */
    function Children(d: Path): set<string>
      reads this
    {
      set p | p in dirs + files.Keys && HasParent(p) && Parent(p) == d :: BaseName(p)
    }

    /** An entry directly in d is listed under its name, and only names of such entries are. */
    lemma ChildrenOfJoin(d: Path, n: string)
      requires |d| > 0 && IsName(n)
      ensures n in Children(d) <==> Join(d, n) in dirs || Join(d, n) in files
    {
      ParentOfJoin(d, n);
      if n in Children(d) {
        var p :| p in dirs + files.Keys && HasParent(p) && Parent(p) == d && BaseName(p) == n;
        assert p == Parent(p) + "/" + BaseName(p) by {
          assert p == p[..LastSlash(p)] + [p[LastSlash(p)]] + p[LastSlash(p) + 1..];
        }
      }
    }

    /**
     * `mkdir(p, { recursive: true })`: creates p and any missing ancestors;
     * fails, changing nothing, when one of them is a file.
     */
    method MkdirRecursive(p: Path) returns (ok: bool)
      requires Valid()
      modifies this
      ensures Valid()
      ensures ok == (Ancestry(p) !! old(files).Keys)
      ensures dirs == if ok then old(dirs) + Ancestry(p) else old(dirs)
      ensures !ok ==> unchanged(this)
      ensures files == old(files) && spawned == old(spawned)
    {
      ok := Ancestry(p) !! files.Keys;
      if ok {
        forall q | q in Ancestry(p) && HasParent(q) ensures Parent(q) in Ancestry(p) {
          AncestryClosed(p, q);
        }
        dirs := dirs + Ancestry(p);
      }
    }

    /**
     * `mkdtemp(prefix)`: creates the directory prefix + suffix, where suffix
     * is the random part; fails, changing nothing, when that path is taken
     * or its parent directory is missing.
     */
    method Mkdtemp(prefix: Path, suffix: string) returns (r: Option<Path>)
      requires Valid() && IsTempSuffix(suffix)
      modifies this
      ensures Valid()
      ensures r.Some? <==>
        (HasParent(prefix + suffix) && Parent(prefix + suffix) in old(dirs) &&
         prefix + suffix !in old(dirs) && prefix + suffix !in old(files))
      ensures r.Some? ==> r.value == prefix + suffix && dirs == old(dirs) + {r.value}
      ensures r.Some? ==> NoneIn(dirs, r.value) && NoneIn(files.Keys, r.value)
      ensures r.None? ==> dirs == old(dirs)
      ensures files == old(files) && spawned == old(spawned)
    {
      var p := prefix + suffix;
      if HasParent(p) && Parent(p) in dirs && p !in dirs && p !in files {
        dirs := dirs + {p};
        r := Some(p);
      } else {
        r := None;
      }
    }

    /** `rm(p)`: removes the file p; fails, changing nothing, on a directory or a missing path. */
    method Rm(p: Path) returns (ok: bool)
      requires Valid()
      modifies this
      ensures Valid()
      ensures ok == (p in old(files))
      ensures files == old(files) - {p} && dirs == old(dirs) && spawned == old(spawned)
    {
      ok := p in files;
      files := files - {p};
    }

    /**
     * `rm(p, { recursive: true })`: removes p and everything below it. When p
     * is missing the call fails, and nothing lies below p to remove.
     */
    method RmRecursive(p: Path)
      requires Valid() && |p| > 0
      modifies this
      ensures Valid()
      ensures dirs == PruneSet(old(dirs), p) && files == Prune(old(files), p)
      ensures spawned == old(spawned)
    {
      if p in dirs || p in files {
        var keptDirs := PruneSet(dirs, p);
        var keptFiles := Prune(files, p);
        forall e | e in keptDirs + keptFiles.Keys && HasParent(e) ensures Parent(e) in keptDirs {
          if Under(Parent(e), p) { UnderFromParent(e, p); }
        }
        dirs, files := keptDirs, keptFiles;
      } else {
        forall q | (q in dirs || q in files) && Under(q, p) ensures false {
          SubtreeHasRoot(dirs, files.Keys, q, p);
        }
        assert dirs == PruneSet(dirs, p);
        assert files == Prune(files, p);
      }
    }

    /**
     * `spawnSync(argv[0], argv[1..])` of a process whose run is described by
     * proc: the command line is recorded and the files it wrote into outDir
     * appear there.
     */
    method SpawnSync(argv: seq<string>, outDir: Path, proc: ProcResult)
      requires Valid() && outDir in dirs && |outDir| > 0 && NoneIn(dirs, outDir)
      requires forall n :: n in proc.written ==> IsName(n)
      modifies this
      ensures Valid()
      ensures spawned == old(spawned) + [argv]
      ensures files == old(files) + Written(outDir, proc.written)
      ensures dirs == old(dirs)
    {
      var w := Written(outDir, proc.written);
      forall p | p in w ensures p !in dirs && HasParent(p) && Parent(p) == outDir {
        var n :| n in proc.written && p == Join(outDir, n);
        ParentOfJoin(outDir, n);
      }
      spawned := spawned + [argv];
      files := files + w;
    }
  }
}
