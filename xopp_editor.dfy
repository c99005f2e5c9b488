/**
 * The read-only custom editor of src/xoppEditor.ts: opening a Xournal++
 * document renders its pages into a fresh cache directory with the
 * `xournalpp` tool, the editor lists those pages in page order, and
 * disposing of the document deletes the directory.
 */
module XoppEditor {
  import opened Wrappers
  import opened LocalDisk
  import opened Workspace
  import PageIndex

  /** An open document: its URI and its cache directory, None when nothing was rendered. */
  class XoppDocument {
    const uri: Uri
    const pageDir: Option<Path>

    constructor (uri: Uri, pageDir: Option<Path>)
      ensures this.uri == uri && this.pageDir == pageDir
    {
      this.uri := uri;
      this.pageDir := pageDir;
    }

    /**
     * Deletes the cache directory and everything in it; with no cache
     * directory, does nothing. The empty path names no entry, so removing
     * it fails and changes nothing.
     */
    method Dispose(host: Host)
      requires host.Valid()
      modifies host
      ensures host.Valid()
      ensures pageDir.None? || pageDir.value == "" ==> unchanged(host)
      ensures pageDir.Some? && pageDir.value != "" ==>
        host.dirs == PruneSet(old(host.dirs), pageDir.value) &&
        host.files == Prune(old(host.files), pageDir.value) &&
        host.spawned == old(host.spawned)
    {
      if pageDir.Some? && pageDir.value != "" {
        host.RmRecursive(pageDir.value);
      }
    }
  }

  datatype OpenError =
    | StatFailed(uri: Uri)
    | StorageFailed(path: Path)
    | CopyFailed(source: Uri, target: Path)
    | RenderFailed(file: Path, status: Option<int>, stderr: string)

  /** The stat shows a regular file with at least one byte: the only case that is rendered. */
  predicate HasContent(st: Result<FileStat, FsError>) {
    st.Ok? && st.value.fileType == FileType && st.value.size != 0
  }

  /** The URI that is rendered: the backup's, when the host passes a backup id. */
  function EffectiveUri(uri: Uri, backupId: Option<string>, parse: string -> Uri): Uri {
    if backupId.Some? then parse(backupId.value) else uri
  }

  function TempCopy(pageLoc: Path): Path {
    Join(pageLoc, "temp.xopp")
  }

  /** The file given to the renderer: a copy in the cache directory for a non-`file` URI. */
  function RenderSource(source: Uri, pageLoc: Path): Path {
    if source.scheme != "file" then TempCopy(pageLoc) else FsPath(source)
  }

  /** The renderer's command line: the source file, then `-i` and the output pattern. */
  function RenderCommand(file: Path, pageLoc: Path): seq<string> {
    ["xournalpp", file, "-i", pageLoc + "/page.png"]
  }

  /** The files in the cache directory after a successful render: the pages without the copy. */
  function RenderedFiles(before: map<Path, Bytes>, pageLoc: Path, source: Uri, proc: ProcResult): map<Path, Bytes> {
    var after := before + Written(pageLoc, proc.written);
    if source.scheme != "file" then after - {TempCopy(pageLoc)} else after
  }

  /** What the editor shows: nothing at all, or these page images in this order. */
  datatype View = Blank | Pages(images: seq<string>)

  datatype ResolveError = ReaddirFailed(path: Path) | BadFile

  /** listing enumerates names: each once, and nothing else. */
  ghost predicate IsEnumeration(listing: seq<string>, names: set<string>) {
    PageIndex.Distinct(listing) && forall n :: n in listing <==> n in names
  }

  /** names holds at least two `.png` entries, so the sort compares page numbers. */
  ghost predicate TwoPageImages(names: set<string>) {
    exists a, b :: a in names && b in names && a != b && PageIndex.IsPageImage(a) && PageIndex.IsPageImage(b)
  }

  lemma DistinctFromCounts(s: seq<string>)
    requires forall x :: multiset(s)[x] <= 1
    ensures PageIndex.Distinct(s)
  {
    forall i, j | 0 <= i < j < |s| ensures s[i] != s[j] {
      assert s == s[..j] + s[j..];
      assert s[i] in s[..j] && s[j] in s[j..];
      assert multiset(s)[s[j]] == multiset(s[..j])[s[j]] + multiset(s[j..])[s[j]];
    }
  }

  /** The `.png` entries of an enumeration of names: each `.png` name once. */
  lemma RetainedOfEnumeration(listing: seq<string>, names: set<string>)
    requires IsEnumeration(listing, names)
    ensures PageIndex.Distinct(PageIndex.Retained(listing))
    ensures forall n :: n in PageIndex.Retained(listing) <==> n in names && PageIndex.IsPageImage(n)
  {
    var pages := PageIndex.Retained(listing);
    forall x ensures multiset(pages)[x] <= 1 {
      PageIndex.DistinctCount(listing, x);
    }
    DistinctFromCounts(pages);
  }

  lemma TwoRetained(listing: seq<string>, names: set<string>)
    requires IsEnumeration(listing, names)
    ensures |PageIndex.Retained(listing)| >= 2 <==> TwoPageImages(names)
  {
    var pages := PageIndex.Retained(listing);
    RetainedOfEnumeration(listing, names);
    if |pages| >= 2 {
      assert pages[0] in pages && pages[1] in pages;
      assert TwoPageImages(names);
    }
    if TwoPageImages(names) {
      var a, b :| a in names && b in names && a != b && PageIndex.IsPageImage(a) && PageIndex.IsPageImage(b);
      TwoMembers(pages, a, b);
    }
  }

  lemma TwoMembers(s: seq<string>, a: string, b: string)
    requires a in s && b in s && a != b
    ensures |s| >= 2
  {
  }

  lemma DistinctPermutation(a: seq<string>, b: seq<string>)
    requires PageIndex.Distinct(a) && multiset(a) == multiset(b)
    ensures PageIndex.Distinct(b)
  {
    forall x ensures multiset(b)[x] <= 1 {
      PageIndex.DistinctCount(a, x);
    }
    DistinctFromCounts(b);
  }

  /** The listing of a directory whose names are those of an enumeration: its `.png` names, each once. */
  lemma PagesOfEnumeration(listing: seq<string>, names: set<string>)
    requires IsEnumeration(listing, names) && PageIndex.ListPages(listing).Ok?
    ensures PageIndex.Distinct(PageIndex.ListPages(listing).value)
    ensures forall n :: n in PageIndex.ListPages(listing).value <==> n in names && PageIndex.IsPageImage(n)
  {
    var images := PageIndex.ListPages(listing).value;
    var pages := PageIndex.Retained(listing);
    RetainedOfEnumeration(listing, names);
    DistinctPermutation(pages, images);
    forall n ensures n in images <==> n in pages {
      assert n in images <==> n in multiset(images);
    }
  }

  /** The listing fails exactly when two `.png` names are compared and one has no digits. */
  lemma BadFileOfEnumeration(listing: seq<string>, names: set<string>)
    requires IsEnumeration(listing, names)
    ensures PageIndex.ListPages(listing).Err? <==>
      TwoPageImages(names) && exists n :: n in names && PageIndex.IsPageImage(n) && PageIndex.NoDigits(n)
  {
    TwoRetained(listing, names);
    PageIndex.ListPagesSpec(listing);
  }

  /** A directory path as `path.join` returns it: not empty, no trailing '/'. */
  predicate IsDirPath(p: Path) {
    |p| > 0 && p[|p| - 1] != '/'
  }

  /**
   * `mkdir(cacheDir, { recursive: true })` followed by `mkdtemp(cacheDir + "/")`,
   * with suffix the random part: the new, empty cache directory of one document.
   */
  method MakePageDir(host: Host, cacheDir: Path, suffix: string) returns (r: Result<Path, OpenError>)
    requires host.Valid() && IsDirPath(cacheDir) && IsTempSuffix(suffix)
    modifies host
    ensures host.Valid()
    ensures host.files == old(host.files) && host.spawned == old(host.spawned)
    ensures !(Ancestry(cacheDir) !! old(host.files).Keys) ==>
      r == Err(StorageFailed(cacheDir)) && unchanged(host)
    ensures Ancestry(cacheDir) !! old(host.files).Keys &&
            (Join(cacheDir, suffix) in old(host.dirs) || Join(cacheDir, suffix) in old(host.files)) ==>
      r == Err(StorageFailed(Join(cacheDir, suffix))) && host.dirs == old(host.dirs) + Ancestry(cacheDir)
    ensures Ancestry(cacheDir) !! old(host.files).Keys &&
            Join(cacheDir, suffix) !in old(host.dirs) && Join(cacheDir, suffix) !in old(host.files) ==>
      r == Ok(Join(cacheDir, suffix)) && host.dirs == old(host.dirs) + Ancestry(cacheDir) + {Join(cacheDir, suffix)}
    ensures r.Ok? ==> |r.value| > 0 && r.value in host.dirs && NoneIn(host.dirs, r.value) && NoneIn(host.files.Keys, r.value)
  {
    var made := host.MkdirRecursive(cacheDir);
    if !made {
      return Err(StorageFailed(cacheDir));
    }
    var expected := Join(cacheDir, suffix);
    assert cacheDir + "/" + suffix == expected;
    ParentOfJoin(cacheDir, suffix);
    assert expected !in Ancestry(cacheDir);
    var temp := host.Mkdtemp(cacheDir + "/", suffix);
    if temp.None? {
      return Err(StorageFailed(expected));
    }
    return Ok(temp.value);
  }

  /** Removing a file that was added leaves what was there before it, whatever was written over it. */
  lemma DropCopy(before: map<Path, Bytes>, w: map<Path, Bytes>, file: Path, c: Bytes)
    requires file !in before
    ensures (before[file := c] + w) - {file} == (before + w) - {file}
  {
  }

  /**
   * Renders source into the new cache directory pageLoc: a non-`file` source
   * is first copied to `temp.xopp` there, then `xournalpp` runs (proc is how
   * that run goes), and on success the copy is removed again.
   */
  method Render(host: Host, remote: Remote, source: Uri, pageLoc: Path, proc: ProcResult)
    returns (err: Option<OpenError>)
    requires host.Valid() && |pageLoc| > 0 && pageLoc in host.dirs
    requires NoneIn(host.dirs, pageLoc) && NoneIn(host.files.Keys, pageLoc)
    requires forall n :: n in proc.written ==> IsName(n)
    modifies host
    ensures host.Valid() && host.dirs == old(host.dirs)
    ensures var ran := host.spawned == old(host.spawned) + [RenderCommand(RenderSource(source, pageLoc), pageLoc)];
      (ran || host.spawned == old(host.spawned)) &&
      (source.scheme == "file" || old(Readable(host, remote, source)) <==> ran)
    ensures source.scheme != "file" && !old(Readable(host, remote, source)) ==>
      err == Some(CopyFailed(source, TempCopy(pageLoc))) && host.files == old(host.files)
    ensures (source.scheme == "file" || old(Readable(host, remote, source))) && proc.status != Some(0) ==>
      err == Some(RenderFailed(RenderSource(source, pageLoc), proc.status, proc.stderr)) &&
      host.files == (if source.scheme != "file"
                     then old(host.files)[TempCopy(pageLoc) := old(Content(host, remote, source))]
                     else old(host.files)) + Written(pageLoc, proc.written)
    ensures (source.scheme == "file" || old(Readable(host, remote, source))) && proc.status == Some(0) ==>
      err == None && host.files == RenderedFiles(old(host.files), pageLoc, source, proc)
  {
    var file := RenderSource(source, pageLoc);
    var tmpFile := false;
    if source.scheme != "file" {
      tmpFile := true;
      ParentOfJoin(pageLoc, "temp.xopp");
      var copied := Copy(host, remote, source, file);
      if !copied {
        return Some(CopyFailed(source, file));
      }
    }
    ghost var copiedFiles := host.files;
    host.SpawnSync(RenderCommand(file, pageLoc), pageLoc, proc);
    if proc.status != Some(0) {
      return Some(RenderFailed(file, proc.status, proc.stderr));
    }
    if tmpFile {
      var removed := host.Rm(file);
      assert removed;
      DropCopy(old(host.files), Written(pageLoc, proc.written), file, copiedFiles[file]);
    }
    return None;
  }

  class XoppEditorProvider {
    const extensionPath: Path

    constructor (extensionPath: Path)
      ensures this.extensionPath == extensionPath
    {
      this.extensionPath := extensionPath;
    }

    /** `path.join(extensionPath, "cache")`: the root shared by all cache directories. */
    function CacheDir(): (d: Path)
      ensures IsDirPath(d)
    {
      Join(extensionPath, "cache")
    }

    /**
     * openCustomDocument. The random part of the cache directory's name is
     * tempSuffix, and proc is the outcome of running `xournalpp`.
     */
    method OpenCustomDocument(host: Host, remote: Remote, uri: Uri, backupId: Option<string>,
                              parse: string -> Uri, tempSuffix: string, proc: ProcResult)
      returns (r: Result<XoppDocument, OpenError>)
      requires host.Valid() && IsTempSuffix(tempSuffix)
      requires forall n :: n in proc.written ==> IsName(n)
      modifies host
      ensures host.Valid()
      // A missing nominal resource: stat throws.
      ensures old(Stat(host, remote, uri)).Err? ==> r == Err(StatFailed(uri)) && unchanged(host)
      // Not a regular file, or empty: a document without cache directory, and nothing else happens.
      ensures old(Stat(host, remote, uri)).Ok? && !HasContent(old(Stat(host, remote, uri))) ==>
        r.Ok? && fresh(r.value) && r.value.uri == uri && r.value.pageDir.None? && unchanged(host)
      // The cache root cannot be created.
      ensures HasContent(old(Stat(host, remote, uri))) && !(Ancestry(CacheDir()) !! old(host.files).Keys) ==>
        r == Err(StorageFailed(CacheDir())) && unchanged(host)
      // The random name is taken.
      ensures HasContent(old(Stat(host, remote, uri))) && Ancestry(CacheDir()) !! old(host.files).Keys &&
              (Join(CacheDir(), tempSuffix) in old(host.dirs) || Join(CacheDir(), tempSuffix) in old(host.files)) ==>
        r == Err(StorageFailed(Join(CacheDir(), tempSuffix))) && host.dirs == old(host.dirs) + Ancestry(CacheDir()) &&
        host.files == old(host.files) && host.spawned == old(host.spawned)
      // The cache directory is made; what happens next depends on the effective source.
      ensures HasContent(old(Stat(host, remote, uri))) && Ancestry(CacheDir()) !! old(host.files).Keys &&
              Join(CacheDir(), tempSuffix) !in old(host.dirs) && Join(CacheDir(), tempSuffix) !in old(host.files) ==>
        var pageLoc := Join(CacheDir(), tempSuffix);
        var source := EffectiveUri(uri, backupId, parse);
        var file := RenderSource(source, pageLoc);
        var ran := host.spawned == old(host.spawned) + [RenderCommand(file, pageLoc)];
        host.dirs == old(host.dirs) + Ancestry(CacheDir()) + {pageLoc} &&
        (ran || host.spawned == old(host.spawned)) &&
        // A non-`file` source that cannot be read: the renderer never runs.
        (source.scheme != "file" && !old(Readable(host, remote, source)) ==>
           r == Err(CopyFailed(source, file)) && host.files == old(host.files) && !ran) &&
        (source.scheme == "file" || old(Readable(host, remote, source)) ==> ran) &&
        // The renderer failed: its status and error text; the copy and the pages written stay.
        (ran && proc.status != Some(0) ==>
           r == Err(RenderFailed(file, proc.status, proc.stderr)) &&
           host.files == (if source.scheme != "file"
                          then old(host.files)[TempCopy(pageLoc) := old(Content(host, remote, source))]
                          else old(host.files)) + Written(pageLoc, proc.written)) &&
        // The renderer succeeded: its pages, without the copy, and a document on the cache directory.
        (ran && proc.status == Some(0) ==>
           r.Ok? && fresh(r.value) && r.value.uri == source && r.value.pageDir == Some(pageLoc) &&
           host.files == RenderedFiles(old(host.files), pageLoc, source, proc))
      // A document with a cache directory comes only from a successful render.
      ensures r.Ok? && r.value.pageDir.Some? ==>
        var pageLoc := Join(CacheDir(), tempSuffix);
        r.value.pageDir == Some(pageLoc) && pageLoc !in old(host.dirs) && pageLoc !in old(host.files) &&
        host.dirs == old(host.dirs) + Ancestry(CacheDir()) + {pageLoc} &&
        host.files == RenderedFiles(old(host.files), pageLoc, EffectiveUri(uri, backupId, parse), proc)
    {
      var st := Stat(host, remote, uri);
      if st.Err? {
        return Err(StatFailed(uri));
      }
      if st.value.fileType != FileType || st.value.size == 0 {
        var doc := new XoppDocument(uri, None);
        return Ok(doc);
      }
      var dir := MakePageDir(host, CacheDir(), tempSuffix);
      if dir.Err? {
        return Err(dir.error);
      }
      var pageLoc := dir.value;
      var source := uri;
      if backupId.Some? {
        source := parse(backupId.value);
      }
      var err := Render(host, remote, source, pageLoc, proc);
      if err.Some? {
        return Err(err.value);
      }
      var doc := new XoppDocument(source, Some(pageLoc));
      return Ok(doc);
    }

    /**
     * The page listing of resolveCustomEditor: with no cache directory the
     * editor stays blank; otherwise the directory is read (listing is the
     * order `readdir` returns its entries in) and its `.png` entries are
     * shown in page order.
     */
    method ResolveCustomEditor(doc: XoppDocument, host: Host, listing: seq<string>)
      returns (r: Result<View, ResolveError>)
      requires doc.pageDir.Some? && doc.pageDir.value in host.dirs ==>
        IsEnumeration(listing, host.Children(doc.pageDir.value))
      ensures doc.pageDir.None? ==> r == Ok(Blank)
      ensures doc.pageDir.Some? && doc.pageDir.value !in host.dirs ==> r == Err(ReaddirFailed(doc.pageDir.value))
      // The comparator throws on a `.png` name without digits, once two are compared.
      ensures doc.pageDir.Some? && doc.pageDir.value in host.dirs ==>
        (r == Err(BadFile) <==>
           TwoPageImages(host.Children(doc.pageDir.value)) &&
           exists n :: n in host.Children(doc.pageDir.value) && PageIndex.IsPageImage(n) && PageIndex.NoDigits(n))
      ensures r.Ok? && doc.pageDir.Some? ==>
        PageIndex.ListPages(listing).Ok? && r == Ok(Pages(PageIndex.ListPages(listing).value))
      // Exactly the `.png` entries, each once,
      ensures r.Ok? && doc.pageDir.Some? ==>
        PageIndex.Distinct(r.value.images) &&
        forall n :: n in r.value.images <==> n in host.Children(doc.pageDir.value) && PageIndex.IsPageImage(n)
      // in nondecreasing page order.
      ensures r.Ok? && doc.pageDir.Some? && |r.value.images| >= 2 ==>
        forall i, j :: 0 <= i < j < |r.value.images| ==>
          PageIndex.PageNumber(r.value.images[i]).value <= PageIndex.PageNumber(r.value.images[j]).value
    {
      if doc.pageDir.None? {
        return Ok(Blank);
      }
      var dir := doc.pageDir.value;
      if dir !in host.dirs {
        return Err(ReaddirFailed(dir));
      }
      var pages := PageIndex.ListPages(listing);
      ghost var names := host.Children(dir);
      BadFileOfEnumeration(listing, names);
      if pages.Err? {
        return Err(BadFile);
      }
      PagesOfEnumeration(listing, names);
      PageIndex.ListPagesSpec(listing);
      r := Ok(Pages(pages.value));
    }
  }

  /** Nothing lies below a path that is neither a directory nor a file. */
  lemma NothingUnder(dirs: set<Path>, files: set<Path>, root: Path)
    requires Tree(dirs, files) && |root| > 0 && root !in dirs && root !in files
    ensures forall q :: q in dirs || q in files ==> !Under(q, root)
  {
    forall q | (q in dirs || q in files) && Under(q, root) ensures false {
      SubtreeHasRoot(dirs, files, q, root);
    }
  }

  /** Whatever a process writes into dir lies strictly below dir. */
  lemma WrittenUnder(dir: Path, written: map<string, Bytes>)
    ensures forall p :: p in Written(dir, written) ==> Under(p, dir) && p != dir
  {
    forall p | p in Written(dir, written) ensures Under(p, dir) && p != dir {
      var n :| n in written && p == Join(dir, n);
      assert p[..|dir| + 1] == dir + "/";
    }
  }

  /** Removing the cache directory of a successful render leaves the files that were there before it. */
  lemma RenderedFilesPruned(before: map<Path, Bytes>, dirs: set<Path>, pageLoc: Path, source: Uri, proc: ProcResult)
    requires Tree(dirs, before.Keys) && |pageLoc| > 0 && pageLoc !in dirs && pageLoc !in before
    ensures Prune(RenderedFiles(before, pageLoc, source, proc), pageLoc) == before
  {
    NothingUnder(dirs, before.Keys, pageLoc);
    WrittenUnder(pageLoc, proc.written);
    var after := RenderedFiles(before, pageLoc, source, proc);
    var pruned := Prune(after, pageLoc);
    forall q | q in before ensures q in pruned && pruned[q] == before[q] {
      assert q !in Written(pageLoc, proc.written);
    }
  }

  /** Removing the cache directory leaves the cache root and what was there before. */
  lemma RenderedDirsPruned(dirs: set<Path>, files: set<Path>, cacheDir: Path, pageLoc: Path)
    requires Tree(dirs, files) && |pageLoc| > |cacheDir| && pageLoc !in dirs && pageLoc !in files
    ensures PruneSet(dirs + Ancestry(cacheDir) + {pageLoc}, pageLoc) == dirs + Ancestry(cacheDir)
  {
    NothingUnder(dirs, files, pageLoc);
  }

  /**
   * Opening a document and disposing of it again leaves every file as it
   * was; only the cache root may have been created, and it stays.
   */
  method OpenThenDispose(provider: XoppEditorProvider, host: Host, remote: Remote, uri: Uri,
                         backupId: Option<string>, parse: string -> Uri, tempSuffix: string, proc: ProcResult)
    returns (r: Result<XoppDocument, OpenError>)
    requires host.Valid() && IsTempSuffix(tempSuffix)
    requires forall n :: n in proc.written ==> IsName(n)
    modifies host
    ensures host.Valid()
    ensures r.Ok? && r.value.pageDir.None? ==> unchanged(host)
    ensures r.Ok? && r.value.pageDir.Some? ==>
      host.files == old(host.files) && host.dirs == old(host.dirs) + Ancestry(provider.CacheDir())
  {
    var cacheDir := provider.CacheDir();
    var pageLoc := Join(cacheDir, tempSuffix);
    if pageLoc !in host.dirs && pageLoc !in host.files {
      RenderedFilesPruned(host.files, host.dirs, pageLoc, EffectiveUri(uri, backupId, parse), proc);
      RenderedDirsPruned(host.dirs, host.files.Keys, cacheDir, pageLoc);
    }
    r := provider.OpenCustomDocument(host, remote, uri, backupId, parse, tempSuffix, proc);
    if r.Ok? {
      r.value.Dispose(host);
    }
  }
}
