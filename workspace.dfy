/**
 * The parts of VS Code's workspace file system the preview calls
 * (`workspace.fs.stat`, `workspace.fs.copy`, `Uri.file`, `Uri.fsPath`):
 * `file` URIs go to the local disk, other schemes to the resources a file
 * system provider serves.
 */
module Workspace {
  import opened Wrappers
  import opened LocalDisk

  datatype Uri = Uri(scheme: string, path: string)

  /** `Uri.fsPath` of a `file` URI on a POSIX host. */
  function FsPath(u: Uri): Path {
    u.path
  }

  /** `Uri.file(p)`. */
  function FileUri(p: Path): Uri {
    Uri("file", p)
  }

  /** The `FileType` flags of VS Code. */
  const FileType: nat := 1
  const DirectoryType: nat := 2

  datatype FileStat = FileStat(fileType: nat, size: nat)

  /** A resource of a non-`file` scheme: its type flags and its bytes. */
  datatype Resource = Resource(fileType: nat, content: Bytes)

  /** The resources served for schemes other than `file`. */
  type Remote = map<Uri, Resource>

  datatype FsError = FileNotFound(uri: Uri)

  /** `workspace.fs.stat(u)`; it throws FileNotFound on a missing resource. */
  function Stat(host: Host, remote: Remote, u: Uri): (r: Result<FileStat, FsError>)
    reads host
    ensures r.Err? <==>
      if u.scheme == "file" then FsPath(u) !in host.files && FsPath(u) !in host.dirs else u !in remote
    ensures r.Ok? && u.scheme == "file" && FsPath(u) in host.files ==>
      r.value == FileStat(FileType, |host.files[FsPath(u)]|)
    ensures r.Ok? && u.scheme != "file" ==>
      r.value == FileStat(remote[u].fileType, |remote[u].content|)
  {
    if u.scheme == "file" then
      if FsPath(u) in host.files then Ok(FileStat(FileType, |host.files[FsPath(u)]|))
      else if FsPath(u) in host.dirs then Ok(FileStat(DirectoryType, 0))
      else Err(FileNotFound(u))
    else if u in remote then Ok(FileStat(remote[u].fileType, |remote[u].content|))
    else Err(FileNotFound(u))
  }

  /** The source of a copy exists as a file. */
  predicate Readable(host: Host, remote: Remote, u: Uri)
    reads host
  {
    if u.scheme == "file" then FsPath(u) in host.files else u in remote
  }

  function Content(host: Host, remote: Remote, u: Uri): Bytes
    reads host
    requires Readable(host, remote, u)
  {
    if u.scheme == "file" then host.files[FsPath(u)] else remote[u].content
  }

  /**
   * `workspace.fs.copy(src, Uri.file(dst))` without overwrite: writes the
   * bytes of src to the new file dst; fails, changing nothing, when src
   * cannot be read, dst already exists or dst's directory is missing.
   */
  method Copy(host: Host, remote: Remote, src: Uri, dst: Path) returns (ok: bool)
    requires host.Valid()
    modifies host
    ensures host.Valid()
    ensures ok == (old(Readable(host, remote, src)) && dst !in old(host.files) && dst !in old(host.dirs)
                   && HasParent(dst) && Parent(dst) in old(host.dirs))
    ensures ok ==> host.files == old(host.files)[dst := old(Content(host, remote, src))]
    ensures !ok ==> host.files == old(host.files)
    ensures host.dirs == old(host.dirs) && host.spawned == old(host.spawned)
  {
    ok := Readable(host, remote, src) && dst !in host.files && dst !in host.dirs
          && HasParent(dst) && Parent(dst) in host.dirs;
    if ok {
      host.files := host.files[dst := Content(host, remote, src)];
    }
  }
}
