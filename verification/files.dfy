/** The part of the file system the sidecar touches: a map from path to the
    file's contents. A path that is absent stands for every reason a read can
    fail (missing file, permissions, I/O error). The empty path names no
    file: `os.ReadFile("")` and `os.Create("")` always fail. Distinct path
    strings stand for distinct files. */
module Files {
  import opened Wrappers

  type Disk = d: map<string, string> | "" !in d witness map[]

  /** `os.ReadFile`: the contents of the file at `path`, if it can be read. */
  function ReadFile(disk: Disk, path: string): (r: Option<string>)
    ensures r.Some? <==> path in disk
    ensures path == "" ==> r.None?
  {
    if path in disk then Some(disk[path]) else None
  }
}
