/** The acquired disk as the explorer sees it: a read-only snapshot of paths.
    Only the three filesystem calls the explorer makes are modelled:
    `os.Stat` (through `fileExists`), `ioutil.ReadFile` and `filepath.Glob` of a directory. */
module Files {
  import opened Basics
  import opened Paths

  /** A file's bytes (`None` when it exists but cannot be read), or a
      directory's entry names in the order the directory listing yields them. */
  datatype Node = File(data: Option<string>) | Dir(names: seq<string>)

  datatype FileSystem = FileSystem(nodes: map<string, Node>)

  /** `fileExists`: `os.Stat` succeeds for files and directories alike. */
  predicate Exists(fs: FileSystem, path: string) {
    path in fs.nodes
  }

  /** `ioutil.ReadFile`: fails for a missing path, an unreadable file and a directory. */
  function ReadFile(fs: FileSystem, path: string): (r: Option<string>)
    ensures r.Some? ==> Exists(fs, path)
  {
    if path in fs.nodes && fs.nodes[path].File? then fs.nodes[path].data else None
  }

  /** `filepath.Glob(filepath.Join(dir, "*"))` for a directory without pattern
      metacharacters: the paths of all entries of `dir`, none when `dir` is
      missing or is not a directory. */
  function Glob(fs: FileSystem, dir: string): (paths: seq<string>)
    ensures |paths| == (if dir in fs.nodes && fs.nodes[dir].Dir? then |fs.nodes[dir].names| else 0)
  {
    if dir in fs.nodes && fs.nodes[dir].Dir? then
      var names := fs.nodes[dir].names;
      seq(|names|, i requires 0 <= i < |names| => JoinPath([dir, names[i]]))
    else []
  }

  /** Directory entries are what a real directory holds: non-empty,
      slash-free names, each of which exists under the directory. */
  ghost predicate WellFormed(fs: FileSystem) {
    forall p :: p in fs.nodes && fs.nodes[p].Dir? ==>
      forall i :: 0 <= i < |fs.nodes[p].names| ==>
        && fs.nodes[p].names[i] != ""
        && Separator !in fs.nodes[p].names[i]
        && JoinPath([p, fs.nodes[p].names[i]]) in fs.nodes
  }
}
