/** The file system as the orchestrator sees it: a mutable map from paths to
    file contents, changed by whole-file writes and by `fs.renameSync`. */
module FileSystem {
  import opened NodePath
  import opened HeaderInspector

  /** `m` after moving the file at `src` to `dst`, replacing what was there. */
  function Renamed(m: map<Path, seq<byte>>, src: Path, dst: Path): (r: map<Path, seq<byte>>)
    requires src in m
    ensures dst in r && r[dst] == m[src]
    ensures src != dst ==> src !in r
    ensures forall k :: k != src && k != dst ==> (k in r <==> k in m)
    ensures forall k :: k != src && k != dst && k in m ==> r[k] == m[k]
  {
    (m - {src})[dst := m[src]]
  }

  class Files {
    var files: map<Path, seq<byte>>

    constructor (initial: map<Path, seq<byte>>)
      ensures files == initial
    {
      files := initial;
    }

    /** Creates or overwrites the file at `path`. */
    method Write(path: Path, contents: seq<byte>)
      modifies this
      ensures files == old(files)[path := contents]
    {
      files := files[path := contents];
    }

    /** `fs.renameSync(src, dst)`: fails, changing nothing, when `src` does not
        exist; otherwise moves it onto `dst` in one step. */
    method Rename(src: Path, dst: Path) returns (ok: bool)
      modifies this
      ensures ok <==> src in old(files)
      ensures ok ==> files == Renamed(old(files), src, dst)
      ensures !ok ==> files == old(files)
    {
      ok := src in files;
      if ok {
        files := Renamed(files, src, dst);
      }
    }
  }
}
