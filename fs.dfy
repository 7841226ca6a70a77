/**
 * The filesystem a process of utils.py sees, as an object the `os` calls
 * update in place; each method performs the call of the same name in
 * module `Posix` on the resolved path.
 */
module Fs {
  import opened Wrappers
  import opened Paths
  import opened Posix

  /**
   * The filesystem a process sees, with its working directory `cwd`.
   * Path strings are resolved as `os.path.abspath` does; the empty string
   * names no file (`os.path.exists('')` is false and every call on it fails
   * with `ENOENT`).
   */
  class FileSystem {
    const cwd: PlainPath
    var nodes: Tree

    constructor (cwd: PlainPath, nodes: Tree)
      requires IsDirAt(nodes, cwd)
      ensures this.cwd == cwd && this.nodes == nodes
    {
      this.cwd := cwd;
      this.nodes := nodes;
    }

    function Resolve(s: string): Path
    {
      Abs(cwd, s)
    }

    /**
     * `os.path.exists(s)`, except that links are not followed: a link counts
     * as present even when its target is missing.
     */
    predicate Exists(s: string): (b: bool)
      reads this
      ensures b ==> s != ""
      ensures s != "" && Resolve(s) in nodes ==> b
      ensures s != "" && Resolve(s) == [] ==> b
    {
      s != "" && Present(nodes, Resolve(s))
    }

    /** `os.path.isdir(s)`: a final symbolic link is followed once. */
    predicate IsDir(s: string): (b: bool)
      reads this
      ensures b ==> Exists(s)
      ensures s != "" && IsDirAt(nodes, Resolve(s)) ==> b
      ensures b && !IsDirAt(nodes, Resolve(s)) ==> nodes[Resolve(s)].Link?
    {
      s != "" && IsDirFollowing(nodes, Resolve(s))
    }

    method Mkdir(s: string) returns (e: Option<Errno>)
      modifies this
      ensures s == "" ==> e == Some(ENoEnt) && nodes == old(nodes)
      ensures s != "" ==> (nodes, e) == Posix.Mkdir(old(nodes), Resolve(s))
    {
      if s == "" {
        return Some(ENoEnt);
      }
      var p := Resolve(s);
      e := CreateError(nodes, p);
      if e.None? {
        nodes := nodes[p := Dir];
      }
    }

    /** `os.makedirs` on a resolved path, recursing on the parent as Python does. */
    method MakedirsAt(p: Path) returns (e: Option<Errno>)
      modifies this
      ensures (nodes, e) == Posix.Makedirs(old(nodes), p)
      decreases |p|
    {
      if p == [] {
        return Some(EExist);
      }
      if !Present(nodes, Parent(p)) {
        var up := MakedirsAt(Parent(p));
        if up.Some? && up != Some(EExist) {
          return up;
        }
      }
      e := CreateError(nodes, p);
      if e.None? {
        nodes := nodes[p := Dir];
      }
    }

    method Makedirs(s: string) returns (e: Option<Errno>)
      modifies this
      ensures s == "" ==> e == Some(ENoEnt) && nodes == old(nodes)
      ensures s != "" ==> (nodes, e) == Posix.Makedirs(old(nodes), Resolve(s))
    {
      if s == "" {
        return Some(ENoEnt);
      }
      e := MakedirsAt(Resolve(s));
    }

    /** `mkdir_p(path)` of utils.py. */
    method MkdirP(s: string) returns (e: Option<Errno>)
      modifies this
      ensures s == "" ==> e == Some(ENoEnt) && nodes == old(nodes)
      ensures s != "" ==> (nodes, e) == Posix.MkdirP(old(nodes), Resolve(s))
    {
      e := Makedirs(s);
      if e == Some(EExist) && IsDir(s) {
        e := None;
      }
    }

    method Symlink(target: string, s: string) returns (e: Option<Errno>)
      modifies this
      ensures s == "" ==> e == Some(ENoEnt) && nodes == old(nodes)
      ensures s != "" ==> (nodes, e) == Posix.Symlink(old(nodes), target, Resolve(s))
    {
      if s == "" {
        return Some(ENoEnt);
      }
      var p := Resolve(s);
      e := CreateError(nodes, p);
      if e.None? {
        nodes := nodes[p := Link(target)];
      }
    }

    method OpenForWrite(s: string) returns (e: Option<Errno>)
      modifies this
      ensures s == "" ==> e == Some(ENoEnt) && nodes == old(nodes)
      ensures s != "" ==> (nodes, e) == Posix.OpenForWrite(old(nodes), Resolve(s))
    {
      if s == "" {
        return Some(ENoEnt);
      }
      var r := Posix.OpenForWrite(nodes, Resolve(s));
      nodes, e := r.0, r.1;
    }

    /** `f.write(chunk)` on a file opened by `OpenForWrite`. */
    method Append(s: string, chunk: seq<bv8>)
      requires Resolve(s) in nodes && nodes[Resolve(s)].File?
      modifies this
      ensures nodes == old(nodes)[Resolve(s) := File(old(nodes)[Resolve(s)].data + chunk)]
    {
      var p := Resolve(s);
      nodes := nodes[p := File(nodes[p].data + chunk)];
    }

    method Remove(s: string) returns (e: Option<Errno>)
      modifies this
      ensures s == "" ==> e == Some(ENoEnt) && nodes == old(nodes)
      ensures s != "" ==> (nodes, e) == Posix.Remove(old(nodes), Resolve(s))
    {
      if s == "" {
        return Some(ENoEnt);
      }
      var r := Posix.Remove(nodes, Resolve(s));
      nodes, e := r.0, r.1;
    }

    method Rename(src: string, dst: string) returns (e: Option<Errno>)
      modifies this
      ensures src == "" || dst == "" ==> e == Some(ENoEnt) && nodes == old(nodes)
      ensures src != "" && dst != "" ==> (nodes, e) == Posix.Rename(old(nodes), Resolve(src), Resolve(dst))
    {
      if src == "" || dst == "" {
        return Some(ENoEnt);
      }
      var r := Posix.Rename(nodes, Resolve(src), Resolve(dst));
      nodes, e := r.0, r.1;
    }

    /** The bytes of the file `s`. */
    method ReadFile(s: string) returns (r: Result<seq<bv8>, Errno>)
      ensures s == "" ==> r == Err(ENoEnt)
      ensures s != "" ==> r == Posix.Read(nodes, Resolve(s))
    {
      if s == "" {
        return Err(ENoEnt);
      }
      r := Posix.Read(nodes, Resolve(s));
    }

    /** `ZipFile.extractall(dir)` once the archive has been decoded into `entries`. */
    method ExtractAll(dir: string, entries: Tree)
      modifies this
      ensures nodes == Extracted(old(nodes), Resolve(dir), entries)
    {
      nodes := Extracted(nodes, Resolve(dir), entries);
    }
  }
}
