/**
 * The part of the operating system the dataset helpers of utils.py drive:
 * a filesystem of directories, files and symbolic links, and the `os` calls
 * made on it (`mkdir`, `makedirs`, `symlink`, `open(.., 'wb')`, `remove`,
 * `rename`) plus archive extraction.
 *
 * Entries are keyed by resolved absolute paths (component lists, see
 * `Paths.Abs`); the root `[]` always exists and is a directory. Each call is
 * first a function on the tree (what the call does), then a method of the
 * `FileSystem` class that performs it in place.
 */
module Posix {
  import opened Wrappers
  import opened Paths

  type Path = seq<string>

  /** A working directory: an absolute path of plain components. */
  type PlainPath = p: seq<string> | AllPlain(p)

  datatype Node = Dir | File(data: seq<bv8>) | Link(target: string)

  type Tree = map<Path, Node>

  /** The `errno` values the modelled calls raise `OSError` with. */
  datatype Errno = EExist | ENoEnt | ENotDir | EIsDir | EInval

  predicate Present(t: Tree, p: Path)
  {
    p == [] || p in t
  }

  predicate IsDirAt(t: Tree, p: Path)
  {
    p == [] || (p in t && t[p].Dir?)
  }

  function Parent(p: Path): Path
    requires p != []
  {
    p[..|p| - 1]
  }

  /**
   * `os.path.isdir(p)`: a directory, or a symbolic link whose target, read
   * from the directory that holds the link, is a directory.
   */
  predicate IsDirFollowing(t: Tree, p: Path): (b: bool)
    ensures b ==> Present(t, p)
    ensures IsDirAt(t, p) ==> b
    ensures b && !IsDirAt(t, p) ==> t[p].Link? && IsDirAt(t, Abs(Parent(p), t[p].target))
  {
    IsDirAt(t, p) || (p in t && t[p].Link? && p != [] && IsDirAt(t, Abs(Parent(p), t[p].target)))
  }

  /**
   * The `errno` of a lookup that does not find `p`: the walk down from the
   * root stops at the nearest ancestor present, with `ENOTDIR` when that is
   * not a directory and `ENOENT` when it is.
   */
  function LookupError(t: Tree, p: Path): (e: Errno)
    requires p != []
    ensures e == ENoEnt || e == ENotDir
    ensures Present(t, Parent(p)) ==> (e == ENotDir <==> !IsDirAt(t, Parent(p)))
    decreases |p|
  {
    if !Present(t, Parent(p)) then LookupError(t, Parent(p))
    else if IsDirAt(t, Parent(p)) then ENoEnt
    else ENotDir
  }

  /** Why creating a new entry at `p` fails (`mkdir`, `symlink`), or `None`. */
  function CreateError(t: Tree, p: Path): (e: Option<Errno>)
    ensures e.None? <==> !Present(t, p) && IsDirAt(t, Parent(p))
    ensures e == Some(EExist) <==> Present(t, p)
    ensures !Present(t, p) && Present(t, Parent(p)) && !IsDirAt(t, Parent(p)) ==> e == Some(ENotDir)
  {
    if Present(t, p) then Some(EExist)
    else if IsDirAt(t, Parent(p)) then None
    else Some(LookupError(t, p))
  }

  /** `os.mkdir(p)` */
  function Mkdir(t: Tree, p: Path): (Tree, Option<Errno>)
  {
    var e := CreateError(t, p);
    (if e.None? then t[p := Dir] else t, e)
  }

  /**
   * `os.makedirs(p)`: first, when the parent is missing, `makedirs` of the
   * parent (an `EEXIST` from it is ignored), then `mkdir(p)`.
   */
  function Makedirs(t: Tree, p: Path): (Tree, Option<Errno>)
    decreases |p|
  {
    if p == [] then (t, Some(EExist))
    else
      var up := if !Present(t, Parent(p)) then Makedirs(t, Parent(p)) else (t, None);
      if up.1.Some? && up.1 != Some(EExist) then up
      else Mkdir(up.0, p)
  }

  /** `u` keeps every entry of `t` as it was (and may hold more). */
  predicate Extends(t: Tree, u: Tree)
  {
    forall q :: q in t ==> q in u && u[q] == t[q]
  }

  /**
   * The shape every real filesystem has: each entry sits in a directory that
   * exists (the root is not an entry of its own).
   */
  predicate WellFormed(t: Tree)
  {
    forall q :: q in t ==> q != [] && IsDirAt(t, Parent(q))
  }

  /** `q` is one of the directories on the way to `p`, or `p` itself. */
  predicate OnPathTo(q: Path, p: Path)
  {
    q != [] && q <= p
  }

  /**
   * `makedirs` only ever adds directories on the way to `p`; it never
   * changes or removes an existing entry. On success `p` is a new directory
   * whose parent now exists.
   */
  lemma {:induction false} MakedirsAddsOnlyPathDirs(t: Tree, p: Path)
    ensures var r := Makedirs(t, p);
            forall q :: q in t ==> q in r.0 && r.0[q] == t[q]
    ensures var r := Makedirs(t, p);
            forall q :: q in r.0 && q !in t ==> OnPathTo(q, p) && r.0[q] == Dir
    ensures var r := Makedirs(t, p);
            r.1.None? ==> !Present(t, p) && p in r.0 && r.0[p] == Dir && Present(r.0, Parent(p))
    ensures !Present(t, p) ==> Makedirs(t, p).1 != Some(EExist)
    decreases |p|
  {
    if p != [] && !Present(t, Parent(p)) {
      MakedirsAddsOnlyPathDirs(t, Parent(p));
      var up := Makedirs(t, Parent(p));
      forall q | q in up.0 && q !in t ensures OnPathTo(q, p) {
        assert OnPathTo(q, Parent(p));
      }
    }
  }

  /**
   * `mkdir_p(p)`: `makedirs(p)`, treating "already exists as a directory" as
   * success.
   */
  function MkdirP(t: Tree, p: Path): (Tree, Option<Errno>)
  {
    var r := Makedirs(t, p);
    if r.1 == Some(EExist) && IsDirFollowing(r.0, p) then (r.0, None) else r
  }

  /**
   * `mkdir_p` leaves a directory at `p` when it succeeds, and a second call
   * then succeeds without changing anything: it is idempotent.
   */
  lemma MkdirPIdempotent(t: Tree, p: Path)
    ensures var r := MkdirP(t, p);
            r.1.None? ==> IsDirFollowing(r.0, p) && MkdirP(r.0, p) == (r.0, None)
    ensures var r := MkdirP(t, p);
            r.1.None? && !(p in t && t[p].Link?) ==> IsDirAt(r.0, p)
  {
    MakedirsAddsOnlyPathDirs(t, p);
    var r := Makedirs(t, p);
    if p != [] && r.1 == Some(EExist) && IsDirFollowing(r.0, p) {
      if !Present(t, Parent(p)) {
        MakedirsAddsOnlyPathDirs(t, Parent(p));
      }
      assert Present(r.0, Parent(p));
    }
  }

  /**
   * In a well-formed tree `makedirs` of an existing path changes nothing and
   * fails with `EEXIST`, so `mkdir_p` of an existing directory, or of a link
   * to one, is a no-op, and of any other existing entry raises `EEXIST`.
   */
  lemma MakedirsOnExisting(t: Tree, p: Path)
    requires WellFormed(t) && Present(t, p)
    ensures Makedirs(t, p) == (t, Some(EExist))
    ensures MkdirP(t, p) == if IsDirFollowing(t, p) then (t, None) else (t, Some(EExist))
  {
  }

  /** `makedirs`, and with it `mkdir_p`, keeps a tree well formed. */
  lemma {:induction false} MakedirsKeepsWellFormed(t: Tree, p: Path)
    requires WellFormed(t)
    ensures WellFormed(Makedirs(t, p).0)
    ensures WellFormed(MkdirP(t, p).0)
    decreases |p|
  {
    if p != [] && !Present(t, Parent(p)) {
      MakedirsKeepsWellFormed(t, Parent(p));
      MakedirsAddsOnlyPathDirs(t, Parent(p));
    }
  }

  /** `os.symlink(target, p)` */
  function Symlink(t: Tree, target: string, p: Path): (Tree, Option<Errno>)
  {
    var e := CreateError(t, p);
    (if e.None? then t[p := Link(target)] else t, e)
  }

  /** `open(p, 'wb')`: create or truncate a file (a link is replaced, not followed). */
  function OpenForWrite(t: Tree, p: Path): (r: (Tree, Option<Errno>))
    ensures r.1.None? ==> r.0 == t[p := File([])]
    ensures r.1.Some? ==> r.0 == t
    ensures r.1 == Some(EIsDir) <==> IsDirAt(t, p)
  {
    if IsDirAt(t, p) then (t, Some(EIsDir))
    else if p in t then (t[p := File([])], None)
    else
      var e := CreateError(t, p);
      (if e.None? then t[p := File([])] else t, e)
  }

  /** `os.remove(p)` */
  function Remove(t: Tree, p: Path): (r: (Tree, Option<Errno>))
    ensures r.1.None? <==> p != [] && p in t && !t[p].Dir?
    ensures r.1.None? ==> r.0 == t - {p}
    ensures r.1.Some? ==> r.0 == t
    ensures r.1 == Some(EIsDir) <==> IsDirAt(t, p)
    ensures p != [] && p !in t && Present(t, Parent(p)) ==>
              r.1 == Some(if IsDirAt(t, Parent(p)) then ENoEnt else ENotDir)
  {
    if IsDirAt(t, p) then (t, Some(EIsDir))
    else if p !in t then (t, Some(LookupError(t, p)))
    else (t - {p}, None)
  }

  /** `symlink`, `open(.., 'wb')` and `remove` keep a tree well formed. */
  lemma EntryCallsKeepWellFormed(t: Tree, target: string, p: Path)
    requires WellFormed(t)
    ensures WellFormed(Mkdir(t, p).0)
    ensures WellFormed(Symlink(t, target, p).0)
    ensures WellFormed(OpenForWrite(t, p).0)
    ensures WellFormed(Remove(t, p).0)
  {
    var e := CreateError(t, p);
    if e.None? {
      SetEntryKeepsWellFormed(t, p, Dir);
      SetEntryKeepsWellFormed(t, p, Link(target));
    }
    if !IsDirAt(t, p) && (p in t || e.None?) {
      SetEntryKeepsWellFormed(t, p, File([]));
    }
    RemoveKeepsWellFormed(t, p);
  }

  /** Putting any entry at a place that is not a directory, inside an existing directory, keeps a tree well formed. */
  lemma SetEntryKeepsWellFormed(t: Tree, p: Path, n: Node)
    requires WellFormed(t) && p != [] && IsDirAt(t, Parent(p))
    requires p in t ==> !t[p].Dir?
    ensures WellFormed(t[p := n])
  {
    var u := t[p := n];
    forall q | q in u ensures q != [] && IsDirAt(u, Parent(q)) {
      if q != p {
        assert q in t;
      }
    }
  }

  lemma RemoveKeepsWellFormed(t: Tree, p: Path)
    requires WellFormed(t)
    ensures WellFormed(Remove(t, p).0)
  {
    var r := Remove(t, p).0;
    forall q | q in r ensures q != [] && IsDirAt(r, Parent(q)) {
      if r != t {
        assert Parent(q) != p;
      }
    }
  }

  /** Replacing the prefix `src` by `dst` loses nothing: distinct paths stay distinct. */
  lemma ReplacePrefixInjective(src: Path, dst: Path)
    ensures forall q1, q2 :: src <= q1 && src <= q2 && dst + q1[|src|..] == dst + q2[|src|..] ==> q1 == q2
  {
    forall q1, q2 | src <= q1 && src <= q2 && dst + q1[|src|..] == dst + q2[|src|..]
      ensures q1 == q2
    {
      assert q1[|src|..] == (dst + q1[|src|..])[|dst|..];
      assert q2[|src|..] == (dst + q2[|src|..])[|dst|..];
      assert q1 == src + q1[|src|..];
      assert q2 == src + q2[|src|..];
    }
  }

  /** The tree after the subtree at `src` moved to `dst`. */
  function Moved(t: Tree, src: Path, dst: Path): Tree
  {
    ReplacePrefixInjective(src, dst);
    (map q | q in t && !(src <= q) :: t[q]) +
    (map q | q in t && src <= q :: dst + q[|src|..] := t[q])
  }

  /**
   * `os.rename(src, dst)`. Renaming onto an existing entry is refused here
   * (POSIX would replace a file or an empty directory).
   */
  function Rename(t: Tree, src: Path, dst: Path): (r: (Tree, Option<Errno>))
    ensures src != [] && src !in t ==> r.0 == t && (r.1 == Some(ENoEnt) || r.1 == Some(ENotDir))
  {
    if src == [] then (t, Some(EInval))
    else if src !in t then (t, Some(LookupError(t, src)))
    else if src <= dst then (t, Some(EInval))
    else
      var e := CreateError(t, dst);
      (if e.None? then Moved(t, src, dst) else t, e)
  }

  /** A successful rename is exactly the case where the checks above pass. */
  lemma RenameSucceeds(t: Tree, src: Path, dst: Path)
    ensures Rename(t, src, dst).1.None? <==>
            src != [] && !(src <= dst) && src in t && !Present(t, dst) && IsDirAt(t, Parent(dst))
    ensures Rename(t, src, dst).1.None? ==> Rename(t, src, dst).0 == Moved(t, src, dst)
  {
  }

  /** An entry at or below `src` reappears at the same place below `dst`. */
  lemma MovedCarries(t: Tree, src: Path, dst: Path, q: Path)
    requires q in t && src <= q
    ensures dst + q[|src|..] in Moved(t, src, dst)
    ensures Moved(t, src, dst)[dst + q[|src|..]] == t[q]
  {
    ReplacePrefixInjective(src, dst);
    var k := dst + q[|src|..];
    assert k in (map q | q in t && src <= q :: dst + q[|src|..] := t[q]);
  }

  /** An entry below neither `src` nor `dst` is left as it was. */
  lemma MovedKeeps(t: Tree, src: Path, dst: Path, q: Path)
    requires q in t && !(src <= q) && !(dst <= q)
    ensures q in Moved(t, src, dst) && Moved(t, src, dst)[q] == t[q]
  {
    ReplacePrefixInjective(src, dst);
    assert q !in (map q | q in t && src <= q :: dst + q[|src|..] := t[q]);
  }

  /** An entry outside `dst` after the move was there before, outside `src`. */
  lemma MovedOutsideDst(t: Tree, src: Path, dst: Path, q: Path)
    requires q in Moved(t, src, dst) && !(dst <= q)
    ensures q in t && !(src <= q) && Moved(t, src, dst)[q] == t[q]
  {
    ReplacePrefixInjective(src, dst);
    assert q !in (map q | q in t && src <= q :: dst + q[|src|..] := t[q]);
  }

  /** An entry below `dst` after the move came from the same place below `src`, or was already there. */
  lemma MovedInsideDst(t: Tree, src: Path, dst: Path, q: Path)
    requires q in Moved(t, src, dst) && dst <= q
    ensures src + q[|dst|..] in t || (q in t && !(src <= q))
  {
    ReplacePrefixInjective(src, dst);
    var a := map q | q in t && !(src <= q) :: t[q];
    if q !in a {
      var q0 :| q0 in t && src <= q0 && q == dst + q0[|src|..];
      assert q0 == src + q[|dst|..];
    }
  }

  /**
   * What a rename does: every entry at or below `src` reappears at the same
   * place below `dst` and is gone from `src`; entries elsewhere that are not
   * below `dst` stay as they were.
   */
  lemma RenameMovesSubtree(t: Tree, src: Path, dst: Path)
    ensures var r := Rename(t, src, dst);
            r.1.None? ==> forall q :: q in t && src <= q ==> dst + q[|src|..] in r.0 && r.0[dst + q[|src|..]] == t[q]
    ensures var r := Rename(t, src, dst);
            r.1.None? ==> forall q :: q in r.0 && src <= q ==> dst <= q
    ensures var r := Rename(t, src, dst);
            r.1.None? ==> forall q :: q in t && !(src <= q) && !(dst <= q) ==> q in r.0 && r.0[q] == t[q]
    ensures Rename(t, src, dst).1.None? <==>
            src != [] && !(src <= dst) && src in t && !Present(t, dst) && IsDirAt(t, Parent(dst))
  {
    RenameSucceeds(t, src, dst);
    if Rename(t, src, dst).1.None? {
      var u := Moved(t, src, dst);
      forall q | q in t && src <= q
        ensures dst + q[|src|..] in u && u[dst + q[|src|..]] == t[q]
      {
        MovedCarries(t, src, dst, q);
      }
      forall q | q in u && src <= q
        ensures dst <= q
      {
        if !(dst <= q) {
          MovedOutsideDst(t, src, dst, q);
        }
      }
      forall q | q in t && !(src <= q) && !(dst <= q)
        ensures q in u && u[q] == t[q]
      {
        MovedKeeps(t, src, dst, q);
      }
    }
  }

  /** In a well-formed tree every directory on the way to an entry exists. */
  lemma {:induction false} AncestorsPresent(t: Tree, q: Path, a: Path)
    requires WellFormed(t) && q in t && a <= q
    ensures Present(t, a)
    decreases |q|
  {
    if a != q {
      assert a <= Parent(q);
      if Parent(q) != [] {
        AncestorsPresent(t, Parent(q), a);
      }
    }
  }

  /** A successful rename keeps a tree well formed. */
  lemma RenameKeepsWellFormed(t: Tree, src: Path, dst: Path)
    requires WellFormed(t)
    ensures WellFormed(Rename(t, src, dst).0)
  {
    RenameSucceeds(t, src, dst);
    if Rename(t, src, dst).1.None? {
      var u := Moved(t, src, dst);
      forall q | q in u ensures q != [] && IsDirAt(u, Parent(q)) {
        if dst <= q {
          MovedEntryHasParent(t, src, dst, q);
        } else {
          KeptEntryHasParent(t, src, dst, q);
        }
      }
    }
  }

  /** An entry that moved below `dst` still has its directory above it. */
  lemma MovedEntryHasParent(t: Tree, src: Path, dst: Path, q: Path)
    requires WellFormed(t) && src != [] && !(src <= dst) && !Present(t, dst) && IsDirAt(t, Parent(dst))
    requires q in Moved(t, src, dst) && dst <= q
    ensures q != [] && IsDirAt(Moved(t, src, dst), Parent(q))
  {
    MovedCameFromSrc(t, src, dst, q);
    assert dst != [];
    if q == dst {
      if Parent(dst) != [] {
        MovedKeeps(t, src, dst, Parent(dst));
      }
    } else {
      var tail := q[|dst|..];
      assert q == dst + tail;
      MovedChildHasParent(t, src, dst, tail);
    }
  }

  /** With `dst` absent beforehand, whatever lies below `dst` afterwards was moved there from `src`. */
  lemma MovedCameFromSrc(t: Tree, src: Path, dst: Path, q: Path)
    requires WellFormed(t) && !Present(t, dst)
    requires q in Moved(t, src, dst) && dst <= q
    ensures src + q[|dst|..] in t
  {
    MovedInsideDst(t, src, dst, q);
    if q in t && !(src <= q) {
      AncestorsPresent(t, q, dst);
    }
  }

  lemma MovedChildHasParent(t: Tree, src: Path, dst: Path, tail: Path)
    requires WellFormed(t) && src != [] && src + tail in t && tail != []
    ensures IsDirAt(Moved(t, src, dst), Parent(dst + tail))
  {
    var q0 := src + tail;
    var up := tail[..|tail| - 1];
    assert Parent(dst + tail) == dst + up;
    assert Parent(q0) == src + up;
    assert Parent(q0)[|src|..] == up;
    MovedCarries(t, src, dst, Parent(q0));
  }

  /** An entry the rename did not touch still has its directory above it. */
  lemma KeptEntryHasParent(t: Tree, src: Path, dst: Path, q: Path)
    requires WellFormed(t) && src != [] && !(src <= dst) && !Present(t, dst) && IsDirAt(t, Parent(dst))
    requires q in Moved(t, src, dst) && !(dst <= q)
    ensures q != [] && IsDirAt(Moved(t, src, dst), Parent(q))
  {
    MovedOutsideDst(t, src, dst, q);
    if Parent(q) != [] {
      assert !(src <= Parent(q)) && !(dst <= Parent(q));
      MovedKeeps(t, src, dst, Parent(q));
    }
  }

  /**
   * Reading the file at `p` (`open(p, 'rb')`). A symbolic link is followed
   * once, its target read from the directory that holds the link.
   */
  function Read(t: Tree, p: Path): (r: Result<seq<bv8>, Errno>)
    ensures p != [] && p in t && t[p].File? ==> r == Ok(t[p].data)
    ensures r.Ok? ==> p != [] && p in t && !t[p].Dir?
  {
    if IsDirAt(t, p) then Err(EIsDir)
    else if p !in t then Err(LookupError(t, p))
    else match t[p]
      case File(data) => Ok(data)
      case Link(target) =>
        var q := Abs(Parent(p), target);
        if IsDirAt(t, q) then Err(EIsDir)
        else if q in t && t[q].File? then Ok(t[q].data)
        else if q !in t then Err(LookupError(t, q))
        else Err(ENoEnt)
  }

  /** Archive extraction: the decoded `entries` are written below `root`, replacing what was there. */
  function Extracted(t: Tree, root: Path, entries: Tree): (r: Tree)
    ensures forall q :: q in entries ==> root + q in r && r[root + q] == entries[q]
    ensures forall q :: q in r ==> (q in t && r[q] == t[q]) || (root <= q && q[|root|..] in entries)
  {
    ReplacePrefixInjective([], root);
    t + (map q | q in entries :: root + q[0..] := entries[q])
  }
}
