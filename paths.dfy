/**
 * String-level path handling of POSIX Python 2: `str.split('/')`, `'/'.join`,
 * `os.path.join`, `os.path.abspath` (lexical normalisation against a working
 * directory) and `os.path.relpath`.
 *
 * A resolved path is a sequence of components below the root `/`.
 */
module Paths {
  import opened Wrappers

  /** `s.split('/')`: always at least one piece; pieces never contain '/'. */
  function Split(s: string): (r: seq<string>)
    ensures |r| >= 1
    decreases |s|
  {
    if s == [] then [""]
    else
      var rest := Split(s[1..]);
      if s[0] == '/' then [""] + rest
      else [[s[0]] + rest[0]] + rest[1..]
  }

  /** `'/'.join(parts)` */
  function JoinWith(parts: seq<string>): string
    decreases |parts|
  {
    if parts == [] then ""
    else if |parts| == 1 then parts[0]
    else parts[0] + "/" + JoinWith(parts[1..])
  }

  /** No piece of a split contains a separator. */
  lemma {:induction false} SplitPiecesHaveNoSlash(s: string)
    ensures forall k :: 0 <= k < |Split(s)| ==> '/' !in Split(s)[k]
    decreases |s|
  {
    if s != [] {
      SplitPiecesHaveNoSlash(s[1..]);
      var rest := Split(s[1..]);
      if s[0] != '/' {
        assert '/' !in rest[0];
        assert forall c :: c in [s[0]] + rest[0] ==> c == s[0] || c in rest[0];
      }
    }
  }

  /** A string without a separator splits into itself alone. */
  lemma {:induction false} SplitNoSlash(s: string)
    requires '/' !in s
    ensures Split(s) == [s]
    decreases |s|
  {
    if s != [] {
      SplitNoSlash(s[1..]);
      assert [s[0]] + s[1..] == s;
    }
  }

  /** One unfolding of `Split` on a non-empty string. */
  lemma SplitCons(c: char, t: string)
    ensures Split([c] + t) == if c == '/' then [""] + Split(t)
                              else [[c] + Split(t)[0]] + Split(t)[1..]
  {
    assert ([c] + t)[1..] == t;
  }

  /** Splitting `x + "/" + y` splits `x` and `y` separately. */
  lemma {:induction false} SplitAround(x: string, y: string)
    ensures Split(x + "/" + y) == Split(x) + Split(y)
    decreases |x|
  {
    if x == [] {
      assert x + "/" + y == ['/'] + y;
      SplitCons('/', y);
    } else {
      var t := x[1..];
      assert x == [x[0]] + t;
      assert x + "/" + y == [x[0]] + (t + "/" + y);
      SplitAround(t, y);
      SplitAroundStep(x[0], t, y);
    }
  }

  lemma SplitAroundStep(c: char, t: string, y: string)
    requires Split(t + "/" + y) == Split(t) + Split(y)
    ensures Split([c] + (t + "/" + y)) == Split([c] + t) + Split(y)
  {
    SplitCons(c, t + "/" + y);
    SplitCons(c, t);
    PrependPiece(c, Split([c] + (t + "/" + y)), Split(t + "/" + y), Split([c] + t), Split(t), Split(y));
  }

  /** The list algebra behind `SplitAroundStep`, on the pieces alone. */
  lemma PrependPiece(c: char, whole: seq<string>, rest: seq<string>, left: seq<string>, tail: seq<string>, right: seq<string>)
    requires |tail| >= 1 && rest == tail + right
    requires whole == if c == '/' then [""] + rest else [[c] + rest[0]] + rest[1..]
    requires left == if c == '/' then [""] + tail else [[c] + tail[0]] + tail[1..]
    ensures whole == left + right
  {
    if c != '/' {
      assert rest[0] == tail[0];
      assert rest[1..] == tail[1..] + right;
    }
  }

  /** Round trip one way: joining the pieces of a split gives the string back. */
  lemma {:induction false} JoinSplit(s: string)
    ensures JoinWith(Split(s)) == s
    decreases |s|
  {
    if s != [] {
      JoinSplit(s[1..]);
      var rest := Split(s[1..]);
      if s[0] == '/' {
        assert [s[0]] + s[1..] == s;
      } else {
        var parts := [[s[0]] + rest[0]] + rest[1..];
        if |rest| == 1 {
          assert s[1..] == rest[0];
          assert [s[0]] + s[1..] == s;
        } else {
          assert JoinWith(rest) == rest[0] + "/" + JoinWith(rest[1..]);
          assert parts[1..] == rest[1..];
          assert [s[0]] + s[1..] == s;
        }
      }
    }
  }

  /** Round trip the other way: splitting a join of separator-free pieces gives the pieces. */
  lemma {:induction false} SplitJoin(parts: seq<string>)
    requires |parts| >= 1
    requires forall k :: 0 <= k < |parts| ==> '/' !in parts[k]
    ensures Split(JoinWith(parts)) == parts
    decreases |parts|
  {
    if |parts| == 1 {
      SplitNoSlash(parts[0]);
    } else {
      SplitJoin(parts[1..]);
      SplitNoSlash(parts[0]);
      SplitAround(parts[0], JoinWith(parts[1..]));
      assert [parts[0]] + parts[1..] == parts;
    }
  }

  lemma {:induction false} JoinWithSnoc(parts: seq<string>, last: string)
    requires |parts| >= 1
    ensures JoinWith(parts + [last]) == JoinWith(parts) + "/" + last
    decreases |parts|
  {
    if |parts| == 1 {
      assert (parts + [last])[1..] == [last];
    } else {
      JoinWithSnoc(parts[1..], last);
      assert (parts + [last])[1..] == parts[1..] + [last];
    }
  }

  /**
   * The directory part that `save_images` computes:
   * `'/'.join(image_path.split('/')[:-1])`.
   */
  function ParentDir(s: string): string
  {
    var parts := Split(s);
    JoinWith(parts[..|parts| - 1])
  }

  /**
   * `ParentDir` is everything before the last '/', and the empty string when
   * there is no '/'.
   */
  lemma ParentDirIsPrefixBeforeLastSlash(s: string)
    ensures '/' !in s ==> ParentDir(s) == ""
    ensures '/' in s ==> exists name :: '/' !in name && s == ParentDir(s) + "/" + name
  {
    var parts := Split(s);
    if '/' !in s {
      SplitNoSlash(s);
    } else {
      JoinSplit(s);
      SplitPiecesHaveNoSlash(s);
      if |parts| == 1 {
        assert false;
      }
      var init, name := parts[..|parts| - 1], parts[|parts| - 1];
      assert parts == init + [name];
      JoinWithSnoc(init, name);
      assert s == ParentDir(s) + "/" + name;
    }
  }

  /** `os.path.join(a, b)` of POSIX Python. */
  function Join(a: string, b: string): string
  {
    if |b| > 0 && b[0] == '/' then b
    else if a == "" || a[|a| - 1] == '/' then a + b
    else a + "/" + b
  }

  /** A single plain path component: not empty, not `.` or `..`, no separator. */
  predicate IsPlain(c: string)
  {
    c != "" && c != "." && c != ".." && '/' !in c
  }

  /** Components that a normalised absolute path can hold. */
  predicate AllPlain(cs: seq<string>)
  {
    forall k :: 0 <= k < |cs| ==> IsPlain(cs[k])
  }

  predicate IsAbsolute(s: string)
  {
    |s| > 0 && s[0] == '/'
  }

  /** The pieces of a split that `normpath` keeps: it drops empty pieces and `.`. */
  function Kept(pieces: seq<string>): (r: seq<string>)
    ensures forall k :: 0 <= k < |r| ==> r[k] != "" && r[k] != "."
    ensures forall k :: 0 <= k < |r| ==> r[k] in pieces
    decreases |pieces|
  {
    if pieces == [] then []
    else if pieces[0] == "" || pieces[0] == "." then Kept(pieces[1..])
    else [pieces[0]] + Kept(pieces[1..])
  }

  lemma {:induction false} KeptAppend(xs: seq<string>, ys: seq<string>)
    ensures Kept(xs + ys) == Kept(xs) + Kept(ys)
    decreases |xs|
  {
    if xs != [] {
      KeptAppend(xs[1..], ys);
      assert (xs + ys)[1..] == xs[1..] + ys;
    } else {
      assert xs + ys == ys;
    }
  }

  /** The components of a path string that normalisation keeps. */
  function Parts(s: string): seq<string>
  {
    Kept(Split(s))
  }

  /** Lexical resolution: `..` climbs one level (staying at the root), anything else descends. */
  function Walk(base: seq<string>, comps: seq<string>): seq<string>
    decreases |comps|
  {
    if comps == [] then base
    else
      var next := if comps[0] == ".." then (if base == [] then [] else base[..|base| - 1])
                  else base + [comps[0]];
      Walk(next, comps[1..])
  }

  lemma {:induction false} WalkAppend(base: seq<string>, xs: seq<string>, ys: seq<string>)
    ensures Walk(base, xs + ys) == Walk(Walk(base, xs), ys)
    decreases |xs|
  {
    if xs == [] {
      assert xs + ys == ys;
    } else {
      var next := if xs[0] == ".." then (if base == [] then [] else base[..|base| - 1])
                  else base + [xs[0]];
      assert (xs + ys)[0] == xs[0];
      assert (xs + ys)[1..] == xs[1..] + ys;
      WalkAppend(next, xs[1..], ys);
    }
  }

  /** Walking plain components only appends them. */
  lemma {:induction false} WalkPlain(base: seq<string>, comps: seq<string>)
    requires forall k :: 0 <= k < |comps| ==> comps[k] != ".."
    ensures Walk(base, comps) == base + comps
    decreases |comps|
  {
    if comps != [] {
      WalkPlain(base + [comps[0]], comps[1..]);
      assert base + [comps[0]] + comps[1..] == base + comps;
    }
  }

  /** Walking `k` times `..` drops the last `k` components. */
  lemma {:induction false} WalkUp(base: seq<string>, k: nat)
    requires k <= |base|
    ensures Walk(base, Ups(k)) == base[..|base| - k]
    decreases k
  {
    if k > 0 {
      assert Ups(k)[0] == ".." && Ups(k)[1..] == Ups(k - 1);
      WalkUp(base[..|base| - 1], k - 1);
      assert base[..|base| - 1][..|base| - 1 - (k - 1)] == base[..|base| - k];
    }
  }

  /** `[pardir] * k` */
  function Ups(k: nat): (r: seq<string>)
    ensures |r| == k && forall i :: 0 <= i < k ==> r[i] == ".."
  {
    if k == 0 then [] else [".."] + Ups(k - 1)
  }

  /** `os.path.abspath(s)` with working directory `cwd`, as components. */
  function Abs(cwd: seq<string>, s: string): seq<string>
  {
    Walk(if IsAbsolute(s) then [] else cwd, Parts(s))
  }

  /** Walking only `..` and components free of `.`, empty strings and separators keeps a plain path plain. */
  lemma {:induction false} WalkKeepsPlain(base: seq<string>, comps: seq<string>)
    requires AllPlain(base)
    requires forall k :: 0 <= k < |comps| ==> comps[k] == ".." || IsPlain(comps[k])
    ensures AllPlain(Walk(base, comps))
    decreases |comps|
  {
    if comps != [] {
      var next := if comps[0] == ".." then (if base == [] then [] else base[..|base| - 1])
                  else base + [comps[0]];
      WalkKeepsPlain(next, comps[1..]);
    }
  }

  /** An absolute path resolved against a plain working directory is plain. */
  lemma AbsIsPlain(cwd: seq<string>, s: string)
    requires AllPlain(cwd)
    ensures AllPlain(Abs(cwd, s))
  {
    SplitPiecesHaveNoSlash(s);
    var ps := Parts(s);
    forall k | 0 <= k < |ps|
      ensures ps[k] == ".." || IsPlain(ps[k])
    {
      assert ps[k] in Split(s);
    }
    WalkKeepsPlain(if IsAbsolute(s) then [] else cwd, ps);
  }

  /** Joining a plain name descends into it: `abspath(join(a, b)) == abspath(a) + [b]`. */
  lemma AbsJoin(cwd: seq<string>, a: string, b: string)
    requires IsPlain(b)
    ensures Abs(cwd, Join(a, b)) == Abs(cwd, a) + [b]
  {
    PartsOfJoinPlain(a, b);
    var base := if IsAbsolute(a) then [] else cwd;
    WalkAppend(base, Parts(a), [b]);
    WalkPlain(Walk(base, Parts(a)), [b]);
  }

  /** `join(a, b)` with a plain `b` has the components of `a` and then `b`. */
  lemma PartsOfJoinPlain(a: string, b: string)
    requires IsPlain(b)
    ensures Parts(Join(a, b)) == Parts(a) + [b]
    ensures IsAbsolute(Join(a, b)) == IsAbsolute(a)
  {
    SplitNoSlash(b);
    assert b[0] != '/';
    assert Kept([b]) == [b] + Kept([]);
    if a == "" {
      assert Join(a, b) == b;
      assert Kept([""]) == Kept([]);
    } else if a[|a| - 1] == '/' {
      PartsOfJoinAfterSlash(a, b);
    } else {
      SplitAround(a, b);
      KeptAppend(Split(a), [b]);
    }
  }

  lemma PartsOfJoinAfterSlash(a: string, b: string)
    requires IsPlain(b) && a != "" && a[|a| - 1] == '/'
    ensures Parts(Join(a, b)) == Parts(a) + [b]
    ensures IsAbsolute(Join(a, b)) == IsAbsolute(a)
  {
    SplitNoSlash(b);
    var a' := a[..|a| - 1];
    assert a == a' + "/" + "";
    assert Join(a, b) == a' + "/" + b;
    SplitAround(a', "");
    SplitAround(a', b);
    SplitNoSlash("");
    KeptAppend(Split(a'), [""]);
    KeptAppend(Split(a'), [b]);
    assert Kept([""]) == [] + Kept([]);
    assert Kept([b]) == [b] + Kept([]);
  }

  /** Length of the longest common prefix of two component lists (`commonprefix`). */
  function CommonPrefix(xs: seq<string>, ys: seq<string>): (n: nat)
    ensures n <= |xs| && n <= |ys| && xs[..n] == ys[..n]
    ensures n < |xs| && n < |ys| ==> xs[n] != ys[n]
    decreases |xs|
  {
    if xs == [] || ys == [] || xs[0] != ys[0] then 0
    else
      var n := 1 + CommonPrefix(xs[1..], ys[1..]);
      assert xs[..n] == [xs[0]] + xs[1..][..n - 1];
      assert ys[..n] == [ys[0]] + ys[1..][..n - 1];
      n
  }

  /** The component list that `os.path.relpath(path, start)` joins. */
  function RelParts(cwd: seq<string>, path: string, start: string): seq<string>
  {
    var s := Abs(cwd, start);
    var p := Abs(cwd, path);
    var i := CommonPrefix(s, p);
    Ups(|s| - i) + p[i..]
  }

  /**
   * `os.path.relpath(path, start)` of POSIX Python 2 with working directory `cwd`;
   * `None` where Python raises `ValueError` (an empty `path`).
   */
  function RelPath(cwd: seq<string>, path: string, start: string): Option<string>
  {
    if path == "" then None
    else
      var rel := RelParts(cwd, path, start);
      Some(if rel == [] then "." else JoinWith(rel))
  }

  /** Splitting a join of plain-or-`..` components and dropping empties gives the components back. */
  lemma PartsOfJoin(rel: seq<string>)
    requires forall k :: 0 <= k < |rel| ==> rel[k] == ".." || IsPlain(rel[k])
    ensures Parts(if rel == [] then "." else JoinWith(rel)) == rel
  {
    if rel == [] {
      PartsOfDot();
    } else {
      CleanPieces(rel);
      SplitJoin(rel);
      KeptOfClean(rel);
    }
  }

  lemma CleanPieces(rel: seq<string>)
    requires forall k :: 0 <= k < |rel| ==> rel[k] == ".." || IsPlain(rel[k])
    ensures forall k :: 0 <= k < |rel| ==> '/' !in rel[k] && rel[k] != "" && rel[k] != "."
  {
    forall k | 0 <= k < |rel| ensures '/' !in rel[k] && rel[k] != "" && rel[k] != "." {
      if rel[k] == ".." {
        assert rel[k][0] == '.' && rel[k][1] == '.';
      }
    }
  }

  lemma PartsOfDot()
    ensures Parts(".") == []
  {
    SplitNoSlash(".");
    assert Kept(["."]) == Kept([]);
  }

  lemma {:induction false} KeptOfClean(xs: seq<string>)
    requires forall k :: 0 <= k < |xs| ==> xs[k] != "" && xs[k] != "."
    ensures Kept(xs) == xs
    decreases |xs|
  {
    if xs != [] {
      KeptOfClean(xs[1..]);
    }
  }

  /** Climbing out of `s` to the common prefix and descending into the rest of `p` reaches `p`. */
  lemma ClimbThenDescend(s: seq<string>, p: seq<string>, i: nat)
    requires i <= |s| && i <= |p| && s[..i] == p[..i]
    requires AllPlain(p)
    ensures Walk(s, Ups(|s| - i) + p[i..]) == p
  {
    var tail := p[i..];
    WalkAppend(s, Ups(|s| - i), tail);
    WalkUp(s, |s| - i);
    PlainHasNoUps(tail);
    WalkPlain(s[..i], tail);
    assert s[..i] + tail == p;
  }

  lemma PlainHasNoUps(cs: seq<string>)
    requires AllPlain(cs)
    ensures forall k :: 0 <= k < |cs| ==> cs[k] != ".."
  {
    forall k | 0 <= k < |cs| ensures cs[k] != ".." {
      assert IsPlain(cs[k]);
    }
  }

  /** The components `relpath` joins are `..` or plain. */
  lemma RelPartsArePlainOrUp(cwd: seq<string>, path: string, start: string)
    requires AllPlain(cwd)
    ensures var rel := RelParts(cwd, path, start);
            forall k :: 0 <= k < |rel| ==> rel[k] == ".." || IsPlain(rel[k])
  {
    var s := Abs(cwd, start);
    var p := Abs(cwd, path);
    AbsIsPlain(cwd, path);
    var i := CommonPrefix(s, p);
    var rel := Ups(|s| - i) + p[i..];
    forall k | 0 <= k < |rel|
      ensures rel[k] == ".." || IsPlain(rel[k])
    {
      if k >= |s| - i {
        assert rel[k] == p[i + (k - (|s| - i))];
      }
    }
  }

  /**
   * What `relpath` promises: walking its result from `start` arrives at
   * `path` (both resolved against the same working directory).
   */
  lemma RelPathResolves(cwd: seq<string>, path: string, start: string)
    requires AllPlain(cwd)
    requires path != ""
    ensures RelPath(cwd, path, start).Some?
    ensures Walk(Abs(cwd, start), Parts(RelPath(cwd, path, start).value)) == Abs(cwd, path)
  {
    var s := Abs(cwd, start);
    var p := Abs(cwd, path);
    var rel := RelParts(cwd, path, start);
    RelPartsArePlainOrUp(cwd, path, start);
    PartsOfJoin(rel);
    AbsIsPlain(cwd, path);
    ClimbThenDescend(s, p, CommonPrefix(s, p));
  }
}
