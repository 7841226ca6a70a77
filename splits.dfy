/**
 * `add_splits` and `check_link` of utils.py: the CelebA examples are
 * partitioned into train, valid and test by index, and each image present in
 * `<base>/CelebA/images` gets a relative symbolic link in the directory of its
 * split, `<base>/CelebA/splits/<split>`.
 *
 * Every filesystem call is one of module `Posix`; an `OSError` ends
 * `add_splits` at once and is its result.
 */
module Splits {
  import opened Wrappers
  import opened Paths
  import opened Posix
  import opened Fs
  import opened Decimal

  /** The standard CelebA partition. */
  const NUM_EXAMPLES: nat := 202599
  const TRAIN_STOP: nat := 162770
  const VALID_STOP: nat := 182637

  datatype Split = Train | Valid | Test

  function SplitName(s: Split): string
  {
    match s
    case Train => "train"
    case Valid => "valid"
    case Test => "test"
  }

  /** The index range `range(lo, hi)` of the loop that links the examples of split `s`. */
  function RangeOf(s: Split): (nat, nat)
  {
    match s
    case Train => (0, TRAIN_STOP)
    case Valid => (TRAIN_STOP, VALID_STOP)
    case Test => (VALID_STOP, NUM_EXAMPLES)
  }

  predicate InRange(s: Split, i: nat)
  {
    RangeOf(s).0 <= i < RangeOf(s).1
  }

  /** The split the standard partition gives example `i`. */
  function SplitOf(i: nat): Split
  {
    if i < TRAIN_STOP then Train else if i < VALID_STOP then Valid else Test
  }

  /** The three loops of `add_splits` cover each example exactly once, in the split the partition gives it. */
  lemma LoopsPartitionExamples(i: nat)
    requires i < NUM_EXAMPLES
    ensures forall s :: InRange(s, i) <==> s == SplitOf(i)
    ensures SplitOf(i) == Train <==> i < 162770
    ensures SplitOf(i) == Valid <==> 162770 <= i < 182637
    ensures SplitOf(i) == Test <==> 182637 <= i
  {
  }

  /** `"{:06d}.jpg".format(i + 1)` */
  function Basename(i: nat): string
  {
    ZeroPadded(i + 1, 6) + ".jpg"
  }

  /** Basenames are six digits and `.jpg`, a plain path component, one per example. */
  lemma BasenameFacts(i: nat, j: nat)
    ensures IsPlain(Basename(i))
    ensures i < NUM_EXAMPLES ==> |Basename(i)| == 10
    ensures Basename(i) == Basename(j) ==> i == j
  {
    BasenamePlain(i);
    if i < NUM_EXAMPLES {
      ZeroPaddedLength(i + 1, 6);
    }
    if Basename(i) == Basename(j) {
      BasenameInjective(i, j);
    }
  }

  lemma BasenamePlain(i: nat)
    ensures IsPlain(Basename(i))
  {
    ZeroPaddedRoundTrip(i + 1, 6);
    DigitsJpgPlain(ZeroPadded(i + 1, 6));
  }

  /** Digits followed by `.jpg` make a plain path component. */
  lemma DigitsJpgPlain(digits: string)
    requires AllDigits(digits)
    ensures IsPlain(digits + ".jpg")
  {
    var b := digits + ".jpg";
    assert b[|b| - 4] == '.' && b[|b| - 1] == 'g';
    assert forall k :: 0 <= k < |b| ==> b[k] != '/' by {
      forall k | 0 <= k < |b| ensures b[k] != '/' {
        if k < |digits| {
          assert b[k] == digits[k];
        } else {
          assert b[k] == ".jpg"[k - |digits|];
        }
      }
    }
  }

  lemma BasenameInjective(i: nat, j: nat)
    requires Basename(i) == Basename(j)
    ensures i == j
  {
    var a, b := ZeroPadded(i + 1, 6), ZeroPadded(j + 1, 6);
    assert |a| == |b|;
    assert a == Basename(i)[..|a|];
    assert b == Basename(j)[..|b|];
    ZeroPaddedInjective(i + 1, j + 1, 6);
  }

  /** What `check_link(in_dir, basename, out_dir)` does to the tree `t`. */
  function CheckLinkResult(cwd: PlainPath, t: Tree, inDir: string, basename: string, outDir: string): (Tree, Option<Errno>)
  {
    var inFile := Join(inDir, basename);
    if inFile == "" || !Present(t, Abs(cwd, inFile)) then (t, None)
    else
      var linkFile := Join(outDir, basename);
      var rel := RelPath(cwd, inFile, outDir).value;
      if linkFile == "" then (t, Some(ENoEnt))
      else Posix.Symlink(t, rel, Abs(cwd, linkFile))
  }

  /**
   * `check_link`: when `in_dir/basename` exists, a link `out_dir/basename`
   * to it, spelled relative to `out_dir`.
   */
  method CheckLink(fs: FileSystem, inDir: string, basename: string, outDir: string) returns (e: Option<Errno>)
    modifies fs
    ensures (fs.nodes, e) == CheckLinkResult(fs.cwd, old(fs.nodes), inDir, basename, outDir)
  {
    var inFile := Join(inDir, basename);
    if fs.Exists(inFile) {
      var linkFile := Join(outDir, basename);
      var rel := RelPath(fs.cwd, inFile, outDir);
      e := fs.Symlink(rel.value, linkFile);
    } else {
      e := None;
    }
  }

  /** The loop `for i in range(lo, hi): check_link(images, basename(i), outDir)`, stopped by the first error. */
  function LinkRange(cwd: PlainPath, t: Tree, imagesDir: string, outDir: string, lo: nat, hi: nat): (Tree, Option<Errno>)
    decreases hi
  {
    if hi <= lo then (t, None)
    else
      var r := LinkRange(cwd, t, imagesDir, outDir, lo, hi - 1);
      if r.1.Some? then r else CheckLinkResult(cwd, r.0, imagesDir, Basename(hi - 1), outDir)
  }

  /** Once the loop has failed it has stopped: later indices change nothing. */
  lemma {:induction false} LinkRangeStops(cwd: PlainPath, t: Tree, imagesDir: string, outDir: string, lo: nat, mid: nat, hi: nat)
    requires mid <= hi
    requires LinkRange(cwd, t, imagesDir, outDir, lo, mid).1.Some?
    ensures LinkRange(cwd, t, imagesDir, outDir, lo, hi) == LinkRange(cwd, t, imagesDir, outDir, lo, mid)
    decreases hi
  {
    if mid < hi {
      LinkRangeStops(cwd, t, imagesDir, outDir, lo, mid, hi - 1);
    }
  }

  method LinkLoop(fs: FileSystem, imagesDir: string, outDir: string, lo: nat, hi: nat) returns (e: Option<Errno>)
    modifies fs
    ensures (fs.nodes, e) == LinkRange(fs.cwd, old(fs.nodes), imagesDir, outDir, lo, hi)
  {
    var i := lo;
    while i < hi
      invariant lo <= i && (i <= hi || i == lo)
      invariant (fs.nodes, None) == LinkRange(fs.cwd, old(fs.nodes), imagesDir, outDir, lo, i)
      decreases hi - i
    {
      e := CheckLink(fs, imagesDir, Basename(i), outDir);
      if e.Some? {
        LinkRangeStops(fs.cwd, old(fs.nodes), imagesDir, outDir, lo, i + 1, hi);
        return;
      }
      i := i + 1;
    }
    e := None;
  }

  /** `<base>/CelebA`, where `add_splits` works. */
  function DataPath(base: string): string
  {
    Join(base, "CelebA")
  }

  function ImagesPath(base: string): string
  {
    Join(DataPath(base), "images")
  }

  /** `os.path.join(data_path, 'splits', <split>)` */
  function SplitPath(base: string, s: Split): string
  {
    Join(Join(DataPath(base), "splits"), SplitName(s))
  }

  /** `if not os.path.exists(dir): os.makedirs(dir)` */
  function EnsureDir(cwd: PlainPath, t: Tree, dir: string): (Tree, Option<Errno>)
  {
    if dir == "" then (t, Some(ENoEnt))
    else if Present(t, Abs(cwd, dir)) then (t, None)
    else Posix.Makedirs(t, Abs(cwd, dir))
  }

  /** The splits in the order `add_splits` handles them. */
  const SPLITS: seq<Split> := [Train, Valid, Test]

  /** The three `if not exists: makedirs` steps, for the splits `ss` in order. */
  function MakeSplitDirs(cwd: PlainPath, t: Tree, base: string, ss: seq<Split>): (Tree, Option<Errno>)
    decreases |ss|
  {
    if ss == [] then (t, None)
    else
      var r := EnsureDir(cwd, t, SplitPath(base, ss[0]));
      if r.1.Some? then r else MakeSplitDirs(cwd, r.0, base, ss[1..])
  }

  /** The three link loops, for the splits `ss` in order, each over its own index range. */
  function LinkSplits(cwd: PlainPath, t: Tree, base: string, ss: seq<Split>): (Tree, Option<Errno>)
    decreases |ss|
  {
    if ss == [] then (t, None)
    else
      var r := LinkRange(cwd, t, ImagesPath(base), SplitPath(base, ss[0]), RangeOf(ss[0]).0, RangeOf(ss[0]).1);
      if r.1.Some? then r else LinkSplits(cwd, r.0, base, ss[1..])
  }

  /** What `add_splits(base)` does to the tree `t`. */
  function AddSplitsResult(cwd: PlainPath, t: Tree, base: string): (Tree, Option<Errno>)
  {
    var r := MakeSplitDirs(cwd, t, base, SPLITS);
    if r.1.Some? then r else LinkSplits(cwd, r.0, base, SPLITS)
  }

  method EnsureDirMethod(fs: FileSystem, dir: string) returns (e: Option<Errno>)
    modifies fs
    ensures (fs.nodes, e) == EnsureDir(fs.cwd, old(fs.nodes), dir)
  {
    if !fs.Exists(dir) {
      e := fs.Makedirs(dir);
    } else {
      e := None;
    }
  }

  /** The three `if not os.path.exists(dir): os.makedirs(dir)` steps of `add_splits`. */
  method MakeSplitDirsMethod(fs: FileSystem, base: string) returns (e: Option<Errno>)
    modifies fs
    ensures (fs.nodes, e) == MakeSplitDirs(fs.cwd, old(fs.nodes), base, SPLITS)
  {
    assert SPLITS[1..] == [Valid, Test] && SPLITS[1..][1..] == [Test] && SPLITS[1..][1..][1..] == [];
    e := EnsureDirMethod(fs, SplitPath(base, Train));
    if e.Some? { return; }
    ghost var t1 := fs.nodes;
    e := EnsureDirMethod(fs, SplitPath(base, Valid));
    if e.Some? { return; }
    ghost var t2 := fs.nodes;
    e := EnsureDirMethod(fs, SplitPath(base, Test));
    assert (fs.nodes, e) == MakeSplitDirs(fs.cwd, t2, base, [Test]);
    assert MakeSplitDirs(fs.cwd, t1, base, [Valid, Test]) == MakeSplitDirs(fs.cwd, t2, base, [Test]);
  }

  /** The link loops of `add_splits`, one per split of `ss`, each over its own index range. */
  method LinkSplitsMethod(fs: FileSystem, base: string, ss: seq<Split>) returns (e: Option<Errno>)
    modifies fs
    ensures (fs.nodes, e) == LinkSplits(fs.cwd, old(fs.nodes), base, ss)
    decreases |ss|
  {
    if ss == [] {
      return None;
    }
    e := LinkLoop(fs, ImagesPath(base), SplitPath(base, ss[0]), RangeOf(ss[0]).0, RangeOf(ss[0]).1);
    if e.Some? {
      return;
    }
    e := LinkSplitsMethod(fs, base, ss[1..]);
  }

  /** `add_splits(base_path)` */
  method AddSplits(fs: FileSystem, base: string) returns (e: Option<Errno>)
    modifies fs
    ensures (fs.nodes, e) == AddSplitsResult(fs.cwd, old(fs.nodes), base)
  {
    e := MakeSplitDirsMethod(fs, base);
    if e.None? {
      e := LinkSplitsMethod(fs, base, SPLITS);
    }
  }

  // What add_splits leaves behind, on resolved paths. `d` is `<base>/CelebA` resolved.

  function DataDir(cwd: PlainPath, base: string): Path
  {
    Abs(cwd, DataPath(base))
  }

  function ImageKey(d: Path, i: nat): Path
  {
    d + ["images", Basename(i)]
  }

  function SplitKey(d: Path, s: Split): Path
  {
    d + ["splits", SplitName(s)]
  }

  function LinkKey(d: Path, s: Split, i: nat): Path
  {
    SplitKey(d, s) + [Basename(i)]
  }

  /** The directories `add_splits` names resolve below `<base>/CelebA`. */
  lemma ResolvedDirs(cwd: PlainPath, base: string, s: Split)
    ensures Abs(cwd, SplitPath(base, s)) == SplitKey(DataDir(cwd, base), s)
    ensures Abs(cwd, ImagesPath(base)) == DataDir(cwd, base) + ["images"]
  {
    var d := DataPath(base);
    assert IsPlain("images") && IsPlain("splits");
    AbsJoin(cwd, d, "images");
    AbsJoin(cwd, d, "splits");
    var name := SplitName(s);
    assert IsPlain(name) by {
      match s
      case Train =>
      case Valid =>
      case Test =>
    }
    AbsJoin(cwd, Join(d, "splits"), name);
    assert Abs(cwd, SplitPath(base, s)) == Abs(cwd, d) + ["splits"] + [name];
  }

  /** The files `check_link` looks at and creates resolve to the keys above. */
  lemma Resolved(cwd: PlainPath, base: string, s: Split, i: nat)
    ensures Abs(cwd, SplitPath(base, s)) == SplitKey(DataDir(cwd, base), s)
    ensures Abs(cwd, Join(ImagesPath(base), Basename(i))) == ImageKey(DataDir(cwd, base), i)
    ensures Abs(cwd, Join(SplitPath(base, s), Basename(i))) == LinkKey(DataDir(cwd, base), s, i)
    ensures Join(ImagesPath(base), Basename(i)) != "" && Join(SplitPath(base, s), Basename(i)) != ""
  {
    BasenameFacts(i, i);
    ResolvedDirs(cwd, base, s);
    AbsJoin(cwd, ImagesPath(base), Basename(i));
    AbsJoin(cwd, SplitPath(base, s), Basename(i));
  }

  /** A link whose target, read from the directory that holds it, names image `i`. */
  predicate LinksTo(d: Path, s: Split, i: nat, n: Node)
  {
    n.Link? && Walk(SplitKey(d, s), Parts(n.target)) == ImageKey(d, i)
  }

  /** On the way to, or inside, `<d>/splits`. */
  predicate UnderSplits(d: Path, q: Path)
  {
    q <= d + ["splits"] || d + ["splits"] <= q
  }

  /** `u` is `t` with entries added on the way to or inside `<d>/splits`, and nothing else. */
  predicate Grown(d: Path, t: Tree, u: Tree)
  {
    Extends(t, u) && forall q :: q in u && q !in t ==> UnderSplits(d, q)
  }

  /** Every link new in `u` is for an image present in `t`, made by the loop of its own split. */
  ghost predicate LinksSound(d: Path, t: Tree, u: Tree)
  {
    forall s: Split, i: nat :: LinkKey(d, s, i) in u && LinkKey(d, s, i) !in t ==> InRange(s, i) && ImageKey(d, i) in t
  }

  ghost predicate Good(d: Path, t: Tree, u: Tree)
  {
    Grown(d, t, u) && LinksSound(d, t, u)
  }

  /** Every image of `range(lo, hi)` present in `t` has its link in `u`. */
  ghost predicate LinksComplete(d: Path, t: Tree, u: Tree, s: Split, lo: nat, hi: nat)
  {
    forall i :: lo <= i < hi && ImageKey(d, i) in t ==> LinkKey(d, s, i) in u && LinksTo(d, s, i, u[LinkKey(d, s, i)])
  }

  /** Growing below `splits` never adds or removes an image. */
  lemma ImagesUnchanged(d: Path, t: Tree, u: Tree, i: nat)
    requires Grown(d, t, u)
    ensures ImageKey(d, i) in u <==> ImageKey(d, i) in t
  {
    var k := ImageKey(d, i);
    assert k[|d|] == "images";
  }

  lemma GoodTrans(d: Path, t: Tree, u: Tree, w: Tree)
    requires Good(d, t, u) && Good(d, u, w)
    ensures Good(d, t, w)
  {
    forall s: Split, i: nat | LinkKey(d, s, i) in w && LinkKey(d, s, i) !in t
      ensures InRange(s, i) && ImageKey(d, i) in t
    {
      if LinkKey(d, s, i) !in u {
        ImagesUnchanged(d, t, u, i);
      }
    }
  }

  lemma CompleteKept(d: Path, t: Tree, u: Tree, w: Tree, s: Split, lo: nat, hi: nat)
    requires LinksComplete(d, t, u, s, lo, hi) && Extends(u, w)
    ensures LinksComplete(d, t, w, s, lo, hi)
  {
  }

  lemma CompleteFromLater(d: Path, t: Tree, u: Tree, w: Tree, s: Split, lo: nat, hi: nat)
    requires Grown(d, t, u) && LinksComplete(d, u, w, s, lo, hi)
    ensures LinksComplete(d, t, w, s, lo, hi)
  {
    forall i | lo <= i < hi && ImageKey(d, i) in t
      ensures LinkKey(d, s, i) in w && LinksTo(d, s, i, w[LinkKey(d, s, i)])
    {
      ImagesUnchanged(d, t, u, i);
    }
  }

  lemma EnsureDirGood(cwd: PlainPath, t: Tree, base: string, s: Split)
    ensures Good(DataDir(cwd, base), t, EnsureDir(cwd, t, SplitPath(base, s)).0)
  {
    var d := DataDir(cwd, base);
    Resolved(cwd, base, s, 0);
    var p := SplitKey(d, s);
    if SplitPath(base, s) != "" && !Present(t, p) {
      MakedirsAddsOnlyPathDirs(t, p);
      var u := Posix.Makedirs(t, p).0;
      forall q | q in u && q !in t ensures UnderSplits(d, q) {
        assert q <= p;
        if |q| <= |d| + 1 {
          assert q <= d + ["splits"];
        } else {
          assert q == p;
        }
      }
      forall s': Split, i: nat | LinkKey(d, s', i) in u
        ensures LinkKey(d, s', i) in t
      {
        assert !(LinkKey(d, s', i) <= p);
      }
    }
  }

  lemma {:induction false} MakeSplitDirsGood(cwd: PlainPath, t: Tree, base: string, ss: seq<Split>)
    ensures Good(DataDir(cwd, base), t, MakeSplitDirs(cwd, t, base, ss).0)
    decreases |ss|
  {
    if ss != [] {
      var r := EnsureDir(cwd, t, SplitPath(base, ss[0]));
      EnsureDirGood(cwd, t, base, ss[0]);
      if r.1.None? {
        MakeSplitDirsGood(cwd, r.0, base, ss[1..]);
        GoodTrans(DataDir(cwd, base), t, r.0, MakeSplitDirs(cwd, r.0, base, ss[1..]).0);
      }
    }
  }

  /** One `check_link` call: at most the link of example `i`, and it resolves to the image. */
  lemma CheckLinkFacts(cwd: PlainPath, t: Tree, base: string, s: Split, i: nat)
    ensures var r := CheckLinkResult(cwd, t, ImagesPath(base), Basename(i), SplitPath(base, s));
            Extends(t, r.0) &&
            forall q :: q in r.0 && q !in t ==> q == LinkKey(DataDir(cwd, base), s, i) && ImageKey(DataDir(cwd, base), i) in t
    ensures var r := CheckLinkResult(cwd, t, ImagesPath(base), Basename(i), SplitPath(base, s));
            var d := DataDir(cwd, base);
            r.1.None? && ImageKey(d, i) in t ==> LinkKey(d, s, i) in r.0 && LinksTo(d, s, i, r.0[LinkKey(d, s, i)])
  {
    Resolved(cwd, base, s, i);
    RelPathResolves(cwd, Join(ImagesPath(base), Basename(i)), SplitPath(base, s));
  }

  /** The new entries of one loop of `add_splits`: links of its own range, for present images. */
  predicate NewLinksOf(d: Path, t: Tree, u: Tree, s: Split, lo: nat, hi: nat)
  {
    Extends(t, u) &&
    forall q :: q in u && q !in t ==> exists j: nat :: lo <= j < hi && q == LinkKey(d, s, j) && ImageKey(d, j) in t
  }

  lemma ImageIsNoLink(d: Path, s: Split, i: nat, j: nat)
    ensures ImageKey(d, i) != LinkKey(d, s, j)
  {
    assert |ImageKey(d, i)| != |LinkKey(d, s, j)|;
  }

  lemma LinkKeyInjective(d: Path, s: Split, i: nat, s': Split, j: nat)
    requires LinkKey(d, s, i) == LinkKey(d, s', j)
    ensures s == s' && i == j
  {
    assert LinkKey(d, s, i)[|d| + 1] == SplitName(s);
    assert LinkKey(d, s', j)[|d| + 1] == SplitName(s');
    assert LinkKey(d, s, i)[|d| + 2] == Basename(i);
    assert LinkKey(d, s', j)[|d| + 2] == Basename(j);
    BasenameFacts(i, j);
  }

  /** One loop of `add_splits`, by induction on its end index. */
  lemma {:induction false} LinkRangeFacts(cwd: PlainPath, t: Tree, base: string, s: Split, lo: nat, hi: nat)
    ensures NewLinksOf(DataDir(cwd, base), t, LinkRange(cwd, t, ImagesPath(base), SplitPath(base, s), lo, hi).0, s, lo, hi)
    ensures var r := LinkRange(cwd, t, ImagesPath(base), SplitPath(base, s), lo, hi);
            r.1.None? ==> LinksComplete(DataDir(cwd, base), t, r.0, s, lo, hi)
    decreases hi
  {
    if hi > lo {
      LinkRangeFacts(cwd, t, base, s, lo, hi - 1);
      var r := LinkRange(cwd, t, ImagesPath(base), SplitPath(base, s), lo, hi - 1);
      var u := CheckLinkResult(cwd, r.0, ImagesPath(base), Basename(hi - 1), SplitPath(base, s));
      CheckLinkFacts(cwd, r.0, base, s, hi - 1);
      LinkStep(DataDir(cwd, base), t, r, u, s, lo, hi);
    }
  }

  /** One step of the loop, on whatever trees the previous steps and `check_link` produced. */
  lemma LinkStep(d: Path, t: Tree, r: (Tree, Option<Errno>), u: (Tree, Option<Errno>), s: Split, lo: nat, hi: nat)
    requires lo < hi
    requires NewLinksOf(d, t, r.0, s, lo, hi - 1)
    requires r.1.None? ==> LinksComplete(d, t, r.0, s, lo, hi - 1)
    requires Extends(r.0, u.0)
    requires forall q :: q in u.0 && q !in r.0 ==> q == LinkKey(d, s, hi - 1) && ImageKey(d, hi - 1) in r.0
    requires u.1.None? && ImageKey(d, hi - 1) in r.0 ==> LinkKey(d, s, hi - 1) in u.0 && LinksTo(d, s, hi - 1, u.0[LinkKey(d, s, hi - 1)])
    ensures var n := if r.1.Some? then r else u;
            NewLinksOf(d, t, n.0, s, lo, hi) && (n.1.None? ==> LinksComplete(d, t, n.0, s, lo, hi))
  {
    if r.1.Some? {
      NewLinksWiden(d, t, r.0, s, lo, hi);
    } else {
      NewLinksStep(d, t, r.0, u.0, s, lo, hi);
      if u.1.None? {
        CompleteStep(d, t, r.0, u.0, s, lo, hi);
      }
    }
  }

  lemma NewLinksWiden(d: Path, t: Tree, u: Tree, s: Split, lo: nat, hi: nat)
    requires lo < hi && NewLinksOf(d, t, u, s, lo, hi - 1)
    ensures NewLinksOf(d, t, u, s, lo, hi)
  {
    forall q | q in u && q !in t
      ensures exists j: nat :: lo <= j < hi && q == LinkKey(d, s, j) && ImageKey(d, j) in t
    {
      var j: nat :| lo <= j < hi - 1 && q == LinkKey(d, s, j) && ImageKey(d, j) in t;
      assert lo <= j < hi;
    }
  }

  /** One more `check_link` keeps the new entries to links of the range. */
  lemma NewLinksStep(d: Path, t: Tree, r: Tree, u: Tree, s: Split, lo: nat, hi: nat)
    requires lo < hi
    requires NewLinksOf(d, t, r, s, lo, hi - 1)
    requires Extends(r, u) && forall q :: q in u && q !in r ==> q == LinkKey(d, s, hi - 1) && ImageKey(d, hi - 1) in r
    ensures NewLinksOf(d, t, u, s, lo, hi)
  {
    forall q | q in u && q !in t
      ensures exists j: nat :: lo <= j < hi && q == LinkKey(d, s, j) && ImageKey(d, j) in t
    {
      if q in r {
        var j: nat :| lo <= j < hi - 1 && q == LinkKey(d, s, j) && ImageKey(d, j) in t;
        assert lo <= j < hi;
      } else {
        assert q == LinkKey(d, s, hi - 1) && ImageKey(d, hi - 1) in t;
      }
    }
  }

  /** One more successful `check_link` extends the complete range by its index. */
  lemma CompleteStep(d: Path, t: Tree, r: Tree, u: Tree, s: Split, lo: nat, hi: nat)
    requires lo < hi
    requires NewLinksOf(d, t, r, s, lo, hi - 1) && LinksComplete(d, t, r, s, lo, hi - 1)
    requires Extends(r, u)
    requires ImageKey(d, hi - 1) in r ==> LinkKey(d, s, hi - 1) in u && LinksTo(d, s, hi - 1, u[LinkKey(d, s, hi - 1)])
    ensures LinksComplete(d, t, u, s, lo, hi)
  {
    forall i | lo <= i < hi && ImageKey(d, i) in t
      ensures LinkKey(d, s, i) in u && LinksTo(d, s, i, u[LinkKey(d, s, i)])
    {
      if i < hi - 1 {
        assert LinkKey(d, s, i) in r;
      }
    }
  }

  /** The links one loop adds lie inside `<d>/splits` and are for its own split. */
  lemma NewLinksGood(d: Path, t: Tree, u: Tree, s: Split)
    requires NewLinksOf(d, t, u, s, RangeOf(s).0, RangeOf(s).1)
    ensures Good(d, t, u)
  {
    var (lo, hi) := RangeOf(s);
    forall q | q in u && q !in t ensures UnderSplits(d, q) {
      var j: nat :| lo <= j < hi && q == LinkKey(d, s, j) && ImageKey(d, j) in t;
      assert d + ["splits"] <= q;
    }
    forall s': Split, i: nat | LinkKey(d, s', i) in u && LinkKey(d, s', i) !in t
      ensures InRange(s', i) && ImageKey(d, i) in t
    {
      var j: nat :| lo <= j < hi && LinkKey(d, s', i) == LinkKey(d, s, j) && ImageKey(d, j) in t;
      LinkKeyInjective(d, s', i, s, j);
    }
  }

  lemma LinkRangeGood(cwd: PlainPath, t: Tree, base: string, s: Split)
    ensures var r := LinkRange(cwd, t, ImagesPath(base), SplitPath(base, s), RangeOf(s).0, RangeOf(s).1);
            Good(DataDir(cwd, base), t, r.0)
    ensures var r := LinkRange(cwd, t, ImagesPath(base), SplitPath(base, s), RangeOf(s).0, RangeOf(s).1);
            r.1.None? ==> LinksComplete(DataDir(cwd, base), t, r.0, s, RangeOf(s).0, RangeOf(s).1)
  {
    LinkRangeFacts(cwd, t, base, s, RangeOf(s).0, RangeOf(s).1);
    NewLinksGood(DataDir(cwd, base), t, LinkRange(cwd, t, ImagesPath(base), SplitPath(base, s), RangeOf(s).0, RangeOf(s).1).0, s);
  }

  lemma {:induction false} LinkSplitsGood(cwd: PlainPath, t: Tree, base: string, ss: seq<Split>)
    ensures Good(DataDir(cwd, base), t, LinkSplits(cwd, t, base, ss).0)
    ensures var r := LinkSplits(cwd, t, base, ss);
            r.1.None? ==> forall k :: 0 <= k < |ss| ==>
                            LinksComplete(DataDir(cwd, base), t, r.0, ss[k], RangeOf(ss[k]).0, RangeOf(ss[k]).1)
    decreases |ss|
  {
    if ss != [] {
      var d := DataDir(cwd, base);
      var r := LinkRange(cwd, t, ImagesPath(base), SplitPath(base, ss[0]), RangeOf(ss[0]).0, RangeOf(ss[0]).1);
      LinkRangeGood(cwd, t, base, ss[0]);
      if r.1.None? {
        var w := LinkSplits(cwd, r.0, base, ss[1..]);
        LinkSplitsGood(cwd, r.0, base, ss[1..]);
        GoodTrans(d, t, r.0, w.0);
        if w.1.None? {
          forall k | 0 <= k < |ss|
            ensures LinksComplete(d, t, w.0, ss[k], RangeOf(ss[k]).0, RangeOf(ss[k]).1)
          {
            if k == 0 {
              CompleteKept(d, t, r.0, w.0, ss[0], RangeOf(ss[0]).0, RangeOf(ss[0]).1);
            } else {
              assert ss[k] == ss[1..][k - 1];
              CompleteFromLater(d, t, r.0, w.0, ss[k], RangeOf(ss[k]).0, RangeOf(ss[k]).1);
            }
          }
        }
      }
    }
  }

  /**
   * `add_splits` only adds entries on the way to or inside `<base>/CelebA/splits`.
   * Each new link there is for an image present in `<base>/CelebA/images`, and it
   * lies in the directory of that image's split. When the call succeeds, every
   * present image among the `NUM_EXAMPLES` has its link. Each link's relative
   * target, read from its split directory, leads back to the image.
   */
  lemma AddSplitsLinks(cwd: PlainPath, t: Tree, base: string)
    ensures var r := AddSplitsResult(cwd, t, base);
            Grown(DataDir(cwd, base), t, r.0)
    ensures var r := AddSplitsResult(cwd, t, base);
            var d := DataDir(cwd, base);
            forall s: Split, i: nat :: LinkKey(d, s, i) in r.0 && LinkKey(d, s, i) !in t ==>
                                       i < NUM_EXAMPLES && s == SplitOf(i) && ImageKey(d, i) in t
    ensures var r := AddSplitsResult(cwd, t, base);
            var d := DataDir(cwd, base);
            r.1.None? ==> forall i: nat :: i < NUM_EXAMPLES && ImageKey(d, i) in t ==>
                            LinkKey(d, SplitOf(i), i) in r.0 && LinksTo(d, SplitOf(i), i, r.0[LinkKey(d, SplitOf(i), i)])
  {
    var d := DataDir(cwd, base);
    var r := MakeSplitDirs(cwd, t, base, SPLITS);
    MakeSplitDirsGood(cwd, t, base, SPLITS);
    var w := AddSplitsResult(cwd, t, base);
    if r.1.None? {
      LinkSplitsGood(cwd, r.0, base, SPLITS);
      GoodTrans(d, t, r.0, w.0);
    }
    OwnSplitOnly(d, t, w.0);
    AddSplitsComplete(cwd, t, base);
  }

  /** A successful `add_splits` leaves a link for every present image among the `NUM_EXAMPLES`. */
  lemma AddSplitsComplete(cwd: PlainPath, t: Tree, base: string)
    ensures var r := AddSplitsResult(cwd, t, base);
            var d := DataDir(cwd, base);
            r.1.None? ==> forall i: nat :: i < NUM_EXAMPLES && ImageKey(d, i) in t ==>
                            LinkKey(d, SplitOf(i), i) in r.0 && LinksTo(d, SplitOf(i), i, r.0[LinkKey(d, SplitOf(i), i)])
  {
    var d := DataDir(cwd, base);
    var r := MakeSplitDirs(cwd, t, base, SPLITS);
    var w := AddSplitsResult(cwd, t, base);
    if r.1.None? && w.1.None? {
      MakeSplitDirsGood(cwd, t, base, SPLITS);
      LinkSplitsGood(cwd, r.0, base, SPLITS);
      CompleteAll(d, t, r.0, w.0);
    }
  }

  /** Complete links for the three ranges, made after `t` grew to `u`, cover every present image of `t`. */
  lemma CompleteAll(d: Path, t: Tree, u: Tree, w: Tree)
    requires Grown(d, t, u)
    requires forall k :: 0 <= k < |SPLITS| ==> LinksComplete(d, u, w, SPLITS[k], RangeOf(SPLITS[k]).0, RangeOf(SPLITS[k]).1)
    ensures forall i: nat :: i < NUM_EXAMPLES && ImageKey(d, i) in t ==>
              LinkKey(d, SplitOf(i), i) in w && LinksTo(d, SplitOf(i), i, w[LinkKey(d, SplitOf(i), i)])
  {
    forall i: nat | i < NUM_EXAMPLES && ImageKey(d, i) in t
      ensures LinkKey(d, SplitOf(i), i) in w && LinksTo(d, SplitOf(i), i, w[LinkKey(d, SplitOf(i), i)])
    {
      var k := if i < TRAIN_STOP then 0 else if i < VALID_STOP then 1 else 2;
      assert SPLITS[k] == SplitOf(i);
      CompleteFromLater(d, t, u, w, SplitOf(i), RangeOf(SplitOf(i)).0, RangeOf(SplitOf(i)).1);
    }
  }

  lemma OwnSplitOnly(d: Path, t: Tree, u: Tree)
    requires Good(d, t, u)
    ensures forall s: Split, i: nat :: LinkKey(d, s, i) in u && LinkKey(d, s, i) !in t ==>
                                       i < NUM_EXAMPLES && s == SplitOf(i) && ImageKey(d, i) in t
  {
    forall s: Split, i: nat | LinkKey(d, s, i) in u && LinkKey(d, s, i) !in t
      ensures i < NUM_EXAMPLES && s == SplitOf(i)
    {
      assert InRange(s, i);
      LoopsPartitionExamples(i);
    }
  }

  /**
   * A loop whose range holds a present image that already has its link
   * raises: `os.symlink` refuses the existing link with `EEXIST`, at that
   * image if not before.
   */
  lemma LinkRangeFailsOnExistingLink(cwd: PlainPath, t: Tree, base: string, s: Split, lo: nat, hi: nat, i: nat)
    requires lo <= i < hi
    requires ImageKey(DataDir(cwd, base), i) in t && LinkKey(DataDir(cwd, base), s, i) in t
    ensures LinkRange(cwd, t, ImagesPath(base), SplitPath(base, s), lo, hi).1.Some?
  {
    LinkRangeLastFails(cwd, t, base, s, lo, i);
    LinkRangeStops(cwd, t, ImagesPath(base), SplitPath(base, s), lo, i + 1, hi);
  }

  /** The step for index `i` itself: its `check_link` raises unless an earlier one already did. */
  lemma LinkRangeLastFails(cwd: PlainPath, t: Tree, base: string, s: Split, lo: nat, i: nat)
    requires lo <= i
    requires ImageKey(DataDir(cwd, base), i) in t && LinkKey(DataDir(cwd, base), s, i) in t
    ensures LinkRange(cwd, t, ImagesPath(base), SplitPath(base, s), lo, i + 1).1.Some?
  {
    var r := LinkRange(cwd, t, ImagesPath(base), SplitPath(base, s), lo, i);
    if r.1.None? {
      LinkRangeExtends(cwd, t, base, s, lo, i);
      CheckLinkFailsOnExistingLink(cwd, r.0, base, s, i);
    }
  }

  /** The loop only adds entries. */
  lemma LinkRangeExtends(cwd: PlainPath, t: Tree, base: string, s: Split, lo: nat, hi: nat)
    ensures Extends(t, LinkRange(cwd, t, ImagesPath(base), SplitPath(base, s), lo, hi).0)
  {
    LinkRangeFacts(cwd, t, base, s, lo, hi);
  }

  /** `check_link` on a present image whose link already exists raises `EEXIST`. */
  lemma CheckLinkFailsOnExistingLink(cwd: PlainPath, t: Tree, base: string, s: Split, i: nat)
    requires ImageKey(DataDir(cwd, base), i) in t && LinkKey(DataDir(cwd, base), s, i) in t
    ensures CheckLinkResult(cwd, t, ImagesPath(base), Basename(i), SplitPath(base, s)) == (t, Some(EExist))
  {
    Resolved(cwd, base, s, i);
  }

  /** The link loops of `ss` raise when the split of a present, already linked image is among them. */
  lemma {:induction false} LinkSplitsFailsOnExistingLink(cwd: PlainPath, t: Tree, base: string, ss: seq<Split>, i: nat)
    requires i < NUM_EXAMPLES && SplitOf(i) in ss
    requires ImageKey(DataDir(cwd, base), i) in t && LinkKey(DataDir(cwd, base), SplitOf(i), i) in t
    ensures LinkSplits(cwd, t, base, ss).1.Some?
    decreases |ss|
  {
    var r := LinkRange(cwd, t, ImagesPath(base), SplitPath(base, ss[0]), RangeOf(ss[0]).0, RangeOf(ss[0]).1);
    if ss[0] == SplitOf(i) {
      LoopsPartitionExamples(i);
      LinkRangeFailsOnExistingLink(cwd, t, base, ss[0], RangeOf(ss[0]).0, RangeOf(ss[0]).1, i);
    } else if r.1.None? {
      LinkRangeFacts(cwd, t, base, ss[0], RangeOf(ss[0]).0, RangeOf(ss[0]).1);
      assert SplitOf(i) in ss[1..];
      LinkSplitsFailsOnExistingLink(cwd, r.0, base, ss[1..], i);
    }
  }

  /**
   * `add_splits` cannot be run twice: a present image among the
   * `NUM_EXAMPLES` whose link already exists makes it raise `EEXIST`, and
   * after a successful run every present image has its link.
   */
  lemma AddSplitsFailsWhenLinked(cwd: PlainPath, t: Tree, base: string, i: nat)
    requires i < NUM_EXAMPLES
    ensures ImageKey(DataDir(cwd, base), i) in t && LinkKey(DataDir(cwd, base), SplitOf(i), i) in t ==>
            AddSplitsResult(cwd, t, base).1.Some?
    ensures var r := AddSplitsResult(cwd, t, base);
            r.1.None? && ImageKey(DataDir(cwd, base), i) in t ==> AddSplitsResult(cwd, r.0, base).1.Some?
  {
    var d := DataDir(cwd, base);
    assert SplitOf(i) in SPLITS;
    var r := MakeSplitDirs(cwd, t, base, SPLITS);
    if ImageKey(d, i) in t && LinkKey(d, SplitOf(i), i) in t && r.1.None? {
      MakeSplitDirsGood(cwd, t, base, SPLITS);
      LinkSplitsFailsOnExistingLink(cwd, r.0, base, SPLITS, i);
    }
    var w := AddSplitsResult(cwd, t, base);
    if w.1.None? && ImageKey(d, i) in t {
      AddSplitsLinks(cwd, t, base);
      var r2 := MakeSplitDirs(cwd, w.0, base, SPLITS);
      if r2.1.None? {
        MakeSplitDirsGood(cwd, w.0, base, SPLITS);
        LinkSplitsFailsOnExistingLink(cwd, r2.0, base, SPLITS, i);
      }
    }
  }

  lemma {:induction false} LinkRangeKeepsWellFormed(cwd: PlainPath, t: Tree, imagesDir: string, outDir: string, lo: nat, hi: nat)
    requires WellFormed(t)
    ensures WellFormed(LinkRange(cwd, t, imagesDir, outDir, lo, hi).0)
    decreases hi
  {
    if hi > lo {
      LinkRangeKeepsWellFormed(cwd, t, imagesDir, outDir, lo, hi - 1);
      var r := LinkRange(cwd, t, imagesDir, outDir, lo, hi - 1);
      var inFile := Join(imagesDir, Basename(hi - 1));
      if r.1.None? && inFile != "" {
        var rel := RelPath(cwd, inFile, outDir);
        EntryCallsKeepWellFormed(r.0, rel.value, Abs(cwd, Join(outDir, Basename(hi - 1))));
      }
    }
  }

  lemma {:induction false} MakeSplitDirsKeepsWellFormed(cwd: PlainPath, t: Tree, base: string, ss: seq<Split>)
    requires WellFormed(t)
    ensures WellFormed(MakeSplitDirs(cwd, t, base, ss).0)
    decreases |ss|
  {
    if ss != [] {
      var dir := SplitPath(base, ss[0]);
      if dir != "" {
        MakedirsKeepsWellFormed(t, Abs(cwd, dir));
      }
      var r := EnsureDir(cwd, t, dir);
      if r.1.None? {
        MakeSplitDirsKeepsWellFormed(cwd, r.0, base, ss[1..]);
      }
    }
  }

  lemma {:induction false} LinkSplitsKeepsWellFormed(cwd: PlainPath, t: Tree, base: string, ss: seq<Split>)
    requires WellFormed(t)
    ensures WellFormed(LinkSplits(cwd, t, base, ss).0)
    decreases |ss|
  {
    if ss != [] {
      var (lo, hi) := RangeOf(ss[0]);
      LinkRangeKeepsWellFormed(cwd, t, ImagesPath(base), SplitPath(base, ss[0]), lo, hi);
      var r := LinkRange(cwd, t, ImagesPath(base), SplitPath(base, ss[0]), lo, hi);
      if r.1.None? {
        LinkSplitsKeepsWellFormed(cwd, r.0, base, ss[1..]);
      }
    }
  }

  /** `add_splits` leaves a well-formed filesystem well formed, whether it succeeds or not. */
  lemma AddSplitsKeepsWellFormed(cwd: PlainPath, t: Tree, base: string)
    requires WellFormed(t)
    ensures WellFormed(AddSplitsResult(cwd, t, base).0)
  {
    MakeSplitDirsKeepsWellFormed(cwd, t, base, SPLITS);
    var r := MakeSplitDirs(cwd, t, base, SPLITS);
    if r.1.None? {
      LinkSplitsKeepsWellFormed(cwd, r.0, base, SPLITS);
    }
  }
}
