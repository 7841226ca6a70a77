/**
 * `save_images` of utils.py: make sure the directory part of the target
 * path exists, then tile the batch with `imsave`.
 */
module Saving {
  import opened Wrappers
  import opened Paths
  import opened Posix
  import opened Fs
  import opened Images
  import opened Tiling

  /**
   * The directory step of `save_images` on the tree `t`: the directory part
   * `'/'.join(image_path.split('/')[:-1])` is created with `os.makedirs`
   * unless `os.path.exists` finds it. An empty directory part never exists,
   * and `os.makedirs('')` fails with `ENOENT`.
   */
  function PrepareDir(cwd: PlainPath, t: Tree, imagePath: string): (Tree, Option<Errno>)
  {
    var dir := ParentDir(imagePath);
    if dir == "" then (t, Some(ENoEnt))
    else if Present(t, Abs(cwd, dir)) then (t, None)
    else Posix.Makedirs(t, Abs(cwd, dir))
  }

  /** When the directory step succeeds, the directory part names an entry that exists. */
  lemma PrepareDirMakesDirectory(cwd: PlainPath, t: Tree, imagePath: string)
    ensures var r := PrepareDir(cwd, t, imagePath);
            r.1.None? ==> ParentDir(imagePath) != "" && Present(r.0, Abs(cwd, ParentDir(imagePath)))
    ensures Extends(t, PrepareDir(cwd, t, imagePath).0)
  {
    var dir := ParentDir(imagePath);
    if dir != "" && !Present(t, Abs(cwd, dir)) {
      MakedirsAddsOnlyPathDirs(t, Abs(cwd, dir));
    }
  }

  /**
   * As written, saving to a path without a directory part (`"out.png"`) or
   * directly under the root (`"/out.png"`) fails before any image is
   * written, whatever the filesystem holds.
   */
  lemma FileNameAloneFails(cwd: PlainPath, t: Tree, name: string)
    requires '/' !in name
    ensures PrepareDir(cwd, t, name) == (t, Some(ENoEnt))
    ensures PrepareDir(cwd, t, "/" + name) == (t, Some(ENoEnt))
  {
    ParentDirIsPrefixBeforeLastSlash(name);
    SplitCons('/', name);
    SplitNoSlash(name);
    assert Split("/" + name) == ["", name];
  }

  /**
   * The directory step as evidently intended: an empty directory part names
   * the working directory (or the root, for `"/out.png"`), which exists, so
   * there is nothing to create.
   */
  function PrepareDirFixed(cwd: PlainPath, t: Tree, imagePath: string): (Tree, Option<Errno>)
  {
    if ParentDir(imagePath) == "" then (t, None) else PrepareDir(cwd, t, imagePath)
  }

  /**
   * The corrected step never fails for a bare file name, behaves as written
   * for every other path, and on success leaves the named directory in place.
   */
  lemma PrepareDirFixedSaves(cwd: PlainPath, t: Tree, imagePath: string)
    ensures '/' !in imagePath ==> PrepareDirFixed(cwd, t, imagePath) == (t, None)
    ensures ParentDir(imagePath) != "" ==> PrepareDirFixed(cwd, t, imagePath) == PrepareDir(cwd, t, imagePath)
    ensures var r := PrepareDirFixed(cwd, t, imagePath);
            r.1.None? ==> ParentDir(imagePath) == "" || Present(r.0, Abs(cwd, ParentDir(imagePath)))
  {
    ParentDirIsPrefixBeforeLastSlash(imagePath);
    PrepareDirMakesDirectory(cwd, t, imagePath);
  }

  /**
   * `save_images(images, size, image_path)` with `size == [rows, cols]`.
   * `canvas` is the tiled picture `imsave` hands to the image writer; it is
   * only meaningful when `e` is `None`.
   */
  method SaveImages(fs: FileSystem, images: seq<Image>, h: nat, w: nat, c: nat, rows: nat, cols: nat, imagePath: string)
    returns (e: Option<Errno>, ok: bool, canvas: array3<int>)
    requires IsBatch(images, h, w, c)
    modifies fs
    ensures (fs.nodes, e) == PrepareDir(fs.cwd, old(fs.nodes), imagePath)
    ensures e.None? ==> fresh(canvas) && canvas.Length0 == h * rows && canvas.Length1 == w * cols && canvas.Length2 == 3
    ensures e.None? ==> (ok <==> MergeOk(|images|, h, c, rows, cols))
    ensures e.None? && ok ==> forall y, x, ch :: 0 <= y < h * rows && 0 <= x < w * cols && 0 <= ch < 3 ==>
                                canvas[y, x, ch] == Pasted(images, Used(|images|, rows, cols), h, w, c, rows, cols, y, x, ch)
  {
    var dirPath := ParentDir(imagePath);
    if !fs.Exists(dirPath) {
      e := fs.Makedirs(dirPath);
      if e.Some? {
        ok, canvas := false, new int[0, 0, 0];
        return;
      }
    }
    e := None;
    ok, canvas := Imsave(images, h, w, c, rows, cols);
  }
}
