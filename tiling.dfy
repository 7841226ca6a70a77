/**
 * `merge` and `imsave` of utils.py: pasting a batch of images onto a zero
 * canvas laid out as a grid of `rows x cols` blocks.
 *
 * The block of image `idx` is at block row `idx / rows` (Python 2 integer
 * division by the ROW count) and block column `idx % cols`. When
 * `rows == cols` this is row-major order; otherwise blocks collide
 * (`rows > cols`) or run off the bottom of the canvas (`rows < cols`), and
 * the model keeps both behaviours.
 */
module Tiling {
  import opened Wrappers
  import opened Images

  /** Block row of image `idx`: `idx / size[0]`. */
  function BlockRow(idx: nat, rows: nat): nat
    requires rows > 0
  {
    idx / rows
  }

  /** Block column of image `idx`: `idx % size[1]`. */
  function BlockCol(idx: nat, cols: nat): nat
    requires cols > 0
  {
    idx % cols
  }

  /** How many images `images[:size[0] * size[1]]` keeps. */
  function Used(n: nat, rows: nat, cols: nat): (m: nat)
    ensures m <= n && m <= rows * cols
    ensures m == n || m == rows * cols
  {
    if n < rows * cols then n else rows * cols
  }

  /** Whether the block of image `idx` contains canvas position `(y, x)`. */
  predicate Covers(idx: nat, rows: nat, cols: nat, h: nat, w: nat, y: int, x: int)
    requires rows > 0 && cols > 0
  {
    BlockRow(idx, rows) * h <= y < BlockRow(idx, rows) * h + h &&
    BlockCol(idx, cols) * w <= x < BlockCol(idx, cols) * w + w
  }

  /**
   * The value numpy stores in channel `ch` of the canvas from pixel `p`:
   * a one-channel pixel is broadcast to all three channels.
   */
  function Sample(p: Pixel, ch: nat): int
    requires |p| == 1 || (|p| == 3 && ch < 3)
  {
    if |p| == 1 then p[0] else p[ch]
  }

  /**
   * Whether `merge` completes without numpy raising. A block whose row is
   * below the canvas gets an empty slice; assigning an `h x w x c` image to
   * it broadcasts only when `h <= 1`. The channel axis broadcasts only from
   * 1 or 3 channels. Nothing is pasted when no image is used.
   */
  predicate MergeOk(n: nat, h: nat, c: nat, rows: nat, cols: nat)
  {
    var m := Used(n, rows, cols);
    m == 0 || ((c == 1 || c == 3) && (h <= 1 || (m - 1) / rows < rows))
  }

  /** Channel `ch` at canvas position `(y, x)` after the first `k` images were pasted. */
  function Pasted(images: seq<Image>, k: nat, h: nat, w: nat, c: nat, rows: nat, cols: nat,
                  y: nat, x: nat, ch: nat): int
    requires IsBatch(images, h, w, c)
    requires k <= Used(|images|, rows, cols)
    requires k == 0 || c == 1 || c == 3
    requires ch < 3
    decreases k
  {
    if k == 0 then 0
    else if Covers(k - 1, rows, cols, h, w, y, x) then
      var img := images[k - 1];
      Sample(img[y - BlockRow(k - 1, rows) * h][x - BlockCol(k - 1, cols) * w], ch)
    else Pasted(images, k - 1, h, w, c, rows, cols, y, x, ch)
  }

  /** Pasting image `idx` changes exactly its own block. */
  lemma PastedNext(images: seq<Image>, idx: nat, h: nat, w: nat, c: nat, rows: nat, cols: nat,
                   y: nat, x: nat, ch: nat)
    requires IsBatch(images, h, w, c)
    requires idx < Used(|images|, rows, cols)
    requires (c == 1 || c == 3) && ch < 3
    ensures Pasted(images, idx + 1, h, w, c, rows, cols, y, x, ch) ==
            if (idx / rows) * h <= y < (idx / rows) * h + h && (idx % cols) * w <= x < (idx % cols) * w + w
            then Sample(images[idx][y - (idx / rows) * h][x - (idx % cols) * w], ch)
            else Pasted(images, idx, h, w, c, rows, cols, y, x, ch)
  {
  }

  lemma MulMono(a: nat, b: nat, h: nat)
    requires a <= b
    ensures a * h <= b * h
  {
  }

  /** Copies `img` into the block with top-left corner `(top, left)`; the rest of the canvas keeps its values. */
  method PasteBlock(canvas: array3<int>, img: Image, top: nat, left: nat, h: nat, w: nat, c: nat)
    requires canvas.Length2 == 3 && top + h <= canvas.Length0 && left + w <= canvas.Length1
    requires Shaped(img, h, w, c) && (c == 1 || c == 3)
    modifies canvas
    ensures forall y, x, ch :: 0 <= y < canvas.Length0 && 0 <= x < canvas.Length1 && 0 <= ch < 3 ==>
              canvas[y, x, ch] == if top <= y < top + h && left <= x < left + w
                                  then Sample(img[y - top][x - left], ch)
                                  else old(canvas[y, x, ch])
  {
    var dy := 0;
    while dy < h
      invariant 0 <= dy <= h
      invariant forall y, x, ch :: 0 <= y < canvas.Length0 && 0 <= x < canvas.Length1 && 0 <= ch < 3 ==>
                  canvas[y, x, ch] == if top <= y < top + dy && left <= x < left + w
                                      then Sample(img[y - top][x - left], ch)
                                      else old(canvas[y, x, ch])
    {
      var dx := 0;
      while dx < w
        invariant 0 <= dx <= w
        invariant forall y, x, ch :: 0 <= y < canvas.Length0 && 0 <= x < canvas.Length1 && 0 <= ch < 3 ==>
                    canvas[y, x, ch] == if (top <= y < top + dy && left <= x < left + w) ||
                                           (y == top + dy && left <= x < left + dx)
                                        then Sample(img[y - top][x - left], ch)
                                        else old(canvas[y, x, ch])
      {
        var p := img[dy][dx];
        canvas[top + dy, left + dx, 0] := Sample(p, 0);
        canvas[top + dy, left + dx, 1] := Sample(p, 1);
        canvas[top + dy, left + dx, 2] := Sample(p, 2);
        dx := dx + 1;
      }
      dy := dy + 1;
    }
  }

  /**
   * One iteration of `merge`'s loop: the slice assignment for image `idx`,
   * which writes nothing when the block lies below the canvas.
   */
  method PasteImage(canvas: array3<int>, images: seq<Image>, idx: nat,
                    h: nat, w: nat, c: nat, rows: nat, cols: nat)
    requires IsBatch(images, h, w, c)
    requires idx < Used(|images|, rows, cols)
    requires (c == 1 || c == 3) && (idx / rows < rows || h <= 1)
    requires canvas.Length0 == h * rows && canvas.Length1 == w * cols && canvas.Length2 == 3
    requires forall y, x, ch :: 0 <= y < h * rows && 0 <= x < w * cols && 0 <= ch < 3 ==>
               canvas[y, x, ch] == Pasted(images, idx, h, w, c, rows, cols, y, x, ch)
    modifies canvas
    ensures forall y, x, ch :: 0 <= y < h * rows && 0 <= x < w * cols && 0 <= ch < 3 ==>
              canvas[y, x, ch] == Pasted(images, idx + 1, h, w, c, rows, cols, y, x, ch)
  {
    if idx / rows < rows {
      PasteInside(canvas, images, idx, h, w, c, rows, cols);
    } else {
      forall y, x, ch | 0 <= y < h * rows && 0 <= x < w * cols && 0 <= ch < 3
        ensures canvas[y, x, ch] == Pasted(images, idx + 1, h, w, c, rows, cols, y, x, ch)
      {
        PastedBelowCanvas(images, idx, h, w, c, rows, cols, y, x, ch);
      }
    }
  }

  /** The slice assignment for image `idx` when its block lies on the canvas. */
  method PasteInside(canvas: array3<int>, images: seq<Image>, idx: nat,
                     h: nat, w: nat, c: nat, rows: nat, cols: nat)
    requires IsBatch(images, h, w, c)
    requires idx < Used(|images|, rows, cols)
    requires (c == 1 || c == 3) && idx / rows < rows
    requires canvas.Length0 == h * rows && canvas.Length1 == w * cols && canvas.Length2 == 3
    requires forall y, x, ch :: 0 <= y < h * rows && 0 <= x < w * cols && 0 <= ch < 3 ==>
               canvas[y, x, ch] == Pasted(images, idx, h, w, c, rows, cols, y, x, ch)
    modifies canvas
    ensures forall y, x, ch :: 0 <= y < h * rows && 0 <= x < w * cols && 0 <= ch < 3 ==>
              canvas[y, x, ch] == Pasted(images, idx + 1, h, w, c, rows, cols, y, x, ch)
  {
    var top := (idx / rows) * h;
    var left := (idx % cols) * w;
    BlockFits(idx / rows, rows, h);
    BlockFits(idx % cols, cols, w);
    PasteBlock(canvas, images[idx], top, left, h, w, c);
    forall y, x, ch | 0 <= y < h * rows && 0 <= x < w * cols && 0 <= ch < 3
      ensures canvas[y, x, ch] == Pasted(images, idx + 1, h, w, c, rows, cols, y, x, ch)
    {
      PastedNext(images, idx, h, w, c, rows, cols, y, x, ch);
    }
  }

  /** Block `k` of `n` blocks of size `h` ends inside `h * n`. */
  lemma BlockFits(k: nat, n: nat, h: nat)
    requires k < n
    ensures k * h + h <= h * n
  {
    MulMono(k + 1, n, h);
  }

  /** An image whose block row is below the canvas changes no position on it. */
  lemma PastedBelowCanvas(images: seq<Image>, idx: nat, h: nat, w: nat, c: nat, rows: nat, cols: nat,
                          y: nat, x: nat, ch: nat)
    requires IsBatch(images, h, w, c)
    requires idx < Used(|images|, rows, cols) && idx / rows >= rows
    requires (c == 1 || c == 3) && ch < 3 && y < h * rows
    ensures Pasted(images, idx + 1, h, w, c, rows, cols, y, x, ch) ==
            Pasted(images, idx, h, w, c, rows, cols, y, x, ch)
  {
    MulMono(rows, idx / rows, h);
    assert !Covers(idx, rows, cols, h, w, y, x);
  }

  /**
   * `merge(images, [rows, cols])`: a zero canvas of `h*rows x w*cols x 3`
   * with the first `rows*cols` images pasted in index order (a later image
   * overwrites an earlier one in the same block). `ok` is false where numpy
   * raises; the canvas is then meaningless.
   */
  method Merge(images: seq<Image>, h: nat, w: nat, c: nat, rows: nat, cols: nat)
    returns (ok: bool, canvas: array3<int>)
    requires IsBatch(images, h, w, c)
    ensures fresh(canvas)
    ensures canvas.Length0 == h * rows && canvas.Length1 == w * cols && canvas.Length2 == 3
    ensures ok <==> MergeOk(|images|, h, c, rows, cols)
    ensures ok ==> forall y, x, ch :: 0 <= y < h * rows && 0 <= x < w * cols && 0 <= ch < 3 ==>
                     canvas[y, x, ch] == Pasted(images, Used(|images|, rows, cols), h, w, c, rows, cols, y, x, ch)
  {
    canvas := new int[h * rows, w * cols, 3]((_, _, _) => 0);
    var m := Used(|images|, rows, cols);
    var idx := 0;
    while idx < m
      invariant 0 <= idx <= m
      invariant idx > 0 ==> c == 1 || c == 3
      invariant idx > 0 && h >= 2 ==> (idx - 1) / rows < rows
      invariant forall y, x, ch :: 0 <= y < h * rows && 0 <= x < w * cols && 0 <= ch < 3 ==>
                  canvas[y, x, ch] == Pasted(images, idx, h, w, c, rows, cols, y, x, ch)
    {
      var i := idx % cols;
      var j := idx / rows;
      if !(c == 1 || c == 3) || (j >= rows && h >= 2) {
        if j >= rows && h >= 2 {
          DivMono(idx, m - 1, rows);
        }
        return false, canvas;
      }
      PasteImage(canvas, images, idx, h, w, c, rows, cols);
      idx := idx + 1;
    }
    ok := true;
  }

  lemma DivMono(a: nat, b: nat, d: nat)
    requires a <= b && d > 0
    ensures a / d <= b / d
  {
    if a / d > b / d {
      MulMono(b / d + 1, a / d, d);
      assert false;
    }
  }

  /** The largest index below `k` whose block covers `(y, x)`, if any. */
  function LastCover(k: nat, rows: nat, cols: nat, h: nat, w: nat, y: nat, x: nat): (r: Option<nat>)
    requires k == 0 || (rows > 0 && cols > 0)
    ensures r.Some? ==> r.value < k && Covers(r.value, rows, cols, h, w, y, x)
    ensures r.Some? ==> forall i :: r.value < i < k ==> !Covers(i, rows, cols, h, w, y, x)
    ensures r.None? ==> forall i :: 0 <= i < k ==> !Covers(i, rows, cols, h, w, y, x)
    decreases k
  {
    if k == 0 then None
    else if Covers(k - 1, rows, cols, h, w, y, x) then Some(k - 1)
    else LastCover(k - 1, rows, cols, h, w, y, x)
  }

  /**
   * What the canvas holds: at every position, the pixel of the last pasted
   * image whose block covers it, and 0 where no block does.
   */
  lemma {:induction false} PastedIsLastCover(images: seq<Image>, k: nat, h: nat, w: nat, c: nat,
                                            rows: nat, cols: nat, y: nat, x: nat, ch: nat)
    requires IsBatch(images, h, w, c)
    requires k <= Used(|images|, rows, cols)
    requires k == 0 || c == 1 || c == 3
    requires ch < 3
    ensures Pasted(images, k, h, w, c, rows, cols, y, x, ch) ==
            match LastCover(k, rows, cols, h, w, y, x)
            case None => 0
            case Some(i) => Sample(images[i][y - BlockRow(i, rows) * h][x - BlockCol(i, cols) * w], ch)
    decreases k
  {
    if k > 0 && !Covers(k - 1, rows, cols, h, w, y, x) {
      PastedIsLastCover(images, k - 1, h, w, c, rows, cols, y, x, ch);
    }
  }

  /** Two blocks that share a position are the same block. */
  lemma CoversSameBlock(a: nat, b: nat, rows: nat, cols: nat, h: nat, w: nat, y: nat, x: nat)
    requires rows > 0 && cols > 0
    requires Covers(a, rows, cols, h, w, y, x) && Covers(b, rows, cols, h, w, y, x)
    ensures BlockRow(a, rows) == BlockRow(b, rows) && BlockCol(a, cols) == BlockCol(b, cols)
  {
    var ra, rb := BlockRow(a, rows), BlockRow(b, rows);
    if ra < rb { MulMono(ra + 1, rb, h); }
    if rb < ra { MulMono(rb + 1, ra, h); }
    var ca, cb := BlockCol(a, cols), BlockCol(b, cols);
    if ca < cb { MulMono(ca + 1, cb, w); }
    if cb < ca { MulMono(cb + 1, ca, w); }
  }

  lemma DivModId(i: nat, n: nat)
    requires n > 0
    ensures i == (i / n) * n + i % n && i % n < n
  {
  }

  lemma DivModOfBlock(r: nat, n: nat, col: nat)
    requires col < n
    ensures (r * n + col) / n == r && (r * n + col) % n == col
  {
    var a := r * n + col;
    var q := a / n;
    DivModId(a, n);
    if q > r {
      MulMono(r + 1, q, n);
      assert false;
    }
    if q < r {
      MulMono(q + 1, r, n);
      assert false;
    }
  }

  /** On a square grid the only image whose block covers a position of block `(r, col)` is image `r*n + col`. */
  lemma SquareGridLastCover(m: nat, n: nat, h: nat, w: nat, r: nat, col: nat, dy: nat, dx: nat)
    requires m <= n * n && r < n && col < n && dy < h && dx < w
    ensures LastCover(m, n, n, h, w, r * h + dy, col * w + dx) ==
            if r * n + col < m then Some(r * n + col) else None
  {
    var y, x, idx := r * h + dy, col * w + dx, r * n + col;
    DivModOfBlock(r, n, col);
    assert Covers(idx, n, n, h, w, y, x);
    var last := LastCover(m, n, n, h, w, y, x);
    if last.Some? {
      var i := last.value;
      CoversSameBlock(i, idx, n, n, h, w, y, x);
      DivModId(i, n);
      DivModId(idx, n);
      assert i == idx;
    }
  }

  /**
   * On a square grid (`rows == cols == n`) image `r*n + col` is shown
   * unchanged in block row `r`, block column `col`: the layout is row-major
   * and no image overwrites another. Blocks past the last image stay 0.
   */
  lemma SquareGridIsRowMajor(images: seq<Image>, h: nat, w: nat, c: nat, n: nat,
                             r: nat, col: nat, dy: nat, dx: nat, ch: nat)
    requires IsBatch(images, h, w, c)
    requires c == 1 || c == 3
    requires r < n && col < n && dy < h && dx < w && ch < 3
    ensures var m := Used(|images|, n, n);
            Pasted(images, m, h, w, c, n, n, r * h + dy, col * w + dx, ch) ==
            if r * n + col < m then Sample(images[r * n + col][dy][dx], ch) else 0
  {
    var m := Used(|images|, n, n);
    DivModOfBlock(r, n, col);
    PastedIsLastCover(images, m, h, w, c, n, n, r * h + dy, col * w + dx, ch);
    SquareGridLastCover(m, n, h, w, r, col, dy, dx);
  }

  /**
   * A grid at least as tall as it is wide never places a block below the
   * canvas, so `merge` succeeds exactly when the channel count broadcasts.
   */
  lemma TallGridFits(n: nat, h: nat, c: nat, rows: nat, cols: nat)
    requires cols <= rows
    ensures MergeOk(n, h, c, rows, cols) <==> (Used(n, rows, cols) == 0 || c == 1 || c == 3)
  {
    var m := Used(n, rows, cols);
    if m > 0 && (m - 1) / rows >= rows {
      MulMono(rows, (m - 1) / rows, rows);
      MulMono(cols, rows, rows);
      assert false;
    }
  }

  /**
   * A grid wider than it is tall, filled completely with images at least two
   * rows high, makes `merge` fail: the last image's block row
   * `(rows*cols - 1) / rows == cols - 1` lies below the canvas.
   */
  lemma WideGridOverflows(n: nat, h: nat, c: nat, rows: nat, cols: nat)
    requires 0 < rows < cols && rows * cols <= n && h >= 2
    ensures !MergeOk(n, h, c, rows, cols)
  {
    DivModOfBlock(cols - 1, rows, rows - 1);
    assert (cols - 1) * rows + (rows - 1) == rows * cols - 1;
  }

  /**
   * On a grid taller than it is wide, image `cols` lands on the block of
   * image 0 (block row `cols / rows == 0`), so once it is used the top-left
   * block shows a later image than image 0.
   */
  lemma TallGridOverwritesFirstBlock(images: seq<Image>, h: nat, w: nat, c: nat,
                                     rows: nat, cols: nat, ch: nat)
    requires IsBatch(images, h, w, c)
    requires c == 1 || c == 3
    requires 0 < cols < rows && h > 0 && w > 0 && ch < 3
    requires cols < |images|
    ensures BlockRow(cols, rows) == BlockRow(0, rows) && BlockCol(cols, cols) == BlockCol(0, cols)
    ensures var m := Used(|images|, rows, cols);
            var last := LastCover(m, rows, cols, h, w, 0, 0);
            last.Some? && last.value >= cols &&
            Pasted(images, m, h, w, c, rows, cols, 0, 0, ch) == Sample(images[last.value][0][0], ch)
  {
    var m := Used(|images|, rows, cols);
    assert cols < m by { MulMono(2, rows, cols); }
    assert Covers(cols, rows, cols, h, w, 0, 0) by {
      assert cols / rows == 0 && cols % cols == 0;
    }
    var last := LastCover(m, rows, cols, h, w, 0, 0);
    var i := last.value;
    assert BlockRow(i, rows) * h == 0 && BlockCol(i, cols) * w == 0;
    PastedIsLastCover(images, m, h, w, c, rows, cols, 0, 0, ch);
  }

  /** `np.repeat(p, 3)` on the channel axis: every channel value three times in a row. */
  function RepeatPixel(p: Pixel): (r: Pixel)
    ensures |r| == 3 * |p|
    ensures forall k :: 0 <= k < |r| ==> r[k] == p[k / 3]
  {
    seq(3 * |p|, k requires 0 <= k < 3 * |p| => p[k / 3])
  }

  /** `np.repeat(images, 3, axis=3)` */
  function RepeatChannels(images: seq<Image>): (r: seq<Image>)
    ensures |r| == |images|
    ensures forall k, y, x :: 0 <= k < |r| && 0 <= y < |r[k]| && 0 <= x < |r[k][y]| ==>
              |r[k]| == |images[k]| && |r[k][y]| == |images[k][y]| && r[k][y][x] == RepeatPixel(images[k][y][x])
  {
    seq(|images|, k requires 0 <= k < |images| =>
      seq(|images[k]|, y requires 0 <= y < |images[k]| =>
        seq(|images[k][y]|, x requires 0 <= x < |images[k][y]| => RepeatPixel(images[k][y][x]))))
  }

  lemma RepeatChannelsShape(images: seq<Image>, h: nat, w: nat, c: nat)
    requires IsBatch(images, h, w, c)
    ensures IsBatch(RepeatChannels(images), h, w, 3 * c)
  {
    var r := RepeatChannels(images);
    forall k | 0 <= k < |r| ensures Shaped(r[k], h, w, 3 * c) {
      assert |r[k]| == |images[k]|;
      forall y | 0 <= y < h ensures |r[k][y]| == w {
        assert |r[k][y]| == |images[k][y]|;
      }
    }
  }

  /**
   * `imsave`'s replication of a single channel changes nothing in the
   * canvas: `merge` would broadcast the one channel to all three anyway.
   */
  lemma {:induction false} RepeatIsBroadcast(images: seq<Image>, k: nat, h: nat, w: nat,
                                            rows: nat, cols: nat, y: nat, x: nat, ch: nat)
    requires IsBatch(images, h, w, 1) && IsBatch(RepeatChannels(images), h, w, 3)
    requires k <= Used(|images|, rows, cols) && ch < 3
    ensures Pasted(RepeatChannels(images), k, h, w, 3, rows, cols, y, x, ch) ==
            Pasted(images, k, h, w, 1, rows, cols, y, x, ch)
    decreases k
  {
    if k > 0 {
      RepeatIsBroadcast(images, k - 1, h, w, rows, cols, y, x, ch);
      if Covers(k - 1, rows, cols, h, w, y, x) {
        var yy, xx := y - BlockRow(k - 1, rows) * h, x - BlockCol(k - 1, cols) * w;
        assert |images[k - 1][yy][xx]| == 1;
        assert RepeatChannels(images)[k - 1][yy][xx] == RepeatPixel(images[k - 1][yy][xx]);
      }
    }
  }

  /**
   * `imsave(images, size, path)` up to the file write: a one-channel batch
   * is replicated to three channels, then merged. The canvas is the one
   * `merge` gives for the batch as it came in.
   */
  method Imsave(images: seq<Image>, h: nat, w: nat, c: nat, rows: nat, cols: nat)
    returns (ok: bool, canvas: array3<int>)
    requires IsBatch(images, h, w, c)
    ensures fresh(canvas)
    ensures canvas.Length0 == h * rows && canvas.Length1 == w * cols && canvas.Length2 == 3
    ensures ok <==> MergeOk(|images|, h, c, rows, cols)
    ensures ok ==> forall y, x, ch :: 0 <= y < h * rows && 0 <= x < w * cols && 0 <= ch < 3 ==>
                     canvas[y, x, ch] == Pasted(images, Used(|images|, rows, cols), h, w, c, rows, cols, y, x, ch)
  {
    if c == 1 {
      var tripled := RepeatChannels(images);
      RepeatChannelsShape(images, h, w, c);
      ok, canvas := Merge(tripled, h, w, 3, rows, cols);
      forall y, x, ch | 0 <= y < h * rows && 0 <= x < w * cols && 0 <= ch < 3
        ensures ok ==> canvas[y, x, ch] == Pasted(images, Used(|images|, rows, cols), h, w, c, rows, cols, y, x, ch)
      {
        RepeatIsBroadcast(images, Used(|images|, rows, cols), h, w, rows, cols, y, x, ch);
      }
    } else {
      ok, canvas := Merge(images, h, w, c, rows, cols);
    }
  }
}
