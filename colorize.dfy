/** `colorize` of utils.py: bring a 2-D or 3-D image to a 3-D image. */
module Colorize {
  import opened Images

  /** A numpy image of rank 2 (`h x w`) or rank 3 (`h x w x c`). */
  datatype Array =
    | Gray(h: nat, w: nat, px: seq<seq<int>>)
    | Color(h: nat, w: nat, c: nat, img: Image)

  predicate WellShaped(a: Array)
  {
    match a
    case Gray(h, w, px) => |px| == h && forall y :: 0 <= y < h ==> |px[y]| == w
    case Color(h, w, c, img) => Shaped(img, h, w, c)
  }

  /**
   * A 2-D image becomes three identical channels; a 4-channel image loses
   * its fourth channel; any other 3-D image is returned as it is.
   */
  function Colorize(a: Array): (r: Array)
    requires WellShaped(a)
    ensures r.Color? && WellShaped(r) && r.h == a.h && r.w == a.w
    ensures a.Gray? ==> r.c == 3
    ensures a.Gray? ==> forall y, x, k :: 0 <= y < a.h && 0 <= x < a.w && 0 <= k < 3 ==>
                          r.img[y][x][k] == a.px[y][x]
    ensures a.Color? && a.c == 4 ==> r.c == 3
    ensures a.Color? && a.c == 4 ==> forall y, x, k :: 0 <= y < a.h && 0 <= x < a.w && 0 <= k < 3 ==>
                                       r.img[y][x][k] == a.img[y][x][k]
    ensures a.Color? && a.c != 4 ==> r == a
  {
    match a
    case Gray(h, w, px) =>
      Color(h, w, 3, seq(h, y requires 0 <= y < h =>
                       seq(w, x requires 0 <= x < w => [px[y][x], px[y][x], px[y][x]])))
    case Color(h, w, c, img) =>
      if c == 4 then
        Color(h, w, 3, seq(h, y requires 0 <= y < h =>
                         seq(w, x requires 0 <= x < w => img[y][x][..3])))
      else a
  }

  /** The result never has four channels, so colorizing twice is colorizing once. */
  lemma ColorizeIdempotent(a: Array)
    requires WellShaped(a)
    ensures Colorize(a).c != 4
    ensures Colorize(Colorize(a)) == Colorize(a)
  {
  }
}
