/**
 * The crop window of `center_crop` in utils.py: the image is cut to a
 * centred window before it is resized (the resize itself is not modelled).
 */
module Crop {
  import opened Wrappers

  /**
   * Python 2 `round(d / 2.)` for an integer `d`: the nearest integer to
   * `d / 2`, with halves rounded away from zero.
   */
  function HalfRounded(d: int): (r: int)
    ensures d % 2 == 0 ==> 2 * r == d
    ensures d % 2 == 1 && d > 0 ==> 2 * r == d + 1
    ensures d % 2 == 1 && d < 0 ==> 2 * r == d - 1
  {
    if d >= 0 then (d + 1) / 2 else -((-d + 1) / 2)
  }

  /** For a non-negative excess the rounding is plain integer arithmetic. */
  lemma HalfRoundedOfExcess(d: nat)
    ensures HalfRounded(d) == (d + 1) / 2
  {
  }

  /** `x[top:top + height, left:left + width]` */
  datatype Window = Window(top: int, left: int, height: int, width: int)

  function Min(a: int, b: int): int
  {
    if a <= b then a else b
  }

  /**
   * `center_crop(x, crop_h, crop_w)` on an image of height `h` and width
   * `w`, before resizing. The requested `crop_h` is overridden by
   * `min(h, w)`; a given `crop_w` is honoured, an omitted one copies the
   * height.
   */
  function CenterCrop(h: nat, w: nat, cropH: int, cropW: Option<int>): (win: Window)
    ensures win.height == Min(h, w)
    ensures win.width == if cropW.Some? then cropW.value else Min(h, w)
    ensures cropW.None? ==> 0 <= win.top && win.top + win.height <= h
    ensures cropW.None? ==> 0 <= win.left && win.left + win.width <= w
    ensures cropW.None? && h <= w ==> win.top == 0
    ensures cropW.None? && w <= h ==> win.left == 0
    ensures cropW.None? ==> 0 <= 2 * win.top - (h - win.height) <= 1
    ensures cropW.None? ==> 0 <= 2 * win.left - (w - win.width) <= 1
  {
    var side := Min(h, w);
    var width := if cropW.Some? then cropW.value else side;
    Window(HalfRounded(h - side), HalfRounded(w - width), side, width)
  }

  /** The `crop_h` argument has no effect on the window. */
  lemma CropHeightIgnored(h: nat, w: nat, a: int, b: int, cropW: Option<int>)
    ensures CenterCrop(h, w, a, cropW) == CenterCrop(h, w, b, cropW)
  {
  }
}
