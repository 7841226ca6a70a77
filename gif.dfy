/**
 * The frame choice inside `make_gif`'s `make_frame` (utils.py): the frame
 * for a computed index `k` is `images[k]`, and when that raises, the
 * exception is swallowed and `images[-1]` is used instead; with no images at
 * all the fallback raises too.
 */
module Gif {
  import opened Wrappers

  /** The position in a batch of `n` images that frame index `k` shows; `None` where Python raises. */
  function FrameSource(n: nat, k: nat): (r: Option<nat>)
    ensures r.None? <==> n == 0
    ensures r.Some? ==> r.value < n
    ensures r.Some? ==> r.value == k || (k >= n && r.value == n - 1)
  {
    if n == 0 then None
    else if k < n then Some(k)
    else Some(n - 1)
  }

  /** The frame `make_frame` picks. */
  function PickFrame<T>(images: seq<T>, k: nat): (r: Option<T>)
    ensures r.None? <==> images == []
    ensures r.Some? ==> r.value in images
    ensures r.Some? ==> r.value == images[FrameSource(|images|, k).value]
  {
    if k < |images| then Some(images[k])
    else if |images| > 0 then Some(images[|images| - 1])
    else None
  }

  /** Frames never go backwards: a later index picks a later or equal image. */
  lemma FrameSourceMonotone(n: nat, k1: nat, k2: nat)
    requires n > 0 && k1 <= k2
    ensures FrameSource(n, k1).value <= FrameSource(n, k2).value
  {
  }

  /** Every index from `n - 1` on shows the last image, and only those do. */
  lemma FrameSourceLast(n: nat, k: nat)
    requires n > 0
    ensures FrameSource(n, k).value == n - 1 <==> k >= n - 1
  {
  }
}
