/**
 * Integer pixel grids: the shapes of the numpy arrays that the image helpers
 * pass around. An image is `height x width x channels`; a batch is a
 * sequence of images of one shape (a 4-D array).
 */
module Images {

  /** The channel values of one pixel. */
  type Pixel = seq<int>

  /** Rows of pixels. */
  type Image = seq<seq<Pixel>>

  /** `img.shape == (h, w, c)` */
  predicate Shaped(img: Image, h: nat, w: nat, c: nat)
  {
    |img| == h &&
    forall y :: 0 <= y < h ==> |img[y]| == w && forall x :: 0 <= x < w ==> |img[y][x]| == c
  }

  /** `images.shape == (len(images), h, w, c)` */
  predicate IsBatch(images: seq<Image>, h: nat, w: nat, c: nat)
  {
    forall k :: 0 <= k < |images| ==> Shaped(images[k], h, w, c)
  }
}
