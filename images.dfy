/** Value-level reference definitions for the binarization layer: pixels,
    binary masks and RGB images as sequences, the intensity threshold, the
    0/255 rendering of a mask, and the properties that relate them.
    Grids are indexed [x][y] (and [x][y][c] for images), as in main.c. */
module Images {

  /** An `unsigned char`: every pixel channel and every mask cell. */
  newtype u8 = v: int | 0 <= v < 256

  /** The channels of one pixel; the first three are the colour channels. */
  type Pixel = seq<u8>

  /** A binary mask, indexed [x][y]; 0 is black, 1 is white. */
  type Mask = seq<seq<u8>>

  /** An RGB image, indexed [x][y][c]. */
  type Image = seq<seq<Pixel>>

  /** A pixel is white when the sum of its three colour channels exceeds this. */
  const WhiteThreshold: int := 270

  predicate IsBit(v: u8) {
    v == 0 || v == 1
  }

  /** `m` is a width-by-height grid. */
  predicate IsMask(m: Mask, width: nat, height: nat) {
    |m| == width && forall x | 0 <= x < width :: |m[x]| == height
  }

  /** Every cell of `m` is 0 or 1. */
  predicate IsBinaryMask(m: Mask) {
    forall x, y | 0 <= x < |m| && 0 <= y < |m[x]| :: IsBit(m[x][y])
  }

  /** Every pixel of `img` has at least the three colour channels. */
  predicate HasRgb(img: Image) {
    forall x, y | 0 <= x < |img| && 0 <= y < |img[x]| :: |img[x][y]| >= 3
  }

  /** Sum of the red, green and blue channels, computed without overflow
      (the channels are promoted to `int` before they are added). */
  function Brightness(p: Pixel): int
    requires |p| >= 3
  {
    p[0] as int + p[1] as int + p[2] as int
  }

  /** The mask value of one pixel. */
  function Bit(p: Pixel): u8
    requires |p| >= 3
  {
    if Brightness(p) > WhiteThreshold then 1 else 0
  }

  /** `v * 255` stored back into an `unsigned char`: the product is taken
      modulo 256, so only 0 and 1 map to 0 and 255. */
  function Scale(v: u8): u8 {
    ((v as int * 255) % 256) as u8
  }

  /** The mask a thresholding pass produces from `img`. */
  function Binarize(img: Image): (m: Mask)
    requires HasRgb(img)
    ensures |m| == |img| && forall x | 0 <= x < |img| :: |m[x]| == |img[x]|
    ensures IsBinaryMask(m)
    ensures forall x, y | 0 <= x < |img| && 0 <= y < |img[x]| ::
              m[x][y] == 1 <==> Brightness(img[x][y]) > WhiteThreshold
  {
    seq(|img|, x requires 0 <= x < |img| =>
      seq(|img[x]|, y requires 0 <= y < |img[x]| => Bit(img[x][y])))
  }

  /** The RGB image a rendering pass produces from `m`, with `channels`
      channels per pixel, each the scaled mask value. */
  function Polarise(m: Mask, channels: nat): (img: Image)
    ensures |img| == |m| && forall x | 0 <= x < |m| :: |img[x]| == |m[x]|
    ensures forall x, y | 0 <= x < |m| && 0 <= y < |m[x]| :: |img[x][y]| == channels
    ensures IsBinaryMask(m) ==>
              forall x, y, c | 0 <= x < |m| && 0 <= y < |m[x]| && 0 <= c < channels ::
                img[x][y][c] as int == m[x][y] as int * 255 && (img[x][y][c] == 0 || img[x][y][c] == 255)
  {
    seq(|m|, x requires 0 <= x < |m| =>
      seq(|m[x]|, y requires 0 <= y < |m[x]| => seq(channels, _ => Scale(m[x][y]))))
  }

  /** Scaling wraps around: every non-zero byte v renders as 256 - v, so 1
      renders as 255, 2 as 254 and 255 as 1. */
  lemma ScaleWraps(v: u8)
    requires v != 0
    ensures Scale(v) as int == 256 - v as int
  {
    assert v as int * 255 == 256 * (v as int - 1) + (256 - v as int);
  }

  /** A rendered channel is 0 or 255 exactly when the cell is 0 or 1, and then
      it is the cell times 255. */
  lemma ScaleTwoTone(v: u8)
    ensures (Scale(v) == 0 || Scale(v) == 255) <==> IsBit(v)
    ensures IsBit(v) ==> Scale(v) as int == v as int * 255
  {
    if v != 0 {
      ScaleWraps(v);
    }
  }

  /** Rendering a binary mask and thresholding the image again gives back the mask:
      a white cell renders as 3 * 255 = 765 > 270, a black one as 0. */
  lemma RoundTrip(m: Mask, channels: nat)
    requires channels >= 3
    requires IsBinaryMask(m)
    ensures HasRgb(Polarise(m, channels))
    ensures Binarize(Polarise(m, channels)) == m
  {
    var img := Polarise(m, channels);
    var b := Binarize(img);
    forall x | 0 <= x < |m|
      ensures b[x] == m[x]
    {
      forall y | 0 <= y < |m[x]|
        ensures b[x][y] == m[x][y]
      {
        assert Brightness(img[x][y]) == 3 * (m[x][y] as int * 255);
      }
    }
  }

  /** Thresholding an image that was itself rendered from a thresholded image
      changes nothing. */
  lemma BinarizeIdempotent(img: Image, channels: nat)
    requires channels >= 3
    requires HasRgb(img)
    ensures HasRgb(Polarise(Binarize(img), channels))
    ensures Binarize(Polarise(Binarize(img), channels)) == Binarize(img)
  {
    RoundTrip(Binarize(img), channels);
  }

  /** The value `switchColour` writes over a cell holding `v`. */
  function Switched(v: u8): (r: u8)
    ensures IsBit(r)
    ensures r == 1 <==> v == 0
  {
    if v != 0 then 0 else 1
  }

  /** Switching a 0/1 cell twice restores it. */
  lemma SwitchedTwice(v: u8)
    requires IsBit(v)
    ensures Switched(Switched(v)) == v
  {
  }
}
