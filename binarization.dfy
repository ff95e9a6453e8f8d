/** The binarization layer of main.c, over caller-owned buffers: the RGB
    image is an `array3<u8>` indexed [x, y, c] and the binary mask an
    `array2<u8>` indexed [x, y]. The grid width, height and channel count
    are the arrays' lengths. */
module Binarization {
  import opened Images

  /** The mask held by `a`, as a value. */
  ghost function MaskView(a: array2<u8>): Mask
    reads a
  {
    seq(a.Length0, x requires 0 <= x < a.Length0 reads a =>
      seq(a.Length1, y requires 0 <= y < a.Length1 reads a => a[x, y]))
  }

  /** The image held by `a`, as a value. */
  ghost function ImageView(a: array3<u8>): Image
    reads a
  {
    seq(a.Length0, x requires 0 <= x < a.Length0 reads a =>
      seq(a.Length1, y requires 0 <= y < a.Length1 reads a =>
        seq(a.Length2, c requires 0 <= c < a.Length2 reads a => a[x, y, c])))
  }

  /** Two masks of the same shape that agree on every cell are equal. */
  lemma MaskExt(m: Mask, n: Mask, width: nat, height: nat)
    requires IsMask(m, width, height) && IsMask(n, width, height)
    requires forall x, y | 0 <= x < width && 0 <= y < height :: m[x][y] == n[x][y]
    ensures m == n
  {
    forall x | 0 <= x < width ensures m[x] == n[x] {
    }
  }

  /** Two images of the same shape that agree on every channel are equal. */
  lemma ImageExt(img: Image, other: Image, width: nat, height: nat, channels: nat)
    requires |img| == width && |other| == width
    requires forall x | 0 <= x < width :: |img[x]| == height && |other[x]| == height
    requires forall x, y | 0 <= x < width && 0 <= y < height ::
               |img[x][y]| == channels && |other[x][y]| == channels
    requires forall x, y, c | 0 <= x < width && 0 <= y < height && 0 <= c < channels ::
               img[x][y][c] == other[x][y][c]
    ensures img == other
  {
    forall x | 0 <= x < width ensures img[x] == other[x] {
      forall y | 0 <= y < height ensures img[x][y] == other[x][y] {
      }
    }
  }

  /** Writing a 0 or a 1 into one cell of a 0/1 mask, and changing no other
      cell, leaves a 0/1 mask. */
  lemma WriteKeepsBinary(before: Mask, after: Mask, width: nat, height: nat, x: nat, y: nat)
    requires IsMask(before, width, height) && IsMask(after, width, height)
    requires x < width && y < height
    requires IsBinaryMask(before) && IsBit(after[x][y])
    requires forall i, j | 0 <= i < width && 0 <= j < height && (i, j) != (x, y) ::
               after[i][j] == before[i][j]
    ensures IsBinaryMask(after)
  {
    forall i, j | 0 <= i < width && 0 <= j < height
      ensures IsBit(after[i][j])
    {
      if (i, j) != (x, y) {
        assert after[i][j] == before[i][j];
      }
    }
  }

  /** forceWhite: cell (x, y) becomes 1; no other cell changes. */
  method ForceWhite(binary: array2<u8>, x: nat, y: nat)
    requires x < binary.Length0 && y < binary.Length1
    modifies binary
    ensures GetColour(binary, x, y) == 1
    ensures forall i, j | 0 <= i < binary.Length0 && 0 <= j < binary.Length1 && (i, j) != (x, y) ::
              binary[i, j] == old(binary[i, j])
    ensures IsBinaryMask(old(MaskView(binary))) ==> IsBinaryMask(MaskView(binary))
  {
    binary[x, y] := 1;
    if IsBinaryMask(old(MaskView(binary))) {
      WriteKeepsBinary(old(MaskView(binary)), MaskView(binary), binary.Length0, binary.Length1, x, y);
    }
  }

  /** forceBlack: cell (x, y) becomes 0; no other cell changes. */
  method ForceBlack(binary: array2<u8>, x: nat, y: nat)
    requires x < binary.Length0 && y < binary.Length1
    modifies binary
    ensures GetColour(binary, x, y) == 0
    ensures forall i, j | 0 <= i < binary.Length0 && 0 <= j < binary.Length1 && (i, j) != (x, y) ::
              binary[i, j] == old(binary[i, j])
    ensures IsBinaryMask(old(MaskView(binary))) ==> IsBinaryMask(MaskView(binary))
  {
    binary[x, y] := 0;
    if IsBinaryMask(old(MaskView(binary))) {
      WriteKeepsBinary(old(MaskView(binary)), MaskView(binary), binary.Length0, binary.Length1, x, y);
    }
  }

  /** getColour: the value stored at cell (x, y) of the mask. */
  function GetColour(binary: array2<u8>, x: nat, y: nat): (r: int)
    requires x < binary.Length0 && y < binary.Length1
    reads binary
    ensures 0 <= r < 256
    ensures r == MaskView(binary)[x][y] as int
    ensures IsBinaryMask(MaskView(binary)) ==> r == 0 || r == 1
  {
    binary[x, y] as int
  }

  /** getColourRGB: 1 exactly when the red, green and blue channels of
      pixel (x, y) add up to more than 270, otherwise 0. */
  function GetColourRgb(input: array3<u8>, x: nat, y: nat): (r: int)
    requires x < input.Length0 && y < input.Length1 && 3 <= input.Length2
    reads input
    ensures r == 0 || r == 1
    ensures r == 1 <==> input[x, y, 0] as int + input[x, y, 1] as int + input[x, y, 2] as int > 270
    ensures r == Bit(ImageView(input)[x][y]) as int
  {
    var sum := input[x, y, 0] as int + input[x, y, 1] as int + input[x, y, 2] as int;
    if sum > WhiteThreshold then 1 else 0
  }

  /** switchColour: a cell holding 0 becomes 1, any other value becomes 0;
      no other cell changes. */
  method SwitchColour(binary: array2<u8>, x: nat, y: nat)
    requires x < binary.Length0 && y < binary.Length1
    modifies binary
    ensures binary[x, y] == Switched(old(binary[x, y]))
    ensures old(binary[x, y]) == 0 ==> binary[x, y] == 1
    ensures old(binary[x, y]) != 0 ==> binary[x, y] == 0
    ensures forall i, j | 0 <= i < binary.Length0 && 0 <= j < binary.Length1 && (i, j) != (x, y) ::
              binary[i, j] == old(binary[i, j])
    ensures IsBinaryMask(old(MaskView(binary))) ==> IsBinaryMask(MaskView(binary))
  {
    if GetColour(binary, x, y) != 0 {
      ForceBlack(binary, x, y);
    } else {
      ForceWhite(binary, x, y);
    }
  }

  /** rgbToBinary: every cell of the mask is set to the threshold bit of the
      pixel at the same position; the image is only read. */
  method RgbToBinary(input: array3<u8>, binary: array2<u8>)
    requires input.Length0 == binary.Length0 && input.Length1 == binary.Length1
    requires 3 <= input.Length2
    modifies binary
    ensures unchanged(input)
    ensures forall x, y | 0 <= x < binary.Length0 && 0 <= y < binary.Length1 ::
              binary[x, y] as int == GetColourRgb(input, x, y)
    ensures MaskView(binary) == Binarize(ImageView(input))
  {
    var width, height := binary.Length0, binary.Length1;
    for x := 0 to width
      invariant forall i, j | 0 <= i < x && 0 <= j < height :: binary[i, j] as int == GetColourRgb(input, i, j)
    {
      for y := 0 to height
        invariant forall i, j | 0 <= i < x && 0 <= j < height :: binary[i, j] as int == GetColourRgb(input, i, j)
        invariant forall j | 0 <= j < y :: binary[x, j] as int == GetColourRgb(input, x, j)
      {
        if GetColourRgb(input, x, y) == 1 {
          ForceWhite(binary, x, y);
        } else {
          ForceBlack(binary, x, y);
        }
      }
    }
    MaskExt(MaskView(binary), Binarize(ImageView(input)), width, height);
  }

  /** binaryToRGB: every channel of every output pixel is the mask cell times
      255, truncated to a byte; the mask is only read. */
  method BinaryToRgb(binary: array2<u8>, output: array3<u8>)
    requires output.Length0 == binary.Length0 && output.Length1 == binary.Length1
    modifies output
    ensures unchanged(binary)
    ensures forall x, y, c | 0 <= x < output.Length0 && 0 <= y < output.Length1 && 0 <= c < output.Length2 ::
              output[x, y, c] == Scale(binary[x, y])
    ensures ImageView(output) == Polarise(MaskView(binary), output.Length2)
  {
    var width, height, channels := output.Length0, output.Length1, output.Length2;
    for x := 0 to width
      invariant forall i, j, c | 0 <= i < x && 0 <= j < height && 0 <= c < channels ::
                  output[i, j, c] == Scale(binary[i, j])
    {
      for y := 0 to height
        invariant forall i, j, c | 0 <= i < x && 0 <= j < height && 0 <= c < channels ::
                    output[i, j, c] == Scale(binary[i, j])
        invariant forall j, c | 0 <= j < y && 0 <= c < channels :: output[x, j, c] == Scale(binary[x, j])
      {
        for c := 0 to channels
          invariant forall i, j, k | 0 <= i < x && 0 <= j < height && 0 <= k < channels ::
                      output[i, j, k] == Scale(binary[i, j])
          invariant forall j, k | 0 <= j < y && 0 <= k < channels :: output[x, j, k] == Scale(binary[x, j])
          invariant forall k | 0 <= k < c :: output[x, y, k] == Scale(binary[x, y])
        {
          output[x, y, c] := Scale(binary[x, y]);
        }
      }
    }
    ImageExt(ImageView(output), Polarise(MaskView(binary), channels), width, height, channels);
  }

  /** Rendering a 0/1 mask into `img` and thresholding `img` back into the
      same mask buffer leaves the mask as it was; `img` keeps the rendering. */
  method RenderAndRethreshold(m: array2<u8>, img: array3<u8>)
    requires img.Length0 == m.Length0 && img.Length1 == m.Length1
    requires img.Length2 >= 3
    requires IsBinaryMask(MaskView(m))
    modifies m, img
    ensures MaskView(m) == old(MaskView(m))
    ensures ImageView(img) == Polarise(old(MaskView(m)), img.Length2)
  {
    BinaryToRgb(m, img);
    RoundTrip(MaskView(m), img.Length2);
    RgbToBinary(img, m);
  }
}
