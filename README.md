# Binarization layer of the cell-detection pipeline

This project models the binarization layer of the cell-detection program in
`main.c`. The layer turns an RGB bitmap into a black/white mask by
thresholding each pixel's intensity. It renders a mask back into a
"polarised" RGB image. It also offers single-cell accessors and mutators on
the mask.

- `images.dfy`, module `Images`: value-level reference definitions.
  `u8` models `unsigned char`. `Brightness` and `Bit` define the threshold:
  a pixel is white when red + green + blue > 270. `Binarize` is the mask a
  thresholding pass produces. `Scale` and `Polarise` are the image a
  rendering pass produces, including the truncation of `v * 255` to a byte.
  The module proves the round trip (render a 0/1 mask, threshold it again,
  get the mask back) and that re-thresholding a rendered mask changes nothing.
- `binarization.dfy`, module `Binarization`: the functions of `main.c` over
  caller-owned arrays. The mask is an `array2<u8>` indexed `[x, y]`. The
  image is an `array3<u8>` indexed `[x, y, c]`. Grid width, height and
  channel count are the arrays' lengths instead of the compile-time
  constants `BMP_WIDTH`, `BMP_HEIGTH` and `BMP_CHANNELS`. The two conversion
  passes are methods with nested loops. Each is proved to fill its output
  cell by cell and to equal `Binarize` / `Polarise` of the array it reads.
  `MaskView` and `ImageView` read an array as a value.

Two facts about the code shape the model:

- The conversion passes write into buffers the caller passes in, as main.c
  does; the model passes those buffers as array parameters.
- `binaryToRGB` accepts any byte in the mask. For a cell `v > 1` it stores
  `(v * 255) mod 256` (2 gives 254, 255 gives 1), so the output is two-tone
  only for a 0/1 mask. `Images.Scale` keeps this truncation.

## Model

| member | source | states |
|---|---|---|
| `Binarization.GetColourRgb` | main.c:29-33 | the result is 0 or 1, and it is 1 exactly when the three colour channels of pixel (x, y) add up to more than 270; it agrees with `Bit` of that pixel |
| `Binarization.GetColour` | main.c:23-26 | the result is the byte stored at cell (x, y) of the mask; on a 0/1 mask it is 1 for a white cell and 0 for a black one |
| `Binarization.ForceWhite` | main.c:13-15 | afterwards `getColour` at (x, y) is 1 and every other cell is unchanged; a 0/1 mask stays 0/1 |
| `Binarization.ForceBlack` | main.c:18-20 | afterwards `getColour` at (x, y) is 0 and every other cell is unchanged; a 0/1 mask stays 0/1 |
| `Binarization.SwitchColour` | main.c:36-43 | a cell holding 0 becomes 1, a cell holding any non-zero value becomes 0, and every other cell is unchanged; a 0/1 mask stays 0/1 |
| `Binarization.RgbToBinary` | main.c:47-57 | every mask cell equals `getColourRGB` of the pixel at the same position, so the whole mask equals `Binarize` of the image; the image is unchanged |
| `Binarization.BinaryToRgb` | main.c:60-70 | every channel of every output pixel equals the mask cell times 255 truncated to a byte, so the whole image equals `Polarise` of the mask; the mask is unchanged |
| `Images.Binarize` | main.c:47-57 | the thresholded mask has the image's shape, every cell is 0 or 1, and a cell is 1 exactly when the pixel's channel sum exceeds 270 |
| `Images.Polarise` | main.c:60-70 | the rendered image has the mask's shape and the given number of channels; for a 0/1 mask every channel equals the cell times 255, so it is 0 or 255 |
| `Images.ScaleWraps` | main.c:66 | for every non-zero cell v the stored channel is 256 - v: the product v * 255 is truncated to 8 bits |
| `Images.ScaleTwoTone` | main.c:66 | a stored channel is 0 or 255 exactly when the cell is 0 or 1, and then it is the cell times 255 |
| `Images.RoundTrip` | main.c:47-70 | rendering a 0/1 mask with at least three channels and thresholding the result gives back the same mask |
| `Binarization.RenderAndRethreshold` | main.c:47-70 | running `binaryToRGB` on a 0/1 mask and then `rgbToBinary` back into the same mask buffer leaves the mask as it was, and the image buffer ends up holding `Polarise` of the mask |
| `Images.BinarizeIdempotent` | main.c:47-70 | thresholding an image rendered from a thresholded image gives the same mask as thresholding the original |
| `Images.Switched` | main.c:36-43 | the value written over a cell is 0 or 1, and it is 1 exactly when the cell held 0 |
| `Images.SwitchedTwice` | main.c:36-43 | switching a 0/1 cell twice restores its value |

## Left out

- `main` (main.c:96-125) is left out. It checks the argument count, logs to the console, exits and calls the file I/O.
- `read_bitmap`, `write_bitmap` and the dimension constants are left out. They live in `cbmp.c`, and cbmp.c is not part of this model. The dimensions become the lengths of the arrays.
- `erode` (main.c:73) and `detect` (main.c:80) are left out. They are declarations without bodies, so there is no behaviour to model.
- The global buffers `input_image`, `output_image` and `binary_image` (main.c:88-92) are left out. The methods take the buffers as array parameters.
- Out-of-bounds coordinates are left out. The C functions do not check `x` and `y`, and an access outside the grid is undefined behaviour. The model requires `x < width` and `y < height`, and it requires at least three channels wherever channels 0-2 are read.
