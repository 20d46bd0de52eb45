# Grayscale PNG pipeline: integer pixel arithmetic

This project models the integer core of a small image-processing program
(`main.cpp`). The program turns PNG images into flat, row-major 8-bit
grayscale buffers of `w*h` samples. It blends two such buffers under a
per-pixel alpha buffer, cuts an image out with a 0/255 mask, and writes
buffers back out as 8-bit gray PNG files. The model covers these parts:

- `pixels.dfy` (`Pixels`): the sample type `byte` (0..255) and the C `int`
  range. It also has the `Result` type and `Flatten`, which lays `h` rows of
  `w` samples end to end into a row-major buffer, with the lemmas that
  locate sample `x` of row `y` at index `y*w + x`.
- `validator.dfy` (`Validator`): both overloads of `checkIfSizesEquals`,
  modelled by their return value.
- `patterns.dfy` (`Patterns`): `generate_uniform_alpha_mask`.
- `compositor.dfy` (`Compositor`): the `blend_gray8` loop, which rounds to
  nearest, and the mask-multiply loop of `apply_circle_mask_to_image`,
  which truncates.
- `decoder.dfy` (`Decoder`): the scanline-to-gray reduction of
  `read_png_gray8`. Its input is the channel count and the rows that libpng
  reports after it has expanded palettes, transparency chunks and small bit
  depths and stripped 16-bit samples to 8 bits. RGBA and gray+alpha use a
  binary alpha gate: alpha exactly 0 gives black, and any other alpha is
  ignored. RGB and opaque RGBA use the luma `(77r + 150g + 29b + 128) >> 8`.
  Gray is copied. Any other channel count is an error.
- `encoder.dfy` (`Encoder`): the framing done by `write_png_gray8`. It
  rejects bad dimensions and size mismatches before the file is opened. It
  writes the IHDR fields (width, height, bit depth 8, colour type 0,
  compression 0, filter 0, interlace 0, as in section 11.2.2 of the W3C PNG
  Specification, Second Edition). It then hands over row `y` as the slice
  `[y*w, y*w + w)`, top to bottom.

In the C++, `blend_gray8`, the mask multiply and the reader fill a
preallocated buffer index by index. The model does the same with a local
array, walks each scanline with a byte offset that advances by the channel
count, and returns the finished buffer as a sequence. Each method is proved
against a specification function (`Blended`, `Masked`, `ReduceImage`,
`Flatten`), and the properties the program relies on are proved about those
functions.

C++ `>> 8` on the non-negative luma sum is written as `/ 256`. Every
integer in these formulas is non-negative, so Dafny's division equals C's
truncating division.

An opaque pure-red RGBA pixel reduces to `(77*255 + 128) >> 8 = 77`
(`Decoder.RedPixel`).

The comment at main.cpp:129 says alpha 128 gives `out=(A+B)/2`. That holds
only up to rounding: with A = 0 and B = 255 the code gives 128, while C's
`(0+255)/2` is 127. `Compositor.BlendHalf` proves the form that does hold:
twice the result is within 1 of `A + B`.

## Model

| member | source | states |
|---|---|---|
| `Validator.CheckIfSizesEqual` | main.cpp:145-154 | returns 0 or 1, and 0 exactly when A, B and the alpha buffer all have A's width and height |
| `Validator.CheckIfSizesEqualPair` | main.cpp:157-165 | returns 0 or 1, and 0 exactly when A and B have the same width and height |
| `Validator.TripleIsTwoPairs` | main.cpp:145-165 | the three-buffer check passes iff the (A, B) and (A, Alpha) pair checks both pass |
| `Validator.PairChecksChain` | main.cpp:540-547 | once image 1 has passed the pair check against images 2 and 3, the pairs (2, 3) and (3, 1) that are blended next also match |
| `Patterns.UniformAlphaMask` | main.cpp:118-121 | a buffer of `w*h` weights, each 128 |
| `Compositor.BlendPixel` | main.cpp:136-139 | `((255-a)*A + a*B + 127)/255` is the integer nearest to the exact blend (within 127/255) and lies between A and B, so the cast to 8 bits never truncates |
| `Compositor.BlendEndpoints` | main.cpp:126-128 | alpha 0 gives exactly A, and alpha 255 gives exactly B |
| `Compositor.BlendHalf` | main.cpp:129 | with alpha 128, twice the result is within 1 of `A + B`, so the result is the 50/50 mix |
| `Compositor.BlendSwap` | main.cpp:126 | swapping A and B and inverting alpha gives the same blend |
| `Compositor.Blended` | main.cpp:134-139 | the output has `n` samples and each lies between the two input samples at that index |
| `Compositor.BlendGray8` | main.cpp:130-142 | the output is `w*h` long and sample `i` is the blend of `A[i]`, `B[i]` under `Alpha[i]` |
| `Compositor.BlendAllTransparent` | main.cpp:127 | an all-0 alpha buffer reproduces image A exactly |
| `Compositor.BlendAllOpaque` | main.cpp:128 | an all-255 alpha buffer reproduces image B exactly |
| `Compositor.BlendUniformHalf` | main.cpp:543-547 | under the uniform 128 mask, each output is the average of its two inputs rounded either way, and black over white gives 128 |
| `Compositor.MaskPixel` | main.cpp:379 | `(v*m)/255` never exceeds `v`, keeps `v` under mask 255, and gives 0 under mask 0 |
| `Compositor.Masked` | main.cpp:377-380 | the masked image has the image's length and is nowhere brighter than it |
| `Compositor.MultiplyByMask` | main.cpp:377-380 | the result is `w*h` long and sample `i` is `(img[i]*mask[i])/255` |
| `Compositor.CutOut` | main.cpp:362-380 | under a 0/255 mask, pixels where the mask is 255 keep their value exactly and all others become 0 |
| `Compositor.MaskIdempotent` | main.cpp:377-380 | applying a 0/255 mask twice gives the same image as applying it once |
| `Decoder.Luma` | main.cpp:247 | the luma lies between the smallest and the largest of r, g and b, so it fits in 8 bits |
| `Decoder.LumaOfGray` | main.cpp:247 | a gray triple `(v, v, v)` maps to `v`, so black stays 0 and white stays 255 |
| `Decoder.RgbaAlphaGate` | main.cpp:243-249 | an RGBA pixel with alpha 0 gives 0, and with any other alpha gives the same value as the RGB branch |
| `Decoder.RgbaPartialAlphaIgnored` | main.cpp:243-249 | two RGBA pixels with the same colour and nonzero alphas give the same sample |
| `Decoder.GrayAlphaGate` | main.cpp:265-267 | a gray+alpha pixel gives 0 when alpha is 0, and its unchanged gray byte otherwise |
| `Decoder.GrayExpansionInvariant` | main.cpp:238-273 | a gray value gives the same sample whether it arrives as gray, RGB, gray+alpha or RGBA |
| `Decoder.RedPixel` | main.cpp:241-249 | transparent red gives 0 and opaque red gives 77; gray 200 gives 0 with alpha 0 and 200 with alpha 1 |
| `Decoder.GrayRowCopied` | main.cpp:271-273 | a one-channel scanline is copied verbatim |
| `Decoder.GrayOf` | main.cpp:238-273 | one pixel's sample: a pixel whose alpha byte is 0 gives 0; any other gray or gray+alpha pixel keeps its gray byte; any other RGB or RGBA pixel gives a value between its smallest and largest colour byte |
| `Decoder.ReduceRow` | main.cpp:240-270 | a scanline of `w*channels` bytes gives `w` samples, one per pixel; each fully transparent pixel gives 0, and each other gray or gray+alpha pixel gives its gray byte |
| `Decoder.ReduceImage` | main.cpp:231-277 | the gray image of `h` scanlines has `w*h` samples |
| `Decoder.ReduceImageAt` | main.cpp:234-236 | row `y` of the gray image occupies `[y*w, y*w + w)`, and sample `x` of it is the reduction of pixel `x` of scanline `y` |
| `Decoder.GrayImageCopied` | main.cpp:271-273 | a one-channel image comes out as its scanlines laid end to end |
| `Decoder.ReduceRgbaRow` | main.cpp:238-252 | writes the reduction of an RGBA scanline into row `[base, base + w)` and changes nothing else |
| `Decoder.ReduceRgbRow` | main.cpp:253-261 | writes the luma of each RGB pixel into the row and changes nothing else |
| `Decoder.ReduceGrayAlphaRow` | main.cpp:262-270 | writes the alpha-gated gray of each pixel into the row and changes nothing else |
| `Decoder.CopyGrayRow` | main.cpp:271-273 | copies the gray scanline into the row and changes nothing else |
| `Decoder.ConvertRow` | main.cpp:236-276 | the new buffer is the old one with the reduced scanline written at `y*w` |
| `Decoder.ReadGray8` | main.cpp:231-277 | a channel count outside 1..4 is an error with no buffer; otherwise the result is the `w*h` image made of the reduced scanlines in order |
| `Pixels.FlattenSlices` | main.cpp:332-336 | `h` rows of `w` samples lay end to end into `img` iff row `y` is `img[y*w .. y*w + w)` |
| `Pixels.FlattenLength` | main.cpp:231 | `h` rows of `w` samples lay end to end into `w*h` samples |
| `Pixels.FlattenAt` | main.cpp:236 | sample `x` of row `y` lands at index `y*w + x` of the row-major buffer |
| `Encoder.WritePngGray8` | main.cpp:301-336 | fails with BadDims if `w <= 0` or `h <= 0`, then SizeMismatch if `|img| != w*h`, then OpenFailed, in that order; otherwise writes a valid 8-bit gray non-interlaced header and `h` rows of `w` bytes that lay end to end into `img` |
| `Encoder.WriteThenReadIsIdentity` | main.cpp:322-336 | reading back a written image gives one channel, and the reduction returns the original samples |

## Left out

- The floating-point pattern generators (`generate_circle` and the gradient and radial-alpha generators, main.cpp:13-113) are not modelled. Their outputs depend on IEEE `float` rounding of `sqrt`, `cos` and `round`.
- The circular mask construction (main.cpp:354-374) uses a float distance test. The mask enters `MultiplyByMask` as an input buffer, and `CutOut`/`MaskIdempotent` assume it holds only 0 and 255, which is what that test produces.
- All libpng work is not modelled: header parsing, palette and tRNS expansion, bit-depth expansion and 16-bit stripping (main.cpp:178-229), compression and chunk writing, and the `setjmp`/`png_error` paths. The reader starts from the channel count and the 8-bit rows libpng returns. The writer ends at the header and the rows it hands over.
- `WriteThenReadIsIdentity` assumes that libpng returns the rows it was given when it reads back a non-interlaced 8-bit gray file.
- The reader calls `png_read_row` once per row without enabling interlace handling. What libpng returns for interlaced input is not modelled.
- File I/O is not modelled (`fopen`, `fclose` and the `read_cb`/`write_cb`/`flush_cb` callbacks, main.cpp:167-172 and 289-299). For the writer, the only part kept is whether opening the output succeeds, the `sinkOpens` parameter.
- `ReadGray8` does not model the reader's failures before the row loop: the `fopen` failure it throws itself (main.cpp:175-176), the failed creation of the libpng read and info structures (main.cpp:178-181), and the short reads and decoding errors reported through `png_error` (main.cpp:169-171, 183-187).
- `ReadGray8` returns no buffer for an unsupported channel count. The C++ has by then already overwritten its `w` and `h` parameters (main.cpp:225-226) and zero-filled `img` to `w*h` samples (main.cpp:231) before `png_error` fires (main.cpp:275). No caller reads them after the exception.
- `ReadGray8` requires `w` and `h` to be at least 1, because libpng rejects an IHDR with a zero dimension. It requires each row to be `w * channels` bytes, which is the row size libpng reports for 8-bit samples.
- `BlendGray8` and `MultiplyByMask` require `w` and `h` each to be non-negative (so they exclude both negative, where the C++ product is positive and the loop runs; every caller passes positive sizes) and `w*h` to fit in a C `int`, the type of their loop counter. `BlendGray8` also requires each input to hold at least `w*h` samples, because the C++ reads them without a bounds check.
- `CheckIfSizesEqual` and `CheckIfSizesEqualPair` do not model the diagnostic text they print to `std::cerr`.
- Console logging, the `task1_*` and `task2_*` functions and `main` (main.cpp:343-351, 381-391, 394-566) only sequence the calls and are not modelled. Those callers ignore the value returned by `checkIfSizesEquals` (main.cpp:540-541 and elsewhere). The model only states what a passing check guarantees (`PairChecksChain`).
