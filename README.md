# ImageCraft core in Dafny

ImageCraft is a command-line tool. It loads a 24-bit uncompressed BMP image, runs a chain of filters named on the command line, and saves the result as a BMP file. A typical call is `image_craft in.bmp out.bmp -crop 800 600 -gs -blur 0.5`.

This project models the parts of the tool that are built on indices, bounds, ordering and byte layout:

- the pixel buffer;
- the BMP codec;
- the filters: crop, grayscale, negative, sharpen, edge detection, median, Gaussian blur, crystallize, glass distortion and mosaic;
- the filter pipeline;
- the command-line parser;
- the string helpers.

The project has one module per source file:

| module | source | form |
|---|---|---|
| `Colors` | image.h | pure functions on `Color` and `BMPixel` |
| `Images` | image.c | the value `Raster(width, height, pixels)` and the class `Image`, whose `data` array the methods update in place |
| `BmpLayout` | bmp.h | the packed 14- and 40-byte headers as little-endian fields; the row stride |
| `Bmp` | bmp.c | `Decode`/`Encode` over the file's bytes, plus the row-by-row methods `Load` and `Save` proved equal to them |
| `Filters`, `Convolution`, `Median`, `Blur` | filters.c | each filter as a method on `Image`, proved equal to a function on `Raster` |
| `Externals`, `Grid`, `ExtraFilters` | extra_filters.c | the same, for crystallize and glass distortion |
| `Mosaic` | bonus_mosaic.c | the same, for the mosaic |
| `Pipeline` | pipeline.c | the class `FilterPipeline`, name lookup, validation and ordered application |
| `Cli` | main.c | `parse_arguments` and `has_bmp_extension` |
| `Utils` | utils.c | in-place string helpers over `array<char>`, plus `clamp_float` and `lerp` |

Each filter is modelled the same way:

- A function on `Raster` states the result. It returns `None` exactly when the C filter returns false.
- A method on `Image` does the work with the source's loops. Its `ensures` says that the new buffer is that function of the old one, and that a failing call leaves the image as it was.

Colour channels are `real`, where the C code uses `float`. A property that holds only without rounding is stated for the real model, and is an idealisation of the C code. Examples are the round trips through 8-bit quantisation, the negative applied twice, and a normalised kernel leaving a flat image unchanged.

The calls whose values the model does not compute are fields of `Externals.Env`:

- `exp` for the blur weights (`gauss`);
- the `sinf` hash of `random_in_range` (`frac`);
- the `sinf`/`cosf` glass displacement (`wave`);
- the crystallize `rand()` draws (`draws`);
- reading the mosaic tile atlas from disk (`files`).

`Externals.Sound` states the only facts the filters rely on: `exp` is positive, a fractional part lies in [0, 1), and a product of a sine and a cosine lies in [-1, 1]. `atoi` and `atof` are the two fields of `Pipeline.Parsers`.

Behaviour worth noting:

- **Mosaic tile size.** A mosaic tile size above 100 only prints a warning; the filter still runs (bonus_mosaic.c:239-242).
- **Saving truncates.** Saving truncates `c * 255` to a byte (the `uint8_t` cast in `color_to_bmpixel`, image.h:55-57); it does not round.
- **Edge threshold.** Pipeline validation accepts any edge threshold of at least 0 (pipeline.c:358). `filter_edge_detection` rejects a threshold above 1 (filters.c:202). So a validated `-edge 2` step still fails when it is applied: `Pipeline.ValidatedStep` states this.

## Model

| member | source | states |
|---|---|---|
| Colors.ClampChannel | image.h:41-49 | the result lies in [0,1], equals v when v is already in [0,1], and is 0 below the range and 1 above it |
| Colors.Clamp | image.h:41-49 | every channel of the result is in [0,1]; an in-range channel is kept; the colour is unchanged exactly when it is already in range |
| Colors.ClampIdempotent | image.h:41-49 | clamping a clamped colour changes nothing |
| Colors.Quantize | image.h:52-59 | the byte k is the truncation of v*255: k <= 255v < k+1 |
| Colors.ToBMPixel | image.h:52-59 | each output byte is the truncation of 255 times the clamped channel |
| Colors.Dequantize | image.h:62-68 | byte k becomes the channel k/255, which lies in [0,1] |
| Colors.FromBMPixel | image.h:62-68 | every channel is in [0,1] and is byte/255 |
| Colors.PixelRoundTrip | image.h:52-68 | converting a byte triple to a colour and back gives the same triple (no rounding) |
| Colors.QuantizeDequantize | image.h:52-68 | dequantising and then quantising a byte gives the byte back |
| Colors.QuantizedRoundTrip | image.h:52-68 | a colour whose channels are all k/255 survives conversion to bytes and back unchanged |
| Colors.WeightedPlus | image.h:71-78 | `color_add` of two `color_mul`s of one colour is `color_mul` by the sum of the weights |
| Colors.LerpEndpoints | image.h:81-87 | `color_lerp(a,b,0) == a` and `color_lerp(a,b,1) == b`; for in-range ends and t in [0,1] the result is in range |
| Colors.ChannelBetween | image.h:81-87 | one interpolated channel between two channels in [0,1] stays in [0,1] |
| Images.IndexOf | image.c:88 | pixel (x,y) is element y*w+x, inside the w*h buffer, and the index maps back to (x,y) |
| Images.Raster.CoordValid | image.c:121-123 | the coordinate is valid exactly when `image_get_pixel` finds a pixel there |
| Images.Raster.Get | image.c:77-90 | nothing for x or y outside the image (negative included); otherwise the element at index y*w+x |
| Images.Raster.Set | image.c:99-104 | the dimensions are kept and a buffer whose pixels are all in [0,1] stays so |
| Images.GetAfterSet | image.c:99-104 | after a set, reading the written in-range coordinate gives the clamped colour; every other read, and every read after an out-of-range set, is unchanged |
| Images.Filled | image.c:108-117 | a buffer of w*h copies of one colour |
| Images.FilledAt | image.c:108-117 | every pixel of a filled buffer is the fill colour, and a fill with an in-range colour is valid |
| Images.Clip | image.c:154-162 | the sub-image extent is min(requested, dim - origin) |
| Images.Sub | image.c:137-181 | no sub-image exactly when the origin is outside the source or a requested size is 0; otherwise a valid image of the clipped size |
| Images.SubAt | image.c:171-178 | sub-image pixel (col,row) is source pixel (x+col, y+row) |
| Images.SubFromPixels | image.c:171-178 | a buffer that agrees with the source pixel for pixel over the clipped rectangle is the sub-image |
| Images.RasterIndex | image.c:83-89 | the pixel at (x,y) is the buffer element y*w+x |
| Images.TabulateAt | image.c:88 | the image built pixel by pixel from f has f(x,y) at (x,y) |
| Images.SameRaster | image.c:88 | two images with equal dimensions and equal pixels at every coordinate are equal |
| Images.AtInRange | image.c:99-104 | every pixel of a valid image has its channels in [0,1] |
| Images.NewImage | image.c:8-41 | no image exactly when a dimension is 0; otherwise fresh storage of w*h black pixels |
| Images.Image.constructor | image.c:27-38 | a valid w*h image, all pixels black |
| Images.Image.SetPixel | image.c:99-104 | the new buffer is the old one with the clamped colour at (x,y), or the old one when (x,y) is out of range |
| Images.Image.Fill | image.c:108-117 | every pixel becomes the clamped fill colour |
| Images.Image.Copy | image.c:56-73 | fresh storage with the same dimensions and identical pixels |
| Images.Image.CreateSubimage | image.c:137-181 | null exactly when `Sub` fails; otherwise fresh storage holding `Sub` of the source |
| Images.Image.CopySubRows | image.c:171-178 | after the row loop every element of the sub-image is the clamped source pixel it copies |
| Images.Image.CopySubRow | image.c:172-177 | one more row of the sub-image is copied and the earlier rows are kept |
| BmpLayout.LE16RoundTrip | bmp.h:15-36 | reading a 16-bit little-endian field back gives the value, and re-encoding two bytes gives them back |
| BmpLayout.LE32RoundTrip | bmp.h:15-36 | the same for 32-bit fields |
| BmpLayout.LE32Decodes | bmp.h:15-36 | a 32-bit value written little-endian reads back as itself |
| BmpLayout.SignedBits | bmp.h:27-28 | a signed 32-bit field stored as its two's-complement bits reads back as the same value |
| BmpLayout.SignedField | bmp.h:27-28 | re-encoding a signed field read from four bytes gives the same four bytes |
| BmpLayout.LE16At | bmp.h:15-36 | a 16-bit field found in a byte string reads back as its value |
| BmpLayout.LE32At | bmp.h:15-36 | a 32-bit field found in a byte string reads back as its value |
| BmpLayout.EncodeFileHeader | bmp.h:15-21 | the packed file header is 14 bytes |
| BmpLayout.EncodeInfoHeader | bmp.h:24-36 | the packed info header is 40 bytes |
| BmpLayout.FileHeaderRoundTrip | bmp.h:15-21 | the 14-byte file header decodes back to the same record, and every 14 bytes re-encode to themselves |
| BmpLayout.InfoHeaderRoundTrip | bmp.h:24-36 | the 40-byte info header round-trips in both directions |
| BmpLayout.InfoHeaderDecodesEncoded | bmp.h:24-36 | decoding an encoded info header gives the record back |
| BmpLayout.InfoHeaderEncodesDecoded | bmp.h:24-36 | any 40 bytes decode to a record that re-encodes to those bytes |
| BmpLayout.RowStride | bmp.h:55-58 | the exact stride is the row's 3w bytes plus the 0 to 3 padding bytes that bring it to a multiple of 4 |
| BmpLayout.StrideBounds | bmp.h:55-58 | the stride is a multiple of 4 between 3w and 3w+3 |
| BmpLayout.StrideMinimal | bmp.h:56-57 | every multiple of 4 that is at least 3w is at least the stride, so the stride is the smallest such multiple |
| BmpLayout.StrideU32 | bmp.h:55-58 | the 32-bit stride is a multiple of 4, and it holds a row of 3w bytes exactly when 3w+3 does not wrap past 2^32 |
| BmpLayout.StrideU32Agrees | bmp.h:55-58 | the 32-bit computation equals the exact stride while 3w+3 fits in 32 bits |
| BmpLayout.StrideU32Wraps | bmp.h:57 | width 1431655765 (below 2^31) gives a 32-bit stride of 0, smaller than 3w |
| Bmp.LayoutOf | bmp.c:46-80 | a layout accepted from the headers has positive dimensions, a width below 2^31 and the exact row stride |
| Bmp.ReadHeaders | bmp.c:33-80 | a layout read from a file has the geometry and stride the pixel loop relies on |
| Bmp.FileRow | bmp.c:80-121 | file row fy lands in image row fy when the file is top-down, else in row height-1-fy |
| Bmp.Pixels | bmp.c:111-137 | the decoded buffer has width*height pixels |
| Bmp.Decode | bmp.c:17-144 | a successfully decoded image is valid |
| Bmp.DecodeRowOrder | bmp.c:121-135 | image pixel (x, row of fy) is bytes 3x, 3x+1, 3x+2 of file row fy, read as B,G,R and divided by 255 |
| Bmp.PixelsAt | bmp.c:124-136 | the decoded pixel at (x,y) is read from file row FileRow(y) |
| Bmp.DecodeErrors | bmp.c:33-118 | short header, bad signature, bit count not 24, compression not 0, width <= 0 or height 0 each give their error, in that order; otherwise decoding succeeds exactly when offset + abs(height)*stride bytes are present, with width biWidth and abs(height) rows |
| Bmp.DecodeShort | bmp.c:111-118 | a row that ends past the end of the file makes loading fail |
| Bmp.SaveHeaders | bmp.c:164-190 | the saved header is 54 bytes |
| Bmp.HeaderFields | bmp.c:164-190 | the saved headers hold "BM", bfSize 54+stride*height (mod 2^32), bfOffBits 54, size 40, +width, +height, 1 plane, 24 bits, no compression and biSizeImage stride*height |
| Bmp.ReadSavedHeaders | bmp.c:164-190 | the loader reads the saved headers as a bottom-up layout at offset 54 with the exact stride |
| Bmp.RowBytes | bmp.c:209-233 | the pixel data is exactly stride bytes per row |
| Bmp.Encode | bmp.c:148-246 | the saved file is 54 + stride*height bytes long |
| Bmp.EncodeAt | bmp.c:209-233 | byte k of file row fy is B, G or R of image pixel (k/3, height-1-fy), for k < 3w, and 0 in the padding |
| Bmp.EncodedPixel | bmp.c:214-229 | the three bytes of pixel x in file row fy are B, G, R of image row height-1-fy |
| Bmp.DecodeEncode | bmp.c:121-233 | loading a saved image whose channels are all k/255 gives the same image (exact arithmetic) |
| Bmp.DecodeRows | bmp.c:121-233 | the decoder reads back every pixel the encoder wrote |
| Bmp.Load | bmp.c:17-144 | null exactly when `Decode` fails; otherwise fresh storage holding the decoded image |
| Bmp.LoadedAll | bmp.c:111-137 | once every row is read the buffer is the decoded pixels |
| Bmp.LoadRow | bmp.c:111-137 | one more file row is stored into its image row, and earlier rows are kept |
| Bmp.LoadPixel | bmp.c:124-136 | one more pixel of the row is stored, the earlier ones kept |
| Bmp.RowBufferPixel | bmp.c:125-133 | the row buffer's bytes 3x..3x+2 give the pixel the decoder places at (x, image row) |
| Bmp.Save | bmp.c:148-246 | the emitted bytes are `Encode` of the image |
| Bmp.SaveRows | bmp.c:212-239 | the rows emitted bottom to top are exactly the encoded pixel data |
| Bmp.RowsArePrefix | bmp.c:212-239 | the first n emitted rows are the first n*stride bytes of the pixel data |
| Bmp.RowBytesRow | bmp.c:212-239 | emitting one more row extends the prefix by exactly that row |
| Bmp.SaveRow | bmp.c:217-230 | the row buffer holds B,G,R of each pixel of the image row, and its padding stays 0 |
| Bmp.RowFromPixels | bmp.c:217-230 | a buffer holding every pixel's bytes and zero padding is the encoded row |
| Bmp.PutPixel | bmp.c:227-229 | bytes i, i+1, i+2 become B, G, R and no other byte changes |
| Filters.ClampIndex | filters.c:20-23 | the index is clamped into [0, n-1]: kept in range, 0 below, n-1 above |
| Filters.Border | filters.c:10-31 | an in-range coordinate reads the stored pixel |
| Filters.BorderClamps | filters.c:20-27 | outside the image each coordinate is clamped independently to the nearest edge pixel |
| Filters.BorderInRange | filters.c:10-31 | a border read from a valid image is in range |
| Filters.Mapped | filters.c:103-121 | the dimensions are kept and every pixel is the map of the old one |
| Filters.MappedAt | filters.c:103-121 | pixel (x,y) of the result is the map of pixel (x,y) |
| Filters.MappedValid | filters.c:103-121 | a map that keeps colours in range keeps the image valid |
| Filters.MapPixels | filters.c:107-123 | the nested loop leaves every pixel mapped |
| Filters.MapRow | filters.c:108-122 | one more row is mapped and the earlier rows kept |
| Filters.Gray | filters.c:111-119 | the three channels are equal, in range for in-range input, and a gray colour is unchanged |
| Filters.GrayIdempotent | filters.c:92-127 | grayscale applied twice is grayscale applied once |
| Filters.Negate | filters.c:140-150 | each channel becomes 1-c, and the result is in range exactly when the input is |
| Filters.NegateTwice | filters.c:131-154 | the negative applied twice restores the image (exact arithmetic) |
| Filters.Grayscale | filters.c:92-127 | succeeds, keeps the dimensions and sets r=g=b=0.299R+0.587G+0.114B per pixel |
| Filters.Negative | filters.c:131-154 | succeeds and maps every channel c to 1-c |
| Filters.CropTo | filters.c:44-88 | fails exactly for a 0 width or height; otherwise dimensions min(requested, original), and the image itself when nothing shrinks |
| Filters.CropAt | filters.c:69-81 | every kept pixel (x,y) keeps its old value |
| Filters.CropNegateCommute | filters.c:44-154 | cropping the negative is the negative of the crop |
| Filters.Crop | filters.c:44-88 | succeeds exactly when `CropTo` does and leaves its image; a failure leaves the image unchanged |
| Convolution.LineSumFlat | filters.c:423-454 | over a flat image a weighted line sum is the colour times the sum of the weights |
| Convolution.LineAccumulate | filters.c:423-433 | the accumulator loop adds the weighted line sum |
| Convolution.KernelRow | filters.c:493-510 | a kernel row has size entries |
| Convolution.ConvPixel | filters.c:493-513 | each output pixel is the clamp of the kernel-weighted border-replicated sum, so it is in range |
| Convolution.Convolved | filters.c:471-518 | the result is valid and has the input's dimensions |
| Convolution.Convolve | filters.c:472-475 | fails exactly for an even kernel size; otherwise a valid image of the same size |
| Convolution.ConvolvedAt | filters.c:488-515 | pixel (x,y) of the result is the convolution at (x,y) |
| Convolution.KernelSumFlat | filters.c:493-510 | over a flat image the kernel sum is the colour times the kernel total |
| Convolution.ConvolveFlat | filters.c:471-518 | a kernel summing to 1 leaves a flat in-range image unchanged (exact arithmetic) |
| Convolution.ApplyConvolution | filters.c:471-518 | null exactly for an even size; otherwise fresh storage holding `Convolve` of the input |
| Convolution.ConvRows | filters.c:488-515 | the row loop fills every pixel with its convolution |
| Convolution.ConvRow | filters.c:489-514 | one more row is filled, the earlier rows kept |
| Convolution.ConvStep | filters.c:490-513 | one more pixel is filled, the earlier ones kept |
| Convolution.ConvAt | filters.c:493-510 | the inner two loops compute the kernel-weighted sum at (x,y) |
| Convolution.KernelTotals | filters.c:168-225 | the sharpen kernel sums to 1 and the Laplacian sums to 0 |
| Convolution.Sharpen | filters.c:158-191 | succeeds and replaces the image by its convolution with the sharpen kernel |
| Convolution.SharpenFlat | filters.c:158-191 | sharpening a flat in-range image changes nothing (exact arithmetic) |
| Convolution.Threshold | filters.c:248-252 | every pixel becomes white or black, white exactly when the red channel is strictly greater than the threshold |
| Convolution.Edges | filters.c:195-268 | fails exactly for a threshold outside [0,1]; otherwise a valid image of the same size |
| Convolution.EdgesAt | filters.c:208-254 | each output pixel is pure white or pure black, white exactly when the Laplacian of the grayscale image there exceeds the threshold |
| Convolution.EdgesFlat | filters.c:195-268 | a flat image has no edges: every pixel becomes black |
| Convolution.EdgeDetection | filters.c:195-268 | succeeds exactly when `Edges` does and leaves its image; a failure leaves the image unchanged |
| Median.Insert | filters.c:338-340 | inserting into a sorted list keeps it sorted and adds exactly the new value |
| Median.SortReals | filters.c:338-340 | the sorted samples are an ordered permutation of the samples |
| Median.SortedUnique | filters.c:338-340 | two sorted permutations of the same samples are equal, so any sort gives the same median |
| Median.MedianOf | filters.c:343-348 | the median is one of the samples |
| Median.MedianOfConstant | filters.c:343-348 | the median of equal samples is that sample |
| Median.MedianBetween | filters.c:343-348 | the median lies within any bounds of the samples |
| Median.Samples | filters.c:322-335 | the window holds window*window samples |
| Median.SampleAt | filters.c:322-335 | sample row*window+col is the border-replicated pixel at offset (col - window/2, row - window/2) |
| Median.Reds | filters.c:329-331 | the red channels of the samples, in order |
| Median.Greens | filters.c:329-331 | the green channels of the samples, in order |
| Median.Blues | filters.c:329-331 | the blue channels of the samples, in order |
| Median.Medianed | filters.c:299-353 | the result is valid and has the input's dimensions |
| Median.MedianFiltered | filters.c:279-287 | fails exactly for window <= 0 or an even window |
| Median.MedianedAt | filters.c:343-350 | pixel (x,y) is the per-channel median of the window around (x,y) in the pre-filter copy |
| Median.MedianPixelConstant | filters.c:343-348 | a window of one colour has that colour as its median |
| Median.MedianOfOne | filters.c:284-287 | window 1 leaves the image unchanged |
| Median.MedianInRange | filters.c:343-348 | the median of a valid image's window is in range |
| Median.MedianFlat | filters.c:272-363 | the median of a flat image is the image |
| Median.MedianFilter | filters.c:272-363 | succeeds exactly when `MedianFiltered` does and leaves its image; a failure leaves the image unchanged |
| Median.MedianRows | filters.c:317-353 | the row loop stores every pixel's median |
| Median.MedianRow | filters.c:318-352 | one more row is stored, the earlier rows kept |
| Median.MedianStep | filters.c:319-351 | one more pixel is stored, the earlier ones kept |
| Median.Collect | filters.c:322-335 | the three sample arrays hold the window's red, green and blue channels |
| Median.CollectRow | filters.c:323-334 | one more window row of samples is collected |
| Blur.Radius | filters.c:380-381 | the radius is ceil(3 sigma): 3 sigma <= k < 3 sigma + 1 |
| Blur.Weights | filters.c:395-400 | the kernel has 2*radius+1 weights |
| Blur.SumDivided | filters.c:403-405 | dividing every weight by s divides their sum by s |
| Blur.SumPositive | filters.c:395-400 | positive weights have a positive sum, so the normalisation never divides by 0 |
| Blur.GaussKernel | filters.c:380-405 | the kernel has 2*ceil(3 sigma)+1 positive weights summing to 1 |
| Blur.BuildKernel | filters.c:380-405 | the kernel array holds `GaussKernel` |
| Blur.RawWeights | filters.c:395-400 | the loop stores each weight and returns their sum |
| Blur.Normalise | filters.c:403-405 | every weight is divided by the sum |
| Blur.Pass | filters.c:419-458 | one pass gives a valid image of the input's size |
| Blur.PassAt | filters.c:423-436 | each pass pixel is the clamp of the weighted border-replicated line sum |
| Blur.Blurred | filters.c:419-458 | two passes give a valid image of the input's size |
| Blur.GaussianBlurred | filters.c:374-377 | fails exactly for sigma <= 0; otherwise a valid image of the same size |
| Blur.LineSumBounds | filters.c:423-433 | with non-negative weights each channel of the line sum is between 0 and the weight total |
| Blur.PassExact | filters.c:423-436 | with a normalised kernel the clamp in a pass changes nothing |
| Blur.PassFlat | filters.c:419-458 | a normalised pass leaves a flat image unchanged |
| Blur.BlurFlat | filters.c:367-467 | blurring a flat image changes nothing (exact arithmetic) |
| Blur.BlurExact | filters.c:440-458 | the vertical pass reads only the buffer the horizontal pass produced |
| Blur.GaussianBlur | filters.c:367-467 | succeeds exactly for sigma > 0 and leaves `GaussianBlurred`; a failure leaves the image unchanged |
| Blur.PassRows | filters.c:419-458 | the row loop produces the whole pass |
| Blur.PassRow | filters.c:420-436 | one more row of the pass is produced, the earlier rows kept |
| Blur.PassStep | filters.c:421-435 | one more pixel of the pass is produced, the earlier ones kept |
| Externals.RandomInRange | extra_filters.c:12-18 | the value lies in [min, max), and is min when min = max |
| Externals.FractionScales | extra_filters.c:16-17 | a fraction in [0,1) times a non-negative span stays in [0, span) |
| Grid.CellStart | extra_filters.c:105-116 | every coordinate lies in exactly the cell starting at the multiple of the cell size below it |
| Grid.CellUnique | extra_filters.c:105-116 | the cell that contains v is the one starting at q*cs |
| Grid.CellEnd | extra_filters.c:108-112 | a cell ends at start+cs, clipped to the image |
| Grid.WrittenSame | bonus_mosaic.c:277-346 | the cells already written keep their pixels when the cursor moves to the next cell or row |
| Grid.WrittenStep | extra_filters.c:133-154 | writing the target pixel at the cursor extends the written region by one pixel |
| ExtraFilters.ClampCoord | extra_filters.c:27-30 | the sample coordinate is clamped into [0, n-1] |
| ExtraFilters.Corner | extra_filters.c:33-40 | the integer corner and the fraction add up to the coordinate; the fraction is 0 at the last row or column |
| ExtraFilters.Neighbour | extra_filters.c:43-52 | an out-of-range neighbour reads black |
| ExtraFilters.Bilinear | extra_filters.c:21-71 | the result is clamped, so in range |
| ExtraFilters.BilinearAtPixel | extra_filters.c:33-68 | at an integer in-range coordinate the result is that pixel |
| ExtraFilters.BilinearLastColumn | extra_filters.c:43-68 | at the last column the missing right neighbours get weight 0 |
| ExtraFilters.BilinearLastRow | extra_filters.c:43-68 | at the last row the missing lower neighbours get weight 0 |
| ExtraFilters.SamplePoint | extra_filters.c:115-116 | each crystallize sample point lies inside its clipped cell |
| ExtraFilters.CellColor | extra_filters.c:115-130 | the cell colour is clamped after the hue shift, so in range |
| ExtraFilters.CrystalPixel | extra_filters.c:133-152 | every output pixel is in range |
| ExtraFilters.Crystallized | extra_filters.c:75-163 | the result is valid and has the input's dimensions |
| ExtraFilters.CrystallizedAt | extra_filters.c:105-155 | pixel (x,y) is given by the rule of the cell that contains it |
| ExtraFilters.Crystal | extra_filters.c:82-89 | fails exactly for a cell size below 2; sizes above 100 still run |
| ExtraFilters.CrystalInterior | extra_filters.c:150-151 | an interior pixel becomes the cell colour |
| ExtraFilters.CrystalEdge | extra_filters.c:136-148 | a pixel on a cell's first or last row or column becomes the mean of the original, read from the copy, and the cell colour |
| ExtraFilters.Crystallize | extra_filters.c:75-163 | succeeds exactly for a cell size of at least 2 and leaves `Crystal`; a failure leaves the image unchanged |
| ExtraFilters.CellRow | extra_filters.c:106-155 | one more row of cells is written |
| ExtraFilters.Cell | extra_filters.c:107-154 | one more cell is written |
| ExtraFilters.PickColor | extra_filters.c:115-130 | the colour picked for the cell is `CellColor` |
| ExtraFilters.CellLine | extra_filters.c:133-153 | one more line of the cell is written |
| ExtraFilters.CellPixel | extra_filters.c:134-152 | one more pixel of the cell is written |
| ExtraFilters.GlassCoord | extra_filters.c:221-224 | the sample coordinate is clamped into the image |
| ExtraFilters.Displace | extra_filters.c:203-214 | the wave term plus the noise term moves a coordinate by at most 1.3 times the amplitude |
| ExtraFilters.Shift | extra_filters.c:203-214 | both displacements are bounded by 1.3 times the amplitude |
| ExtraFilters.SourcePoint | extra_filters.c:203-224 | the sample point always lies inside the image |
| ExtraFilters.GlassPixel | extra_filters.c:227-230 | each output pixel is a bilinear sample of the copy, so in range |
| ExtraFilters.Glassed | extra_filters.c:198-232 | the result is valid and has the input's dimensions |
| ExtraFilters.GlassedAt | extra_filters.c:198-232 | pixel (x,y) is the sample at its displaced point in the pre-distortion copy |
| ExtraFilters.Distorted | extra_filters.c:174-181 | fails exactly for scale <= 0 |
| ExtraFilters.GlassStill | extra_filters.c:203-230 | a pixel whose displacement is zero keeps its colour |
| ExtraFilters.GlassDistortion | extra_filters.c:167-238 | succeeds exactly for scale > 0 and leaves `Distorted`; a failure leaves the image unchanged |
| ExtraFilters.GlassRows | extra_filters.c:198-232 | the row loop writes every pixel |
| ExtraFilters.GlassRow | extra_filters.c:199-231 | one more row is written, the earlier rows kept |
| ExtraFilters.GlassStep | extra_filters.c:200-230 | one more pixel is written, the earlier ones kept |
| Mosaic.Average | bonus_mosaic.c:16-23 | black for a zero-size region or a start outside the image |
| Mosaic.RowSumBounds | bonus_mosaic.c:44-51 | each channel of a row sum of a valid image is between 0 and the pixel count |
| Mosaic.RegionSumBounds | bonus_mosaic.c:43-57 | each channel of the clipped region's sum is between 0 and its pixel count |
| Mosaic.AverageInRange | bonus_mosaic.c:11-60 | the average of a valid image is in range |
| Mosaic.RowSumFlat | bonus_mosaic.c:44-51 | over one colour a row sum is that colour times the count |
| Mosaic.RegionSumFlat | bonus_mosaic.c:43-57 | over one colour the region sum is that colour times the count |
| Mosaic.OverWeighted | bonus_mosaic.c:53-57 | dividing n copies of a colour by n gives the colour |
| Mosaic.AverageFlat | bonus_mosaic.c:26-57 | the mean over the clipped rectangle of one colour is that colour |
| Mosaic.SumRow | bonus_mosaic.c:44-51 | the inner loop adds the row sum |
| Mosaic.ComputeAverageColor | bonus_mosaic.c:11-60 | the loops compute `Average` |
| Mosaic.Distance2 | bonus_mosaic.c:62-69 | the squared distance is non-negative; its properties are in DistanceZero and FirstMinMonotone |
| Mosaic.DistanceSelf | bonus_mosaic.c:62-69 | a colour is at distance 0 from itself |
| Mosaic.DistanceZero | bonus_mosaic.c:62-69 | the distance is symmetric, and it is 0 exactly between equal colours |
| Mosaic.FirstMin | bonus_mosaic.c:196-224 | 0 for an empty list; otherwise an index of a minimum with every earlier entry strictly larger |
| Mosaic.FirstMinUnique | bonus_mosaic.c:203-221 | the lowest index of a minimum is the only index with those two properties |
| Mosaic.FirstMinNext | bonus_mosaic.c:215-220 | one more entry replaces the best index only when strictly closer |
| Mosaic.FirstMinMonotone | bonus_mosaic.c:196-224 | two distance lists ordered alike, as a list and its `sqrtf` images are, have their first minimum at the same index |
| Mosaic.Distances | bonus_mosaic.c:203-221 | one distance per tile |
| Mosaic.BestTile | bonus_mosaic.c:196-224 | 0 for an empty set; otherwise a valid tile index |
| Mosaic.BestTileExact | bonus_mosaic.c:196-224 | a tile whose average is the target is at distance 0, and the chosen index is no later than it |
| Mosaic.FindBestTile | bonus_mosaic.c:196-224 | the loop with its strict `<` returns `BestTile` |
| Mosaic.Atlas | bonus_mosaic.c:82-87 | a loaded atlas is a valid image |
| Mosaic.Tile | bonus_mosaic.c:132-166 | a tile is a valid ts x ts image |
| Mosaic.TileAt | bonus_mosaic.c:152-161 | tile pixel (x,y) is the clamped atlas pixel at (ox+x, oy+y) |
| Mosaic.GridFits | bonus_mosaic.c:98-106 | every tile of a divisible atlas lies inside it |
| Mosaic.TileNumber | bonus_mosaic.c:132-166 | tile i is a valid ts x ts image |
| Mosaic.Slice | bonus_mosaic.c:98-166 | (w/ts)*(h/ts) tiles, at least one, each a valid ts x ts image |
| Mosaic.TilePixel | bonus_mosaic.c:132-166 | pixel (x,y) of tile ty*tiles_x+tx is atlas pixel (tx*ts+x, ty*ts+y) |
| Mosaic.TileSetOf | bonus_mosaic.c:72-175 | no tile set exactly for tile_size <= 0, a missing atlas or dimensions not divisible by the tile size; otherwise non-empty tiles of that size |
| Mosaic.LoadTileSet | bonus_mosaic.c:72-175 | the loader returns `TileSetOf` |
| Mosaic.SliceAtlas | bonus_mosaic.c:132-166 | the tile loops produce `Slice` of the atlas in row-major order |
| Mosaic.SliceRow | bonus_mosaic.c:133-165 | one more row of tiles is appended |
| Mosaic.CutTile | bonus_mosaic.c:134-164 | the tile cut at (tx,ty) is tile ty*tiles_x+tx of `Slice` |
| Mosaic.CopyTile | bonus_mosaic.c:152-161 | the copied tile is `Tile` of the atlas at its origin |
| Mosaic.CopyTileRow | bonus_mosaic.c:153-160 | one more row of the tile is copied |
| Mosaic.Mosaicked | bonus_mosaic.c:272-346 | the result is valid and has the input's dimensions |
| Mosaic.MosaickedAt | bonus_mosaic.c:277-346 | pixel (x,y) is given by the rule of its grid cell |
| Mosaic.CellPixel | bonus_mosaic.c:307-338 | a pixel of cell (q,p) is 0.7 times the best tile's pixel (x mod ts, y mod ts) plus 0.3 times the original, using the cell's average of the unmodified input |
| Mosaic.PixelTarget | bonus_mosaic.c:323-332 | the pixel written at (cx+x, cy+y) is the clamped 70/30 blend of the best tile and the original |
| Mosaic.CeilCells | bonus_mosaic.c:272-273 | the ceil-division grid covers every pixel and has no cell entirely outside the image |
| Mosaic.MosaicOf | bonus_mosaic.c:228-364 | fails exactly when the tile set cannot be built; otherwise a valid image of the same size |
| Mosaic.FilterMosaic | bonus_mosaic.c:228-364 | succeeds exactly when `MosaicOf` does and leaves its image; a failure leaves the image unchanged |
| Mosaic.MosaicRows | bonus_mosaic.c:277-346 | the cell loops write the whole mosaic into the result buffer, which then replaces the image |
| Mosaic.MosaicRow | bonus_mosaic.c:277-345 | one more row of cells is written |
| Mosaic.MosaicCell | bonus_mosaic.c:278-344 | one more cell is written |
| Mosaic.MosaicLine | bonus_mosaic.c:307-338 | one more line of the cell is written |
| Mosaic.MosaicStep | bonus_mosaic.c:323-332 | one more pixel of the cell is written |
| Pipeline.U32 | pipeline.c:163-165 | `atoi`'s int converted to `uint32_t` is below 2^32 and unchanged when non-negative |
| Pipeline.TypeNamesDistinct | pipeline.c:286-300 | distinct kinds have distinct display names, and no known kind is "Unknown" |
| Pipeline.NameOf | pipeline.c:320-331 | each known kind has a non-empty name of at most 11 characters that does not start with '-' |
| Pipeline.Position | pipeline.c:320-331 | each known kind has a place in the comparison chain |
| Pipeline.NamesDistinct | pipeline.c:320-331 | distinct kinds have distinct command names |
| Pipeline.LookupInverse | pipeline.c:320-331 | the comparison chain only returns a kind whose name is the string |
| Pipeline.LookupFinds | pipeline.c:320-331 | the chain returns a kind whose name matches |
| Pipeline.Truncated | pipeline.c:306-308 | the name is cut to its first 31 characters |
| Pipeline.NameRoundTrip | pipeline.c:302-332 | looking up a kind's name, with or without one leading '-', gives the kind |
| Pipeline.KindOfName | pipeline.c:302-332 | looking up a kind's name gives the kind |
| Pipeline.NameIsLower | pipeline.c:310-312 | every command name is already lower case |
| Pipeline.KindOf | pipeline.c:302-332 | a name maps to a known kind exactly when, cut to 31 characters, lower-cased and stripped of one leading dash, it is one of the ten names; the kind is the one with that name |
| Pipeline.NamedKnown | pipeline.c:320-331 | the `strcmp` chain answers a kind exactly for the ten names, and that kind is the one whose name it was given |
| Pipeline.NamedInverse | pipeline.c:320-331 | a string mapped to a kind is exactly that kind's name |
| Pipeline.NamedNameOf | pipeline.c:320-331 | a kind's name maps to the kind |
| Pipeline.KindOfIgnoresCase | pipeline.c:310-312 | the lookup ignores case |
| Pipeline.LongNamesUnknown | pipeline.c:306-331 | a name longer than 12 characters is unknown |
| Pipeline.NameToType | pipeline.c:302-332 | copying, truncating, lower-casing and stripping one '-' in a buffer yields `KindOf` |
| Pipeline.Validate | pipeline.c:336-406 | an unknown kind never validates; grayscale, negative and sharpen validate exactly with no arguments; no filter validates with more than two; a validated median window is odd and positive |
| Pipeline.Step | pipeline.c:160-227 | a successful filter leaves a valid image |
| Pipeline.ValidatedStep | pipeline.c:336-406 | a validated step succeeds, except edge above 1 (which the filter rejects) and a mosaic whose tile set cannot be built |
| Pipeline.ApplyStep | pipeline.c:160-227 | dispatching one step on the image gives `Step`, and a failure leaves the image unchanged |
| Pipeline.Run | pipeline.c:136-246 | the outcome's image is valid |
| Pipeline.RunAppend | pipeline.c:153-240 | running s then t is running s + t, where t runs only if s succeeded |
| Pipeline.RunStopsAtFailure | pipeline.c:229-236 | after the first failing step no later step runs, and the run reports false with the image the earlier steps left |
| Pipeline.RunOkIff | pipeline.c:153-240 | a run succeeds exactly when every step succeeds on the image the steps before it left |
| Pipeline.AddThenRun | pipeline.c:64-240 | running a pipeline with one more step is running the old one and then that step |
| Pipeline.FilterPipeline.constructor | pipeline.c:13-25 | a new pipeline is empty with count 0 |
| Pipeline.FilterPipeline.Clear | pipeline.c:36-60 | afterwards the pipeline is empty with count 0 |
| Pipeline.FilterPipeline.AddFilter | pipeline.c:64-132 | succeeds exactly when validation passes; then the step is appended at the tail, else nothing changes; count stays the length |
| Pipeline.FilterPipeline.Apply | pipeline.c:136-246 | the image and the result are the outcome of `Run` over the steps in list order; an empty pipeline returns true and changes nothing |
| Cli.HasBmpExtension | main.c:69-77 | true exactly when the name has at least four characters and ends in '.' followed by b or B, m or M, p or P |
| Cli.BmpExtensionIgnoresCase | main.c:69-77 | the extension test ignores case, and any name ending in an extension that lower-cases to ".bmp" passes |
| Cli.Arity | main.c:132-154 | at most 2, and every argument list that validates for the kind has exactly that many tokens |
| Cli.ArityAgrees | main.c:132-154 | a step that validates has a known kind and exactly its command-line arity of arguments |
| Cli.Candidate | main.c:116-162 | a candidate filter has its arity of arguments, all present after the flag |
| Cli.NextFilter | main.c:116-174 | a filter read at token i is a candidate and passes validation |
| Cli.ParseFrom | main.c:114-185 | with no tokens left the parse gives no filters; an empty token or one not starting with '-' fails it |
| Cli.ParseStep | main.c:114-185 | parsing from token i is reading the filter flag there |
| Cli.ParsedHead | main.c:114-185 | a successful parse starts with a validated filter of the right arity and continues after its arguments |
| Cli.ParsedConsumesAll | main.c:114-185 | a successful parse uses every token from the start position, and every filter validates |
| Cli.TokenFlag | main.c:116-119 | "-" followed by a kind's name reads as that kind |
| Cli.CandidateOf | main.c:116-166 | a flag token followed by enough arguments is read as that filter |
| Cli.ParseOne | main.c:114-177 | a validated filter at token i is added and the cursor moves by arity+1 |
| Cli.StepTokens | main.c:114-177 | a filter is written as its flag and its arguments |
| Cli.UnparseEncodes | main.c:114-185 | the written tokens hold each filter in order |
| Cli.EncodedHead | main.c:114-177 | the first encoded filter's flag and arguments sit at the cursor |
| Cli.ReadToken | main.c:114-177 | a written filter is read back and the cursor moves past it |
| Cli.ParseEncoded | main.c:114-185 | tokens that encode validated filters parse back to those filters |
| Cli.ValidKnown | pipeline.c:336-406 | validated filters have known kinds |
| Cli.ParseUnparse | main.c:114-185 | writing validated filters as tokens and parsing them gives the filters back, in order |
| Cli.Parse | main.c:81-188 | fewer than three tokens fail and exactly three give no filters; a success names argv[1] and argv[2], consumes every token, and holds only validated steps |
| Cli.ParseArguments | main.c:81-188 | fails for fewer than three tokens and for any bad filter; otherwise the names are argv[1] and argv[2], and the pipeline holds the parsed filters in command-line order |
| Cli.AddFilters | main.c:114-185 | the loop succeeds exactly when the tokens parse, and the pipeline then holds them |
| Cli.AddNext | main.c:116-177 | one filter is read and appended and the cursor moves past its arguments, or the parse fails |
| Cli.ReadFilter | main.c:116-162 | the flag at the cursor is looked up and its arguments are taken when enough remain |
| Utils.ClampFloat | utils.c:172-176 | min below the range, max above it, else the value; the result is in [min,max] when min <= max |
| Utils.LerpBetween | utils.c:178-181 | t <= 0 gives a, t >= 1 gives b, and the result lies between a and b |
| Utils.Lower | utils.c:71-77 | lower-casing keeps the length |
| Utils.LowerPointwise | utils.c:71-77 | each character is lower-cased on its own |
| Utils.LowerIdempotent | utils.c:71-77 | lower-casing twice is lower-casing once, and no upper-case letter remains |
| Utils.StringToLower | utils.c:71-77 | the buffer becomes its lower-case form in place |
| Utils.TrimEndPrefix | utils.c:83-87 | the trailing trim is the longest prefix not ending in whitespace |
| Utils.TrimStartSuffix | utils.c:89-99 | the leading trim is the longest suffix not starting in whitespace |
| Utils.TrimSlice | utils.c:79-100 | the trimmed string is a slice with only whitespace around it and no whitespace at either end |
| Utils.TrimIsMaximalSlice | utils.c:79-100 | the trimmed string is the maximal slice with no leading or trailing whitespace |
| Utils.TrimEmptyIffAllSpace | utils.c:79-100 | the trimmed string is empty exactly when the input is all whitespace |
| Utils.TrimIdempotent | utils.c:79-100 | trimming twice is trimming once |
| Utils.StringTrim | utils.c:79-100 | the buffer holds the trimmed string, NUL-terminated |
| Utils.StripTrailing | utils.c:83-87 | trailing whitespace is overwritten with NUL and the rest kept |
| Utils.MoveToFront | utils.c:96-99 | the `memmove` shifts the kept characters to the front and ends them with NUL |
| Utils.IsNumeric | utils.c:102-127 | the scan accepts exactly an optional sign and then digits with at most one '.', and rejects the empty string |
| Utils.NumericEdgeCases | utils.c:106-126 | "+", "-" and "." are accepted; "", "1.2.3" and "+-1" are rejected |

## Left out

- Floating point: channels are `real`. `float` rounding, and `int` overflow in `atoi`, are not modelled. Every "in exact arithmetic" row above is an idealisation.
- `exp`, `sinf`, `cosf` and `rand`/`srand(time(NULL))` are the fields of `Externals.Env`. The model states only their ranges, so the blur weights, the glass wave and the crystallize sample points are parameters, not computed values.
- `atoi` and `atof` are the fields of `Pipeline.Parsers`; their values are not computed.
- Mosaic.Distance2: it is the squared distance, without `sqrtf`. `sqrtf` is strictly increasing on non-negative values, so the distances and their squares are ordered alike, and `Mosaic.FirstMinMonotone` shows that the index `find_best_tile` returns is then the same. The model has no square root, so that ordering itself is not proved.
- File I/O:
  - `fopen`, `fread`, `fseek` and `fwrite` are left out. The codec works on byte sequences.
  - A row that `fread` cannot fill makes `Decode` fail, as the loader does.
  - The mosaic atlas's bytes come from `Env.files` and go through `Bmp.Decode`.
- `bmp_validate` and `bmp_print_info` are file probing and printing.
- `malloc` failures, `free`, `image_free`, `free_tile_set`, `pipeline_destroy` and NULL-pointer arguments are left out. A buffer swap becomes an assignment of a fresh array.
- All `printf`/`fprintf` output, `pipeline_print`, and the mosaic's progress messages are left out.
- `main`, `print_help` and `cleanup` are left out, including the `backup_` retry on save. They are load/apply/save glue and console output.
- utils.c system helpers are left out: `file_exists`, `file_writable`, `file_size`, `safe_malloc`, `safe_realloc`, `string_duplicate`, the log level and `log_message`, and the degree/radian conversions.
- `image_get_width`, `image_get_height` and `image_get_pixel_const` are plain accessors. `Images.Raster.Get` covers them.
- The pipeline is a linked list of nodes in the source. `Pipeline.FilterPipeline` keeps the nodes' parameters as a sequence in list order, with `count` as its length. Node pointers and aliasing are not modelled.
- `compare_floats` and `qsort`: `Median.SortReals` (insertion into a sorted list) stands for the sort. `Median.SortedUnique` shows that every sort gives the same sorted sequence.
- The mosaic's skip of a null tile (`continue`) cannot happen in the model: every tile of a tile set exists.
- Integer widths:
  - Image dimensions are `nat`. `uint32_t` overflow of `width * height`, of `start + size` in the sub-image and average code, and of `x + tile` offsets is not modelled.
  - The 32-bit wrap of `bmp_row_stride` is modelled only as the finding below.
  - In `filter_median` the `int` product `window * window` (filters.c:300) overflows for a window of 46341 or more, and the three `malloc` calls (filters.c:303-305) then get a wrong size. `Median.MedianFiltered` has unbounded windows and succeeds for every odd positive window.
  - The header fields that `bmp_save` writes are reduced mod 2^32.
- Pipeline.ValidatedStep: for mosaic it states only that the step succeeds exactly when the tile set can be built. It does not follow the atlas further.

## Findings

| source | as written | input that shows it | evidently intended | confidence | as-written member | corrected member |
|---|---|---|---|---|---|---|
| bmp.h:57 | `((width * 3 + 3) / 4) * 4` is computed in 32-bit unsigned arithmetic and wraps | width 1431655765, which the loader accepts (it is positive and below 2^31): 3w+3 = 2^32+2, which wraps to 2, so the stride is (2/4)*4 = 0, less than the 3w bytes of pixel data per row | the exact stride: the smallest multiple of 4 that is at least 3w | not executed | BmpLayout.StrideU32Wraps | BmpLayout.StrideMinimal |
