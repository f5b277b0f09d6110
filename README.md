# MaskTextInImage: text-mask pipeline model

MaskTextInImage takes a photographed page and makes a "colored text on transparency" image.
It turns the picture into a three-level posterized brightness mask. It then looks at the
top scanline of that mask to decide whether the page background is light. If it is, the
mask is inverted so that the text is the bright part. Finally the mask becomes the alpha
channel of the original image, blended over an empty background.

This project models the integer and byte logic of that pipeline and proves properties of it:

- `raster.dfy` (module `RasterAccess`): `getPixelColor`. A bitmap is a row-strided byte
  buffer. The pixel at (x, y) starts at byte `y * bytesPerRow + x * (bitsPerPixel / 8)`, and
  its four bytes are read as alpha, red, green, blue.
- `polarity.dfy` (module `Polarity`): the row-0 scan. It counts the pixels an abstract
  lightness test accepts, then decides `shouldInvert` when that count exceeds
  `width / 2`. The scan is a method with a loop, proved against the counting function.
- `pipeline.dfy` (module `MaskPipeline`): `colorizedMaskImage`. The Core Image filters and
  the render step are opaque `Option`-returning functions in a `Filters` record. The
  pipeline is their composition, with the same early returns on `nil`.
- `wrappers.dfy` (module `Wrappers`): the `Option` type standing for Swift optionals.

Notes on how the model reads the code:

- The reader is fixed to ARGB order; the RGBA reads at lines 163-168 are commented out.
- The reads are unchecked pointer reads. The precondition of `GetPixelColor` (a valid
  layout and in-range coordinates) excludes an out-of-range read, and
  `PixelWindowInBounds` proves that it keeps all four reads inside the buffer.
- The input bitmap of `colorizedMaskImage` may have any layout: it is only handed to
  `CIImage(cgImage:)`. Only the bitmaps rendered by the Core Image context are scanned.
- A `nil` monochrome or colour-controls output is never tested on its own. It only ends
  the run if the later filters pass the absence on (`MonochromeFailureFails`).

## Model

| member | source | states |
|---|---|---|
| RasterAccess.PixelWindowInBounds | MaskTextInImage/ViewController.swift:152-174 | for 0 <= x < width, 0 <= y < height, bytesPerPixel >= 4, bytesPerRow >= width * bytesPerPixel and a buffer of at least height * bytesPerRow bytes, the offset is non-negative, offset+3 is inside the buffer, and the four bytes lie within row y |
| RasterAccess.PixelWindowsDisjoint | MaskTextInImage/ViewController.swift:157-159 | two different in-range pixels have non-overlapping four-byte windows, so no byte is shared between pixels |
| RasterAccess.GetPixelColor | MaskTextInImage/ViewController.swift:157-174 | the reads stay in bounds; alpha comes from offset+0, red from +1, green from +2 and blue from +3, where offset is y * bytesPerRow + x * (bitsPerPixel / 8) |
| RasterAccess.GetPixelColorReadsOnlyItsWindow | MaskTextInImage/ViewController.swift:170-174 | two buffers with the same layout that agree on the pixel's four bytes give the same colour: no other byte is consulted |
| Polarity.CountLight | MaskTextInImage/ViewController.swift:99-107 | the light count never exceeds the number of pixels scanned |
| Polarity.CountLightIsCardinality | MaskTextInImage/ViewController.swift:99-107 | the count equals the size of the set of positions whose pixel is light |
| Polarity.CountLightFull | MaskTextInImage/ViewController.swift:99-107 | the count equals the row length if and only if every pixel is light |
| Polarity.CountLightEmpty | MaskTextInImage/ViewController.swift:99-107 | the count is zero if and only if no pixel is light |
| Polarity.ShouldInvert | MaskTextInImage/ViewController.swift:108-113 | the decision `count > width / 2` holds exactly when twice the light count exceeds the width |
| Polarity.IsLightBackground | MaskTextInImage/ViewController.swift:99-113 | the flag holds exactly when twice the number of light row-0 positions exceeds the width |
| Polarity.ShouldInvertIsStrictMajority | MaskTextInImage/ViewController.swift:108-113 | `count > width / 2` (integer division) holds exactly when light pixels outnumber the rest |
| Polarity.ShouldInvertBoundary | MaskTextInImage/ViewController.swift:108-113 | width/2 light pixels (integer division) give no inversion for every width, so an even-width tie is dark; width/2+1 and ceil(width/2)+1 light pixels give inversion |
| Polarity.DetectPolarity | MaskTextInImage/ViewController.swift:98-113 | the loop leaves `lightBackgroundCount` equal to the number of x in [0, width) whose row-0 pixel is light, never above width; `shouldInvert` holds exactly when that count exceeds width / 2 |
| Polarity.ZeroWidthIsDark | MaskTextInImage/ViewController.swift:100-111 | a raster of width 0 reads nothing and gives `shouldInvert` false |
| Polarity.UniformFirstRow | MaskTextInImage/ViewController.swift:99-113 | an all-light top row of positive width gives a light background; an all-dark top row gives a dark one |
| Polarity.PolarityDependsOnlyOnFirstRow | MaskTextInImage/ViewController.swift:100-101 | two rasters of the same width with the same row-0 pixels get the same `shouldInvert` |
| Polarity.PolarityIgnoresBytesAfterFirstRow | MaskTextInImage/ViewController.swift:100-159 | with the same width, stride and pixel size (heights may differ), buffers that agree on their first bytesPerRow bytes get the same `shouldInvert`, whatever the later rows hold |
| MaskPipeline.Posterized | MaskTextInImage/ViewController.swift:77-93 | if the monochrome filter yields nothing and the later filters map a missing input to no output, there is no posterized image |
| MaskPipeline.ColorizedMaskImage | MaskTextInImage/ViewController.swift:74-150 | an output image implies that a posterized image was produced and rendered |
| MaskPipeline.ResultIffEveryStageSucceeds | MaskTextInImage/ViewController.swift:74-149 | an image comes out if and only if there is a run where the posterize filter, its render, the polarity-chosen mask, its render, the blend and the final render all produced an image, ending in that output |
| MaskPipeline.MonochromeFailureFails | MaskTextInImage/ViewController.swift:79-96 | if the monochrome filter yields nothing and the later filters map a missing input to no output, the pipeline yields nothing |
| MaskPipeline.DarkBackgroundSkipsInversion | MaskTextInImage/ViewController.swift:115-126 | on a dark background the inversion filter is never consulted (replacing it changes nothing), and any output comes from a run whose mask is the posterized image itself |
| MaskPipeline.LightBackgroundInverts | MaskTextInImage/ViewController.swift:115-126 | on a light background a failed inversion makes the pipeline yield nothing, and any output comes from a run whose mask is the inverted posterized image |

## Left out

- The lightness test `UIColor(...).getWhite(...) > 0.5` (lines 102-104, 176) is floating point. It is the parameter `isLight` of the scan, a test on the four bytes of the pixel. The division of each byte by 255 is not modelled.
- The Core Image filters (monochrome, colour controls, posterize, invert, mask-to-alpha, blend with alpha mask) and `CIContext.createCGImage` are library code whose pixel behaviour is not visible. They are opaque function fields of `MaskPipeline.Filters`, called with the same constants (intensity 1.0, contrast 1.0, saturation 1.0, 3 levels). Properties that depend on the filters' pixel behaviour are not modelled: output size, a second inversion undoing the first, at most three posterized levels, and the results on all-white or black-row images.
- A bitmap rendered by the context (`MaskPipeline.RenderedImage`) is assumed to have at least four bytes per pixel, a stride that holds its width, a buffer that holds its rows, and a row whenever it has columns. The source reads row 0 of the posterized render without checking any of this. The input bitmap carries no such assumption.
- `getPixelColor` takes `cgImage.dataProvider?.data` and force-unwraps the byte pointer (lines 154-155, 171-174), so a bitmap without a data provider traps. In the model a raster always has its bytes; a bitmap without data, and that trap, are not represented.
- `MaskPipeline.Posterized`: `posterize.outputImage` is read twice in the source (lines 93 and 115/119). It is modelled as one value, since the filter's inputs do not change between the reads.
- The commented-out RGBA reads (lines 163-168) are dead code and are not modelled.
- The view setup, layout constraints, the 2-second slideshow timer, the image list and the fallback to the original image when no mask comes out (lines 13-15, 21-69) are UI glue and are left out.
