/** `colorizedMaskImage`: the Core Image stages chained with early return on `nil`, and the
    polarity scan deciding whether the inversion stage runs. */
module MaskPipeline {
  import opened Wrappers
  import opened RasterAccess
  import opened Polarity

  /** A bitmap rendered by the Core Image context: a raster laid out so that its top row can
      be scanned. The input bitmap itself may have any layout. */
  type RenderedImage = r: Raster | Scannable(r) witness Raster(0, 0, 0, 32, [])

  /** The Core Image operations the pipeline uses, over an unspecified lazy image type `CI`.
      Each filter takes the optional image assigned to its `inputImage` and yields its
      optional `outputImage`; `render` is `CIContext().createCGImage(_, from: extent)`. */
  datatype Filters<!CI> = Filters(
    ciImage: Raster -> CI,                                   // CIImage(cgImage:)
    colorMonochrome: (Option<CI>, real) -> Option<CI>,      // colour white, intensity
    colorControls: (Option<CI>, real, real) -> Option<CI>,  // contrast, saturation
    colorPosterize: (Option<CI>, nat) -> Option<CI>,        // levels
    colorInvert: Option<CI> -> Option<CI>,
    maskToAlpha: Option<CI> -> Option<CI>,
    blendWithAlphaMask: (CI, Option<CI>, CI) -> Option<CI>, // input, mask, background
    emptyImage: CI,                                         // CIImage()
    render: CI -> Option<RenderedImage>
  )

  const MonochromeIntensity: real := 1.0
  const Contrast: real := 1.0
  const Saturation: real := 1.0
  const PosterizeLevels: nat := 3

  /** The posterized brightness mask (lines 77-93). */
  function Posterized<CI>(image: Raster, f: Filters<CI>): (r: Option<CI>)
    ensures AbsentInAbsentOut(f) && f.colorMonochrome(Some(f.ciImage(image)), MonochromeIntensity) == None
            ==> r == None
  {
    var mono := f.colorMonochrome(Some(f.ciImage(image)), MonochromeIntensity);
    var contrast := f.colorControls(mono, Contrast, Saturation);
    f.colorPosterize(contrast, PosterizeLevels)
  }

  /** The polarity-corrected mask (lines 115-121): inverted only when `shouldInvert`. */
  function Adjusted<CI>(posterized: CI, shouldInvert: bool, f: Filters<CI>): Option<CI>
  {
    if shouldInvert then f.colorInvert(Some(posterized)) else Some(posterized)
  }

  /** The original image blended over an empty background through the mask's alpha
      (lines 131-142). */
  function Blended<CI>(image: Raster, baseImage: RenderedImage, f: Filters<CI>): Option<CI>
  {
    f.blendWithAlphaMask(f.ciImage(image), f.maskToAlpha(Some(f.ciImage(baseImage))), f.emptyImage)
  }

  /** `colorizedMaskImage(image)`, with `isLight` standing for `getWhite(...) > 0.5` on the
      colour built from a pixel's bytes. */
  function ColorizedMaskImage<CI>(image: Raster, f: Filters<CI>, isLight: ARGB -> bool): (r: Option<RenderedImage>)
    ensures r.Some? ==> Posterized(image, f).Some? && f.render(Posterized(image, f).value).Some?
  {
    match Posterized(image, f)
    case None => None
    case Some(posterizedCIImage) =>
      match f.render(posterizedCIImage)
      case None => None
      case Some(posterizedImage) =>
        match Adjusted(posterizedCIImage, IsLightBackground(posterizedImage, isLight), f)
        case None => None
        case Some(ciImage) =>
          match f.render(ciImage)
          case None => None
          case Some(baseImage) =>
            match Blended(image, baseImage, f)
            case None => None
            case Some(blendedImage) => f.render(blendedImage)
  }

  /** One successful run: every stage produced the image the next stage consumed, and the
      last render produced `out`. */
  ghost predicate SucceedsVia<CI>(image: Raster, f: Filters<CI>, isLight: ARGB -> bool,
                                  posterized: CI, posterizedImage: RenderedImage, adjusted: CI,
                                  baseImage: RenderedImage, blended: CI, out: RenderedImage)
  {
    && Posterized(image, f) == Some(posterized)
    && f.render(posterized) == Some(posterizedImage)
    && Adjusted(posterized, IsLightBackground(posterizedImage, isLight), f) == Some(adjusted)
    && f.render(adjusted) == Some(baseImage)
    && Blended(image, baseImage, f) == Some(blended)
    && f.render(blended) == Some(out)
  }

  /** An image comes out exactly when there is a run in which every stage succeeded. */
  lemma ResultIffEveryStageSucceeds<CI>(image: Raster, f: Filters<CI>, isLight: ARGB -> bool, out: RenderedImage)
    ensures ColorizedMaskImage(image, f, isLight) == Some(out)
        <==> exists p, pi, a, b, bl :: SucceedsVia(image, f, isLight, p, pi, a, b, bl, out)
  {
    if ColorizedMaskImage(image, f, isLight) == Some(out) {
      var p := Posterized(image, f).value;
      var pi := f.render(p).value;
      var a := Adjusted(p, IsLightBackground(pi, isLight), f).value;
      var b := f.render(a).value;
      var bl := Blended(image, b, f).value;
      assert SucceedsVia(image, f, isLight, p, pi, a, b, bl, out);
    }
  }

  /** Core Image's convention that a filter whose input image is `nil` has no output. */
  ghost predicate AbsentInAbsentOut<CI>(f: Filters<CI>)
  {
    && (forall c: real, s: real :: f.colorControls(None, c, s) == None)
    && (forall n: nat :: f.colorPosterize(None, n) == None)
  }

  /** The source never tests the monochrome output itself: a missing monochrome image makes
      the run fail only because the later filters pass the absence on. */
  lemma MonochromeFailureFails<CI>(image: Raster, f: Filters<CI>, isLight: ARGB -> bool)
    requires AbsentInAbsentOut(f)
    requires f.colorMonochrome(Some(f.ciImage(image)), MonochromeIntensity) == None
    ensures ColorizedMaskImage(image, f, isLight) == None
  {
  }

  /** On a dark background the inversion filter is never consulted: replacing it changes
      nothing, and the posterized image is the mask. */
  lemma DarkBackgroundSkipsInversion<CI>(image: Raster, f: Filters<CI>, isLight: ARGB -> bool,
                                         invert: Option<CI> -> Option<CI>, p: CI, pi: RenderedImage)
    requires Posterized(image, f) == Some(p) && f.render(p) == Some(pi)
    requires !IsLightBackground(pi, isLight)
    ensures ColorizedMaskImage(image, f, isLight) == ColorizedMaskImage(image, f.(colorInvert := invert), isLight)
    ensures forall out :: ColorizedMaskImage(image, f, isLight) == Some(out) ==>
              exists b, bl :: SucceedsVia(image, f, isLight, p, pi, p, b, bl, out)
  {
    var g := f.(colorInvert := invert);
    assert Posterized(image, g) == Posterized(image, f);
    assert Adjusted(p, false, g) == Adjusted(p, false, f);
    forall out | ColorizedMaskImage(image, f, isLight) == Some(out)
      ensures exists b, bl :: SucceedsVia(image, f, isLight, p, pi, p, b, bl, out)
    {
      var b := f.render(p).value;
      var bl := Blended(image, b, f).value;
      assert SucceedsVia(image, f, isLight, p, pi, p, b, bl, out);
    }
  }

  /** On a light background the mask is the inverted posterized image: if inversion yields
      nothing the run fails, and otherwise the run continues from the inverted image. */
  lemma LightBackgroundInverts<CI>(image: Raster, f: Filters<CI>, isLight: ARGB -> bool, p: CI, pi: RenderedImage)
    requires Posterized(image, f) == Some(p) && f.render(p) == Some(pi)
    requires IsLightBackground(pi, isLight)
    ensures f.colorInvert(Some(p)) == None ==> ColorizedMaskImage(image, f, isLight) == None
    ensures forall out :: ColorizedMaskImage(image, f, isLight) == Some(out) ==>
              f.colorInvert(Some(p)).Some? &&
              exists b, bl :: SucceedsVia(image, f, isLight, p, pi, f.colorInvert(Some(p)).value, b, bl, out)
  {
    forall out | ColorizedMaskImage(image, f, isLight) == Some(out)
      ensures f.colorInvert(Some(p)).Some?
      ensures exists b, bl :: SucceedsVia(image, f, isLight, p, pi, f.colorInvert(Some(p)).value, b, bl, out)
    {
      var a := f.colorInvert(Some(p)).value;
      var b := f.render(a).value;
      var bl := Blended(image, b, f).value;
      assert SucceedsVia(image, f, isLight, p, pi, a, b, bl, out);
    }
  }
}
