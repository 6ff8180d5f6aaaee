/**
 * The per-image decision: copy the upscaled file unchanged when the
 * original is fully opaque, otherwise rebuild an alpha mask from the
 * original at the upscaled size and overwrite the upscaled image's alpha
 * with it.
 *
 * The resampling, blur and contrast stages are floating-point operations of
 * the imaging library. They enter the model as function values in a
 * `Stages` record whose only assumed property is that they produce a
 * well-formed buffer of the requested size.
 */
module Pipeline {
  import opened Raster
  import Opacity
  import Threshold
  import Composite

  /** Standard deviation of the blur applied right after resampling. */
  const SmoothingSigma: real := 6.0
  /** Contrast increase applied to the smoothed mask. */
  const ContrastFactor: real := 2.0
  /** Standard deviation of the anti-aliasing blur after thresholding. */
  const AntialiasSigma: real := 0.5

  /** The library stages the mask reconstruction uses. */
  datatype Stages = Stages(
    resize: (Image, nat, nat) -> Image,  // Lanczos3 resampling to a target width and height
    blur: (Image, real) -> Image,        // gaussian blur with a given standard deviation
    contrast: (Image, real) -> Image     // contrast adjustment by a given amount
  )

  /**
   * What the model assumes of the library: resampling yields a well-formed
   * buffer of exactly the requested size, and blur and contrast keep the
   * size of a well-formed buffer.
   */
  ghost predicate SizePreserving(st: Stages)
  {
    && (forall img: Image, w: nat, h: nat ::
          st.resize(img, w, h).width == w && st.resize(img, w, h).height == h && st.resize(img, w, h).Valid())
    && (forall img: Image, sigma: real :: img.Valid() ==>
          st.blur(img, sigma).width == img.width && st.blur(img, sigma).height == img.height && st.blur(img, sigma).Valid())
    && (forall img: Image, c: real :: img.Valid() ==>
          st.contrast(img, c).width == img.width && st.contrast(img, c).height == img.height && st.contrast(img, c).Valid())
  }

  /** The mask after thresholding: binarised alpha, same size. */
  function BinarizeImage(img: Image): (r: Image)
    requires img.Valid()
    ensures r.width == img.width && r.height == img.height && r.Valid()
  {
    img.(pixels := Threshold.BinarizeAll(img.pixels))
  }

  /**
   * The reconstructed alpha mask: resample the original to the target size,
   * blur, raise the contrast, threshold, blur again. Whatever the library
   * does numerically, the mask has exactly the target size.
   */
  function ReconstructMask(orig: Image, width: nat, height: nat, st: Stages): (m: Image)
    requires SizePreserving(st)
    ensures m.width == width && m.height == height && m.Valid()
  {
    var resized := st.resize(orig, width, height);
    var smoothed := st.blur(resized, SmoothingSigma);
    var sharpened := st.contrast(smoothed, ContrastFactor);
    st.blur(BinarizeImage(sharpened), AntialiasSigma)
  }

  /** What happens to one image pair. */
  datatype Outcome =
    | CopyUpscaled              // the upscaled file is copied to the output path byte for byte
    | Reconstructed(out: Image) // this image is saved to the output path

  /**
   * The copy-vs-composite decision for one pair. The fast path is taken
   * exactly when every pixel of the original has alpha 255; otherwise the
   * output has the upscaled image's size.
   */
  function FixImage(orig: Image, up: Image, st: Stages): (r: Outcome)
    requires up.Valid() && SizePreserving(st)
    ensures r.CopyUpscaled? <==> forall i :: 0 <= i < |orig.pixels| ==> orig.pixels[i].a == Opaque
    ensures r.Reconstructed? ==> r.out.width == up.width && r.out.height == up.height && r.out.Valid()
  {
    if Opacity.IsFullyOpaque(orig) then CopyUpscaled
    else
      var mask := ReconstructMask(orig, up.width, up.height, st);
      Reconstructed(up.(pixels := Composite.OverwriteAlpha(up.pixels, mask.pixels)))
  }

  /** A single pixel of the original with alpha other than 255 forces reconstruction. */
  lemma OneTranslucentPixelForcesReconstruction(orig: Image, up: Image, st: Stages, i: nat)
    requires up.Valid() && SizePreserving(st)
    requires i < |orig.pixels| && orig.pixels[i].a != Opaque
    ensures FixImage(orig, up, st).Reconstructed?
  {
    Opacity.OneTranslucentPixel(orig, i);
  }

  /**
   * On the reconstruction path the output keeps every upscaled pixel's
   * colour and takes the reconstructed mask's alpha at every pixel: the mask
   * is built at the upscaled size, so the zip covers the whole buffer.
   */
  lemma CompositeTakesMaskAlpha(orig: Image, up: Image, st: Stages)
    requires up.Valid() && SizePreserving(st)
    requires !Opacity.IsFullyOpaque(orig)
    ensures var mask := ReconstructMask(orig, up.width, up.height, st);
            var out := FixImage(orig, up, st).out;
            && |out.pixels| == |up.pixels| == |mask.pixels|
            && forall i :: 0 <= i < |up.pixels| ==>
                 out.pixels[i].a == mask.pixels[i].a && SameColour(out.pixels[i], up.pixels[i])
  {
    var mask := ReconstructMask(orig, up.width, up.height, st);
    Composite.OverwriteAlphaCoversAll(up.pixels, mask.pixels);
  }

  /**
   * The imperative form of one pair's processing, on the upscaled image's
   * own pixel buffer: returns whether the fast path (copy) was taken; on the
   * other path the mask is rebuilt, thresholded in place in its own buffer,
   * and its alpha is written into `up` in place.
   */
  method ProcessPair(orig: Image, up: array<Pixel>, width: nat, height: nat, st: Stages) returns (copied: bool)
    requires up.Length == width * height && SizePreserving(st)
    modifies up
    ensures copied <==> FixImage(orig, Image(width, height, old(up[..])), st).CopyUpscaled?
    ensures copied ==> up[..] == old(up[..])
    ensures !copied ==> up[..] == FixImage(orig, Image(width, height, old(up[..])), st).out.pixels
  {
    ghost var upImage := Image(width, height, up[..]);
    if !Opacity.AnyTranslucent(orig.pixels) {
      return true;
    }
    var resized := st.resize(orig, width, height);
    var smoothed := st.blur(resized, SmoothingSigma);
    var sharpened := st.contrast(smoothed, ContrastFactor);
    var maskBuf := new Pixel[|sharpened.pixels|](k requires 0 <= k < |sharpened.pixels| => sharpened.pixels[k]);
    assert maskBuf[..] == sharpened.pixels;
    Threshold.BinarizeInPlace(maskBuf);
    assert sharpened.(pixels := maskBuf[..]) == BinarizeImage(sharpened);
    var mask := st.blur(sharpened.(pixels := maskBuf[..]), AntialiasSigma);
    assert mask == ReconstructMask(orig, width, height, st);
    Composite.OverwriteAlphaInPlace(up, mask.pixels);
    copied := false;
    assert up[..] == FixImage(orig, upImage, st).out.pixels;
  }
}
