/**
 * The opacity classifier: an image needs no alpha repair exactly when none
 * of its pixels has an alpha other than 255.
 */
module Opacity {
  import opened Raster

  /**
   * Whether some pixel has alpha different from 255, scanning left to right
   * and stopping at the first such pixel (the short-circuit `any` over the
   * pixel iterator).
   */
  function AnyTranslucent(ps: seq<Pixel>): (r: bool)
    ensures r <==> exists i :: 0 <= i < |ps| && ps[i].a != Opaque
  {
    if ps == [] then false
    else if ps[0].a != Opaque then true
    else
      var rest := AnyTranslucent(ps[1..]);
      assert rest ==> exists j :: 0 <= j < |ps[1..]| && ps[1..][j].a != Opaque;
      assert forall j :: 0 <= j < |ps[1..]| ==> ps[1..][j] == ps[j + 1];
      rest
  }

  /**
   * The fast-path test: true exactly when every pixel of `img` has alpha 255
   * (an image without pixels is fully opaque).
   */
  function IsFullyOpaque(img: Image): (r: bool)
    ensures r <==> forall i :: 0 <= i < |img.pixels| ==> img.pixels[i].a == Opaque
  {
    !AnyTranslucent(img.pixels)
  }

  /** A single pixel with alpha other than 255 makes the image not fully opaque. */
  lemma OneTranslucentPixel(img: Image, i: nat)
    requires i < |img.pixels| && img.pixels[i].a != Opaque
    ensures !IsFullyOpaque(img)
  {
  }
}
