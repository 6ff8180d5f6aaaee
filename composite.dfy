/**
 * Alpha overwrite compositing: the upscaled buffer is walked together with
 * the reconstructed mask (a zip, so it stops at the shorter of the two) and
 * each upscaled pixel takes the mask pixel's alpha, keeping its own colour.
 */
module Composite {
  import opened Raster

  /**
   * The upscaled buffer after the zip loop, as a value: the walk stops as
   * soon as either buffer runs out, and the upscaled buffer keeps its length.
   */
  function OverwriteAlpha(up: seq<Pixel>, mask: seq<Pixel>): (r: seq<Pixel>)
    ensures |r| == |up|
  {
    if up == [] then []
    else if mask == [] then up
    else [up[0].(a := mask[0].a)] + OverwriteAlpha(up[1..], mask[1..])
  }

  /**
   * Below the shorter length a pixel keeps its colour and takes the mask's
   * alpha; beyond it the pixel is untouched.
   */
  lemma {:induction false} OverwriteAlphaAt(up: seq<Pixel>, mask: seq<Pixel>, i: nat)
    requires i < |up|
    ensures i < |mask| ==> OverwriteAlpha(up, mask)[i] == up[i].(a := mask[i].a)
    ensures i >= |mask| ==> OverwriteAlpha(up, mask)[i] == up[i]
  {
    if i > 0 && mask != [] {
      OverwriteAlphaAt(up[1..], mask[1..], i - 1);
    }
  }

  /**
   * When the mask has as many pixels as the upscaled buffer, the zip covers
   * every pixel: the result's alpha is the mask's alpha everywhere and its
   * colour is the upscaled colour everywhere.
   */
  lemma OverwriteAlphaCoversAll(up: seq<Pixel>, mask: seq<Pixel>)
    requires |mask| == |up|
    ensures |OverwriteAlpha(up, mask)| == |up|
    ensures forall i :: 0 <= i < |up| ==>
      OverwriteAlpha(up, mask)[i].a == mask[i].a && SameColour(OverwriteAlpha(up, mask)[i], up[i])
  {
    forall i | 0 <= i < |up|
      ensures OverwriteAlpha(up, mask)[i].a == mask[i].a && SameColour(OverwriteAlpha(up, mask)[i], up[i])
    {
      OverwriteAlphaAt(up, mask, i);
    }
  }

  /**
   * The in-place zip loop: afterwards `buf` holds the composite of its old
   * contents with `mask`. The mask is a separate, read-only buffer.
   */
  method OverwriteAlphaInPlace(buf: array<Pixel>, mask: seq<Pixel>)
    modifies buf
    ensures buf[..] == OverwriteAlpha(old(buf[..]), mask)
  {
    var i := 0;
    while i < buf.Length && i < |mask|
      invariant 0 <= i <= buf.Length && i <= |mask|
      invariant forall k :: 0 <= k < i ==> buf[k] == old(buf[k]).(a := mask[k].a)
      invariant forall k :: i <= k < buf.Length ==> buf[k] == old(buf[k])
    {
      buf[i] := buf[i].(a := mask[i].a);
      i := i + 1;
    }
    ghost var was := old(buf[..]);
    forall k | 0 <= k < buf.Length
      ensures buf[..][k] == OverwriteAlpha(was, mask)[k]
    {
      OverwriteAlphaAt(was, mask, k);
    }
  }
}
