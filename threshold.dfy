/**
 * Alpha binarisation of the reconstructed mask: every pixel's alpha is
 * driven to 0 (below 128) or 255 (from 128 up); R, G and B are left alone.
 * The program rewrites the mask buffer in place, so `BinarizeInPlace` works
 * on an array and is proved equal to the value-level specification
 * `BinarizeAll`.
 */
module Threshold {
  import opened Raster

  /** Alpha values below this become fully transparent, the rest fully opaque. */
  const Cutoff: Byte := 128

  /** The per-value threshold rule. */
  function Binarize(x: Byte): (r: Byte)
    ensures r == 0 || r == Opaque
  {
    if x < Cutoff then 0 else Opaque
  }

  /** The threshold is monotone in the alpha value. */
  lemma BinarizeMonotone(x: Byte, y: Byte)
    requires x <= y
    ensures Binarize(x) <= Binarize(y)
  {
  }

  /** The per-pixel rule: only channel 3 is rewritten, and it becomes 0 or 255. */
  function BinarizePixel(p: Pixel): (r: Pixel)
    ensures SameColour(r, p) && (r.a == 0 || r.a == Opaque)
  {
    p.(a := Binarize(p.a))
  }

  /**
   * The whole buffer after the threshold pass, pixel by pixel in order; the
   * pass never changes the number of pixels.
   */
  function BinarizeAll(ps: seq<Pixel>): (r: seq<Pixel>)
    ensures |r| == |ps|
  {
    if ps == [] then [] else [BinarizePixel(ps[0])] + BinarizeAll(ps[1..])
  }

  /**
   * The threshold pass sends the pixel at each index to its thresholded
   * self: same colour, alpha 0 exactly when the old alpha
   * was below 128, 255 otherwise.
   */
  lemma {:induction false} BinarizeAllAt(ps: seq<Pixel>, i: nat)
    requires i < |ps|
    ensures SameColour(BinarizeAll(ps)[i], ps[i])
    ensures BinarizeAll(ps)[i].a == (if ps[i].a < Cutoff then 0 else Opaque)
  {
    if i > 0 {
      BinarizeAllAt(ps[1..], i - 1);
    }
  }

  /** After the threshold pass every alpha is either 0 or 255. */
  lemma BinarizeAllIsBinary(ps: seq<Pixel>)
    ensures forall i :: 0 <= i < |BinarizeAll(ps)| ==> BinarizeAll(ps)[i].a in {0, Opaque}
  {
    forall i | 0 <= i < |BinarizeAll(ps)|
      ensures BinarizeAll(ps)[i].a in {0, Opaque}
    {
      BinarizeAllAt(ps, i);
    }
  }

  /** Running the threshold pass a second time leaves the buffer unchanged. */
  lemma {:induction false} BinarizeAllIdempotent(ps: seq<Pixel>)
    ensures BinarizeAll(BinarizeAll(ps)) == BinarizeAll(ps)
  {
    if ps != [] {
      BinarizeAllIdempotent(ps[1..]);
      var p := BinarizePixel(ps[0]);
      assert BinarizePixel(p) == p;
      assert BinarizeAll(ps)[1..] == BinarizeAll(ps[1..]);
    }
  }

  /**
   * The in-place threshold loop over the mask buffer: afterwards the buffer
   * holds exactly the thresholded old contents.
   */
  method BinarizeInPlace(buf: array<Pixel>)
    modifies buf
    ensures buf[..] == BinarizeAll(old(buf[..]))
  {
    var i := 0;
    while i < buf.Length
      invariant 0 <= i <= buf.Length
      invariant forall k :: 0 <= k < i ==> buf[k] == BinarizePixel(old(buf[k]))
      invariant forall k :: i <= k < buf.Length ==> buf[k] == old(buf[k])
    {
      var pixel := buf[i];
      if pixel.a < Cutoff {
        buf[i] := pixel.(a := 0);
      } else {
        buf[i] := pixel.(a := Opaque);
      }
      i := i + 1;
    }
    ghost var was := old(buf[..]);
    forall k | 0 <= k < buf.Length
      ensures buf[..][k] == BinarizeAll(was)[k]
    {
      BinarizeAllAt(was, k);
    }
  }
}
