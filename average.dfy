/** Element-wise averaging of two equally sized RGBA images (task1). */
module Average {
  import opened Pixels

  /** Alpha written into every averaged pixel. */
  const AverageAlpha: Byte := 100

  function Min(x: int, y: int): int { if x <= y then x else y }
  function Max(x: int, y: int): int { if x <= y then y else x }

  /** The mean of two channel values, rounded down. */
  function Mean(x: Byte, y: Byte): (m: Byte)
    ensures Min(x, y) <= m <= Max(x, y)
    ensures 2 * m <= x + y < 2 * m + 2
  {
    (x + y) / 2
  }

  /** `avg_pixel`: channel-wise floor mean of red, green and blue; fixed alpha. */
  function AvgPixel(one: Pixel, two: Pixel): (p: Pixel)
    ensures Min(one.r, two.r) <= p.r <= Max(one.r, two.r)
    ensures Min(one.g, two.g) <= p.g <= Max(one.g, two.g)
    ensures Min(one.b, two.b) <= p.b <= Max(one.b, two.b)
    ensures 2 * p.r <= one.r + two.r < 2 * p.r + 2
    ensures 2 * p.g <= one.g + two.g < 2 * p.g + 2
    ensures 2 * p.b <= one.b + two.b < 2 * p.b + 2
    ensures p.a == AverageAlpha
  {
    Pixel(Mean(one.r, two.r), Mean(one.g, two.g), Mean(one.b, two.b), AverageAlpha)
  }

  lemma AvgPixelSymmetric(one: Pixel, two: Pixel)
    ensures AvgPixel(one, two) == AvgPixel(two, one)
  {
    assert one.r + two.r == two.r + one.r;
  }

  /** Averaging a pixel with itself keeps its colour and only resets alpha. */
  lemma AvgPixelSelf(p: Pixel)
    ensures AvgPixel(p, p) == p.(a := AverageAlpha)
  {
    assert (p.r + p.r) / 2 == p.r;
  }

  /** The averaging loop: slot `i` of `out` receives the average of slot `i`
      of both inputs, for every `i < dimensions`.  The ghost `writes` records
      the index of every store, in order. */
  method AverageImages(pixels1: array<Pixel>, pixels2: array<Pixel>, out: array<Pixel>, dimensions: nat)
      returns (ghost writes: seq<nat>)
    requires dimensions <= pixels1.Length && dimensions <= pixels2.Length && dimensions <= out.Length
    requires out != pixels1 && out != pixels2
    modifies out
    ensures forall i :: 0 <= i < dimensions ==> out[i] == AvgPixel(pixels1[i], pixels2[i])
    ensures forall i :: dimensions <= i < out.Length ==> out[i] == old(out[i])
    ensures |writes| == dimensions && forall k :: 0 <= k < dimensions ==> writes[k] == k
    ensures forall k, l :: 0 <= k < l < |writes| ==> writes[k] != writes[l]
  {
    writes := [];
    var i := 0;
    while i < dimensions
      invariant 0 <= i <= dimensions
      invariant forall j :: 0 <= j < i ==> out[j] == AvgPixel(pixels1[j], pixels2[j])
      invariant forall j :: i <= j < out.Length ==> out[j] == old(out[j])
      invariant |writes| == i && forall k :: 0 <= k < i ==> writes[k] == k
    {
      out[i] := AvgPixel(pixels1[i], pixels2[i]);
      writes := writes + [i];
      i := i + 1;
    }
  }
}
