/** The bilinear upscaler (task2/mpi_attempt.c): the output image is split
    into equal slabs of `out_height/size` rows; each rank computes its rows
    into `local_out`, indexed from its own first row, by bilinear
    interpolation of the broadcast input image, and the root gathers
    `out_width*(out_height/size)` pixels from every rank. The interpolation
    weights and the blend are floating-point arithmetic and enter as a
    parameter; the input pixels they blend are modelled. */
module Upscale {
  import opened Pixels
  import opened Slabs
  import opened Distribution

  /** Floor of the input coordinate `i*inN/outN` that output coordinate `i` maps to. */
  function FloorCoord(i: nat, inN: nat, outN: nat): nat
    requires outN > 0
  {
    (i * inN) / outN
  }

  /** Ceiling of the input coordinate `i*inN/outN`. */
  function CeilCoord(i: nat, inN: nat, outN: nat): nat
    requires outN > 0
  {
    (i * inN + outN - 1) / outN
  }

  /** The rows `fm`, `cm` and columns `fn`, `cn` of the four input pixels
      that `bilinear` blends. */
  datatype Corners = Corners(fm: nat, cm: nat, fn: nat, cn: nat)

  /** The corners as the source computes them: floor and ceiling of the
      mapped row and column, unclamped. */
  function AsWrittenCorners(i: nat, j: nat, inW: nat, inH: nat, outW: nat, outH: nat): Corners
    requires outW > 0 && outH > 0
  {
    Corners(FloorCoord(i, inH, outH), CeilCoord(i, inH, outH), FloorCoord(j, inW, outW), CeilCoord(j, inW, outW))
  }

  /** All four reads `Im[m*width + n]` address a pixel of the image. */
  predicate ReadsInside(c: Corners, inW: nat, inH: nat)
  {
    c.fm < inH && c.cm < inH && c.fn < inW && c.cn < inW
  }

  /** `Clamp(x, n)`: `x`, or the last index `n - 1` when `x` is past it. */
  function Clamp(x: nat, n: nat): (y: nat)
    requires n > 0
    ensures y < n
    ensures x < n ==> y == x
  {
    if x < n then x else n - 1
  }

  /** The corners with the ceilings clamped into the image, as the morphing
      program clamps its sample points. */
  function ClampedCorners(i: nat, j: nat, inW: nat, inH: nat, outW: nat, outH: nat): Corners
    requires inW > 0 && inH > 0 && outW > 0 && outH > 0
  {
    var c := AsWrittenCorners(i, j, inW, inH, outW, outH);
    Corners(c.fm, Clamp(c.cm, inH), c.fn, Clamp(c.cn, inW))
  }

  /** Floors lie inside the input; ceilings lie at most one past its last
      row or column. */
  lemma CoordBounds(i: nat, inN: nat, outN: nat)
    requires outN > 0 && inN > 0 && i < outN
    ensures FloorCoord(i, inN, outN) < inN
    ensures CeilCoord(i, inN, outN) <= inN
  {
    DivBelow(i * inN, outN, inN);
    MulLeq(i, outN, inN);
    assert i * inN + outN - 1 < inN * outN + outN;
    DivBelow(i * inN + outN - 1, outN, inN + 1);
  }

  /** A number below `q*d` has quotient below `q`. */
  lemma DivBelow(n: nat, d: nat, q: nat)
    requires d > 0 && n < q * d
    ensures n / d < q
  {
    if q <= n / d {
      MulLeq(q, n / d, d);
    }
  }

  /** The clamped corners always read inside the image, and for every
      output pixel they differ from the source's only in a ceiling that is
      one past the last row or column. */
  lemma ClampedCornersInside(i: nat, j: nat, inW: nat, inH: nat, outW: nat, outH: nat)
    requires inW > 0 && inH > 0 && i < outH && j < outW
    ensures ReadsInside(ClampedCorners(i, j, inW, inH, outW, outH), inW, inH)
    ensures var c, w := ClampedCorners(i, j, inW, inH, outW, outH), AsWrittenCorners(i, j, inW, inH, outW, outH);
            c.fm == w.fm && c.fn == w.fn
            && (c.cm != w.cm ==> w.cm == inH)
            && (c.cn != w.cn ==> w.cn == inW)
  {
    CoordBounds(i, inH, outH);
    CoordBounds(j, inW, outW);
  }

  /** Wherever the source reads inside the image, clamping changes nothing. */
  lemma ClampedCornersAgree(i: nat, j: nat, inW: nat, inH: nat, outW: nat, outH: nat)
    requires inW > 0 && inH > 0 && outW > 0 && outH > 0
    requires ReadsInside(AsWrittenCorners(i, j, inW, inH, outW, outH), inW, inH)
    ensures ClampedCorners(i, j, inW, inH, outW, outH) == AsWrittenCorners(i, j, inW, inH, outW, outH)
  {
  }

  /** `n / d == q` whenever `n` lies in `[q*d, q*d + d)`. */
  lemma DivIs(n: nat, d: nat, q: nat)
    requires d > 0 && q * d <= n < q * d + d
    ensures n / d == q
  {
    DivBelow(n, d, q + 1);
    if n / d < q {
      MulLeq(n / d + 1, q, d);
    }
  }

  /** With the default scale factors (2 across, 8 down), the last output
      row maps to input row `inH - 1/8`, whose ceiling is `inH`, and the
      last output column maps to input column `inW - 1/2`, whose ceiling
      is `inW`: the source reads `Im[cm*width + fn]`, a pixel past the end
      of the input image, and `Im[fm*width + cn]`, the first pixel of the
      next row. */
  lemma AsWrittenBilinearReadsPastImage(inW: nat, inH: nat)
    requires inW > 0 && inH > 0
    ensures var c := AsWrittenCorners(8 * inH - 1, 2 * inW - 1, inW, inH, 2 * inW, 8 * inH);
            c.cm == inH && c.cn == inW && c.fm == inH - 1 && c.fn == inW - 1
            && c.cm * inW + c.fn >= inW * inH
            && c.fm * inW + c.cn == inH * inW
  {
    var i, j := 8 * inH - 1, 2 * inW - 1;
    var outH, outW := 8 * inH, 2 * inW;
    assert i * inH + outH - 1 == inH * outH + (7 * inH - 1);
    DivIs(i * inH + outH - 1, outH, inH);
    assert i * inH == (inH - 1) * outH + (7 * inH);
    DivIs(i * inH, outH, inH - 1);
    assert j * inW + outW - 1 == inW * outW + (inW - 1);
    DivIs(j * inW + outW - 1, outW, inW);
    assert j * inW == (inW - 1) * outW + inW;
    DivIs(j * inW, outW, inW - 1);
    assert (inH - 1) * inW + inW == inH * inW;
  }

  /** The read `Im[m*width + n]` of input pixel `(m, n)`. */
  function At(image: seq<Pixel>, inW: nat, inH: nat, m: nat, n: nat): Pixel
    requires |image| == inW * inH && m < inH && n < inW
  {
    RowMajorIndex(m, n, inW, inH);
    image[m * inW + n]
  }

  /** `bilinear` over the clamped corners: the four input pixels, blended
      by `mix` (the floating-point weights, given the output coordinates),
      stored with alpha 255. */
  function Bilinear(image: seq<Pixel>, inW: nat, inH: nat, outW: nat, outH: nat,
                    mix: (Pixel, Pixel, Pixel, Pixel, nat, nat) -> Rgb, i: nat, j: nat): (p: Pixel)
    requires inW > 0 && inH > 0 && |image| == inW * inH && i < outH && j < outW
    ensures p.a == 255
    ensures var c := ClampedCorners(i, j, inW, inH, outW, outH);
            ReadsInside(c, inW, inH)
            && p == Opaque(mix(At(image, inW, inH, c.fm, c.fn), At(image, inW, inH, c.cm, c.fn),
                               At(image, inW, inH, c.fm, c.cn), At(image, inW, inH, c.cm, c.cn), i, j))
  {
    var c := ClampedCorners(i, j, inW, inH, outW, outH);
    ClampedCornersInside(i, j, inW, inH, outW, outH);
    Opaque(mix(At(image, inW, inH, c.fm, c.fn), At(image, inW, inH, c.cm, c.fn),
               At(image, inW, inH, c.fm, c.cn), At(image, inW, inH, c.cm, c.cn), i, j))
  }

  /** The pixel the loop stores at output coordinates `(i, j)`; coordinates
      outside the output are never visited. */
  function UpscalePixel(image: seq<Pixel>, inW: nat, inH: nat, outW: nat, outH: nat,
                        mix: (Pixel, Pixel, Pixel, Pixel, nat, nat) -> Rgb): (px: (nat, nat) -> Pixel)
    requires inW > 0 && inH > 0 && |image| == inW * inH
    ensures forall i: nat, j: nat :: i < outH && j < outW ==> px(i, j) == Bilinear(image, inW, inH, outW, outH, mix, i, j)
  {
    (i: nat, j: nat) => if i < outH && j < outW then Bilinear(image, inW, inH, outW, outH, mix, i, j) else Blank
  }

  /** Rank `rank`'s `local_out`: output rows `[rank*L, rank*L + L)` with
      `L = outH/size`, every pixel bilinearly interpolated and opaque. */
  function UpscaledSlab(image: seq<Pixel>, inW: nat, inH: nat, outW: nat, outH: nat,
                        mix: (Pixel, Pixel, Pixel, Pixel, nat, nat) -> Rgb, size: nat, rank: nat): (s: seq<Pixel>)
    requires inW > 0 && inH > 0 && |image| == inW * inH && size > 0 && rank < size
    ensures |s| == outW * SlabRows(outH, size)
    ensures forall p :: 0 <= p < |s| ==> s[p].a == 255
  {
    var rows, px := SlabRows(outH, size), UpscalePixel(image, inW, inH, outW, outH, mix);
    var start := SlabStart(rows, rank);
    assert start + rows <= outH by {
      MulLeq(rank + 1, size, rows);
    }
    assert forall i: nat, j: nat :: start <= i < start + rows && j < outW ==> px(i, j).a == 255;
    OpaqueSlab(px, outW, start, rows);
    var s := SlabImage(px, outW, start, rows);
    s
  }

  /** The computation loop: rank `rank` fills its `outW*L` pixels of
      `local_out` row by row. */
  method UpscaleSlab(localOut: array<Pixel>, image: seq<Pixel>, inW: nat, inH: nat, outW: nat, outH: nat,
                     mix: (Pixel, Pixel, Pixel, Pixel, nat, nat) -> Rgb, size: nat, rank: nat)
    requires inW > 0 && inH > 0 && |image| == inW * inH && size > 0 && rank < size
    requires localOut.Length == outW * SlabRows(outH, size)
    modifies localOut
    ensures localOut[..] == UpscaledSlab(image, inW, inH, outW, outH, mix, size, rank)
  {
    var localOutHeight := outH / size;
    var locOutHStart := localOutHeight * rank;
    FillSlab(localOut, outW, locOutHStart, localOutHeight, UpscalePixel(image, inW, inH, outW, outH, mix));
    assert localOut[..] == localOut[..outW * localOutHeight];
  }

  /** The gathered output: rank `r`'s `local_out` occupies pixels
      `[r*outW*L, (r+1)*outW*L)`, and the whole is the upscaled rows
      `[0, size*L)` over the root's buffer; the last `outH % size` rows
      are never computed. */
  lemma UpscaledImageRows(image: seq<Pixel>, inW: nat, inH: nat, outW: nat, outH: nat,
                          mix: (Pixel, Pixel, Pixel, Pixel, nat, nat) -> Rgb, size: nat, recv: seq<Pixel>,
                          slabs: seq<seq<Pixel>>)
    requires inW > 0 && inH > 0 && |image| == inW * inH && size > 0
    requires |recv| == outW * outH && |slabs| == size
    requires forall r :: 0 <= r < size ==> slabs[r] == UpscaledSlab(image, inW, inH, outW, outH, mix, size, r)
    ensures forall r :: 0 <= r < size ==> |slabs[r]| == outW * SlabRows(outH, size)
    ensures size * (outW * SlabRows(outH, size)) <= |recv|
    ensures RootBuffer(recv, slabs, outW * SlabRows(outH, size))
            == SlabImage(UpscalePixel(image, inW, inH, outW, outH, mix), outW, 0, size * SlabRows(outH, size))
               + recv[outW * (size * SlabRows(outH, size))..]
  {
    RootBufferRows(UpscalePixel(image, inW, inH, outW, outH, mix), recv, outW, outH, size, slabs);
  }
}
