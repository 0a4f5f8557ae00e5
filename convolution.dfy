/** `applyKernel` (task3/main.c): one pass of a 2-D convolution over a whole
    tile of RGBA pixels, halo rows included. */
module Convolution {
  import opened Pixels

  /** `unsigned int` arithmetic wraps modulo 2^32. */
  const Modulus: nat := 0x1_0000_0000

  /** A square kernel of `dim * dim` integer weights, row-major. */
  datatype Kernel = Kernel(weights: seq<int>, dim: nat)

  ghost predicate ValidKernel(k: Kernel)
  {
    |k.weights| == k.dim * k.dim
  }

  /** The float scaling of a non-zero accumulator, `(unsigned int)(acc * kernelFactor)`,
      is not modelled: it is a parameter of the model. */
  type Scale = nat -> nat

  /** The weight that multiplies the neighbour at window position `(ky, kx)`:
      the kernel read spatially flipped. */
  function FlippedWeight(k: Kernel, ky: nat, kx: nat): int
    requires ValidKernel(k) && ky < k.dim && kx < k.dim
  {
    RowMajorIndex(k.dim - 1 - ky, k.dim - 1 - kx, k.dim, k.dim);
    k.weights[(k.dim - 1 - ky) * k.dim + (k.dim - 1 - kx)]
  }

  /** Contribution of window position `(ky, kx)` to channel `c` of output
      pixel `(y, x)`: the neighbour `(y + ky - center, x + kx - center)` times
      its weight when that neighbour lies inside the tile, nothing otherwise. */
  function Term(tile: seq<Pixel>, width: nat, height: nat, k: Kernel, y: nat, x: nat, ky: nat, kx: nat, c: nat): int
    requires |tile| == width * height && ValidKernel(k) && ky < k.dim && kx < k.dim && c < 3
  {
    var yy := y + ky - k.dim / 2;
    var xx := x + kx - k.dim / 2;
    if 0 <= xx < width && 0 <= yy < height then
      RowMajorIndex(yy, xx, width, height);
      Channel(tile[yy * width + xx], c) * FlippedWeight(k, ky, kx)
    else 0
  }

  /** Sum of the terms of window row `ky`, columns `[0, n)`. */
  function RowSum(tile: seq<Pixel>, width: nat, height: nat, k: Kernel, y: nat, x: nat, ky: nat, n: nat, c: nat): int
    requires |tile| == width * height && ValidKernel(k) && ky < k.dim && n <= k.dim && c < 3
  {
    if n == 0 then 0
    else RowSum(tile, width, height, k, y, x, ky, n - 1, c) + Term(tile, width, height, k, y, x, ky, n - 1, c)
  }

  /** Sum of the terms of window rows `[0, m)`. */
  function WindowSum(tile: seq<Pixel>, width: nat, height: nat, k: Kernel, y: nat, x: nat, m: nat, c: nat): int
    requires |tile| == width * height && ValidKernel(k) && m <= k.dim && c < 3
  {
    if m == 0 then 0
    else WindowSum(tile, width, height, k, y, x, m - 1, c) + RowSum(tile, width, height, k, y, x, m - 1, k.dim, c)
  }

  /** The `unsigned int` accumulator of channel `c` after the whole window. */
  function Accumulator(tile: seq<Pixel>, width: nat, height: nat, k: Kernel, y: nat, x: nat, c: nat): nat
    requires |tile| == width * height && ValidKernel(k) && c < 3
  {
    WindowSum(tile, width, height, k, y, x, k.dim, c) % Modulus
  }

  /** `(v > 255) ? 255 : v`. */
  function Cap(v: nat): (b: Byte)
    ensures b <= v && (v <= 255 ==> b == v) && (v > 255 ==> b == 255)
  {
    if v > 255 then 255 else v
  }

  /** The pixel written for accumulators `ar`, `ag`, `ab`. */
  function OutputPixel(ar: nat, ag: nat, ab: nat, scale: Scale): (p: Pixel)
    ensures p.a == 255
    ensures ar == 0 && ag == 0 && ab == 0 ==> p == Pixel(0, 0, 0, 255)
    ensures ar != 0 || ag != 0 || ab != 0 ==>
              p.r == Cap(scale(ar)) && p.g == Cap(scale(ag)) && p.b == Cap(scale(ab))
  {
    if ar != 0 || ag != 0 || ab != 0 then Pixel(Cap(scale(ar)), Cap(scale(ag)), Cap(scale(ab)), 255)
    else Pixel(0, 0, 0, 255)
  }

  /** Output pixel `(y, x)` of one kernel pass over `tile`. */
  function Convolved(tile: seq<Pixel>, width: nat, height: nat, k: Kernel, scale: Scale, y: nat, x: nat): Pixel
    requires |tile| == width * height && ValidKernel(k)
  {
    OutputPixel(Accumulator(tile, width, height, k, y, x, 0),
                Accumulator(tile, width, height, k, y, x, 1),
                Accumulator(tile, width, height, k, y, x, 2), scale)
  }

  /** Output pixel number `i` of the row-major tile. */
  function ConvolvedAt(tile: seq<Pixel>, width: nat, height: nat, k: Kernel, scale: Scale, i: nat): Pixel
    requires |tile| == width * height && ValidKernel(k) && i < |tile|
  {
    Convolved(tile, width, height, k, scale, i / width, i % width)
  }

  /** The whole output tile, row-major. */
  function ConvolveTile(tile: seq<Pixel>, width: nat, height: nat, k: Kernel, scale: Scale): (out: seq<Pixel>)
    requires |tile| == width * height && ValidKernel(k)
    ensures |out| == |tile|
  {
    seq(|tile|, i requires 0 <= i < |tile| => ConvolvedAt(tile, width, height, k, scale, i))
  }

  /** Pixel `(y, x)` of the output tile is the kernel pass centred on `(y, x)`. */
  lemma ConvolveTileAt(tile: seq<Pixel>, width: nat, height: nat, k: Kernel, scale: Scale, y: nat, x: nat)
    requires |tile| == width * height && ValidKernel(k) && y < height && x < width
    ensures |ConvolveTile(tile, width, height, k, scale)| == width * height
    ensures y * width + x < width * height
    ensures ConvolveTile(tile, width, height, k, scale)[y * width + x] == Convolved(tile, width, height, k, scale, y, x)
  {
    RowMajorIndex(y, x, width, height);
    RowMajorDivMod(y, x, width);
  }

  // ---------------------------------------------------------------------
  // Two kernels whose pass is known in advance

  /** Every colour channel of the tile is 0; alpha is free. */
  ghost predicate Black(tile: seq<Pixel>)
  {
    forall p :: 0 <= p < |tile| ==> tile[p].r == 0 && tile[p].g == 0 && tile[p].b == 0
  }

  lemma TermOfBlack(tile: seq<Pixel>, width: nat, height: nat, k: Kernel, y: nat, x: nat, ky: nat, kx: nat, c: nat)
    requires |tile| == width * height && ValidKernel(k) && ky < k.dim && kx < k.dim && c < 3 && Black(tile)
    ensures Term(tile, width, height, k, y, x, ky, kx, c) == 0
  {
    var yy, xx := y + ky - k.dim / 2, x + kx - k.dim / 2;
    if 0 <= xx < width && 0 <= yy < height {
      RowMajorIndex(yy, xx, width, height);
      assert Channel(tile[yy * width + xx], c) == 0;
    }
  }

  lemma {:induction false} RowSumOfBlack(tile: seq<Pixel>, width: nat, height: nat, k: Kernel, y: nat, x: nat, ky: nat, n: nat, c: nat)
    requires |tile| == width * height && ValidKernel(k) && ky < k.dim && n <= k.dim && c < 3 && Black(tile)
    ensures RowSum(tile, width, height, k, y, x, ky, n, c) == 0
  {
    if n > 0 {
      RowSumOfBlack(tile, width, height, k, y, x, ky, n - 1, c);
      TermOfBlack(tile, width, height, k, y, x, ky, n - 1, c);
    }
  }

  lemma {:induction false} WindowSumOfBlack(tile: seq<Pixel>, width: nat, height: nat, k: Kernel, y: nat, x: nat, m: nat, c: nat)
    requires |tile| == width * height && ValidKernel(k) && m <= k.dim && c < 3 && Black(tile)
    ensures WindowSum(tile, width, height, k, y, x, m, c) == 0
  {
    if m > 0 {
      WindowSumOfBlack(tile, width, height, k, y, x, m - 1, c);
      RowSumOfBlack(tile, width, height, k, y, x, m - 1, k.dim, c);
    }
  }

  /** A tile that is black in every colour channel comes out black and
      opaque at every pixel, whatever the kernel and the scale factor. */
  lemma ZeroImageGivesOpaqueBlack(tile: seq<Pixel>, width: nat, height: nat, k: Kernel, scale: Scale)
    requires |tile| == width * height && ValidKernel(k) && Black(tile)
    ensures forall i :: 0 <= i < |tile| ==> ConvolveTile(tile, width, height, k, scale)[i] == Pixel(0, 0, 0, 255)
  {
    forall i | 0 <= i < |tile|
      ensures ConvolveTile(tile, width, height, k, scale)[i] == Pixel(0, 0, 0, 255)
    {
      var y, x := i / width, i % width;
      WindowSumOfBlack(tile, width, height, k, y, x, k.dim, 0);
      WindowSumOfBlack(tile, width, height, k, y, x, k.dim, 1);
      WindowSumOfBlack(tile, width, height, k, y, x, k.dim, 2);
    }
  }

  /** The `dim * dim` identity kernel: weight 1 at the centre, 0 elsewhere. */
  function IdentityKernel(dim: nat): (k: Kernel)
    ensures ValidKernel(k) && k.dim == dim
  {
    Kernel(seq(dim * dim, p => if p == (dim / 2) * dim + dim / 2 then 1 else 0), dim)
  }

  /** The flipped identity kernel is 1 at the centre and 0 elsewhere. */
  lemma IdentityWeight(dim: nat, ky: nat, kx: nat)
    requires dim % 2 == 1 && ky < dim && kx < dim
    ensures FlippedWeight(IdentityKernel(dim), ky, kx) == (if ky == dim / 2 && kx == dim / 2 then 1 else 0)
  {
    var a, b, centre := dim - 1 - ky, dim - 1 - kx, dim / 2;
    var at, mid := a * dim + b, centre * dim + centre;
    RowMajorIndex(a, b, dim, dim);
    assert FlippedWeight(IdentityKernel(dim), ky, kx) == if at == mid then 1 else 0;
    RowMajorDivMod(a, b, dim);
    RowMajorDivMod(centre, centre, dim);
    assert at == mid <==> a == centre && b == centre;
    assert dim - 1 - centre == centre;
  }

  /** Under the identity kernel only the centre of the window contributes. */
  lemma IdentityTerm(tile: seq<Pixel>, width: nat, height: nat, dim: nat, y: nat, x: nat, ky: nat, kx: nat, c: nat)
    requires |tile| == width * height && dim % 2 == 1 && ky < dim && kx < dim && c < 3
    requires y < height && x < width
    ensures y * width + x < |tile|
    ensures Term(tile, width, height, IdentityKernel(dim), y, x, ky, kx, c)
            == (if ky == dim / 2 && kx == dim / 2 then Channel(tile[y * width + x], c) else 0)
  {
    RowMajorIndex(y, x, width, height);
    IdentityWeight(dim, ky, kx);
  }

  lemma {:induction false} IdentityRowSum(tile: seq<Pixel>, width: nat, height: nat, dim: nat, y: nat, x: nat,
                                          ky: nat, n: nat, c: nat)
    requires |tile| == width * height && dim % 2 == 1 && ky < dim && n <= dim && c < 3
    requires y < height && x < width
    ensures y * width + x < |tile|
    ensures RowSum(tile, width, height, IdentityKernel(dim), y, x, ky, n, c)
            == (if ky == dim / 2 && dim / 2 < n then Channel(tile[y * width + x], c) else 0)
  {
    RowMajorIndex(y, x, width, height);
    if n > 0 {
      IdentityRowSum(tile, width, height, dim, y, x, ky, n - 1, c);
      IdentityTerm(tile, width, height, dim, y, x, ky, n - 1, c);
    }
  }

  lemma {:induction false} IdentityWindowSum(tile: seq<Pixel>, width: nat, height: nat, dim: nat, y: nat, x: nat,
                                             m: nat, c: nat)
    requires |tile| == width * height && dim % 2 == 1 && m <= dim && c < 3
    requires y < height && x < width
    ensures y * width + x < |tile|
    ensures WindowSum(tile, width, height, IdentityKernel(dim), y, x, m, c)
            == (if dim / 2 < m then Channel(tile[y * width + x], c) else 0)
  {
    RowMajorIndex(y, x, width, height);
    if m > 0 {
      IdentityWindowSum(tile, width, height, dim, y, x, m - 1, c);
      IdentityRowSum(tile, width, height, dim, y, x, m - 1, dim, c);
    }
  }

  /** The identity pass at pixel `(y, x)` keeps its colour and makes it opaque. */
  lemma IdentityConvolved(tile: seq<Pixel>, width: nat, height: nat, dim: nat, scale: Scale, y: nat, x: nat, i: nat)
    requires |tile| == width * height && dim % 2 == 1
    requires forall v: nat :: v <= 255 ==> scale(v) == v
    requires y < height && x < width && i == y * width + x
    ensures i < |tile| && Convolved(tile, width, height, IdentityKernel(dim), scale, y, x) == tile[i].(a := 255)
  {
    RowMajorIndex(y, x, width, height);
    var p := tile[i];
    IdentityWindowSum(tile, width, height, dim, y, x, dim, 0);
    IdentityWindowSum(tile, width, height, dim, y, x, dim, 1);
    IdentityWindowSum(tile, width, height, dim, y, x, dim, 2);
    var k := IdentityKernel(dim);
    assert Accumulator(tile, width, height, k, y, x, 0) == p.r;
    assert Accumulator(tile, width, height, k, y, x, 1) == p.g;
    assert Accumulator(tile, width, height, k, y, x, 2) == p.b;
    assert scale(p.r) == p.r && scale(p.g) == p.g && scale(p.b) == p.b;
    assert Convolved(tile, width, height, k, scale, y, x) == OutputPixel(p.r, p.g, p.b, scale);
  }

  /** Index `i` of a `width * height` buffer is pixel `(i / width, i % width)`. */
  lemma IndexOfPixel(i: nat, width: nat, height: nat)
    requires i < width * height
    ensures width > 0 && i / width < height && i % width < width
    ensures (i / width) * width + i % width == i
  {
    if i / width >= height {
      MulLeq(height, i / width, width);
    }
  }

  /** With an odd identity kernel and a factor that keeps every value up to
      255, a pass keeps the colour of every pixel and makes it opaque. */
  lemma IdentityKernelKeepsColours(tile: seq<Pixel>, width: nat, height: nat, dim: nat, scale: Scale)
    requires |tile| == width * height && dim % 2 == 1
    requires forall v: nat :: v <= 255 ==> scale(v) == v
    ensures forall i :: 0 <= i < |tile| ==>
              ConvolveTile(tile, width, height, IdentityKernel(dim), scale)[i] == tile[i].(a := 255)
  {
    forall i | 0 <= i < |tile|
      ensures ConvolveTile(tile, width, height, IdentityKernel(dim), scale)[i] == tile[i].(a := 255)
    {
      IndexOfPixel(i, width, height);
      IdentityConvolved(tile, width, height, dim, scale, i / width, i % width, i);
    }
  }

  lemma ModAdd(a: int, t: int)
    ensures (a % Modulus + t) % Modulus == (a + t) % Modulus
  {
    var q := a / Modulus;
    assert a == q * Modulus + a % Modulus;
    assert a + t == (a % Modulus + t) + q * Modulus;
    ModMultiple(a % Modulus + t, q);
  }

  lemma ModMultiple(v: int, q: int)
    ensures (v + q * Modulus) % Modulus == v % Modulus
  {
    var r := v % Modulus;
    var d := v / Modulus;
    assert v + q * Modulus == (d + q) * Modulus + r;
  }

  /** A neighbour inside the tile contributes its channel times the flipped
      weight, read at the addresses `applyKernel` uses. */
  lemma TermInside(tile: seq<Pixel>, width: nat, height: nat, k: Kernel, y: nat, x: nat, ky: nat, kx: nat)
    requires |tile| == width * height && ValidKernel(k) && ky < k.dim && kx < k.dim
    requires 0 <= y + ky - k.dim / 2 < height && 0 <= x + kx - k.dim / 2 < width
    ensures var yy, xx := y + ky - k.dim / 2, x + kx - k.dim / 2;
            var w := (k.dim - 1 - ky) * k.dim + (k.dim - 1 - kx);
            && 0 <= yy * width + xx < |tile| && 0 <= w < |k.weights|
            && Term(tile, width, height, k, y, x, ky, kx, 0) == tile[yy * width + xx].r * k.weights[w]
            && Term(tile, width, height, k, y, x, ky, kx, 1) == tile[yy * width + xx].g * k.weights[w]
            && Term(tile, width, height, k, y, x, ky, kx, 2) == tile[yy * width + xx].b * k.weights[w]
  {
    RowMajorIndex(y + ky - k.dim / 2, x + kx - k.dim / 2, width, height);
    RowMajorIndex(k.dim - 1 - ky, k.dim - 1 - kx, k.dim, k.dim);
  }

  /** The accumulation of one output pixel: the two inner loops of
      `applyKernel`, with the three `unsigned int` sums. */
  method AccumulateWindow(tile: array<Pixel>, width: nat, height: nat, k: Kernel, y: nat, x: nat)
      returns (ar: nat, ag: nat, ab: nat)
    requires tile.Length == width * height && ValidKernel(k)
    ensures ar == Accumulator(tile[..], width, height, k, y, x, 0)
    ensures ag == Accumulator(tile[..], width, height, k, y, x, 1)
    ensures ab == Accumulator(tile[..], width, height, k, y, x, 2)
  {
    ghost var s := tile[..];
    ar, ag, ab := 0, 0, 0;
    var kernelY := 0;
    while kernelY < k.dim
      invariant 0 <= kernelY <= k.dim
      invariant ar == WindowSum(s, width, height, k, y, x, kernelY, 0) % Modulus
      invariant ag == WindowSum(s, width, height, k, y, x, kernelY, 1) % Modulus
      invariant ab == WindowSum(s, width, height, k, y, x, kernelY, 2) % Modulus
    {
      ghost var w0 := WindowSum(s, width, height, k, y, x, kernelY, 0);
      ghost var w1 := WindowSum(s, width, height, k, y, x, kernelY, 1);
      ghost var w2 := WindowSum(s, width, height, k, y, x, kernelY, 2);
      ar, ag, ab := AccumulateRow(tile, width, height, k, y, x, kernelY, ar, ag, ab);
      ModAdd(w0, RowSum(s, width, height, k, y, x, kernelY, k.dim, 0));
      ModAdd(w1, RowSum(s, width, height, k, y, x, kernelY, k.dim, 1));
      ModAdd(w2, RowSum(s, width, height, k, y, x, kernelY, k.dim, 2));
      kernelY := kernelY + 1;
    }
  }

  /** The innermost loop of `applyKernel`: adds window row `kernelY` to the
      three accumulators, wrapping modulo 2^32. */
  method AccumulateRow(tile: array<Pixel>, width: nat, height: nat, k: Kernel, y: nat, x: nat, kernelY: nat,
                       ar0: nat, ag0: nat, ab0: nat)
      returns (ar: nat, ag: nat, ab: nat)
    requires tile.Length == width * height && ValidKernel(k) && kernelY < k.dim
    requires ar0 < Modulus && ag0 < Modulus && ab0 < Modulus
    ensures ar == (ar0 + RowSum(tile[..], width, height, k, y, x, kernelY, k.dim, 0)) % Modulus
    ensures ag == (ag0 + RowSum(tile[..], width, height, k, y, x, kernelY, k.dim, 1)) % Modulus
    ensures ab == (ab0 + RowSum(tile[..], width, height, k, y, x, kernelY, k.dim, 2)) % Modulus
  {
    ghost var s := tile[..];
    var center := k.dim / 2;
    var nky := k.dim - 1 - kernelY;
    ar, ag, ab := ar0, ag0, ab0;
    var kernelX := 0;
    while kernelX < k.dim
      invariant 0 <= kernelX <= k.dim
      invariant ar == (ar0 + RowSum(s, width, height, k, y, x, kernelY, kernelX, 0)) % Modulus
      invariant ag == (ag0 + RowSum(s, width, height, k, y, x, kernelY, kernelX, 1)) % Modulus
      invariant ab == (ab0 + RowSum(s, width, height, k, y, x, kernelY, kernelX, 2)) % Modulus
    {
      ghost var e0 := ar0 + RowSum(s, width, height, k, y, x, kernelY, kernelX, 0);
      ghost var e1 := ag0 + RowSum(s, width, height, k, y, x, kernelY, kernelX, 1);
      ghost var e2 := ab0 + RowSum(s, width, height, k, y, x, kernelY, kernelX, 2);
      var nkx := k.dim - 1 - kernelX;
      var yy := y + (kernelY - center);
      var xx := x + (kernelX - center);
      if xx >= 0 && xx < width && yy >= 0 && yy < height {
        TermInside(s, width, height, k, y, x, kernelY, kernelX);
        var weight := k.weights[nky * k.dim + nkx];
        var p := tile[yy * width + xx];
        ModAdd(e0, p.r * weight);
        ModAdd(e1, p.g * weight);
        ModAdd(e2, p.b * weight);
        ar := (ar + p.r * weight) % Modulus;
        ag := (ag + p.g * weight) % Modulus;
        ab := (ab + p.b * weight) % Modulus;
      }
      kernelX := kernelX + 1;
    }
  }

  /** `applyKernel(out, in, width, height, kernel, kernelDim, kernelFactor)`:
      every pixel of the `width` x `height` tile `out` receives the kernel
      pass over `in`. */
  method ApplyKernel(out: array<Pixel>, input: array<Pixel>, width: nat, height: nat, k: Kernel, scale: Scale)
    requires out != input
    requires input.Length == width * height && out.Length == width * height && ValidKernel(k)
    modifies out
    ensures out[..] == ConvolveTile(input[..], width, height, k, scale)
  {
    ApplyKernelRows(out, input, width, height, k, scale, 0, height);
    assert width * height == out.Length;
    assert forall i :: 0 <= i < out.Length ==> out[..][i] == ConvolveTile(input[..], width, height, k, scale)[i];
  }

  /** The loops of `applyKernel` run over the output rows
      `[firstRow, lastRow)` only: those pixels receive the kernel pass over
      `in` (whose window still sees the whole tile), all others keep their
      value. */
  method ApplyKernelRows(out: array<Pixel>, input: array<Pixel>, width: nat, height: nat, k: Kernel, scale: Scale,
                         firstRow: nat, lastRow: nat)
    requires out != input
    requires input.Length == width * height && out.Length == width * height && ValidKernel(k)
    requires firstRow <= lastRow <= height
    modifies out
    ensures width * firstRow <= width * lastRow <= out.Length
    ensures out[..] == PassOver(input[..], old(out[..]), width, height, k, scale, width * firstRow, width * lastRow)
  {
    MulLeq(firstRow, lastRow, width);
    MulLeq(lastRow, height, width);
    ghost var s, start := input[..], out[..];
    ghost var lo: nat := width * firstRow;
    var imageY := firstRow;
    ghost var done: nat := lo;
    while imageY < lastRow
      invariant firstRow <= imageY <= lastRow && input[..] == s
      invariant done == width * imageY
      invariant out[..] == PassOver(s, start, width, height, k, scale, lo, done)
    {
      ghost var next: nat := done + width;
      assert next == width * (imageY + 1);
      ApplyKernelRow(out, input, width, height, k, scale, imageY);
      PassOverGrows(s, start, width, height, k, scale, lo, done, next);
      done := next;
      imageY := imageY + 1;
    }
  }

  /** `base` with the pixels `[lo, hi)` replaced by the kernel pass over `s`. */
  function PassOver(s: seq<Pixel>, base: seq<Pixel>, width: nat, height: nat, k: Kernel, scale: Scale,
                    lo: nat, hi: nat): (r: seq<Pixel>)
    requires |s| == width * height && |base| == |s| && ValidKernel(k)
    ensures |r| == |base|
    ensures forall i :: 0 <= i < |r| ==> r[i] == if lo <= i < hi then ConvolvedAt(s, width, height, k, scale, i) else base[i]
  {
    seq(|base|, i requires 0 <= i < |base| => if lo <= i < hi then ConvolvedAt(s, width, height, k, scale, i) else base[i])
  }

  /** Passing over `[mid, hi)` after `[lo, mid)` passes over `[lo, hi)`. */
  lemma PassOverGrows(s: seq<Pixel>, base: seq<Pixel>, width: nat, height: nat, k: Kernel, scale: Scale,
                      lo: nat, mid: nat, hi: nat)
    requires |s| == width * height && |base| == |s| && ValidKernel(k)
    requires lo <= mid <= hi
    ensures PassOver(s, PassOver(s, base, width, height, k, scale, lo, mid), width, height, k, scale, mid, hi)
            == PassOver(s, base, width, height, k, scale, lo, hi)
  {
  }

  /** Storing the pass at pixel `hi` extends the pass over `[lo, hi)` by one pixel. */
  lemma PassOverStep(s: seq<Pixel>, base: seq<Pixel>, width: nat, height: nat, k: Kernel, scale: Scale,
                     lo: nat, hi: nat)
    requires |s| == width * height && |base| == |s| && ValidKernel(k)
    requires lo <= hi < |base|
    ensures PassOver(s, base, width, height, k, scale, lo, hi)[hi := ConvolvedAt(s, width, height, k, scale, hi)]
            == PassOver(s, base, width, height, k, scale, lo, hi + 1)
  {
  }

  /** One iteration of the outer loop of `applyKernel`: row `imageY` of
      `out` receives the kernel pass over `in`. */
  method ApplyKernelRow(out: array<Pixel>, input: array<Pixel>, width: nat, height: nat, k: Kernel, scale: Scale,
                        imageY: nat)
    requires out != input
    requires input.Length == width * height && out.Length == width * height && ValidKernel(k)
    requires imageY < height
    modifies out
    ensures width * (imageY + 1) <= out.Length
    ensures out[..] == PassOver(input[..], old(out[..]), width, height, k, scale, width * imageY, width * (imageY + 1))
  {
    MulLeq(imageY + 1, height, width);
    ghost var s, start := input[..], out[..];
    var rowStart := imageY * width;
    assert rowStart == width * imageY && rowStart + width == width * (imageY + 1);
    var imageX := 0;
    while imageX < width
      invariant 0 <= imageX <= width && input[..] == s
      invariant out[..] == PassOver(s, start, width, height, k, scale, rowStart, rowStart + imageX)
    {
      var ar, ag, ab := AccumulateWindow(input, width, height, k, imageY, imageX);
      ConvolvedAtRowMajor(s, width, height, k, scale, imageY, imageX);
      var idx := rowStart + imageX;
      StorePixel(out, idx, ar, ag, ab, scale);
      PassOverStep(s, start, width, height, k, scale, rowStart, idx);
      imageX := imageX + 1;
    }
  }

  /** The store of one output pixel (`out[imageY][imageX]`): the capped,
      scaled accumulators with alpha 255, or opaque black when all three are 0. */
  method StorePixel(out: array<Pixel>, idx: nat, ar: nat, ag: nat, ab: nat, scale: Scale)
    requires idx < out.Length
    modifies out
    ensures out[..] == old(out[..])[idx := OutputPixel(ar, ag, ab, scale)]
  {
    if ar != 0 || ag != 0 || ab != 0 {
      out[idx] := Pixel(Cap(scale(ar)), Cap(scale(ag)), Cap(scale(ab)), 255);
    } else {
      out[idx] := Pixel(0, 0, 0, 255);
    }
  }

  /** Row-major index `y * width + x` is output pixel `(y, x)`. */
  lemma ConvolvedAtRowMajor(tile: seq<Pixel>, width: nat, height: nat, k: Kernel, scale: Scale, y: nat, x: nat)
    requires |tile| == width * height && ValidKernel(k) && y < height && x < width
    ensures y * width + x < |tile|
    ensures ConvolvedAt(tile, width, height, k, scale, y * width + x) == Convolved(tile, width, height, k, scale, y, x)
  {
    MulLeq(y + 1, height, width);
    RowMajorDivMod(y, x, width);
  }
}
