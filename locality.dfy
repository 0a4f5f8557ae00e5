/** Why halo rows are enough: a kernel pass at a tile pixel whose window
    stays inside the tile reads exactly what the same pass over the whole
    image reads, provided the tile holds the matching image rows and blank
    rows where the image has none. */
module Locality {
  import opened Pixels
  import opened Rows
  import opened Convolution

  /** Image row `r`, or a blank row where the image has no row `r`. */
  function PaddedRow(image: seq<Pixel>, width: nat, height: nat, r: int): (row: seq<Pixel>)
    requires |image| == width * height
    ensures |row| == width
  {
    if 0 <= r < height then Row(image, width, height, r) else Blanks(width)
  }

  /** `tile` holds the rows `[top, top + rows)` of the zero-padded image. */
  ghost predicate IsWindow(tile: seq<Pixel>, rows: nat, image: seq<Pixel>, width: nat, height: nat, top: int)
  {
    && |tile| == width * rows && |image| == width * height
    && forall j :: 0 <= j < rows ==> Row(tile, width, rows, j) == PaddedRow(image, width, height, top + j)
  }

  /** Tile row `y` sees its whole kernel window inside the tile. */
  ghost predicate WindowInside(k: Kernel, rows: nat, y: nat)
  {
    k.dim / 2 <= y && y + (k.dim - 1 - k.dim / 2) < rows
  }

  lemma TermLocal(tile: seq<Pixel>, rows: nat, image: seq<Pixel>, width: nat, height: nat, top: int,
                  k: Kernel, y: nat, x: nat, ky: nat, kx: nat, c: nat)
    requires IsWindow(tile, rows, image, width, height, top)
    requires ValidKernel(k) && ky < k.dim && kx < k.dim && c < 3
    requires WindowInside(k, rows, y) && 0 <= top + y
    ensures Term(tile, width, rows, k, y, x, ky, kx, c) == Term(image, width, height, k, top + y, x, ky, kx, c)
  {
    var yy := y + ky - k.dim / 2;
    var xx := x + kx - k.dim / 2;
    if 0 <= xx < width {
      assert 0 <= yy < rows;
      PixelLocal(tile, rows, image, width, height, top + yy, yy, xx);
    }
  }

  /** Pixel `(yy, xx)` of a tile row that holds padded image row `r`. */
  lemma PixelLocal(tile: seq<Pixel>, rows: nat, image: seq<Pixel>, width: nat, height: nat, r: int, yy: nat, xx: nat)
    requires |tile| == width * rows && |image| == width * height && yy < rows && xx < width
    requires Row(tile, width, rows, yy) == PaddedRow(image, width, height, r)
    ensures yy * width + xx < |tile|
    ensures 0 <= r < height ==> r * width + xx < |image| && tile[yy * width + xx] == image[r * width + xx]
    ensures !(0 <= r < height) ==> tile[yy * width + xx] == Blank
  {
    PixelOfRow(tile, width, rows, yy, xx);
    if 0 <= r < height {
      PixelOfRow(image, width, height, r, xx);
    }
  }

  lemma {:induction false} RowSumLocal(tile: seq<Pixel>, rows: nat, image: seq<Pixel>, width: nat, height: nat, top: int,
                                       k: Kernel, y: nat, x: nat, ky: nat, n: nat, c: nat)
    requires IsWindow(tile, rows, image, width, height, top)
    requires ValidKernel(k) && ky < k.dim && n <= k.dim && c < 3
    requires WindowInside(k, rows, y) && 0 <= top + y
    ensures RowSum(tile, width, rows, k, y, x, ky, n, c) == RowSum(image, width, height, k, top + y, x, ky, n, c)
  {
    if n > 0 {
      RowSumLocal(tile, rows, image, width, height, top, k, y, x, ky, n - 1, c);
      TermLocal(tile, rows, image, width, height, top, k, y, x, ky, n - 1, c);
    }
  }

  lemma {:induction false} WindowSumLocal(tile: seq<Pixel>, rows: nat, image: seq<Pixel>, width: nat, height: nat, top: int,
                                          k: Kernel, y: nat, x: nat, m: nat, c: nat)
    requires IsWindow(tile, rows, image, width, height, top)
    requires ValidKernel(k) && m <= k.dim && c < 3
    requires WindowInside(k, rows, y) && 0 <= top + y
    ensures WindowSum(tile, width, rows, k, y, x, m, c) == WindowSum(image, width, height, k, top + y, x, m, c)
  {
    if m > 0 {
      WindowSumLocal(tile, rows, image, width, height, top, k, y, x, m - 1, c);
      RowSumLocal(tile, rows, image, width, height, top, k, y, x, m - 1, k.dim, c);
    }
  }

  /** The kernel pass at tile pixel `(y, x)` equals the pass over the
      zero-padded image at `(top + y, x)`. */
  lemma ConvolvedLocal(tile: seq<Pixel>, rows: nat, image: seq<Pixel>, width: nat, height: nat, top: int,
                       k: Kernel, scale: Scale, y: nat, x: nat)
    requires IsWindow(tile, rows, image, width, height, top)
    requires ValidKernel(k) && WindowInside(k, rows, y) && 0 <= top + y
    ensures Convolved(tile, width, rows, k, scale, y, x) == Convolved(image, width, height, k, scale, top + y, x)
  {
    WindowSumLocal(tile, rows, image, width, height, top, k, y, x, k.dim, 0);
    WindowSumLocal(tile, rows, image, width, height, top, k, y, x, k.dim, 1);
    WindowSumLocal(tile, rows, image, width, height, top, k, y, x, k.dim, 2);
  }
}
