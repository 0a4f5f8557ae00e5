/** Contiguous pixel-range transfers between buffers: the effect, on the
    receiving side, of every scatter, gather and halo send-and-receive of the
    engine (task3/main.c). */
module Rows {
  import opened Pixels

  /** `dst` with `piece` written over it starting at `offset`. */
  function Splice<T>(dst: seq<T>, offset: nat, piece: seq<T>): (r: seq<T>)
    requires offset + |piece| <= |dst|
    ensures |r| == |dst|
    ensures forall k :: 0 <= k < |dst| ==>
              r[k] == if offset <= k < offset + |piece| then piece[k - offset] else dst[k]
  {
    dst[..offset] + piece + dst[offset + |piece|..]
  }

  /** Splicing a piece back in where it came from changes nothing. */
  lemma SpliceSelf<T>(s: seq<T>, lo: nat, hi: nat)
    requires lo <= hi <= |s|
    ensures Splice(s, lo, s[lo..hi]) == s
  {
  }

  /** A splice leaves a range that it does not overlap as it was. */
  lemma SpliceOutside<T>(dst: seq<T>, offset: nat, piece: seq<T>, lo: nat, hi: nat)
    requires offset + |piece| <= |dst| && lo <= hi <= |dst|
    requires hi <= offset || offset + |piece| <= lo
    ensures Splice(dst, offset, piece)[lo..hi] == dst[lo..hi]
  {
  }

  /** Reading back the spliced range yields the piece. */
  lemma SpliceInside<T>(dst: seq<T>, offset: nat, piece: seq<T>)
    requires offset + |piece| <= |dst|
    ensures Splice(dst, offset, piece)[offset .. offset + |piece|] == piece
  {
  }

  /** Rows `[row, row + count)` of a `width`-wide buffer. */
  function RowSlice(buffer: seq<Pixel>, width: nat, row: nat, count: nat): (s: seq<Pixel>)
    requires width * (row + count) <= |buffer|
    ensures |s| == width * count
  {
    MulLeq(row, row + count, width);
    buffer[width * row .. width * (row + count)]
  }

  /** Row `j` of a buffer of `rows` rows of `width` pixels. */
  function Row(buffer: seq<Pixel>, width: nat, rows: nat, j: nat): (r: seq<Pixel>)
    requires |buffer| == width * rows && j < rows
    ensures |r| == width
  {
    RowRangeInTile(width, rows, j, 1);
    RowSlice(buffer, width, j, 1)
  }

  /** Pixel `(y, x)` of a row-major buffer is pixel `x` of its row `y`. */
  lemma PixelOfRow(buffer: seq<Pixel>, width: nat, rows: nat, y: nat, x: nat)
    requires |buffer| == width * rows && y < rows && x < width
    ensures y * width + x < |buffer|
    ensures buffer[y * width + x] == Row(buffer, width, rows, y)[x]
  {
    RowMajorIndex(y, x, width, rows);
    RowRangeInTile(width, rows, y, 1);
  }

  /** Equal row ranges have equal rows. */
  lemma RowsOfSlice(t: seq<Pixel>, tRows: nat, a: nat, u: seq<Pixel>, uRows: nat, b: nat, width: nat, count: nat, j: nat)
    requires |t| == width * tRows && |u| == width * uRows
    requires a + count <= tRows && b + count <= uRows && j < count
    requires width * (a + count) <= |t| && width * (b + count) <= |u|
    requires RowSlice(t, width, a, count) == RowSlice(u, width, b, count)
    ensures Row(t, width, tRows, a + j) == Row(u, width, uRows, b + j)
  {
    RowInSlice(t, width, tRows, a, count, j);
    RowInSlice(u, width, uRows, b, count, j);
  }

  /** Writing `piece` over rows `[a, a + c)` puts it there. */
  lemma SpliceRowsInside(dst: seq<Pixel>, width: nat, rows: nat, a: nat, c: nat, piece: seq<Pixel>)
    requires |dst| == width * rows && a + c <= rows && |piece| == width * c
    ensures width * a + |piece| <= |dst| && width * (a + c) <= |dst|
    ensures RowSlice(Splice(dst, width * a, piece), width, a, c) == piece
  {
    RowRangeInTile(width, rows, a, c);
    Distribute(width, a, c);
    SpliceInside(dst, width * a, piece);
  }

  /** Writing `piece` over rows `[a, a + c)` leaves the rows `[b, b + e)` outside them as they were. */
  lemma SpliceRowsOutside(dst: seq<Pixel>, width: nat, rows: nat, a: nat, c: nat, piece: seq<Pixel>, b: nat, e: nat)
    requires |dst| == width * rows && a + c <= rows && |piece| == width * c && b + e <= rows
    requires b + e <= a || a + c <= b
    ensures width * a + |piece| <= |dst| && width * (b + e) <= |dst|
    ensures RowSlice(Splice(dst, width * a, piece), width, b, e) == RowSlice(dst, width, b, e)
  {
    RowRangeInTile(width, rows, a, c);
    RowRangeInTile(width, rows, b, e);
    Distribute(width, a, c);
    if b + e <= a {
      ScaleLeq(width, b + e, a);
    } else {
      ScaleLeq(width, a + c, b);
    }
    SpliceOutside(dst, width * a, piece, width * b, width * (b + e));
  }

  /** Any row range of a blank buffer is blank. */
  lemma BlankRows(width: nat, rows: nat, a: nat, c: nat)
    requires a + c <= rows
    ensures width * (a + c) <= width * rows
    ensures RowSlice(Blanks(width * rows), width, a, c) == Blanks(width * c)
  {
    RowRangeInTile(width, rows, a, c);
  }

  /** Row `a + j` of a buffer is the `j`-th row of the slice starting at row `a`. */
  lemma RowInSlice(t: seq<Pixel>, width: nat, rows: nat, a: nat, count: nat, j: nat)
    requires |t| == width * rows && a + count <= rows && j < count
    requires width * (a + count) <= |t|
    ensures width * (j + 1) <= |RowSlice(t, width, a, count)|
    ensures Row(t, width, rows, a + j) == RowSlice(t, width, a, count)[width * j .. width * (j + 1)]
  {
    SubSlice(t, width, a, count, j, 1);
  }

  /** Rows `[d, d + c)` of the slice of rows `[a, a + b)` are the rows `[a + d, a + d + c)`. */
  lemma SubSlice(t: seq<Pixel>, width: nat, a: nat, b: nat, d: nat, c: nat)
    requires d + c <= b && width * (a + b) <= |t|
    ensures width * (a + d + c) <= |t| && width * (d + c) <= width * b
    ensures RowSlice(t, width, a + d, c) == RowSlice(t, width, a, b)[width * d .. width * (d + c)]
  {
    MulLeq(a + d + c, a + b, width);
    MulLeq(d + c, b, width);
    MulLeq(d, d + c, width);
    Distribute(width, a, d);
    Distribute(width, a, d + c);
    SliceOfSlice(t, width * a, width * (a + b), width * d, width * (d + c));
  }

  lemma Distribute(w: nat, x: nat, y: nat)
    ensures w * (x + y) == w * x + w * y
  {
  }

  lemma SliceOfSlice<T>(t: seq<T>, lo: int, hi: int, d1: int, d2: int)
    requires 0 <= lo <= hi <= |t| && 0 <= d1 <= d2 <= hi - lo
    ensures t[lo..hi][d1..d2] == t[lo + d1 .. lo + d2]
  {
    forall k | 0 <= k < d2 - d1
      ensures t[lo..hi][d1..d2][k] == t[lo + d1 .. lo + d2][k]
    {
    }
  }

  /** Rows `[row, row + count)` of a buffer of `rowsTotal` rows lie inside it. */
  lemma RowRangeInTile(width: nat, rowsTotal: nat, row: nat, count: nat)
    requires row + count <= rowsTotal
    ensures width * row <= width * (row + count) <= width * rowsTotal
  {
    MulLeq(row, row + count, width);
    MulLeq(row + count, rowsTotal, width);
  }

  /** Receives `count` pixels of the sender's buffer `src`, starting at
      `srcOffset`, into `dst` starting at `dstOffset`. */
  method CopyInto(dst: array<Pixel>, dstOffset: nat, src: seq<Pixel>, srcOffset: nat, count: nat)
    requires srcOffset + count <= |src| && dstOffset + count <= dst.Length
    modifies dst
    ensures dst[..] == Splice(old(dst[..]), dstOffset, src[srcOffset .. srcOffset + count])
  {
    forall k | 0 <= k < count {
      dst[dstOffset + k] := src[srcOffset + k];
    }
  }
}
