/** The equal-slab row split of the morphing program (task3/morph.c) and the
    upscaler (task2/mpi_attempt.c): every rank takes `height/size` rows,
    rank `r` starting at row `r*(height/size)`; it fills a local buffer of
    those rows, indexed from its own first row, and the root gathers the
    same number of pixels from every rank. */
module Slabs {
  import opened Pixels
  import opened Rows
  import opened Distribution

  /** Rows per rank (`local_h`, `local_out_height`): the height divided by
      the number of ranks, rounded down. */
  function SlabRows(height: nat, size: nat): (rows: nat)
    requires size > 0
    ensures size * rows <= height
    ensures height - size * rows == height % size < size
  {
    height / size
  }

  /** The first row of rank `rank` (`start_h`, `loc_out_h_start`). */
  function SlabStart(rows: nat, rank: nat): nat
  {
    rank * rows
  }

  /** Row `y` lies in rank `rank`'s slab of `rows` rows. */
  predicate InSlab(rows: nat, rank: nat, y: nat)
  {
    SlabStart(rows, rank) <= y < SlabStart(rows, rank) + rows
  }

  /** No row belongs to two ranks. */
  lemma SlabsDisjoint(rows: nat, r1: nat, r2: nat, y: nat)
    requires InSlab(rows, r1, y) && InSlab(rows, r2, y)
    ensures r1 == r2
  {
    if r1 < r2 {
      MulLeq(r1 + 1, r2, rows);
    } else if r2 < r1 {
      MulLeq(r2 + 1, r1, rows);
    }
  }

  /** A row belongs to some rank exactly when it lies below `size*rows`:
      the rows from `size*rows` to the bottom of the image are nobody's. */
  lemma SlabsCover(rows: nat, size: nat, y: nat)
    ensures (exists r: nat :: r < size && InSlab(rows, r, y)) <==> y < size * rows
  {
    if y < size * rows {
      var r := y / rows;
      RowMajorDivMod(r, y % rows, rows);
      if size <= r {
        MulLeq(size, r, rows);
      }
      assert InSlab(rows, r, y);
    }
    if r: nat :| r < size && InSlab(rows, r, y) {
      MulLeq(r + 1, size, rows);
    }
  }

  /** The local buffer index of pixel `(i, j)` of the slab starting at row
      `start` (`(i - start_h)*width + j`). */
  function LocalIndex(width: nat, start: nat, i: nat, j: nat): int
  {
    (i - start) * width + j
  }

  /** Every pixel of the slab has a local index inside the slab's buffer. */
  lemma LocalIndexInBounds(width: nat, rows: nat, start: nat, i: nat, j: nat)
    requires start <= i < start + rows && j < width
    ensures 0 <= LocalIndex(width, start, i, j) < width * rows
  {
    RowMajorIndex(i - start, j, width, rows);
  }

  /** Distinct pixels of the slab have distinct local indices, so no slot
      is written twice. */
  lemma LocalIndexInjective(width: nat, start: nat, i1: nat, j1: nat, i2: nat, j2: nat)
    requires start <= i1 && start <= i2 && j1 < width && j2 < width
    requires LocalIndex(width, start, i1, j1) == LocalIndex(width, start, i2, j2)
    ensures i1 == i2 && j1 == j2
  {
    RowMajorDivMod(i1 - start, j1, width);
    RowMajorDivMod(i2 - start, j2, width);
  }

  /** Every slot of the slab's buffer is the local index of a slab pixel,
      so no slot is left unwritten. */
  lemma LocalIndexOnto(width: nat, rows: nat, start: nat, p: nat)
    requires p < width * rows
    ensures width > 0 && p / width < rows
    ensures start <= start + p / width < start + rows && p % width < width
    ensures LocalIndex(width, start, start + p / width, p % width) == p
  {
    if rows <= p / width {
      MulLeq(rows, p / width, width);
    }
  }

  /** The buffer of a slab of `rows` rows from row `start`, each pixel
      computed by `px` from its image coordinates. */
  function SlabImage(px: (nat, nat) -> Pixel, width: nat, start: nat, rows: nat): (s: seq<Pixel>)
    ensures |s| == width * rows
  {
    seq(width * rows, p requires 0 <= p < width * rows => px(start + p / width, p % width))
  }

  /** The slot of pixel `(i, j)` holds `px(i, j)`. */
  lemma SlabImageAt(px: (nat, nat) -> Pixel, width: nat, start: nat, rows: nat, i: nat, j: nat)
    requires start <= i < start + rows && j < width
    ensures 0 <= LocalIndex(width, start, i, j) < width * rows
    ensures SlabImage(px, width, start, rows)[LocalIndex(width, start, i, j)] == px(i, j)
  {
    LocalIndexInBounds(width, rows, start, i, j);
    RowMajorDivMod(i - start, j, width);
  }

  /** A slab whose pixels are all computed opaque is opaque throughout. */
  lemma OpaqueSlab(px: (nat, nat) -> Pixel, width: nat, start: nat, rows: nat)
    requires forall i: nat, j: nat :: start <= i < start + rows && j < width ==> px(i, j).a == 255
    ensures forall p :: 0 <= p < width * rows ==> SlabImage(px, width, start, rows)[p].a == 255
  {
    forall p | 0 <= p < width * rows
      ensures SlabImage(px, width, start, rows)[p].a == 255
    {
      LocalIndexOnto(width, rows, start, p);
    }
  }

  /** A slab of `a + b` rows is the slab of its first `a` rows followed by
      the slab of the other `b`. */
  lemma SlabImageSplit(px: (nat, nat) -> Pixel, width: nat, start: nat, a: nat, b: nat)
    ensures SlabImage(px, width, start, a + b)
            == SlabImage(px, width, start, a) + SlabImage(px, width, start + a, b)
  {
    var whole, top, bottom := SlabImage(px, width, start, a + b), SlabImage(px, width, start, a), SlabImage(px, width, start + a, b);
    var wa, wb := width * a, width * b;
    assert width * (a + b) == wa + wb;
    forall p | wa <= p < wa + wb
      ensures whole[p] == bottom[p - wa]
    {
      DivModShift(a, p - wa, width);
    }
    assert whole == top + bottom;
  }

  /** Shifting a buffer index by `a` whole rows shifts its row by `a` and
      keeps its column. */
  lemma DivModShift(a: nat, q: nat, width: nat)
    requires width > 0
    ensures (width * a + q) / width == a + q / width
    ensures (width * a + q) % width == q % width
  {
    RowMajorDivMod(a + q / width, q % width, width);
    assert (a + q / width) * width + q % width == width * a + q;
  }

  /** Image row `i` of `width` pixels, each computed by `px`. */
  function ImageRow(px: (nat, nat) -> Pixel, width: nat, i: nat): (s: seq<Pixel>)
    ensures |s| == width
  {
    seq(width, j requires 0 <= j < width => px(i, j))
  }

  /** The slab of the one row `i` is that row's pixels. */
  lemma SlabImageRow(px: (nat, nat) -> Pixel, width: nat, i: nat)
    ensures SlabImage(px, width, i, 1) == ImageRow(px, width, i)
  {
    forall j | 0 <= j < width
      ensures SlabImage(px, width, i, 1)[j] == px(i, j)
    {
      RowMajorDivMod(0, j, width);
    }
  }

  /** The nested loop over the slab's rows `[start, start + rows)`: it fills
      the first `width*rows` slots of `out` with the slab and leaves the rest
      of the allocation alone. */
  method FillSlab(out: array<Pixel>, width: nat, start: nat, rows: nat, px: (nat, nat) -> Pixel)
    requires width * rows <= out.Length
    modifies out
    ensures out[..width * rows] == SlabImage(px, width, start, rows)
    ensures out[width * rows..] == old(out[width * rows..])
  {
    var i := start;
    while i < start + rows
      invariant start <= i <= start + rows
      invariant (i - start) * width <= width * rows
      invariant out[..(i - start) * width] == SlabImage(px, width, start, i - start)
      invariant out[width * rows..] == old(out[width * rows..])
    {
      var localI := i - start;
      MulLeq(localI + 1, rows, width);
      ghost var before := out[..];
      FillRow(out, width, localI, i, px);
      SlabGrows(before, out[..], px, width, start, localI, width * rows);
      i := i + 1;
    }
  }

  /** Filling the next row of a buffer that holds the slab's first `n` rows
      extends it to the first `n + 1` rows and leaves the tail from `limit` on alone. */
  lemma SlabGrows(before: seq<Pixel>, after: seq<Pixel>, px: (nat, nat) -> Pixel, width: nat, start: nat, n: nat, limit: nat)
    requires |before| == |after| && (n + 1) * width <= limit <= |before|
    requires before[..n * width] == SlabImage(px, width, start, n)
    requires after[n * width .. n * width + width] == ImageRow(px, width, start + n)
    requires forall p :: 0 <= p < |after| && !(n * width <= p < n * width + width) ==> after[p] == before[p]
    ensures after[..(n + 1) * width] == SlabImage(px, width, start, n + 1)
    ensures after[limit..] == before[limit..]
  {
    var lo := n * width;
    assert lo + width == (n + 1) * width;
    assert after[..lo] == before[..lo];
    assert after[..lo + width] == after[..lo] + after[lo .. lo + width];
    SlabImageRow(px, width, start + n);
    SlabImageSplit(px, width, start, n, 1);
  }

  /** The inner loop over the columns of image row `i`, writing `px(i, j)`
      to local index `localI*width + j`. */
  method FillRow(out: array<Pixel>, width: nat, localI: nat, i: nat, px: (nat, nat) -> Pixel)
    requires localI * width + width <= out.Length
    modifies out
    ensures out[localI * width .. localI * width + width] == ImageRow(px, width, i)
    ensures forall p :: 0 <= p < out.Length && !(localI * width <= p < localI * width + width) ==> out[p] == old(out[p])
  {
    var j := 0;
    while j < width
      invariant 0 <= j <= width
      invariant forall q :: 0 <= q < j ==> out[localI * width + q] == px(i, q)
      invariant forall p :: 0 <= p < out.Length && !(localI * width <= p < localI * width + j) ==> out[p] == old(out[p])
    {
      out[localI * width + j] := px(i, j);
      j := j + 1;
    }
  }

  /** Number of bytes every rank contributes to the gather
      (`sizeof(pixel)*width*rows`). */
  function SlabBytes(width: nat, rows: nat): nat
  {
    PixelSize * (width * rows)
  }

  /** Parts of `count` pixels each, concatenated in rank order, take
      `count` pixels per rank. */
  lemma {:induction false} EqualPartsLength(parts: seq<seq<Pixel>>, count: nat)
    requires forall q :: 0 <= q < |parts| ==> |parts[q]| == count
    ensures |Concat(parts)| == |parts| * count
  {
    if parts != [] {
      var n := |parts| - 1;
      EqualPartsLength(parts[..n], count);
      assert n * count + count == |parts| * count;
    }
  }

  /** Part `r` of parts of `count` pixels each sits at `[r*count, (r+1)*count)`
      of their concatenation. */
  lemma {:induction false} EqualPartsConcat(parts: seq<seq<Pixel>>, count: nat, r: nat)
    requires forall q :: 0 <= q < |parts| ==> |parts[q]| == count
    requires r < |parts|
    ensures |Concat(parts)| == |parts| * count
    ensures r * count + count <= |Concat(parts)|
    ensures Concat(parts)[r * count .. r * count + count] == parts[r]
  {
    EqualPartsLength(parts, count);
    var init := parts[..|parts| - 1];
    EqualPartsLength(init, count);
    MulLeq(r + 1, |parts|, count);
    if r < |init| {
      EqualPartsConcat(init, count, r);
      MulLeq(r + 1, |init|, count);
    }
  }

  /** Where rank `r`'s bytes start in the root's receive buffer: after
      `r` slabs of `SlabBytes` bytes each. */
  function SlabOffset(width: nat, rows: nat, r: nat): nat
  {
    r * SlabBytes(width, rows)
  }

  /** In the gathered bytes, rank `r`'s slab is the `SlabBytes` bytes from
      offset `r*SlabBytes`. */
  lemma GatherOffset(slabs: seq<seq<Pixel>>, width: nat, rows: nat, r: nat)
    requires forall q :: 0 <= q < |slabs| ==> |slabs[q]| == width * rows
    requires r < |slabs|
    ensures SlabOffset(width, rows, r) + SlabBytes(width, rows) <= |Serialize(Concat(slabs))|
    ensures Serialize(Concat(slabs))[SlabOffset(width, rows, r) .. SlabOffset(width, rows, r) + SlabBytes(width, rows)]
            == Serialize(slabs[r])
  {
    var count, bytes := width * rows, SlabBytes(width, rows);
    EqualPartsConcat(slabs, count, r);
    var lo := r * count;
    var d := PixelSize * lo;
    assert d == SlabOffset(width, rows, r) by {
      Rearrange(r, PixelSize, count);
    }
    assert d + bytes == PixelSize * (lo + count);
    SerializedPart(Concat(slabs), slabs[r], lo, lo + count, d, bytes);
  }

  lemma Rearrange(a: nat, b: nat, c: nat)
    ensures b * (a * c) == a * (b * c)
  {
  }

  /** The slabs of ranks `[0, m)`, concatenated, are the slab of the first
      `m*rows` rows. */
  lemma {:induction false} GatherSlabImages(px: (nat, nat) -> Pixel, width: nat, rows: nat, slabs: seq<seq<Pixel>>, m: nat)
    requires m <= |slabs|
    requires forall r :: 0 <= r < |slabs| ==> slabs[r] == SlabImage(px, width, SlabStart(rows, r), rows)
    ensures Concat(slabs[..m]) == SlabImage(px, width, 0, m * rows)
  {
    if m > 0 {
      GatherSlabImages(px, width, rows, slabs, m - 1);
      assert slabs[..m] == slabs[..m - 1] + [slabs[m - 1]];
      ConcatSnoc(slabs[..m - 1], slabs[m - 1]);
      SlabImageSplit(px, width, 0, (m - 1) * rows, rows);
      assert (m - 1) * rows + rows == m * rows;
    } else {
      assert SlabImage(px, width, 0, 0) == [];
    }
  }

  /** The root's receive buffer after the gather: the slabs, in rank order,
      over the first `|slabs|*count` pixels of the buffer it allocated. */
  function RootBuffer(recv: seq<Pixel>, slabs: seq<seq<Pixel>>, count: nat): (s: seq<Pixel>)
    requires forall q :: 0 <= q < |slabs| ==> |slabs[q]| == count
    requires |slabs| * count <= |recv|
    ensures |s| == |recv|
  {
    EqualPartsLength(slabs, count);
    Splice(recv, 0, Concat(slabs))
  }

  /** When every rank has filled its slab, the root buffer holds the image
      rows `[0, size*rows)` and, below them, what the buffer held before:
      the last `height % size` rows are never computed. */
  lemma RootBufferRows(px: (nat, nat) -> Pixel, recv: seq<Pixel>, width: nat, height: nat, size: nat, slabs: seq<seq<Pixel>>)
    requires size > 0 && |slabs| == size && |recv| == width * height
    requires forall r :: 0 <= r < size ==>
               slabs[r] == SlabImage(px, width, SlabStart(SlabRows(height, size), r), SlabRows(height, size))
    ensures forall q :: 0 <= q < size ==> |slabs[q]| == width * SlabRows(height, size)
    ensures size * (width * SlabRows(height, size)) <= |recv|
    ensures RootBuffer(recv, slabs, width * SlabRows(height, size))
            == SlabImage(px, width, 0, size * SlabRows(height, size)) + recv[width * (size * SlabRows(height, size))..]
  {
    var rows := SlabRows(height, size);
    ScaleLeq(width, size * rows, height);
    assert size * (width * rows) == width * (size * rows);
    GatherSlabImages(px, width, rows, slabs, size);
    assert slabs[..size] == slabs;
  }
}
