/** The partition plan of the convolution engine (task3/main.c): how many
    image rows each rank owns, how many bytes that is, and where each rank's
    bytes start in the row-major image. */
module Partition {
  import opened Pixels

  function Min(x: int, y: int): int { if x <= y then x else y }

  /** Rows owned by rank `i`: the even share, plus one of the remainder rows
      for the lowest ranks. */
  function RowCount(height: nat, size: nat, i: nat): nat
    requires size > 0
  {
    Share(height / size, height % size, i)
  }

  /** `base` rows, and one more for the first `remainder` ranks. */
  function Share(base: nat, remainder: nat, i: nat): nat
  {
    if i < remainder then base + 1 else base
  }

  /** Bytes occupied by `rows` image rows of `width` pixels. */
  function RowBytes(rows: nat, width: nat): nat
  {
    rows * width * PixelSize
  }

  /** Bytes of image data owned by rank `i`. */
  function ByteCount(width: nat, height: nat, size: nat, i: nat): nat
    requires size > 0
  {
    RowBytes(RowCount(height, size, i), width)
  }

  /** First image row owned by rank `i`: the rows of all lower ranks. */
  function FirstRow(height: nat, size: nat, i: nat): nat
    requires size > 0
  {
    if i == 0 then 0 else FirstRow(height, size, i - 1) + RowCount(height, size, i - 1)
  }

  /** Byte displacement of rank `i`, accumulated as the source does. */
  function Displacement(width: nat, height: nat, size: nat, i: nat): nat
    requires size > 0
  {
    if i == 0 then 0
    else Displacement(width, height, size, i - 1) + ByteCount(width, height, size, i - 1)
  }

  /** Closed form of the first row: `i` even shares plus the remainder rows
      handed to the ranks below `i`. */
  lemma {:induction false} FirstRowClosedForm(height: nat, size: nat, i: nat)
    requires size > 0
    ensures FirstRow(height, size, i) == i * (height / size) + Min(i, height % size)
  {
    if i > 0 {
      FirstRowClosedForm(height, size, i - 1);
      assert i * (height / size) == (i - 1) * (height / size) + height / size;
    }
  }

  /** The row counts of all ranks add up to the image height. */
  lemma RowsCoverHeight(height: nat, size: nat)
    requires size > 0
    ensures FirstRow(height, size, size) == height
  {
    FirstRowClosedForm(height, size, size);
  }

  /** Any two ranks' row counts differ by at most one, and exactly the first
      `height % size` ranks carry the extra row. */
  lemma RowCountsBalanced(height: nat, size: nat, i: nat, j: nat)
    requires size > 0 && i < size && j < size
    ensures RowCount(height, size, i) <= RowCount(height, size, j) + 1
    ensures RowCount(height, size, i) == height / size + 1 <==> i < height % size
  {
  }

  /** The rows of rank `i` are `[FirstRow(i), FirstRow(i+1))`, so ranks own
      consecutive, non-overlapping row ranges in rank order. */
  lemma {:induction false} FirstRowMonotone(height: nat, size: nat, i: nat, j: nat)
    requires size > 0 && i <= j
    ensures FirstRow(height, size, i) + (if i < j then RowCount(height, size, i) else 0)
            <= FirstRow(height, size, j)
  {
    if i < j {
      FirstRowMonotone(height, size, i, j - 1);
    }
  }

  /** Every image row belongs to exactly one rank. */
  lemma OwnerUnique(height: nat, size: nat, y: nat, i: nat, j: nat)
    requires size > 0 && i < size && j < size
    requires FirstRow(height, size, i) <= y < FirstRow(height, size, i) + RowCount(height, size, i)
    requires FirstRow(height, size, j) <= y < FirstRow(height, size, j) + RowCount(height, size, j)
    ensures i == j
  {
    if i < j {
      FirstRowMonotone(height, size, i, j);
    } else if j < i {
      FirstRowMonotone(height, size, j, i);
    }
  }

  /** Displacements are the byte offsets of the first owned rows. */
  lemma {:induction false} DisplacementIsFirstRow(width: nat, height: nat, size: nat, i: nat)
    requires size > 0
    ensures Displacement(width, height, size, i) == FirstRow(height, size, i) * width * PixelSize
  {
    if i > 0 {
      DisplacementIsFirstRow(width, height, size, i - 1);
      RowBytesAdd(FirstRow(height, size, i - 1), RowCount(height, size, i - 1), width);
    }
  }

  /** Byte counts of row ranges add up. */
  lemma RowBytesAdd(a: nat, b: nat, width: nat)
    ensures RowBytes(a + b, width) == RowBytes(a, width) + RowBytes(b, width)
  {
    assert (a + b) * width == a * width + b * width;
  }

  /** The byte ranges of consecutive ranks touch: each starts where the
      previous one ends, and the last one ends at `width*height*4`. */
  lemma ByteRangesTile(width: nat, height: nat, size: nat, i: nat)
    requires size > 0 && i < size
    ensures Displacement(width, height, size, i + 1)
            == Displacement(width, height, size, i) + ByteCount(width, height, size, i)
    ensures Displacement(width, height, size, size) == width * height * PixelSize
  {
    DisplacementIsFirstRow(width, height, size, size);
    RowsCoverHeight(height, size);
    assert height * width * PixelSize == width * height * PixelSize;
  }

  lemma {:induction false} DisplacementMonotone(width: nat, height: nat, size: nat, i: nat, j: nat)
    requires size > 0 && i <= j
    ensures Displacement(width, height, size, i) <= Displacement(width, height, size, j)
  {
    if i < j {
      DisplacementMonotone(width, height, size, i, j - 1);
    }
  }

  /** Byte ranges of distinct ranks do not overlap. */
  lemma ByteRangesDisjoint(width: nat, height: nat, size: nat, i: nat, j: nat)
    requires size > 0 && i < j
    ensures Displacement(width, height, size, i) + ByteCount(width, height, size, i)
            <= Displacement(width, height, size, j)
  {
    DisplacementMonotone(width, height, size, i + 1, j);
  }

  /** The partition loop: fills `rows_to_receive`, `bytes_to_transfer` and
      `displacements` for every rank. */
  method ComputePlan(width: nat, height: nat, size: nat)
      returns (rows: array<int>, bytes: array<int>, displs: array<int>)
    requires size > 0
    ensures rows.Length == size && bytes.Length == size && displs.Length == size
    ensures forall i :: 0 <= i < size ==> rows[i] == RowCount(height, size, i)
    ensures forall i :: 0 <= i < size ==> bytes[i] == ByteCount(width, height, size, i)
    ensures forall i :: 0 <= i < size ==> displs[i] == Displacement(width, height, size, i)
  {
    rows := new int[size];
    bytes := new int[size];
    displs := new int[size];
    displs[0] := 0;
    var rowsPerRank := height / size;
    var remainderRows := height % size;
    var i := 0;
    while i < size
      invariant 0 <= i <= size
      invariant displs[0] == 0
      invariant forall k {:trigger rows[k]} :: 0 <= k < i ==> rows[k] == RowCount(height, size, k)
      invariant forall k {:trigger bytes[k]} :: 0 <= k < i ==> bytes[k] == ByteCount(width, height, size, k)
      invariant forall k {:trigger displs[k]} :: 0 <= k < i ==> displs[k] == Displacement(width, height, size, k)
    {
      var rowsThisRank := rowsPerRank;
      if i < remainderRows {
        rowsThisRank := rowsThisRank + 1;
      }
      assert rowsThisRank == RowCount(height, size, i);
      var bytesThisRank := RowBytes(rowsThisRank, width);
      assert bytesThisRank == ByteCount(width, height, size, i);
      rows[i] := rowsThisRank;
      bytes[i] := bytesThisRank;
      if i > 0 {
        ghost var previous := Displacement(width, height, size, i - 1) + ByteCount(width, height, size, i - 1);
        assert displs[i - 1] + bytes[i - 1] == previous;
        displs[i] := displs[i - 1] + bytes[i - 1];
      }
      i := i + 1;
    }
  }
}
