/** Scatter of the image into tiles and gather of the tiles back into an
    image (task3/main.c): the effect of `MPI_Scatterv` and `MPI_Gatherv`
    driven by the partition plan, as slicing and concatenation. */
module Distribution {
  import opened Pixels
  import opened Rows
  import opened Partition
  import opened Halo

  /** The rows of the image that rank `i` owns. */
  function Share(image: seq<Pixel>, width: nat, height: nat, size: nat, i: nat): (s: seq<Pixel>)
    requires size > 0 && i < size && |image| == width * height
    ensures |s| == width * RowCount(height, size, i)
  {
    OwnedRangeInImage(height, size, i);
    ImageRows(image, width, height, FirstRow(height, size, i), RowCount(height, size, i))
  }

  /** Rank `i`'s rows end at or before the last image row. */
  lemma OwnedRangeInImage(height: nat, size: nat, i: nat)
    requires size > 0 && i < size
    ensures FirstRow(height, size, i) + RowCount(height, size, i) <= height
  {
    FirstRowMonotone(height, size, i, size);
    RowsCoverHeight(height, size);
  }

  /** Rows `[first, first + count)` of a row-major image. */
  function ImageRows(image: seq<Pixel>, width: nat, height: nat, first: nat, count: nat): (s: seq<Pixel>)
    requires |image| == width * height && first + count <= height
    ensures |s| == width * count
  {
    RowRangeInTile(width, height, first, count);
    RowSlice(image, width, first, count)
  }

  /** The owned rows of a tile, which start after the `radius` halo rows. */
  function Owned(tile: seq<Pixel>, width: nat, rows: nat, radius: nat): (s: seq<Pixel>)
    requires TileShape(tile, width, rows, radius)
    ensures |s| == width * rows
  {
    RowRangeInTile(width, TileRows(rows, radius), radius, rows);
    RowSlice(tile, width, radius, rows)
  }

  /** Rank `i`'s tile right after the scatter: a zeroed buffer of
      `rows + 2*radius` rows whose owned region holds the rank's share. */
  function ScatterTile(image: seq<Pixel>, width: nat, height: nat, size: nat, radius: nat, i: nat): (tile: seq<Pixel>)
    requires size > 0 && i < size && |image| == width * height
    ensures TileShape(tile, width, RowCount(height, size, i), radius)
    ensures Owned(tile, width, RowCount(height, size, i), radius) == Share(image, width, height, size, i)
    ensures RowSlice(tile, width, 0, radius) == Blanks(width * radius)
    ensures RowSlice(tile, width, radius + RowCount(height, size, i), radius) == Blanks(width * radius)
  {
    var rows := RowCount(height, size, i);
    PaddedTile(Share(image, width, height, size, i), width, rows, radius);
    Splice(Blanks(width * TileRows(rows, radius)), width * radius, Share(image, width, height, size, i))
  }

  /** A blank tile of `rows + 2*radius` rows with `piece` written over its owned rows. */
  lemma PaddedTile(piece: seq<Pixel>, width: nat, rows: nat, radius: nat)
    requires |piece| == width * rows
    ensures width * radius + |piece| <= width * TileRows(rows, radius)
    ensures var tile := Splice(Blanks(width * TileRows(rows, radius)), width * radius, piece);
            && TileShape(tile, width, rows, radius)
            && Owned(tile, width, rows, radius) == piece
            && RowSlice(tile, width, 0, radius) == Blanks(width * radius)
            && RowSlice(tile, width, radius + rows, radius) == Blanks(width * radius)
  {
    var blank := Blanks(width * TileRows(rows, radius));
    RowRangeInTile(width, TileRows(rows, radius), radius, rows);
    RowRangeInTile(width, TileRows(rows, radius), 0, radius);
    RowRangeInTile(width, TileRows(rows, radius), radius + rows, radius);
    assert width * (radius + rows) == width * radius + width * rows;
    SpliceInside(blank, width * radius, piece);
    SpliceOutside(blank, width * radius, piece, 0, width * radius);
    SpliceOutside(blank, width * radius, piece, width * (radius + rows), width * (radius + rows + radius));
  }

  /** The receive buffer of the root after the gather: every rank's owned
      rows, in rank order. */
  function Concat(parts: seq<seq<Pixel>>): (s: seq<Pixel>)
  {
    if parts == [] then [] else Concat(parts[..|parts| - 1]) + parts[|parts| - 1]
  }

  /** The shares of ranks `[0, m)`, in rank order. */
  function Shares(image: seq<Pixel>, width: nat, height: nat, size: nat, m: nat): (parts: seq<seq<Pixel>>)
    requires size > 0 && m <= size && |image| == width * height
    ensures |parts| == m
    ensures forall i :: 0 <= i < m ==> parts[i] == Share(image, width, height, size, i)
  {
    if m == 0 then [] else Shares(image, width, height, size, m - 1) + [Share(image, width, height, size, m - 1)]
  }

  lemma ConcatSnoc(parts: seq<seq<Pixel>>, last: seq<Pixel>)
    ensures Concat(parts + [last]) == Concat(parts) + last
  {
    assert (parts + [last])[..|parts|] == parts;
  }

  /** One more rank adds its rows to the first-row offset, also in pixels. */
  lemma FirstRowStep(width: nat, height: nat, size: nat, m: nat)
    requires size > 0 && m > 0
    ensures FirstRow(height, size, m) == FirstRow(height, size, m - 1) + RowCount(height, size, m - 1)
    ensures width * FirstRow(height, size, m)
            == width * FirstRow(height, size, m - 1) + width * RowCount(height, size, m - 1)
  {
    var f, n := FirstRow(height, size, m - 1), RowCount(height, size, m - 1);
    assert width * (f + n) == width * f + width * n;
  }

  /** Rank `i`'s share is the pixel range between its first row and the next rank's. */
  lemma ShareIsSlice(image: seq<Pixel>, width: nat, height: nat, size: nat, i: nat)
    requires size > 0 && i < size && |image| == width * height
    ensures width * FirstRow(height, size, i) <= width * FirstRow(height, size, i + 1) <= |image|
    ensures Share(image, width, height, size, i)
            == image[width * FirstRow(height, size, i) .. width * FirstRow(height, size, i + 1)]
  {
    var first, count := FirstRow(height, size, i), RowCount(height, size, i);
    OwnedRangeInImage(height, size, i);
    ScaleLeq(width, first, first + count);
    ScaleLeq(width, first + count, height);
    var next := i + 1;
    assert next - 1 == i;
    assert FirstRow(height, size, next) == first + count;
  }

  lemma PrefixSplit<T>(s: seq<T>, mid: int, hi: int)
    requires 0 <= mid <= hi <= |s|
    ensures s[..hi] == s[..mid] + s[mid..hi]
  {
  }

  /** The shares of ranks `[0, m)` are the image rows `[0, FirstRow(m))`. */
  lemma {:induction false} ConcatShares(image: seq<Pixel>, width: nat, height: nat, size: nat, m: nat)
    requires size > 0 && m <= size && |image| == width * height
    ensures width * FirstRow(height, size, m) <= |image|
    ensures Concat(Shares(image, width, height, size, m)) == image[..width * FirstRow(height, size, m)]
    decreases m
  {
    if m > 0 {
      ConcatShares(image, width, height, size, m - 1);
      ConcatSharesStep(image, width, height, size, m);
    } else {
      ConcatNoShares(image, width, height, size, m);
    }
  }

  lemma ConcatNoShares(image: seq<Pixel>, width: nat, height: nat, size: nat, m: nat)
    requires size > 0 && m == 0 && |image| == width * height
    ensures width * FirstRow(height, size, m) <= |image|
    ensures Concat(Shares(image, width, height, size, m)) == image[..width * FirstRow(height, size, m)]
  {
    assert FirstRow(height, size, m) == 0 && width * 0 == 0;
  }

  lemma ConcatSharesStep(image: seq<Pixel>, width: nat, height: nat, size: nat, m: nat)
    requires size > 0 && 0 < m <= size && |image| == width * height
    requires width * FirstRow(height, size, m - 1) <= |image|
    requires Concat(Shares(image, width, height, size, m - 1)) == image[..width * FirstRow(height, size, m - 1)]
    ensures width * FirstRow(height, size, m) <= |image|
    ensures Concat(Shares(image, width, height, size, m)) == image[..width * FirstRow(height, size, m)]
  {
    var prefix, last := Shares(image, width, height, size, m - 1), Share(image, width, height, size, m - 1);
    assert Shares(image, width, height, size, m) == prefix + [last];
    ConcatSnoc(prefix, last);
    var i := m - 1;
    assert i + 1 == m;
    ShareIsSlice(image, width, height, size, i);
    var lo, hi := width * FirstRow(height, size, i), width * FirstRow(height, size, m);
    MulLeq(0, FirstRow(height, size, i), width);
    assert 0 <= lo <= hi <= |image| && image[lo..hi] == last;
    PrefixSplit(image, lo, hi);
  }

  /** Gathering the shares of all ranks rebuilds the image exactly. */
  lemma GatherShares(image: seq<Pixel>, width: nat, height: nat, size: nat)
    requires size > 0 && |image| == width * height
    ensures Concat(Shares(image, width, height, size, size)) == image
  {
    ConcatShares(image, width, height, size, size);
    RowsCoverHeight(height, size);
    assert width * height == |image|;
  }

  /** With no iteration in between, gathering the owned regions of the
      scattered tiles returns the original image. */
  lemma ScatterGatherRoundTrip(image: seq<Pixel>, width: nat, height: nat, size: nat, radius: nat)
    requires size > 0 && |image| == width * height
    ensures Concat(seq(size, i requires 0 <= i < size =>
                         Owned(ScatterTile(image, width, height, size, radius, i),
                               width, RowCount(height, size, i), radius))) == image
  {
    var owned := seq(size, i requires 0 <= i < size =>
                       Owned(ScatterTile(image, width, height, size, radius, i),
                             width, RowCount(height, size, i), radius));
    assert owned == Shares(image, width, height, size, size);
    GatherShares(image, width, height, size);
  }

  /** The bytes rank `i` receives in the scatter (`bytes_to_transfer[i]`
      bytes from `displacements[i]`) are the bytes of its share. */
  lemma ScatterBytes(image: seq<Pixel>, width: nat, height: nat, size: nat, i: nat)
    requires size > 0 && i < size && |image| == width * height
    ensures Displacement(width, height, size, i) + ByteCount(width, height, size, i) <= |Serialize(image)|
    ensures Serialize(image)[Displacement(width, height, size, i) ..
                             Displacement(width, height, size, i) + ByteCount(width, height, size, i)]
            == Serialize(Share(image, width, height, size, i))
  {
    ShareIsSlice(image, width, height, size, i);
    ByteRangeOfRank(width, height, size, i);
    SerializedPart(image, Share(image, width, height, size, i),
                   width * FirstRow(height, size, i), width * FirstRow(height, size, i + 1),
                   Displacement(width, height, size, i), ByteCount(width, height, size, i));
  }

  /** In the gathered buffer, rank `i`'s bytes land at `displacements[i]`
      and fill `bytes_to_transfer[i]` bytes. */
  lemma GatherBytes(parts: seq<seq<Pixel>>, width: nat, height: nat, size: nat, i: nat)
    requires size > 0 && i < size && |parts| == size
    requires forall j :: 0 <= j < size ==> |parts[j]| == width * RowCount(height, size, j)
    ensures Displacement(width, height, size, i) + ByteCount(width, height, size, i) <= |Serialize(Concat(parts))|
    ensures Serialize(Concat(parts))[Displacement(width, height, size, i) ..
                                     Displacement(width, height, size, i) + ByteCount(width, height, size, i)]
            == Serialize(parts[i])
  {
    GatheredPart(parts, width, height, size, i);
    ByteRangeOfRank(width, height, size, i);
    SerializedPart(Concat(parts), parts[i],
                   width * FirstRow(height, size, i), width * FirstRow(height, size, i + 1),
                   Displacement(width, height, size, i), ByteCount(width, height, size, i));
  }

  /** Rank `i`'s part sits between its first row and the next rank's in the gathered buffer. */
  lemma GatheredPart(parts: seq<seq<Pixel>>, width: nat, height: nat, size: nat, i: nat)
    requires size > 0 && i < size && |parts| == size
    requires forall j :: 0 <= j < size ==> |parts[j]| == width * RowCount(height, size, j)
    ensures width * FirstRow(height, size, i) <= width * FirstRow(height, size, i + 1) <= |Concat(parts)|
    ensures Concat(parts)[width * FirstRow(height, size, i) .. width * FirstRow(height, size, i + 1)] == parts[i]
  {
    ConcatPrefix(parts, width, height, size, i);
    ConcatPrefix(parts, width, height, size, i + 1);
    var whole, lo, hi := Concat(parts), width * FirstRow(height, size, i), width * FirstRow(height, size, i + 1);
    assert Concat(parts[..i + 1]) == Concat(parts[..i]) + parts[i] by {
      ConcatSnoc(parts[..i], parts[i]);
      assert parts[..i + 1] == parts[..i] + [parts[i]];
    }
    assert whole[..hi] == whole[..lo] + parts[i];
    assert whole[lo..hi] == whole[..hi][lo..];
  }

  /** The byte range rank `i` sends or receives: from its first row to the next rank's, in bytes. */
  lemma ByteRangeOfRank(width: nat, height: nat, size: nat, i: nat)
    requires size > 0
    ensures Displacement(width, height, size, i) == PixelSize * (width * FirstRow(height, size, i))
    ensures Displacement(width, height, size, i) + ByteCount(width, height, size, i)
            == PixelSize * (width * FirstRow(height, size, i + 1))
  {
    DisplacementIsFirstRow(width, height, size, i);
    DisplacementIsFirstRow(width, height, size, i + 1);
    var f, g := FirstRow(height, size, i), FirstRow(height, size, i + 1);
    assert f * width * PixelSize == PixelSize * (width * f);
    assert g * width * PixelSize == PixelSize * (width * g);
    assert Displacement(width, height, size, i + 1)
           == Displacement(width, height, size, i) + ByteCount(width, height, size, i);
  }

  /** A pixel range `[lo, hi)` of `whole` is the byte range `[d, d + b)` of its serialization. */
  lemma SerializedPart(whole: seq<Pixel>, part: seq<Pixel>, lo: nat, hi: nat, d: nat, b: nat)
    requires lo <= hi <= |whole| && whole[lo..hi] == part
    requires d == PixelSize * lo && d + b == PixelSize * hi
    ensures d + b <= |Serialize(whole)|
    ensures Serialize(whole)[d .. d + b] == Serialize(part)
  {
    SerializeSlice(whole, lo, hi);
  }

  /** The gathered parts of ranks `[0, m)` fill the first `FirstRow(m)` rows. */
  lemma {:induction false} ConcatPrefix(parts: seq<seq<Pixel>>, width: nat, height: nat, size: nat, m: nat)
    requires size > 0 && m <= size && |parts| == size
    requires forall j :: 0 <= j < size ==> |parts[j]| == width * RowCount(height, size, j)
    ensures |Concat(parts)| == width * height
    ensures |Concat(parts[..m])| == width * FirstRow(height, size, m) <= width * height
    ensures Concat(parts[..m]) == Concat(parts)[..width * FirstRow(height, size, m)]
    decreases size - m
  {
    ConcatBounds(parts, width, height, size, m);
    if m < size {
      ConcatPrefix(parts, width, height, size, m + 1);
      ConcatSnoc(parts[..m], parts[m]);
      assert parts[..m + 1] == parts[..m] + [parts[m]];
      PrefixOfPrefix(Concat(parts), Concat(parts[..m]), parts[m], width * FirstRow(height, size, m + 1));
    } else {
      assert parts[..m] == parts;
    }
  }

  lemma ConcatBounds(parts: seq<seq<Pixel>>, width: nat, height: nat, size: nat, m: nat)
    requires size > 0 && m <= size && |parts| == size
    requires forall j :: 0 <= j < size ==> |parts[j]| == width * RowCount(height, size, j)
    ensures |Concat(parts)| == width * height
    ensures |Concat(parts[..m])| == width * FirstRow(height, size, m) <= width * height
  {
    ConcatLength(parts, width, height, size, size);
    ConcatLength(parts, width, height, size, m);
    RowsCoverHeight(height, size);
    assert parts[..size] == parts;
    FirstRowMonotone(height, size, m, size);
    ScaleLeq(width, FirstRow(height, size, m), height);
  }

  /** The front of a prefix is a prefix. */
  lemma PrefixOfPrefix<T>(t: seq<T>, p: seq<T>, e: seq<T>, k: nat)
    requires k <= |t| && p + e == t[..k]
    ensures p == t[..|p|]
  {
    assert forall q :: 0 <= q < |p| ==> p[q] == (p + e)[q];
  }

  lemma {:induction false} ConcatLength(parts: seq<seq<Pixel>>, width: nat, height: nat, size: nat, m: nat)
    requires size > 0 && m <= size && |parts| == size
    requires forall j :: 0 <= j < size ==> |parts[j]| == width * RowCount(height, size, j)
    ensures |Concat(parts[..m])| == width * FirstRow(height, size, m)
  {
    if m > 0 {
      ConcatLength(parts, width, height, size, m - 1);
      assert Concat(parts[..m]) == Concat(parts[..m - 1]) + parts[m - 1] by {
        ConcatSnoc(parts[..m - 1], parts[m - 1]);
        assert parts[..m] == parts[..m - 1] + [parts[m - 1]];
      }
      FirstRowStep(width, height, size, m);
    }
  }
}
