/** The iteration loop of task3/main.c exactly as written: the halo
    exchange with the source's offsets (send from row 1, receive at row
    `h + 1`), then `applyKernel` over the whole tile, halo rows included,
    writing every row of the second buffer. The halos that no exchange
    refreshes (the top halo of rank 0 and the bottom halo of the last rank)
    therefore hold kernel output from the second iteration on, where the
    image has nothing. */
module EdgeHalos {
  import opened Pixels
  import opened Rows
  import opened Partition
  import opened Halo
  import opened Convolution
  import opened Distribution
  import opened Engine

  /** The send-and-receive of ranks `m - 1` and `m` with the source's
      offsets. With radius 0 the source moves zero bytes. */
  function ExchangePairAsWritten(l: Layout, ts: seq<seq<Pixel>>, m: nat): (r: seq<seq<Pixel>>)
    requires IsTiles(l, ts) && 0 < m < l.size
    ensures IsTiles(l, r)
  {
    if l.radius == 0 then ts
    else
      var e := ExchangeRowsAsWritten(ts[m - 1], ts[m], l.width, N(l, m - 1), N(l, m), l.radius);
      ts[m - 1 := e.0][m := e.1]
  }

  /** The source's exchanges between the pairs `(0, 1), ..., (m - 1, m)`. */
  function ExchangePairsAsWritten(l: Layout, ts: seq<seq<Pixel>>, m: nat): (r: seq<seq<Pixel>>)
    requires IsTiles(l, ts) && m < l.size
    ensures IsTiles(l, r)
  {
    if m == 0 then ts else ExchangePairAsWritten(l, ExchangePairsAsWritten(l, ts, m - 1), m)
  }

  /** The exchange phase of one iteration as written. */
  function ExchangeAllAsWritten(l: Layout, ts: seq<seq<Pixel>>): (r: seq<seq<Pixel>>)
    requires IsTiles(l, ts)
    ensures IsTiles(l, r)
  {
    ExchangePairsAsWritten(l, ts, l.size - 1)
  }

  /** With a 3x3 kernel (radius 1) the source's exchange phase is the
      layout's, pair after pair. */
  lemma {:induction false} ExchangePairsAsWrittenRadiusOne(l: Layout, ts: seq<seq<Pixel>>, m: nat)
    requires IsTiles(l, ts) && m < l.size && l.radius == 1
    ensures ExchangePairsAsWritten(l, ts, m) == ExchangePairs(l, ts, m)
  {
    if m > 0 {
      ExchangePairsAsWrittenRadiusOne(l, ts, m - 1);
      var p := ExchangePairs(l, ts, m - 1);
      AsWrittenExchangeCorrectForRadiusOne(p[m - 1], p[m], l.width, N(l, m - 1), N(l, m));
      assert ExchangePairAsWritten(l, p, m) == ExchangePair(l, p, m);
    }
  }

  /** One iteration as written: the exchange, then the kernel pass over every
      row of each tile into the second buffer, then the swap. The second
      buffer's previous content plays no part, so only the current tiles
      are carried. */
  function StepAsWritten(l: Layout, cur: seq<seq<Pixel>>, k: Kernel, scale: Scale): (r: seq<seq<Pixel>>)
    requires IsTiles(l, cur) && ValidKernel(k)
    ensures IsTiles(l, r)
  {
    var ex := ExchangeAllAsWritten(l, cur);
    seq(l.size, i requires 0 <= i < l.size => ConvolveTile(ex[i], l.width, Height(l, i), k, scale))
  }

  /** The current tiles after `n` iterations as written. */
  function RunAsWritten(l: Layout, cur: seq<seq<Pixel>>, k: Kernel, scale: Scale, n: nat): (r: seq<seq<Pixel>>)
    requires IsTiles(l, cur) && ValidKernel(k)
    ensures IsTiles(l, r)
  {
    if n == 0 then cur else StepAsWritten(l, RunAsWritten(l, cur, k, scale, n - 1), k, scale)
  }

  /** The image the root gathers after `iterations` iterations as written. */
  function JobAsWritten(l: Layout, image: seq<Pixel>, k: Kernel, scale: Scale, iterations: nat): seq<Pixel>
    requires l.size > 0 && |image| == l.width * l.height && ValidKernel(k)
  {
    Gathered(l, RunAsWritten(l, Scattered(l, image), k, scale, iterations))
  }

  /** On the same tile, the source's pass over every row and the pass over
      the owned rows only agree on the owned rows: the extra rows that the
      source convolves are halo rows only. */
  lemma AsWrittenOwnedRowsAgree(l: Layout, tile: seq<Pixel>, prev: seq<Pixel>, i: nat, k: Kernel, scale: Scale)
    requires l.size > 0 && ValidKernel(k)
    requires TileShape(tile, l.width, N(l, i), l.radius) && TileShape(prev, l.width, N(l, i), l.radius)
    ensures Owned(ConvolveTile(tile, l.width, Height(l, i), k, scale), l.width, N(l, i), l.radius)
            == Owned(ConvolveOwned(l, tile, prev, i, k, scale), l.width, N(l, i), l.radius)
  {
    var w, n, R := l.width, N(l, i), l.radius;
    var pass := ConvolveTile(tile, w, Height(l, i), k, scale);
    SpliceRowsInside(prev, w, TileRows(n, R), R, n, Owned(pass, w, n, R));
  }

  /** With radius 1, one iteration as written and one iteration of the
      corrected engine leave the same owned rows in every tile. */
  lemma AsWrittenStepRadiusOne(l: Layout, cur: seq<seq<Pixel>>, nxt: seq<seq<Pixel>>, k: Kernel, scale: Scale, i: nat)
    requires IsTiles(l, cur) && IsTiles(l, nxt) && ValidKernel(k) && i < l.size && l.radius == 1
    ensures Owned(StepAsWritten(l, cur, k, scale)[i], l.width, N(l, i), l.radius)
            == Owned(Step(l, cur, nxt, k, scale).0[i], l.width, N(l, i), l.radius)
  {
    var ex := ExchangeAll(l, cur);
    assert ExchangeAllAsWritten(l, cur) == ex by {
      ExchangePairsAsWrittenRadiusOne(l, cur, l.size - 1);
    }
    var pass := ConvolveTile(ex[i], l.width, Height(l, i), k, scale);
    var owned := ConvolveOwned(l, ex[i], nxt[i], i, k, scale);
    assert StepAsWritten(l, cur, k, scale)[i] == pass;
    assert Step(l, cur, nxt, k, scale).0[i] == owned;
    AsWrittenOwnedRowsAgree(l, ex[i], nxt[i], i, k, scale);
  }

  // ---------------------------------------------------------------------
  // A run that shows the leak

  /** The 3x3 box kernel, all weights 1. */
  const Box: Kernel := Kernel([1, 1, 1, 1, 1, 1, 1, 1, 1], 3)

  /** A scale factor of 1. */
  const Unscaled: Scale := v => v

  /** One rank, a 1x1 image, radius 1: the tile is one owned row between two halo rows. */
  const Single: Layout := Layout(1, 1, 1, 1)

  /** The red pixel of value 1 that the counterexample starts from. */
  const Red1: Pixel := Pixel(1, 0, 0, 255)

  /** Channel `c` of row `r` of a one-column tile, or nothing outside it. */
  function Cell(tile: seq<Pixel>, r: int, c: nat): (v: nat)
    requires c < 3
    ensures 0 <= r < |tile| ==> v == Channel(tile[r], c)
    ensures !(0 <= r < |tile|) ==> v == 0
  {
    if 0 <= r < |tile| then Channel(tile[r], c) else 0
  }

  /** On a one-column tile, window row `ky` of the box kernel sees the one
      cell of column 0 in tile row `y + ky - 1`. */
  lemma BoxRowSum(tile: seq<Pixel>, h: nat, y: nat, ky: nat, c: nat)
    requires |tile| == h && ky < 3 && c < 3
    ensures RowSum(tile, 1, h, Box, y, 0, ky, 3, c) == Cell(tile, y + ky - 1, c)
  {
    assert Box.weights[(3 - 1 - ky) * 3 + (3 - 1 - 1)] == 1;
    assert Term(tile, 1, h, Box, y, 0, ky, 0, c) == 0;
    assert Term(tile, 1, h, Box, y, 0, ky, 2, c) == 0;
    assert RowSum(tile, 1, h, Box, y, 0, ky, 1, c) == 0;
  }

  /** On a one-column tile, the box kernel sums the cell above, the cell
      itself and the cell below. */
  lemma BoxAccumulator(tile: seq<Pixel>, h: nat, y: nat, c: nat)
    requires |tile| == h && c < 3
    ensures Accumulator(tile, 1, h, Box, y, 0, c) == Cell(tile, y - 1, c) + Cell(tile, y, c) + Cell(tile, y + 1, c)
  {
    BoxRowSum(tile, h, y, 0, c);
    BoxRowSum(tile, h, y, 1, c);
    BoxRowSum(tile, h, y, 2, c);
    assert WindowSum(tile, 1, h, Box, y, 0, 1, c) == Cell(tile, y - 1, c);
    assert WindowSum(tile, 1, h, Box, y, 0, 2, c) == Cell(tile, y - 1, c) + Cell(tile, y, c);
    assert WindowSum(tile, 1, h, Box, y, 0, 3, c) == Cell(tile, y - 1, c) + Cell(tile, y, c) + Cell(tile, y + 1, c);
  }

  /** The box pass at row `y` of a one-column tile whose green and blue are 0
      and whose red sum around `y` is `v`, between 1 and 255. */
  lemma BoxPixel(tile: seq<Pixel>, y: nat, v: nat)
    requires y < |tile| && 0 < v < 256
    requires forall r :: 0 <= r < |tile| ==> tile[r].g == 0 && tile[r].b == 0
    requires Cell(tile, y - 1, 0) + Cell(tile, y, 0) + Cell(tile, y + 1, 0) == v
    ensures ConvolveTile(tile, 1, |tile|, Box, Unscaled)[y] == Pixel(v, 0, 0, 255)
  {
    BoxAccumulator(tile, |tile|, y, 0);
    BoxAccumulator(tile, |tile|, y, 1);
    BoxAccumulator(tile, |tile|, y, 2);
    assert y / 1 == y && y % 1 == 0;
  }

  /** Rank 0's tile after the scatter: the pixel between two blank halo rows. */
  lemma SingleScattered()
    ensures Scattered(Single, [Red1]) == [[Blank, Red1, Blank]]
  {
    assert N(Single, 0) == 1;
    assert Distribution.Share([Red1], 1, 1, 1, 0) == [Red1];
    var t := Scattered(Single, [Red1])[0];
    assert t == ScatterTile([Red1], 1, 1, 1, 1, 0);
    assert t == Splice(Blanks(3), 1, [Red1]);
    assert t == [Blank, Red1, Blank];
  }

  /** With two iterations of the 3x3 box kernel on a 1x1 image, the source
      returns red 3, because the first pass writes red 1 into both halo rows
      and the second pass adds them, while the single-worker reference and
      the engine that convolves only the owned rows both return red 1. */
  lemma AsWrittenEdgeHalosLeak()
    ensures JobAsWritten(Single, [Red1], Box, Unscaled, 2) == [Pixel(3, 0, 0, 255)]
    ensures Reference([Red1], 1, 1, Box, Unscaled, 2) == [Red1]
    ensures Job(Single, [Red1], Box, Unscaled, 2) == [Red1]
  {
    SingleScattered();
    var t0 := [Blank, Red1, Blank];
    assert ExchangeAllAsWritten(Single, [t0]) == [t0];
    BoxPixel(t0, 0, 1);
    BoxPixel(t0, 1, 1);
    BoxPixel(t0, 2, 1);
    var t1 := [Red1, Red1, Red1];
    assert ConvolveTile(t0, 1, 3, Box, Unscaled) == t1;
    assert RunAsWritten(Single, [t0], Box, Unscaled, 1) == [t1];
    assert ExchangeAllAsWritten(Single, [t1]) == [t1];
    BoxPixel(t1, 1, 3);
    var t2 := ConvolveTile(t1, 1, 3, Box, Unscaled);
    assert RunAsWritten(Single, [t0], Box, Unscaled, 2) == [t2];
    assert Owned(t2, 1, 1, 1) == [t2[1]];
    assert Gathered(Single, [t2]) == Concat([[t2[1]]]);
    BoxPixel([Red1], 0, 1);
    assert ConvolveTile([Red1], 1, 1, Box, Unscaled) == [Red1];
    assert Reference([Red1], 1, 1, Box, Unscaled, 1) == [Red1];
    assert RowsCoverRadius(Single) && Centred(Single, Box);
    JobMatchesReference(Single, [Red1], Box, Unscaled, 2);
  }
}
