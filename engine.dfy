/** The iteration loop of the convolution engine (task3/main.c), on values:
    all ranks' tiles side by side, one halo exchange per neighbouring pair,
    the kernel pass into the second buffer, and the swap. The barrier is
    implicit: every step finishes before the next begins. */
module Engine {
  import opened Pixels
  import opened Rows
  import opened Partition
  import opened Halo
  import opened Convolution
  import opened Distribution
  import opened Locality

  /** Image width, image height, number of ranks and halo radius. */
  datatype Layout = Layout(width: nat, height: nat, size: nat, radius: nat)

  /** `num_border_rows = (kernelDim - 1) / 2`, with C's truncating division. */
  function Radius(k: Kernel): (r: nat)
    ensures k.dim % 2 == 1 ==> r == k.dim / 2
  {
    if k.dim == 0 then 0 else (k.dim - 1) / 2
  }

  /** Owned rows of rank `i`. */
  function N(l: Layout, i: nat): nat
    requires l.size > 0
  {
    RowCount(l.height, l.size, i)
  }

  /** Rows of rank `i`'s tile, halos included. */
  function Height(l: Layout, i: nat): nat
    requires l.size > 0
  {
    TileRows(N(l, i), l.radius)
  }

  /** One tile per rank, each of its rank's shape. */
  ghost predicate IsTiles(l: Layout, ts: seq<seq<Pixel>>)
  {
    && l.size > 0 && |ts| == l.size
    && forall i :: 0 <= i < l.size ==> TileShape(ts[i], l.width, N(l, i), l.radius)
  }

  /** The `radius` halo rows above the owned rows. */
  function TopHalo(l: Layout, t: seq<Pixel>, i: nat): (s: seq<Pixel>)
    requires l.size > 0 && TileShape(t, l.width, N(l, i), l.radius)
    ensures |s| == l.width * l.radius
  {
    RowRangeInTile(l.width, Height(l, i), 0, l.radius);
    RowSlice(t, l.width, 0, l.radius)
  }

  /** The `radius` halo rows below the owned rows. */
  function BottomHalo(l: Layout, t: seq<Pixel>, i: nat): (s: seq<Pixel>)
    requires l.size > 0 && TileShape(t, l.width, N(l, i), l.radius)
    ensures |s| == l.width * l.radius
  {
    RowRangeInTile(l.width, Height(l, i), l.radius + N(l, i), l.radius);
    RowSlice(t, l.width, l.radius + N(l, i), l.radius)
  }

  /** The first `radius` owned rows, which the top exchange sends up. */
  function FirstOwned(l: Layout, t: seq<Pixel>, i: nat): (s: seq<Pixel>)
    requires l.size > 0 && TileShape(t, l.width, N(l, i), l.radius)
    ensures |s| == l.width * l.radius
  {
    RowRangeInTile(l.width, Height(l, i), SendRow(Top, N(l, i), l.radius), l.radius);
    RowSlice(t, l.width, SendRow(Top, N(l, i), l.radius), l.radius)
  }

  /** The `radius` rows that the bottom exchange sends down, which are the
      last owned rows when the rank owns at least `radius` rows. */
  function LastOwned(l: Layout, t: seq<Pixel>, i: nat): (s: seq<Pixel>)
    requires l.size > 0 && TileShape(t, l.width, N(l, i), l.radius)
    ensures |s| == l.width * l.radius
  {
    RowRangeInTile(l.width, Height(l, i), SendRow(Bottom, N(l, i), l.radius), l.radius);
    RowSlice(t, l.width, SendRow(Bottom, N(l, i), l.radius), l.radius)
  }

  /** The exchanges between the pairs `(0, 1), ..., (m - 1, m)`, in that order. */
  function ExchangePairs(l: Layout, ts: seq<seq<Pixel>>, m: nat): (r: seq<seq<Pixel>>)
    requires IsTiles(l, ts) && m < l.size
    ensures IsTiles(l, r)
  {
    if m == 0 then ts else ExchangePair(l, ExchangePairs(l, ts, m - 1), m)
  }

  /** The paired send-and-receive of ranks `m - 1` and `m`. */
  function ExchangePair(l: Layout, ts: seq<seq<Pixel>>, m: nat): (r: seq<seq<Pixel>>)
    requires IsTiles(l, ts) && 0 < m < l.size
    ensures IsTiles(l, r)
  {
    var e := ExchangeRows(ts[m - 1], ts[m], l.width, N(l, m - 1), N(l, m), l.radius);
    ts[m - 1 := e.0][m := e.1]
  }

  /** The exchange phase of one iteration: every neighbouring pair swaps rows. */
  function ExchangeAll(l: Layout, ts: seq<seq<Pixel>>): (r: seq<seq<Pixel>>)
    requires IsTiles(l, ts)
    ensures IsTiles(l, r)
  {
    ExchangePairs(l, ts, l.size - 1)
  }

  /** Rank `i`'s second buffer after the kernel pass over the owned rows of
      `tile`: its owned rows are the pass, its halo rows stay as in `prev`. */
  function ConvolveOwned(l: Layout, tile: seq<Pixel>, prev: seq<Pixel>, i: nat, k: Kernel, scale: Scale): (r: seq<Pixel>)
    requires l.size > 0 && ValidKernel(k)
    requires TileShape(tile, l.width, N(l, i), l.radius) && TileShape(prev, l.width, N(l, i), l.radius)
    ensures TileShape(r, l.width, N(l, i), l.radius)
  {
    var pass := ConvolveTile(tile, l.width, Height(l, i), k, scale);
    Splice(prev, l.width * l.radius, Owned(pass, l.width, N(l, i), l.radius))
  }

  /** One iteration: exchange, kernel pass into the second buffers, swap.
      Returns the new current buffers and the new second buffers. */
  function Step(l: Layout, cur: seq<seq<Pixel>>, nxt: seq<seq<Pixel>>, k: Kernel, scale: Scale)
      : (r: (seq<seq<Pixel>>, seq<seq<Pixel>>))
    requires IsTiles(l, cur) && IsTiles(l, nxt) && ValidKernel(k)
    ensures IsTiles(l, r.0) && IsTiles(l, r.1)
  {
    var ex := ExchangeAll(l, cur);
    (seq(l.size, i requires 0 <= i < l.size => ConvolveOwned(l, ex[i], nxt[i], i, k, scale)), ex)
  }

  /** The buffers after `n` iterations. */
  function Run(l: Layout, cur: seq<seq<Pixel>>, nxt: seq<seq<Pixel>>, k: Kernel, scale: Scale, n: nat)
      : (r: (seq<seq<Pixel>>, seq<seq<Pixel>>))
    requires IsTiles(l, cur) && IsTiles(l, nxt) && ValidKernel(k)
    ensures IsTiles(l, r.0) && IsTiles(l, r.1)
  {
    if n == 0 then (cur, nxt)
    else
      var p := Run(l, cur, nxt, k, scale, n - 1);
      Step(l, p.0, p.1, k, scale)
  }

  /** All tiles right after the scatter. */
  function Scattered(l: Layout, image: seq<Pixel>): (ts: seq<seq<Pixel>>)
    requires l.size > 0 && |image| == l.width * l.height
    ensures IsTiles(l, ts)
  {
    seq(l.size, i requires 0 <= i < l.size => ScatterTile(image, l.width, l.height, l.size, l.radius, i))
  }

  /** All second buffers as allocated. */
  function Fresh(l: Layout): (ts: seq<seq<Pixel>>)
    requires l.size > 0
    ensures IsTiles(l, ts)
  {
    seq(l.size, i requires 0 <= i < l.size => Blanks(l.width * Height(l, i)))
  }

  /** The gathered image: the owned rows of every tile, in rank order. */
  function Gathered(l: Layout, ts: seq<seq<Pixel>>): seq<Pixel>
    requires IsTiles(l, ts)
  {
    Concat(seq(l.size, i requires 0 <= i < l.size => Owned(ts[i], l.width, N(l, i), l.radius)))
  }

  /** The image the root gathers after `iterations` iterations. */
  function Job(l: Layout, image: seq<Pixel>, k: Kernel, scale: Scale, iterations: nat): seq<Pixel>
    requires l.size > 0 && |image| == l.width * l.height && ValidKernel(k)
  {
    Gathered(l, Run(l, Scattered(l, image), Fresh(l), k, scale, iterations).0)
  }

  /** The single-worker reference: `n` kernel passes over the whole image,
      with nothing outside the image. */
  function Reference(image: seq<Pixel>, width: nat, height: nat, k: Kernel, scale: Scale, n: nat): (r: seq<Pixel>)
    requires |image| == width * height && ValidKernel(k)
    ensures |r| == width * height
  {
    if n == 0 then image else ConvolveTile(Reference(image, width, height, k, scale, n - 1), width, height, k, scale)
  }

  /** With no iteration the gathered image is the input, byte for byte. */
  lemma JobWithoutIterations(l: Layout, image: seq<Pixel>, k: Kernel, scale: Scale)
    requires l.size > 0 && |image| == l.width * l.height && ValidKernel(k)
    ensures Job(l, image, k, scale, 0) == image
  {
    var ts := Scattered(l, image);
    var shares := Shares(image, l.width, l.height, l.size, l.size);
    var owned := seq(l.size, i requires 0 <= i < l.size => Owned(ts[i], l.width, N(l, i), l.radius));
    forall i | 0 <= i < l.size
      ensures owned[i] == shares[i]
    {
      assert ts[i] == ScatterTile(image, l.width, l.height, l.size, l.radius, i);
    }
    assert owned == shares;
    GatherShares(image, l.width, l.height, l.size);
  }

  // ---------------------------------------------------------------------
  // The exchange phase

  /** Equal slices have equal sub-slices. */
  lemma SubSliceEq(t: seq<Pixel>, a: nat, u: seq<Pixel>, a': nat, width: nat, b: nat, d: nat, c: nat)
    requires d + c <= b && width * (a + b) <= |t| && width * (a' + b) <= |u|
    requires RowSlice(t, width, a, b) == RowSlice(u, width, a', b)
    ensures width * (a + d + c) <= |t| && width * (a' + d + c) <= |u|
    ensures RowSlice(t, width, a + d, c) == RowSlice(u, width, a' + d, c)
  {
    SubSlice(t, width, a, b, d, c);
    SubSlice(u, width, a', b, d, c);
  }

  /** Every rank owns at least `radius` rows. */
  ghost predicate RowsCoverRadius(l: Layout)
  {
    l.size > 0 && l.radius <= l.height / l.size
  }

  lemma RadiusWithinRows(l: Layout, i: nat)
    requires RowsCoverRadius(l)
    ensures l.radius <= N(l, i)
  {
  }

  /** Tile `t` of rank `i` has the owned rows of `ts[i]`. */
  ghost predicate OwnedKept(l: Layout, ts: seq<seq<Pixel>>, t: seq<Pixel>, i: nat)
    requires IsTiles(l, ts) && i < l.size && TileShape(t, l.width, N(l, i), l.radius)
  {
    Owned(t, l.width, N(l, i), l.radius) == Owned(ts[i], l.width, N(l, i), l.radius)
  }

  /** Once the pair `(i - 1, i)` has exchanged, the top halo of rank `i`
      holds the rows rank `i - 1` sent; otherwise it is as in `ts[i]`. */
  ghost predicate TopAfter(l: Layout, ts: seq<seq<Pixel>>, t: seq<Pixel>, m: nat, i: nat)
    requires IsTiles(l, ts) && i < l.size && TileShape(t, l.width, N(l, i), l.radius)
  {
    TopHalo(l, t, i) == if 0 < i <= m then LastOwned(l, ts[i - 1], i - 1) else TopHalo(l, ts[i], i)
  }

  /** Once the pair `(i, i + 1)` has exchanged, the bottom halo of rank `i`
      holds the rows rank `i + 1` sent; otherwise it is as in `ts[i]`. */
  ghost predicate BottomAfter(l: Layout, ts: seq<seq<Pixel>>, t: seq<Pixel>, m: nat, i: nat)
    requires IsTiles(l, ts) && i < l.size && m < l.size && TileShape(t, l.width, N(l, i), l.radius)
  {
    BottomHalo(l, t, i) == if i < m then FirstOwned(l, ts[i + 1], i + 1) else BottomHalo(l, ts[i], i)
  }

  /** What the exchanges of the first `m` pairs did to rank `i`'s tile `t`. */
  ghost predicate ExchangedAt(l: Layout, ts: seq<seq<Pixel>>, t: seq<Pixel>, m: nat, i: nat)
    requires IsTiles(l, ts) && i < l.size && m < l.size && TileShape(t, l.width, N(l, i), l.radius)
  {
    OwnedKept(l, ts, t, i) && TopAfter(l, ts, t, m, i) && BottomAfter(l, ts, t, m, i)
  }

  lemma {:induction false} ExchangePairsEffect(l: Layout, ts: seq<seq<Pixel>>, m: nat)
    requires IsTiles(l, ts) && m < l.size && RowsCoverRadius(l)
    ensures forall i :: 0 <= i < l.size ==> ExchangedAt(l, ts, ExchangePairs(l, ts, m)[i], m, i)
  {
    if m > 0 {
      ExchangePairsEffect(l, ts, m - 1);
      PairStep(l, ts, ExchangePairs(l, ts, m - 1), m);
    }
  }

  /** The exchange of the pair `(m - 1, m)` extends the effect of the
      exchanges before it by one pair. */
  lemma PairStep(l: Layout, ts: seq<seq<Pixel>>, p: seq<seq<Pixel>>, m: nat)
    requires IsTiles(l, ts) && IsTiles(l, p) && 0 < m < l.size && RowsCoverRadius(l)
    requires forall i :: 0 <= i < l.size ==> ExchangedAt(l, ts, p[i], m - 1, i)
    ensures forall i :: 0 <= i < l.size ==> ExchangedAt(l, ts, ExchangePair(l, p, m)[i], m, i)
  {
    var e := ExchangeRows(p[m - 1], p[m], l.width, N(l, m - 1), N(l, m), l.radius);
    var r := ExchangePair(l, p, m);
    assert r == p[m - 1 := e.0][m := e.1];
    assert ExchangedAt(l, ts, p[m - 1], m - 1, m - 1) && ExchangedAt(l, ts, p[m], m - 1, m);
    RadiusWithinRows(l, m);
    RadiusWithinRows(l, m - 1);
    UpperAfterPair(l, ts, p[m - 1], p[m], m);
    LowerAfterPair(l, ts, p[m - 1], p[m], m);
    forall i | 0 <= i < l.size && i != m - 1 && i != m
      ensures ExchangedAt(l, ts, r[i], m, i)
    {
      assert r[i] == p[i];
      Untouched(l, ts, p[i], m, i);
    }
  }

  /** A tile outside the pair `(m - 1, m)` is not affected by its exchange. */
  lemma Untouched(l: Layout, ts: seq<seq<Pixel>>, t: seq<Pixel>, m: nat, i: nat)
    requires IsTiles(l, ts) && 0 < m < l.size && i < l.size && i != m - 1 && i != m
    requires TileShape(t, l.width, N(l, i), l.radius)
    requires ExchangedAt(l, ts, t, m - 1, i)
    ensures ExchangedAt(l, ts, t, m, i)
  {
  }

  /** The upper tile of the pair `(m - 1, m)` after their exchange. */
  lemma UpperAfterPair(l: Layout, ts: seq<seq<Pixel>>, pu: seq<Pixel>, pl: seq<Pixel>, m: nat)
    requires IsTiles(l, ts) && 0 < m < l.size && l.radius <= N(l, m)
    requires TileShape(pu, l.width, N(l, m - 1), l.radius) && TileShape(pl, l.width, N(l, m), l.radius)
    requires ExchangedAt(l, ts, pu, m - 1, m - 1) && OwnedKept(l, ts, pl, m)
    ensures ExchangedAt(l, ts, ExchangeRows(pu, pl, l.width, N(l, m - 1), N(l, m), l.radius).0, m, m - 1)
  {
    UpperKeepsOwned(l, ts, pu, pl, m);
    UpperKeepsTop(l, ts, pu, pl, m);
    UpperReceives(l, ts, pu, pl, m);
  }

  lemma UpperKeepsOwned(l: Layout, ts: seq<seq<Pixel>>, pu: seq<Pixel>, pl: seq<Pixel>, m: nat)
    requires IsTiles(l, ts) && 0 < m < l.size
    requires TileShape(pu, l.width, N(l, m - 1), l.radius) && TileShape(pl, l.width, N(l, m), l.radius)
    requires OwnedKept(l, ts, pu, m - 1) && l.radius <= N(l, m)
    ensures OwnedKept(l, ts, ExchangeRows(pu, pl, l.width, N(l, m - 1), N(l, m), l.radius).0, m - 1)
  {
    UpperRegions(pu, pl, l.width, N(l, m - 1), N(l, m), l.radius);
  }

  lemma UpperKeepsTop(l: Layout, ts: seq<seq<Pixel>>, pu: seq<Pixel>, pl: seq<Pixel>, m: nat)
    requires IsTiles(l, ts) && 0 < m < l.size
    requires TileShape(pu, l.width, N(l, m - 1), l.radius) && TileShape(pl, l.width, N(l, m), l.radius)
    requires TopAfter(l, ts, pu, m - 1, m - 1) && l.radius <= N(l, m)
    ensures TopAfter(l, ts, ExchangeRows(pu, pl, l.width, N(l, m - 1), N(l, m), l.radius).0, m, m - 1)
  {
    var u := ExchangeRows(pu, pl, l.width, N(l, m - 1), N(l, m), l.radius).0;
    UpperRegions(pu, pl, l.width, N(l, m - 1), N(l, m), l.radius);
    assert TopHalo(l, u, m - 1) == TopHalo(l, pu, m - 1);
  }

  lemma UpperReceives(l: Layout, ts: seq<seq<Pixel>>, pu: seq<Pixel>, pl: seq<Pixel>, m: nat)
    requires IsTiles(l, ts) && 0 < m < l.size
    requires TileShape(pu, l.width, N(l, m - 1), l.radius) && TileShape(pl, l.width, N(l, m), l.radius)
    requires OwnedKept(l, ts, pl, m) && l.radius <= N(l, m)
    ensures BottomAfter(l, ts, ExchangeRows(pu, pl, l.width, N(l, m - 1), N(l, m), l.radius).0, m, m - 1)
  {
    var w, R, nu, nl := l.width, l.radius, N(l, m - 1), N(l, m);
    var u := ExchangeRows(pu, pl, w, nu, nl, R).0;
    UpperRegions(pu, pl, w, nu, nl, R);
    HeadKept(pl, ts[m], w, nl, R);
    assert BottomHalo(l, u, m - 1) == RowSlice(pl, w, R, R);
    assert FirstOwned(l, ts[m], m) == RowSlice(ts[m], w, R, R);
  }

  /** The lower tile of the pair `(m - 1, m)` after their exchange. */
  lemma LowerAfterPair(l: Layout, ts: seq<seq<Pixel>>, pu: seq<Pixel>, pl: seq<Pixel>, m: nat)
    requires IsTiles(l, ts) && 0 < m < l.size && l.radius <= N(l, m - 1)
    requires TileShape(pu, l.width, N(l, m - 1), l.radius) && TileShape(pl, l.width, N(l, m), l.radius)
    requires OwnedKept(l, ts, pu, m - 1) && ExchangedAt(l, ts, pl, m - 1, m)
    ensures ExchangedAt(l, ts, ExchangeRows(pu, pl, l.width, N(l, m - 1), N(l, m), l.radius).1, m, m)
  {
    LowerKeepsOwned(l, ts, pu, pl, m);
    LowerKeepsBottom(l, ts, pu, pl, m);
    LowerReceives(l, ts, pu, pl, m);
  }

  lemma LowerKeepsOwned(l: Layout, ts: seq<seq<Pixel>>, pu: seq<Pixel>, pl: seq<Pixel>, m: nat)
    requires IsTiles(l, ts) && 0 < m < l.size
    requires TileShape(pu, l.width, N(l, m - 1), l.radius) && TileShape(pl, l.width, N(l, m), l.radius)
    requires OwnedKept(l, ts, pl, m) && l.radius <= N(l, m - 1)
    ensures OwnedKept(l, ts, ExchangeRows(pu, pl, l.width, N(l, m - 1), N(l, m), l.radius).1, m)
  {
    LowerRegions(pu, pl, l.width, N(l, m - 1), N(l, m), l.radius);
  }

  lemma LowerKeepsBottom(l: Layout, ts: seq<seq<Pixel>>, pu: seq<Pixel>, pl: seq<Pixel>, m: nat)
    requires IsTiles(l, ts) && 0 < m < l.size
    requires TileShape(pu, l.width, N(l, m - 1), l.radius) && TileShape(pl, l.width, N(l, m), l.radius)
    requires BottomAfter(l, ts, pl, m - 1, m) && l.radius <= N(l, m - 1)
    ensures BottomAfter(l, ts, ExchangeRows(pu, pl, l.width, N(l, m - 1), N(l, m), l.radius).1, m, m)
  {
    var d := ExchangeRows(pu, pl, l.width, N(l, m - 1), N(l, m), l.radius).1;
    LowerRegions(pu, pl, l.width, N(l, m - 1), N(l, m), l.radius);
    assert BottomHalo(l, d, m) == BottomHalo(l, pl, m);
  }

  lemma LowerReceives(l: Layout, ts: seq<seq<Pixel>>, pu: seq<Pixel>, pl: seq<Pixel>, m: nat)
    requires IsTiles(l, ts) && 0 < m < l.size
    requires TileShape(pu, l.width, N(l, m - 1), l.radius) && TileShape(pl, l.width, N(l, m), l.radius)
    requires OwnedKept(l, ts, pu, m - 1) && l.radius <= N(l, m - 1)
    ensures TopAfter(l, ts, ExchangeRows(pu, pl, l.width, N(l, m - 1), N(l, m), l.radius).1, m, m)
  {
    var w, R, nu, nl := l.width, l.radius, N(l, m - 1), N(l, m);
    var d := ExchangeRows(pu, pl, w, nu, nl, R).1;
    LowerRegions(pu, pl, w, nu, nl, R);
    TailKept(pu, ts[m - 1], w, nu, R);
    assert TopHalo(l, d, m) == RowSlice(pu, w, nu, R);
    assert LastOwned(l, ts[m - 1], m - 1) == RowSlice(ts[m - 1], w, nu, R);
  }

  /** The upper tile of an exchange keeps its top halo and owned rows and
      receives the lower tile's first owned rows into its bottom halo. */
  lemma UpperRegions(upper: seq<Pixel>, lower: seq<Pixel>, w: nat, nu: nat, nl: nat, R: nat)
    requires TileShape(upper, w, nu, R) && TileShape(lower, w, nl, R) && R <= nl
    ensures var u := ExchangeRows(upper, lower, w, nu, nl, R).0;
            && w * (R + nu + R) <= |u| && w * (R + R) <= |lower|
            && RowSlice(u, w, 0, R) == RowSlice(upper, w, 0, R)
            && Owned(u, w, nu, R) == Owned(upper, w, nu, R)
            && RowSlice(u, w, R + nu, R) == RowSlice(lower, w, R, R)
  {
    var u := ExchangeRows(upper, lower, w, nu, nl, R).0;
    ExchangeRefreshesUpperHalo(upper, lower, w, nu, nl, R);
    RowRangeInTile(w, TileRows(nu, R), 0, R + nu);
    RowRangeInTile(w, TileRows(nu, R), R + nu, R);
    RowRangeInTile(w, TileRows(nl, R), R, R);
    SubSliceEq(u, 0, upper, 0, w, R + nu, 0, R);
    SubSliceEq(u, 0, upper, 0, w, R + nu, R, nu);
  }

  /** The lower tile of an exchange keeps its owned rows and bottom halo and
      receives the upper tile's last owned rows into its top halo. */
  lemma LowerRegions(upper: seq<Pixel>, lower: seq<Pixel>, w: nat, nu: nat, nl: nat, R: nat)
    requires TileShape(upper, w, nu, R) && TileShape(lower, w, nl, R) && R <= nu
    ensures var d := ExchangeRows(upper, lower, w, nu, nl, R).1;
            && w * (R + nl + R) <= |d| && w * (nu + R) <= |upper|
            && RowSlice(d, w, R + nl, R) == RowSlice(lower, w, R + nl, R)
            && Owned(d, w, nl, R) == Owned(lower, w, nl, R)
            && RowSlice(d, w, 0, R) == RowSlice(upper, w, nu, R)
  {
    var d := ExchangeRows(upper, lower, w, nu, nl, R).1;
    ExchangeRefreshesLowerHalo(upper, lower, w, nu, nl, R);
    RowRangeInTile(w, TileRows(nl, R), R, nl + R);
    RowRangeInTile(w, TileRows(nu, R), nu, R);
    SubSliceEq(d, R, lower, R, w, nl + R, 0, nl);
    SubSliceEq(d, R, lower, R, w, nl + R, nl, R);
  }

  /** Tiles with the same owned rows send the same rows down. */
  lemma TailKept(t: seq<Pixel>, u: seq<Pixel>, w: nat, n: nat, R: nat)
    requires TileShape(t, w, n, R) && TileShape(u, w, n, R) && R <= n
    requires Owned(t, w, n, R) == Owned(u, w, n, R)
    ensures w * (n + R) <= |t|
    ensures RowSlice(t, w, n, R) == RowSlice(u, w, n, R)
  {
    RowRangeInTile(w, TileRows(n, R), R, n);
    RowRangeInTile(w, TileRows(n, R), n, R);
    SubSliceEq(t, R, u, R, w, n, n - R, R);
  }

  /** Tiles with the same owned rows send the same rows up. */
  lemma HeadKept(t: seq<Pixel>, u: seq<Pixel>, w: nat, n: nat, R: nat)
    requires TileShape(t, w, n, R) && TileShape(u, w, n, R) && R <= n
    requires Owned(t, w, n, R) == Owned(u, w, n, R)
    ensures w * (R + R) <= |t|
    ensures RowSlice(t, w, R, R) == RowSlice(u, w, R, R)
  {
    RowRangeInTile(w, TileRows(n, R), R, n);
    RowRangeInTile(w, TileRows(n, R), R, R);
    SubSliceEq(t, R, u, R, w, n, 0, R);
  }

  /** After the exchange phase every halo that faces a neighbour holds that
      neighbour's boundary rows; owned rows and outward halos are untouched. */
  lemma ExchangeAllEffect(l: Layout, ts: seq<seq<Pixel>>, i: nat)
    requires IsTiles(l, ts) && RowsCoverRadius(l) && i < l.size
    ensures ExchangedAt(l, ts, ExchangeAll(l, ts)[i], l.size - 1, i)
  {
    ExchangePairsEffect(l, ts, l.size - 1);
  }

  // ---------------------------------------------------------------------
  // The kernel pass and the whole run

  /** The rows `[a, a + c)` of `tile` are the image rows `[b, b + c)`. */
  lemma WindowFromSlice(tile: seq<Pixel>, rows: nat, image: seq<Pixel>, width: nat, height: nat, top: int,
                        a: nat, c: nat, b: nat)
    requires |tile| == width * rows && |image| == width * height
    requires a + c <= rows && b + c <= height && top + a == b
    requires width * (a + c) <= |tile| && width * (b + c) <= |image|
    requires RowSlice(tile, width, a, c) == RowSlice(image, width, b, c)
    ensures forall j :: a <= j < a + c ==> Row(tile, width, rows, j) == PaddedRow(image, width, height, top + j)
  {
    forall j | a <= j < a + c
      ensures Row(tile, width, rows, j) == PaddedRow(image, width, height, top + j)
    {
      var d := j - a;
      assert a + d == j && b + d == top + j;
      RowsOfSlice(tile, rows, a, image, height, b, width, c, d);
    }
  }

  /** The rows `[a, a + c)` of `tile` are blank and face no image row. */
  lemma WindowFromBlank(tile: seq<Pixel>, rows: nat, image: seq<Pixel>, width: nat, height: nat, top: int,
                        a: nat, c: nat)
    requires |tile| == width * rows && |image| == width * height
    requires a + c <= rows && (top + a + c <= 0 || height <= top + a)
    requires width * (a + c) <= |tile|
    requires RowSlice(tile, width, a, c) == Blanks(width * c)
    ensures forall j :: a <= j < a + c ==> Row(tile, width, rows, j) == PaddedRow(image, width, height, top + j)
  {
    forall j | a <= j < a + c
      ensures Row(tile, width, rows, j) == PaddedRow(image, width, height, top + j)
    {
      var d := j - a;
      assert a + d == j;
      BlankRowOfSlice(tile, width, rows, a, c, d);
    }
  }

  /** A row inside a blank row range is blank. */
  lemma BlankRowOfSlice(tile: seq<Pixel>, width: nat, rows: nat, a: nat, c: nat, d: nat)
    requires |tile| == width * rows && a + c <= rows && d < c
    requires width * (a + c) <= |tile|
    requires RowSlice(tile, width, a, c) == Blanks(width * c)
    ensures Row(tile, width, rows, a + d) == Blanks(width)
  {
    RowInSlice(tile, width, rows, a, c, d);
  }

  /** The state the engine keeps between iterations, for the image `x` the
      reference holds at the same point: every tile's owned rows are its
      rank's share of `x`, and the outward halos of the first and last rank
      are blank in both buffers. */
  ghost predicate Tracks(l: Layout, cur: seq<seq<Pixel>>, nxt: seq<seq<Pixel>>, x: seq<Pixel>)
  {
    IsTiles(l, cur) && IsTiles(l, nxt) && |x| == l.width * l.height && OwnsShares(l, cur, x) && EdgesBlank(l, cur, nxt)
  }

  /** Every tile's owned rows are its rank's share of `x`. */
  ghost predicate OwnsShares(l: Layout, ts: seq<seq<Pixel>>, x: seq<Pixel>)
    requires IsTiles(l, ts) && |x| == l.width * l.height
  {
    forall i :: 0 <= i < l.size ==>
      Owned(ts[i], l.width, N(l, i), l.radius) == Distribution.Share(x, l.width, l.height, l.size, i)
  }

  /** The halos that face outside the image are blank in both buffers. */
  ghost predicate EdgesBlank(l: Layout, cur: seq<seq<Pixel>>, nxt: seq<seq<Pixel>>)
    requires IsTiles(l, cur) && IsTiles(l, nxt)
  {
    && TopHalo(l, cur[0], 0) == Blanks(l.width * l.radius)
    && TopHalo(l, nxt[0], 0) == Blanks(l.width * l.radius)
    && BottomHalo(l, cur[l.size - 1], l.size - 1) == Blanks(l.width * l.radius)
    && BottomHalo(l, nxt[l.size - 1], l.size - 1) == Blanks(l.width * l.radius)
  }

  /** After the exchange phase, each tile holds the rows of the zero-padded
      image that its kernel pass needs: its owned rows and `radius` rows on
      either side. */
  lemma WindowAfterExchange(l: Layout, cur: seq<seq<Pixel>>, nxt: seq<seq<Pixel>>, x: seq<Pixel>, i: nat)
    requires Tracks(l, cur, nxt, x) && RowsCoverRadius(l) && i < l.size
    ensures IsWindow(ExchangeAll(l, cur)[i], Height(l, i), x, l.width, l.height,
                     FirstRow(l.height, l.size, i) - l.radius)
  {
    var t := ExchangeAll(l, cur)[i];
    ExchangeAllEffect(l, cur, i);
    WindowOwned(l, t, x, i);
    TopWindow(l, cur, t, x, i);
    BottomWindow(l, cur, t, x, i);
  }

  /** The top halo rows of an exchanged tile `t` are the padded image rows above rank `i`'s own. */
  lemma TopWindow(l: Layout, cur: seq<seq<Pixel>>, t: seq<Pixel>, x: seq<Pixel>, i: nat)
    requires IsTiles(l, cur) && RowsCoverRadius(l) && i < l.size && |x| == l.width * l.height
    requires TileShape(t, l.width, N(l, i), l.radius) && TopAfter(l, cur, t, l.size - 1, i)
    requires i == 0 ==> TopHalo(l, cur[0], 0) == Blanks(l.width * l.radius)
    requires i > 0 ==> Owned(cur[i - 1], l.width, N(l, i - 1), l.radius)
                       == Distribution.Share(x, l.width, l.height, l.size, i - 1)
    ensures forall j :: 0 <= j < l.radius ==>
              Row(t, l.width, Height(l, i), j)
              == PaddedRow(x, l.width, l.height, FirstRow(l.height, l.size, i) - l.radius + j)
  {
    if i == 0 {
      WindowTopEdge(l, t, x, i);
    } else {
      RadiusWithinRows(l, i - 1);
      TopHaloRows(l, cur[i - 1], x, i);
      WindowTopInner(l, t, x, i);
    }
  }

  /** The bottom halo rows of an exchanged tile `t` are the padded image rows below rank `i`'s own. */
  lemma BottomWindow(l: Layout, cur: seq<seq<Pixel>>, t: seq<Pixel>, x: seq<Pixel>, i: nat)
    requires IsTiles(l, cur) && RowsCoverRadius(l) && i < l.size && |x| == l.width * l.height
    requires TileShape(t, l.width, N(l, i), l.radius) && BottomAfter(l, cur, t, l.size - 1, i)
    requires i == l.size - 1 ==> BottomHalo(l, cur[i], i) == Blanks(l.width * l.radius)
    requires i + 1 < l.size ==> Owned(cur[i + 1], l.width, N(l, i + 1), l.radius)
                                == Distribution.Share(x, l.width, l.height, l.size, i + 1)
    ensures forall j :: l.radius + N(l, i) <= j < Height(l, i) ==>
              Row(t, l.width, Height(l, i), j)
              == PaddedRow(x, l.width, l.height, FirstRow(l.height, l.size, i) - l.radius + j)
  {
    if i == l.size - 1 {
      WindowBottomEdge(l, t, x, i);
    } else {
      RadiusWithinRows(l, i + 1);
      BottomHaloRows(l, cur[i + 1], x, i);
      WindowBottomInner(l, t, x, i);
    }
  }

  /** Rank 0's blank top halo stands for the rows above the image. */
  lemma WindowTopEdge(l: Layout, t: seq<Pixel>, x: seq<Pixel>, i: nat)
    requires l.size > 0 && i == 0 && |x| == l.width * l.height
    requires TileShape(t, l.width, N(l, i), l.radius)
    requires TopHalo(l, t, i) == Blanks(l.width * l.radius)
    ensures forall j :: 0 <= j < l.radius ==>
              Row(t, l.width, Height(l, i), j) == PaddedRow(x, l.width, l.height, FirstRow(l.height, l.size, i) - l.radius + j)
  {
    RowRangeInTile(l.width, Height(l, i), 0, l.radius);
    WindowFromBlank(t, Height(l, i), x, l.width, l.height, FirstRow(l.height, l.size, i) - l.radius, 0, l.radius);
  }

  /** A top halo filled by the upper neighbour holds the image rows above the rank's own. */
  lemma WindowTopInner(l: Layout, t: seq<Pixel>, x: seq<Pixel>, i: nat)
    requires l.size > 0 && 0 < i < l.size && |x| == l.width * l.height
    requires TileShape(t, l.width, N(l, i), l.radius)
    requires l.radius <= FirstRow(l.height, l.size, i) <= l.height
    requires l.width * FirstRow(l.height, l.size, i) <= |x|
    requires TopHalo(l, t, i) == RowSlice(x, l.width, FirstRow(l.height, l.size, i) - l.radius, l.radius)
    ensures forall j :: 0 <= j < l.radius ==>
              Row(t, l.width, Height(l, i), j) == PaddedRow(x, l.width, l.height, FirstRow(l.height, l.size, i) - l.radius + j)
  {
    var f := FirstRow(l.height, l.size, i);
    RowRangeInTile(l.width, Height(l, i), 0, l.radius);
    WindowFromSlice(t, Height(l, i), x, l.width, l.height, f - l.radius, 0, l.radius, f - l.radius);
  }

  /** The last rank's blank bottom halo stands for the rows below the image. */
  lemma WindowBottomEdge(l: Layout, t: seq<Pixel>, x: seq<Pixel>, i: nat)
    requires l.size > 0 && i == l.size - 1 && |x| == l.width * l.height
    requires TileShape(t, l.width, N(l, i), l.radius)
    requires BottomHalo(l, t, i) == Blanks(l.width * l.radius)
    ensures forall j :: l.radius + N(l, i) <= j < Height(l, i) ==>
              Row(t, l.width, Height(l, i), j) == PaddedRow(x, l.width, l.height, FirstRow(l.height, l.size, i) - l.radius + j)
  {
    var w, h, R, n := l.width, l.height, l.radius, N(l, i);
    var f: int := FirstRow(h, l.size, i);
    RowRangeInTile(w, Height(l, i), R + n, R);
    RowsCoverHeight(h, l.size);
    assert FirstRow(h, l.size, i + 1) == f + n;
    WindowFromBlank(t, Height(l, i), x, w, h, f - R, R + n, R);
  }

  /** A bottom halo filled by the lower neighbour holds the image rows below the rank's own. */
  lemma WindowBottomInner(l: Layout, t: seq<Pixel>, x: seq<Pixel>, i: nat)
    requires l.size > 0 && i + 1 < l.size && |x| == l.width * l.height
    requires TileShape(t, l.width, N(l, i), l.radius)
    requires FirstRow(l.height, l.size, i + 1) + l.radius <= l.height
    requires l.width * (FirstRow(l.height, l.size, i + 1) + l.radius) <= |x|
    requires BottomHalo(l, t, i) == RowSlice(x, l.width, FirstRow(l.height, l.size, i + 1), l.radius)
    ensures forall j :: l.radius + N(l, i) <= j < Height(l, i) ==>
              Row(t, l.width, Height(l, i), j) == PaddedRow(x, l.width, l.height, FirstRow(l.height, l.size, i) - l.radius + j)
  {
    var w, h, R, n := l.width, l.height, l.radius, N(l, i);
    var f: int := FirstRow(h, l.size, i);
    RowRangeInTile(w, Height(l, i), R + n, R);
    assert FirstRow(h, l.size, i + 1) == f + n;
    WindowFromSlice(t, Height(l, i), x, w, h, f - R, R + n, R, f + n);
  }

  lemma WindowOwned(l: Layout, t: seq<Pixel>, x: seq<Pixel>, i: nat)
    requires l.size > 0 && i < l.size && |x| == l.width * l.height
    requires TileShape(t, l.width, N(l, i), l.radius)
    requires Owned(t, l.width, N(l, i), l.radius) == Distribution.Share(x, l.width, l.height, l.size, i)
    ensures forall j :: l.radius <= j < l.radius + N(l, i) ==>
              Row(t, l.width, Height(l, i), j)
              == PaddedRow(x, l.width, l.height, FirstRow(l.height, l.size, i) - l.radius + j)
  {
    var w, h, R, n := l.width, l.height, l.radius, N(l, i);
    var f := FirstRow(h, l.size, i);
    OwnedRangeInImage(h, l.size, i);
    ScaleLeq(w, f + n, h);
    RowRangeInTile(w, Height(l, i), R, n);
    assert |t| == w * Height(l, i);
    assert R + n <= Height(l, i) && f + n <= h;
    assert w * (R + n) <= |t|;
    assert w * (f + n) <= |x|;
    assert RowSlice(t, w, R, n) == RowSlice(x, w, f, n);
    WindowFromSlice(t, Height(l, i), x, w, h, f - R, R, n, f);
  }

  /** The rows rank `i - 1` sends down are the image rows just above rank `i`'s. */
  lemma TopHaloRows(l: Layout, t: seq<Pixel>, x: seq<Pixel>, i: nat)
    requires l.size > 0 && 0 < i < l.size && |x| == l.width * l.height && l.radius <= N(l, i - 1)
    requires TileShape(t, l.width, N(l, i - 1), l.radius)
    requires Owned(t, l.width, N(l, i - 1), l.radius) == Distribution.Share(x, l.width, l.height, l.size, i - 1)
    ensures l.radius <= FirstRow(l.height, l.size, i) <= l.height
    ensures l.width * FirstRow(l.height, l.size, i) <= |x|
    ensures LastOwned(l, t, i - 1)
            == RowSlice(x, l.width, FirstRow(l.height, l.size, i) - l.radius, l.radius)
  {
    var w, h, R, n := l.width, l.height, l.radius, N(l, i - 1);
    var f := FirstRow(h, l.size, i - 1);
    OwnedRangeInImage(h, l.size, i - 1);
    MulLeq(f + n, h, w);
    TailOfShare(t, x, w, h, n, R, f);
  }

  /** The last `radius` owned rows of a tile whose owned rows are the image
      rows `[f, f + n)` are the image rows `[f + n - radius, f + n)`. */
  lemma TailOfShare(t: seq<Pixel>, x: seq<Pixel>, w: nat, h: nat, n: nat, R: nat, f: nat)
    requires TileShape(t, w, n, R) && |x| == w * h && R <= n && f + n <= h
    requires Owned(t, w, n, R) == RowSlice(x, w, f, n)
    ensures w * (n + R) <= |t| && w * (f + n) <= |x|
    ensures RowSlice(t, w, n, R) == RowSlice(x, w, f + n - R, R)
  {
    RowRangeInTile(w, TileRows(n, R), R, n);
    MulLeq(f + n, h, w);
    SubSliceEq(t, R, x, f, w, n, n - R, R);
  }

  /** The first `radius` owned rows of a tile whose owned rows are the image
      rows `[f, f + n)` are the image rows `[f, f + radius)`. */
  lemma HeadOfShare(t: seq<Pixel>, x: seq<Pixel>, w: nat, h: nat, n: nat, R: nat, f: nat)
    requires TileShape(t, w, n, R) && |x| == w * h && R <= n && f + n <= h
    requires Owned(t, w, n, R) == RowSlice(x, w, f, n)
    ensures w * (R + R) <= |t| && w * (f + R) <= |x|
    ensures RowSlice(t, w, R, R) == RowSlice(x, w, f, R)
  {
    RowRangeInTile(w, TileRows(n, R), R, n);
    MulLeq(f + n, h, w);
    SubSliceEq(t, R, x, f, w, n, 0, R);
  }

  /** The rows rank `i + 1` sends up are the image rows just below rank `i`'s. */
  lemma BottomHaloRows(l: Layout, t: seq<Pixel>, x: seq<Pixel>, i: nat)
    requires l.size > 0 && i + 1 < l.size && |x| == l.width * l.height && l.radius <= N(l, i + 1)
    requires TileShape(t, l.width, N(l, i + 1), l.radius)
    requires Owned(t, l.width, N(l, i + 1), l.radius) == Distribution.Share(x, l.width, l.height, l.size, i + 1)
    ensures FirstRow(l.height, l.size, i + 1) + l.radius <= l.height
    ensures l.width * (FirstRow(l.height, l.size, i + 1) + l.radius) <= |x|
    ensures FirstOwned(l, t, i + 1) == RowSlice(x, l.width, FirstRow(l.height, l.size, i + 1), l.radius)
  {
    var w, h, R, n := l.width, l.height, l.radius, N(l, i + 1);
    OwnedRangeInImage(h, l.size, i + 1);
    MulLeq(FirstRow(h, l.size, i + 1) + R, h, w);
    HeadOfShare(t, x, w, h, n, R, FirstRow(h, l.size, i + 1));
  }

  /** The kernel setting under which the engine agrees with the reference:
      an odd kernel whose half-width is the halo radius. */
  ghost predicate Centred(l: Layout, k: Kernel)
  {
    ValidKernel(k) && k.dim % 2 == 1 && l.radius == Radius(k)
  }

  /** The kernel pass over a tile that holds the right window gives the
      rank's share of the reference pass, and leaves the halos of the second
      buffer as they were. */
  lemma ConvolveOwnedShare(l: Layout, tile: seq<Pixel>, prev: seq<Pixel>, x: seq<Pixel>, i: nat, k: Kernel, scale: Scale)
    requires l.size > 0 && i < l.size && Centred(l, k) && |x| == l.width * l.height
    requires TileShape(tile, l.width, N(l, i), l.radius) && TileShape(prev, l.width, N(l, i), l.radius)
    requires IsWindow(tile, Height(l, i), x, l.width, l.height, FirstRow(l.height, l.size, i) - l.radius)
    ensures Owned(ConvolveOwned(l, tile, prev, i, k, scale), l.width, N(l, i), l.radius)
            == Distribution.Share(ConvolveTile(x, l.width, l.height, k, scale), l.width, l.height, l.size, i)
  {
    var w, R, n := l.width, l.radius, N(l, i);
    var piece := Owned(ConvolveTile(tile, w, Height(l, i), k, scale), w, n, R);
    RowRangeInTile(w, Height(l, i), R, n);
    SpliceInside(prev, w * R, piece);
    PassMatchesReference(l, tile, x, i, k, scale);
  }

  /** The kernel pass leaves the halo rows of the second buffer as they were. */
  lemma ConvolveOwnedHalos(l: Layout, tile: seq<Pixel>, prev: seq<Pixel>, i: nat, k: Kernel, scale: Scale)
    requires l.size > 0 && ValidKernel(k)
    requires TileShape(tile, l.width, N(l, i), l.radius) && TileShape(prev, l.width, N(l, i), l.radius)
    ensures TopHalo(l, ConvolveOwned(l, tile, prev, i, k, scale), i) == TopHalo(l, prev, i)
    ensures BottomHalo(l, ConvolveOwned(l, tile, prev, i, k, scale), i) == BottomHalo(l, prev, i)
  {
    var w, R, n := l.width, l.radius, N(l, i);
    var piece := Owned(ConvolveTile(tile, w, Height(l, i), k, scale), w, n, R);
    RowRangeInTile(w, Height(l, i), R, n);
    RowRangeInTile(w, Height(l, i), 0, R);
    RowRangeInTile(w, Height(l, i), R + n, R);
    assert w * (R + n) == w * R + w * n;
    SpliceOutside(prev, w * R, piece, 0, w * R);
    SpliceOutside(prev, w * R, piece, w * (R + n), w * (R + n + R));
  }

  /** The owned rows of the tile's kernel pass are the rank's rows of the
      reference pass. */
  lemma PassMatchesReference(l: Layout, tile: seq<Pixel>, x: seq<Pixel>, i: nat, k: Kernel, scale: Scale)
    requires l.size > 0 && i < l.size && Centred(l, k) && |x| == l.width * l.height
    requires TileShape(tile, l.width, N(l, i), l.radius)
    requires IsWindow(tile, Height(l, i), x, l.width, l.height, FirstRow(l.height, l.size, i) - l.radius)
    ensures Owned(ConvolveTile(tile, l.width, Height(l, i), k, scale), l.width, N(l, i), l.radius)
            == Distribution.Share(ConvolveTile(x, l.width, l.height, k, scale), l.width, l.height, l.size, i)
  {
    var w, h, R, n := l.width, l.height, l.radius, N(l, i);
    var f := FirstRow(h, l.size, i);
    OwnedRangeInImage(h, l.size, i);
    PassRows(tile, x, w, h, n, R, f, k, scale);
  }

  /** The owned rows of the pass over a window are the window's rows of the
      whole image's pass. */
  lemma PassRows(tile: seq<Pixel>, x: seq<Pixel>, w: nat, h: nat, n: nat, R: nat, f: nat, k: Kernel, scale: Scale)
    requires ValidKernel(k) && k.dim % 2 == 1 && R == k.dim / 2
    requires |x| == w * h && f + n <= h && |tile| == w * (n + 2 * R)
    requires IsWindow(tile, n + 2 * R, x, w, h, f - R)
    ensures w * (R + n) <= |tile| && w * (f + n) <= |x|
    ensures RowSlice(ConvolveTile(tile, w, n + 2 * R, k, scale), w, R, n)
            == RowSlice(ConvolveTile(x, w, h, k, scale), w, f, n)
  {
    var pass := ConvolveTile(tile, w, n + 2 * R, k, scale);
    var whole := ConvolveTile(x, w, h, k, scale);
    RowRangeInTile(w, n + 2 * R, R, n);
    RowRangeInTile(w, h, f, n);
    var lhs := RowSlice(pass, w, R, n);
    var rhs := RowSlice(whole, w, f, n);
    forall p | 0 <= p < w * n
      ensures lhs[p] == rhs[p]
    {
      PassPixel(tile, x, w, h, n, R, f, k, scale, p);
      SliceAt(pass, w, R, n, p);
      SliceAt(whole, w, f, n, p);
    }
  }

  /** Pixel `p` of rows `[a, a + c)` is pixel `width * a + p` of the buffer. */
  lemma SliceAt(t: seq<Pixel>, width: nat, a: nat, c: nat, p: nat)
    requires width * (a + c) <= |t| && p < width * c
    ensures 0 <= width * a + p < |t|
    ensures RowSlice(t, width, a, c)[p] == t[width * a + p]
  {
    MulLeq(0, a, width);
    assert width * (a + c) == width * a + width * c;
  }

  /** Pixel `p` of the owned rows of a tile's pass is pixel `p` of the
      rank's rows of the whole image's pass. */
  lemma PassPixel(tile: seq<Pixel>, x: seq<Pixel>, w: nat, h: nat, n: nat, R: nat, f: nat,
                  k: Kernel, scale: Scale, p: nat)
    requires ValidKernel(k) && k.dim % 2 == 1 && R == k.dim / 2
    requires |x| == w * h && f + n <= h && |tile| == w * (n + 2 * R)
    requires IsWindow(tile, n + 2 * R, x, w, h, f - R)
    requires p < w * n
    ensures 0 <= w * R + p < |tile| && 0 <= w * f + p < |x|
    ensures ConvolveTile(tile, w, n + 2 * R, k, scale)[w * R + p] == ConvolveTile(x, w, h, k, scale)[w * f + p]
  {
    OwnedPixelIndex(w, h, n, R, f, p);
    var y: nat, c: nat := p / w, p % w;
    assert ConvolvedAt(tile, w, n + 2 * R, k, scale, w * R + p) == Convolved(tile, w, n + 2 * R, k, scale, R + y, c);
    assert ConvolvedAt(x, w, h, k, scale, w * f + p) == Convolved(x, w, h, k, scale, f + y, c);
    ConvolvedLocal(tile, n + 2 * R, x, w, h, f - R, k, scale, R + y, c);
    assert f - R + (R + y) == f + y;
    assert ConvolveTile(tile, w, n + 2 * R, k, scale)[w * R + p] == ConvolvedAt(tile, w, n + 2 * R, k, scale, w * R + p);
    assert ConvolveTile(x, w, h, k, scale)[w * f + p] == ConvolvedAt(x, w, h, k, scale, w * f + p);
  }

  /** Where pixel `p` of `n` owned rows sits in the tile and in the image. */
  lemma OwnedPixelIndex(w: nat, h: nat, n: nat, R: nat, f: nat, p: nat)
    requires f + n <= h && p < w * n
    ensures w > 0 && 0 <= p / w < n && 0 <= p % w < w
    ensures 0 <= w * R && 0 <= w * f
    ensures w * R + p < w * (n + 2 * R) && w * f + p < w * h
    ensures (w * R + p) / w == R + p / w && (w * R + p) % w == p % w
    ensures (w * f + p) / w == f + p / w && (w * f + p) % w == p % w
  {
    RowOfPixel(w, n, p);
    ShiftDivMod(R, p, w);
    ShiftDivMod(f, p, w);
    PixelInRows(w, R, n, n + 2 * R, p);
    PixelInRows(w, f, n, h, p);
  }

  /** Pixel `p` of `n` rows of `w` pixels lies in row `p / w`, column `p % w`. */
  lemma RowOfPixel(w: nat, n: nat, p: nat)
    requires p < w * n
    ensures w > 0 && 0 <= p / w < n && 0 <= p % w < w
  {
    var y := p / w;
    assert y < n by {
      if y >= n { MulLeq(n, y, w); }
    }
  }

  /** Pixel `p` of rows `[a, a + n)` lies inside a buffer of `total` rows. */
  lemma PixelInRows(w: nat, a: nat, n: nat, total: nat, p: nat)
    requires a + n <= total && p < w * n
    ensures 0 <= w * a && w * a + p < w * total
  {
    MulLeq(0, a, w);
    MulLeq(a + n, total, w);
    Distribute(w, a, n);
  }

  /** Adding whole rows to a row-major index moves its row and keeps its column. */
  lemma ShiftDivMod(a: nat, p: nat, w: nat)
    requires w > 0
    ensures (w * a + p) / w == a + p / w && (w * a + p) % w == p % w
  {
    var y, c := p / w, p % w;
    assert w * a + p == (a + y) * w + c;
    RowMajorDivMod(a + y, c, w);
  }

  /** One iteration keeps the engine in step with one reference pass. */
  lemma StepTracks(l: Layout, cur: seq<seq<Pixel>>, nxt: seq<seq<Pixel>>, x: seq<Pixel>, k: Kernel, scale: Scale)
    requires Tracks(l, cur, nxt, x) && RowsCoverRadius(l) && Centred(l, k)
    ensures Tracks(l, Step(l, cur, nxt, k, scale).0, Step(l, cur, nxt, k, scale).1,
                   ConvolveTile(x, l.width, l.height, k, scale))
  {
    StepOwns(l, cur, nxt, x, k, scale);
    StepEdges(l, cur, nxt, k, scale);
  }

  lemma StepOwns(l: Layout, cur: seq<seq<Pixel>>, nxt: seq<seq<Pixel>>, x: seq<Pixel>, k: Kernel, scale: Scale)
    requires Tracks(l, cur, nxt, x) && RowsCoverRadius(l) && Centred(l, k)
    ensures OwnsShares(l, Step(l, cur, nxt, k, scale).0, ConvolveTile(x, l.width, l.height, k, scale))
  {
    forall i | 0 <= i < l.size
      ensures Owned(Step(l, cur, nxt, k, scale).0[i], l.width, N(l, i), l.radius)
              == Distribution.Share(ConvolveTile(x, l.width, l.height, k, scale), l.width, l.height, l.size, i)
    {
      StepOwned(l, cur, nxt, x, k, scale, i);
    }
  }

  /** The outward halos stay blank through an iteration. */
  lemma StepEdges(l: Layout, cur: seq<seq<Pixel>>, nxt: seq<seq<Pixel>>, k: Kernel, scale: Scale)
    requires IsTiles(l, cur) && IsTiles(l, nxt) && ValidKernel(k) && RowsCoverRadius(l)
    requires EdgesBlank(l, cur, nxt)
    ensures EdgesBlank(l, Step(l, cur, nxt, k, scale).0, Step(l, cur, nxt, k, scale).1)
  {
    StepFirstEdge(l, cur, nxt, k, scale);
    StepLastEdge(l, cur, nxt, k, scale, l.size - 1);
  }

  lemma StepFirstEdge(l: Layout, cur: seq<seq<Pixel>>, nxt: seq<seq<Pixel>>, k: Kernel, scale: Scale)
    requires IsTiles(l, cur) && IsTiles(l, nxt) && ValidKernel(k) && RowsCoverRadius(l)
    requires TopHalo(l, cur[0], 0) == Blanks(l.width * l.radius)
    requires TopHalo(l, nxt[0], 0) == Blanks(l.width * l.radius)
    ensures TopHalo(l, Step(l, cur, nxt, k, scale).0[0], 0) == Blanks(l.width * l.radius)
    ensures TopHalo(l, Step(l, cur, nxt, k, scale).1[0], 0) == Blanks(l.width * l.radius)
  {
    StepHalos(l, cur, nxt, k, scale, 0);
    ExchangeKeepsFirstTop(l, cur);
  }

  lemma StepLastEdge(l: Layout, cur: seq<seq<Pixel>>, nxt: seq<seq<Pixel>>, k: Kernel, scale: Scale, i: nat)
    requires IsTiles(l, cur) && IsTiles(l, nxt) && ValidKernel(k) && RowsCoverRadius(l) && i == l.size - 1
    requires BottomHalo(l, cur[i], i) == Blanks(l.width * l.radius)
    requires BottomHalo(l, nxt[i], i) == Blanks(l.width * l.radius)
    ensures BottomHalo(l, Step(l, cur, nxt, k, scale).0[i], i) == Blanks(l.width * l.radius)
    ensures BottomHalo(l, Step(l, cur, nxt, k, scale).1[i], i) == Blanks(l.width * l.radius)
  {
    StepHalos(l, cur, nxt, k, scale, i);
    ExchangeKeepsLastBottom(l, cur, i);
  }

  /** Rank 0 receives nothing into its top halo. */
  lemma ExchangeKeepsFirstTop(l: Layout, ts: seq<seq<Pixel>>)
    requires IsTiles(l, ts) && RowsCoverRadius(l)
    ensures TopHalo(l, ExchangeAll(l, ts)[0], 0) == TopHalo(l, ts[0], 0)
  {
    ExchangeAllEffect(l, ts, 0);
  }

  /** The last rank receives nothing into its bottom halo. */
  lemma ExchangeKeepsLastBottom(l: Layout, ts: seq<seq<Pixel>>, i: nat)
    requires IsTiles(l, ts) && RowsCoverRadius(l) && i == l.size - 1
    ensures BottomHalo(l, ExchangeAll(l, ts)[i], i) == BottomHalo(l, ts[i], i)
  {
    ExchangeAllEffect(l, ts, i);
  }

  /** Rank `i`'s owned rows after one iteration. */
  lemma StepOwned(l: Layout, cur: seq<seq<Pixel>>, nxt: seq<seq<Pixel>>, x: seq<Pixel>, k: Kernel, scale: Scale, i: nat)
    requires Tracks(l, cur, nxt, x) && RowsCoverRadius(l) && Centred(l, k) && i < l.size
    ensures Owned(Step(l, cur, nxt, k, scale).0[i], l.width, N(l, i), l.radius)
            == Distribution.Share(ConvolveTile(x, l.width, l.height, k, scale), l.width, l.height, l.size, i)
  {
    var ex := ExchangeAll(l, cur);
    WindowAfterExchange(l, cur, nxt, x, i);
    assert Step(l, cur, nxt, k, scale).0[i] == ConvolveOwned(l, ex[i], nxt[i], i, k, scale);
    ConvolveOwnedShare(l, ex[i], nxt[i], x, i, k, scale);
  }

  /** Rank `i`'s halo rows after one iteration are those of its second buffer. */
  lemma StepHalos(l: Layout, cur: seq<seq<Pixel>>, nxt: seq<seq<Pixel>>, k: Kernel, scale: Scale, i: nat)
    requires IsTiles(l, cur) && IsTiles(l, nxt) && ValidKernel(k) && i < l.size
    ensures TopHalo(l, Step(l, cur, nxt, k, scale).0[i], i) == TopHalo(l, nxt[i], i)
    ensures BottomHalo(l, Step(l, cur, nxt, k, scale).0[i], i) == BottomHalo(l, nxt[i], i)
  {
    var ex := ExchangeAll(l, cur);
    assert Step(l, cur, nxt, k, scale).0[i] == ConvolveOwned(l, ex[i], nxt[i], i, k, scale);
    ConvolveOwnedHalos(l, ex[i], nxt[i], i, k, scale);
  }

  /** Right after the scatter the engine holds the input image. */
  lemma StartTracks(l: Layout, image: seq<Pixel>)
    requires l.size > 0 && |image| == l.width * l.height
    ensures Tracks(l, Scattered(l, image), Fresh(l), image)
  {
    ScatteredOwns(l, image);
    StartEdges(l, image);
  }

  lemma ScatteredOwns(l: Layout, image: seq<Pixel>)
    requires l.size > 0 && |image| == l.width * l.height
    ensures OwnsShares(l, Scattered(l, image), image)
  {
    var ts := Scattered(l, image);
    forall i | 0 <= i < l.size
      ensures Owned(ts[i], l.width, N(l, i), l.radius) == Distribution.Share(image, l.width, l.height, l.size, i)
    {
      assert ts[i] == ScatterTile(image, l.width, l.height, l.size, l.radius, i);
    }
  }

  lemma StartEdges(l: Layout, image: seq<Pixel>)
    requires l.size > 0 && |image| == l.width * l.height
    ensures EdgesBlank(l, Scattered(l, image), Fresh(l))
  {
    ScatteredHalos(l, image, 0);
    ScatteredHalos(l, image, l.size - 1);
    BlankHalos(l, 0);
    BlankHalos(l, l.size - 1);
  }

  lemma ScatteredHalos(l: Layout, image: seq<Pixel>, i: nat)
    requires l.size > 0 && |image| == l.width * l.height && i < l.size
    ensures TopHalo(l, Scattered(l, image)[i], i) == Blanks(l.width * l.radius)
    ensures BottomHalo(l, Scattered(l, image)[i], i) == Blanks(l.width * l.radius)
  {
    var t := ScatterTile(image, l.width, l.height, l.size, l.radius, i);
    assert Scattered(l, image)[i] == t;
    assert TopHalo(l, t, i) == RowSlice(t, l.width, 0, l.radius);
    assert BottomHalo(l, t, i) == RowSlice(t, l.width, l.radius + N(l, i), l.radius);
  }

  lemma BlankHalos(l: Layout, i: nat)
    requires l.size > 0 && i < l.size
    ensures TopHalo(l, Fresh(l)[i], i) == Blanks(l.width * l.radius)
    ensures BottomHalo(l, Fresh(l)[i], i) == Blanks(l.width * l.radius)
  {
    assert Fresh(l)[i] == Blanks(l.width * Height(l, i));
    BlankRows(l.width, Height(l, i), 0, l.radius);
    BlankRows(l.width, Height(l, i), l.radius + N(l, i), l.radius);
  }

  /** Each of `n` iterations keeps the engine in step with the reference. */
  lemma {:induction false} RunTracks(l: Layout, image: seq<Pixel>, k: Kernel, scale: Scale, n: nat)
    requires l.size > 0 && |image| == l.width * l.height && RowsCoverRadius(l) && Centred(l, k)
    ensures Tracks(l, Run(l, Scattered(l, image), Fresh(l), k, scale, n).0,
                   Run(l, Scattered(l, image), Fresh(l), k, scale, n).1,
                   Reference(image, l.width, l.height, k, scale, n))
  {
    if n == 0 {
      StartTracks(l, image);
    } else {
      RunTracks(l, image, k, scale, n - 1);
      var p := Run(l, Scattered(l, image), Fresh(l), k, scale, n - 1);
      StepTracks(l, p.0, p.1, Reference(image, l.width, l.height, k, scale, n - 1), k, scale);
    }
  }

  /** Gathering tiles whose owned rows are the shares of `x` yields `x`. */
  lemma GatherTracked(l: Layout, ts: seq<seq<Pixel>>, x: seq<Pixel>)
    requires IsTiles(l, ts) && |x| == l.width * l.height
    requires forall i :: 0 <= i < l.size ==>
               Owned(ts[i], l.width, N(l, i), l.radius) == Distribution.Share(x, l.width, l.height, l.size, i)
    ensures Gathered(l, ts) == x
  {
    var shares := Shares(x, l.width, l.height, l.size, l.size);
    var owned := seq(l.size, i requires 0 <= i < l.size => Owned(ts[i], l.width, N(l, i), l.radius));
    assert owned == shares;
    GatherShares(x, l.width, l.height, l.size);
  }

  /** The distributed result equals the single-worker reference after any
      number of iterations, for any number of ranks, when the kernel is odd
      and every rank owns at least as many rows as the halo radius. */
  lemma JobMatchesReference(l: Layout, image: seq<Pixel>, k: Kernel, scale: Scale, iterations: nat)
    requires l.size > 0 && |image| == l.width * l.height
    requires RowsCoverRadius(l) && Centred(l, k)
    ensures Job(l, image, k, scale, iterations) == Reference(image, l.width, l.height, k, scale, iterations)
  {
    RunTracks(l, image, k, scale, iterations);
    GatherTracked(l, Run(l, Scattered(l, image), Fresh(l), k, scale, iterations).0,
                  Reference(image, l.width, l.height, k, scale, iterations));
  }
}
