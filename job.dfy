/** The iteration loop of task3/main.c on the ranks' buffers: every rank
    holds a current tile (`my_image`) and a second tile (`processImage`);
    each iteration exchanges halos, runs the kernel into the second tile and
    swaps the two. The ranks run in lock step between barriers, so the
    ranks' buffers are modelled as one sequence of arrays indexed by rank. */
module Iteration {
  import opened Pixels
  import opened Rows
  import opened Halo
  import opened Convolution
  import opened Distribution
  import opened Engine

  /** The contents of one buffer per rank. */
  function Contents(ts: seq<array<Pixel>>): (r: seq<seq<Pixel>>)
    reads ts
    ensures |r| == |ts|
  {
    seq(|ts|, i reads ts requires 0 <= i < |ts| => ts[i][..])
  }

  /** No two ranks share a buffer. */
  ghost predicate Distinct(ts: seq<array<Pixel>>)
  {
    forall i, j :: 0 <= i < j < |ts| ==> ts[i] != ts[j]
  }

  /** The exchange phase: the neighbouring pairs `(m, m + 1)` swap halo rows,
      in rank order. */
  method ExchangePhase(l: Layout, tiles: seq<array<Pixel>>)
    requires |tiles| == l.size && Distinct(tiles) && IsTiles(l, Contents(tiles))
    modifies tiles
    ensures IsTiles(l, old(Contents(tiles)))
    ensures Contents(tiles) == ExchangeAll(l, old(Contents(tiles)))
  {
    ghost var s := Contents(tiles);
    var m := 0;
    while m + 1 < l.size
      invariant 0 <= m < l.size
      invariant Contents(tiles) == ExchangePairs(l, s, m)
    {
      ExchangeNeighbours(l, tiles, m + 1);
      m := m + 1;
    }
  }

  /** `send_and_get_bottom` of rank `m - 1` with `send_and_get_top` of rank `m`. */
  method ExchangeNeighbours(l: Layout, tiles: seq<array<Pixel>>, m: nat)
    requires |tiles| == l.size && Distinct(tiles) && IsTiles(l, Contents(tiles)) && 0 < m < l.size
    modifies tiles[m - 1], tiles[m]
    ensures Contents(tiles) == ExchangePair(l, old(Contents(tiles)), m)
  {
    ghost var before := Contents(tiles);
    ExchangeHalos(tiles[m - 1], tiles[m], l.width, N(l, m - 1), N(l, m), l.radius);
    ghost var e := ExchangeRows(before[m - 1], before[m], l.width, N(l, m - 1), N(l, m), l.radius);
    forall j | 0 <= j < |tiles|
      ensures Contents(tiles)[j] == before[m - 1 := e.0][m := e.1][j]
    {
      if j != m - 1 && j != m {
        assert tiles[j] != tiles[m - 1] && tiles[j] != tiles[m];
      }
    }
  }

  /** Pixel by pixel, the second buffer after the kernel pass over the owned
      rows: the pass inside the owned rows, the old content elsewhere. */
  lemma ConvolveOwnedAt(l: Layout, tile: seq<Pixel>, prev: seq<Pixel>, i: nat, k: Kernel, scale: Scale)
    requires l.size > 0 && ValidKernel(k)
    requires TileShape(tile, l.width, N(l, i), l.radius) && TileShape(prev, l.width, N(l, i), l.radius)
    ensures l.width * l.radius <= l.width * (l.radius + N(l, i)) <= |prev|
    ensures forall p :: 0 <= p < |prev| ==>
              ConvolveOwned(l, tile, prev, i, k, scale)[p]
              == if l.width * l.radius <= p < l.width * (l.radius + N(l, i))
                 then ConvolvedAt(tile, l.width, Height(l, i), k, scale, p) else prev[p]
  {
    var w, n, R := l.width, N(l, i), l.radius;
    RowRangeInTile(w, Height(l, i), R, n);
    Distribute(w, R, n);
  }

  /** `applyKernel` restricted to the owned rows of rank `i`'s tile. */
  method ConvolveOwnedRows(l: Layout, out: array<Pixel>, input: array<Pixel>, i: nat, k: Kernel, scale: Scale)
    requires out != input && l.size > 0 && ValidKernel(k)
    requires TileShape(input[..], l.width, N(l, i), l.radius) && TileShape(out[..], l.width, N(l, i), l.radius)
    modifies out
    ensures out[..] == ConvolveOwned(l, input[..], old(out[..]), i, k, scale)
  {
    RowRangeInTile(l.width, Height(l, i), l.radius, N(l, i));
    ApplyKernelRows(out, input, l.width, Height(l, i), k, scale, l.radius, l.radius + N(l, i));
    ConvolveOwnedAt(l, input[..], old(out[..]), i, k, scale);
  }

  /** The second buffers once ranks `[0, m)` have run the kernel over their
      current tiles. */
  function KernelPhase(l: Layout, cur: seq<seq<Pixel>>, nxt: seq<seq<Pixel>>, k: Kernel, scale: Scale, m: nat)
      : (r: seq<seq<Pixel>>)
    requires IsTiles(l, cur) && IsTiles(l, nxt) && ValidKernel(k)
    ensures IsTiles(l, r)
  {
    seq(l.size, j requires 0 <= j < l.size => if j < m then ConvolveOwned(l, cur[j], nxt[j], j, k, scale) else nxt[j])
  }

  /** The current buffers and the second buffers are `|cur|` + `|nxt|` distinct arrays. */
  ghost predicate Separate(cur: seq<array<Pixel>>, nxt: seq<array<Pixel>>)
  {
    && Distinct(cur) && Distinct(nxt)
    && forall i, j :: 0 <= i < |cur| && 0 <= j < |nxt| ==> cur[i] != nxt[j]
  }

  lemma SeparateSwap(cur: seq<array<Pixel>>, nxt: seq<array<Pixel>>)
    requires Separate(cur, nxt)
    ensures Separate(nxt, cur)
  {
  }

  /** The kernel phase: every rank convolves its current tile into its
      second tile. */
  method KernelPass(l: Layout, cur: seq<array<Pixel>>, nxt: seq<array<Pixel>>, k: Kernel, scale: Scale)
    requires |cur| == l.size && |nxt| == l.size && Separate(cur, nxt) && ValidKernel(k)
    requires IsTiles(l, Contents(cur)) && IsTiles(l, Contents(nxt))
    modifies nxt
    ensures Contents(cur) == old(Contents(cur))
    ensures Contents(nxt) == KernelPhase(l, Contents(cur), old(Contents(nxt)), k, scale, l.size)
  {
    ghost var c := Contents(cur);
    ghost var n := Contents(nxt);
    var i := 0;
    while i < l.size
      invariant 0 <= i <= l.size
      invariant Contents(cur) == c
      invariant Contents(nxt) == KernelPhase(l, c, n, k, scale, i)
    {
      KernelRank(l, cur, nxt, i, k, scale);
      assert KernelPhase(l, c, n, k, scale, i)[i := ConvolveOwned(l, c[i], n[i], i, k, scale)]
             == KernelPhase(l, c, n, k, scale, i + 1);
      i := i + 1;
    }
  }

  /** Rank `i`'s `applyKernel` call, which touches rank `i`'s second buffer only. */
  method KernelRank(l: Layout, cur: seq<array<Pixel>>, nxt: seq<array<Pixel>>, i: nat, k: Kernel, scale: Scale)
    requires |cur| == l.size && |nxt| == l.size && Separate(cur, nxt) && ValidKernel(k) && i < l.size
    requires IsTiles(l, Contents(cur)) && IsTiles(l, Contents(nxt))
    modifies nxt[i]
    ensures Contents(cur) == old(Contents(cur))
    ensures Contents(nxt) == old(Contents(nxt))[i := ConvolveOwned(l, cur[i][..], old(nxt[i][..]), i, k, scale)]
  {
    ghost var c := Contents(cur);
    ghost var n := Contents(nxt);
    ConvolveOwnedRows(l, nxt[i], cur[i], i, k, scale);
    forall j | 0 <= j < l.size
      ensures Contents(cur)[j] == c[j]
    {
      assert cur[j] != nxt[i];
    }
    forall j | 0 <= j < l.size && j != i
      ensures Contents(nxt)[j] == n[j]
    {
      assert nxt[j] != nxt[i];
    }
  }

  /** One iteration is the exchange phase followed by the kernel phase. */
  lemma StepIsPhases(l: Layout, cur: seq<seq<Pixel>>, nxt: seq<seq<Pixel>>, k: Kernel, scale: Scale)
    requires IsTiles(l, cur) && IsTiles(l, nxt) && ValidKernel(k)
    ensures Step(l, cur, nxt, k, scale).0 == KernelPhase(l, ExchangeAll(l, cur), nxt, k, scale, l.size)
    ensures Step(l, cur, nxt, k, scale).1 == ExchangeAll(l, cur)
  {
    var ex := ExchangeAll(l, cur);
    var after := Step(l, cur, nxt, k, scale).0;
    var phase := KernelPhase(l, ex, nxt, k, scale, l.size);
    forall j | 0 <= j < l.size
      ensures after[j] == phase[j]
    {
    }
    assert |after| == |phase|;
  }

  /** The body of the iteration loop up to the swap. */
  method IterationBody(l: Layout, cur: seq<array<Pixel>>, nxt: seq<array<Pixel>>, k: Kernel, scale: Scale)
    requires |cur| == l.size && |nxt| == l.size && Separate(cur, nxt) && ValidKernel(k)
    requires IsTiles(l, Contents(cur)) && IsTiles(l, Contents(nxt))
    modifies cur, nxt
    ensures IsTiles(l, old(Contents(cur))) && IsTiles(l, old(Contents(nxt)))
    ensures IsTiles(l, Contents(cur)) && IsTiles(l, Contents(nxt))
    ensures (Contents(nxt), Contents(cur)) == Step(l, old(Contents(cur)), old(Contents(nxt)), k, scale)
  {
    ghost var c, n := Contents(cur), Contents(nxt);
    ExchangePhase(l, cur);
    forall j | 0 <= j < l.size
      ensures Contents(nxt)[j] == n[j]
    {
      assert forall i :: 0 <= i < l.size ==> cur[i] != nxt[j];
    }
    KernelPass(l, cur, nxt, k, scale);
    StepIsPhases(l, c, n, k, scale);
  }

  /** The `for` loop over `options->iterations`: exchange, kernel, swap of the
      two buffers of every rank. `swapImage` exchanges the two references,
      which the model records as a flag saying which buffer set is current. */
  method Iterate(l: Layout, cur0: seq<array<Pixel>>, nxt0: seq<array<Pixel>>, k: Kernel, scale: Scale, iterations: nat)
      returns (cur: seq<array<Pixel>>, nxt: seq<array<Pixel>>)
    requires |cur0| == l.size && |nxt0| == l.size && Separate(cur0, nxt0) && ValidKernel(k)
    requires IsTiles(l, Contents(cur0)) && IsTiles(l, Contents(nxt0))
    modifies cur0, nxt0
    ensures (cur == cur0 && nxt == nxt0) || (cur == nxt0 && nxt == cur0)
    ensures IsTiles(l, old(Contents(cur0))) && IsTiles(l, old(Contents(nxt0)))
    ensures (Contents(cur), Contents(nxt)) == Run(l, old(Contents(cur0)), old(Contents(nxt0)), k, scale, iterations)
  {
    ghost var c0, n0 := Contents(cur0), Contents(nxt0);
    SeparateSwap(cur0, nxt0);
    var swapped := false;
    ghost var state := (c0, n0);
    var i := 0;
    while i < iterations
      invariant 0 <= i <= iterations
      invariant state == Run(l, c0, n0, k, scale, i)
      invariant !swapped ==> Contents(cur0) == state.0 && Contents(nxt0) == state.1
      invariant swapped ==> Contents(nxt0) == state.0 && Contents(cur0) == state.1
    {
      RunNext(l, c0, n0, k, scale, i);
      swapped := Advance(l, cur0, nxt0, swapped, k, scale, state);
      state := Step(l, state.0, state.1, k, scale);
      i := i + 1;
    }
    if swapped {
      cur, nxt := nxt0, cur0;
    } else {
      cur, nxt := cur0, nxt0;
    }
  }

  /** One pass of the loop body on the current buffers (`cur0` unless
      `swapped`), ending with the swap, which flips the flag. */
  method Advance(l: Layout, cur0: seq<array<Pixel>>, nxt0: seq<array<Pixel>>, swapped: bool, k: Kernel, scale: Scale,
                 ghost state: (seq<seq<Pixel>>, seq<seq<Pixel>>))
      returns (swappedAfter: bool)
    requires |cur0| == l.size && |nxt0| == l.size && Separate(cur0, nxt0) && Separate(nxt0, cur0) && ValidKernel(k)
    requires IsTiles(l, state.0) && IsTiles(l, state.1)
    requires !swapped ==> Contents(cur0) == state.0 && Contents(nxt0) == state.1
    requires swapped ==> Contents(nxt0) == state.0 && Contents(cur0) == state.1
    modifies cur0, nxt0
    ensures swappedAfter == !swapped
    ensures !swappedAfter ==> (Contents(cur0), Contents(nxt0)) == Step(l, state.0, state.1, k, scale)
    ensures swappedAfter ==> (Contents(nxt0), Contents(cur0)) == Step(l, state.0, state.1, k, scale)
  {
    if swapped {
      IterationBody(l, nxt0, cur0, k, scale);
    } else {
      IterationBody(l, cur0, nxt0, k, scale);
    }
    swappedAfter := !swapped;
  }

  lemma RunNext(l: Layout, cur: seq<seq<Pixel>>, nxt: seq<seq<Pixel>>, k: Kernel, scale: Scale, n: nat)
    requires IsTiles(l, cur) && IsTiles(l, nxt) && ValidKernel(k)
    ensures Run(l, cur, nxt, k, scale, n + 1)
            == Step(l, Run(l, cur, nxt, k, scale, n).0, Run(l, cur, nxt, k, scale, n).1, k, scale)
  {
  }

  /** One new buffer per rank, holding `ts[i]`. */
  method Allocate(ts: seq<seq<Pixel>>) returns (tiles: seq<array<Pixel>>)
    ensures |tiles| == |ts| && Distinct(tiles) && Contents(tiles) == ts
    ensures forall i :: 0 <= i < |tiles| ==> fresh(tiles[i])
  {
    tiles := [];
    while |tiles| < |ts|
      invariant |tiles| <= |ts| && Distinct(tiles)
      invariant Contents(tiles) == ts[..|tiles|]
      invariant forall i :: 0 <= i < |tiles| ==> fresh(tiles[i])
    {
      var t := ts[|tiles|];
      var a := new Pixel[|t|](j requires 0 <= j < |t| => t[j]);
      assert a[..] == t;
      tiles := tiles + [a];
    }
  }

  /** The whole job: scatter into the current buffers, zeroed second
      buffers, the iterations, and the gather of the current buffers. */
  method RunJob(l: Layout, image: seq<Pixel>, k: Kernel, scale: Scale, iterations: nat) returns (result: seq<Pixel>)
    requires l.size > 0 && |image| == l.width * l.height && ValidKernel(k)
    ensures result == Job(l, image, k, scale, iterations)
  {
    var myImage := Allocate(Scattered(l, image));
    var processImage := Allocate(Fresh(l));
    var cur, nxt := Iterate(l, myImage, processImage, k, scale, iterations);
    result := Gathered(l, Contents(cur));
  }
}
