/** The feature-based morphing program (task3/morph.c): the line file is
    read as alternating source and destination records; for every blend
    step `t = i/steps`, `i = 0..steps`, each rank morphs its slab of
    `height/size` rows into its part of the morph map and the root gathers
    the slabs into the frame it writes. The per-pixel colour (line warping,
    clamping, bilinear sampling, blending) is floating-point arithmetic and
    enters as a parameter. */
module Morph {
  import opened Pixels
  import opened Slabs

  /** A point of a feature line. */
  datatype Point = Point(x: real, y: real)

  /** A feature line, as one record of the line file holds it. */
  datatype FeatureLine = FeatureLine(start: Point, end: Point)

  /** The source image's lines: records 0, 2, 4, ... of the file. */
  function SourceLines(records: seq<FeatureLine>, numLines: nat): (lines: seq<FeatureLine>)
    requires 2 * numLines <= |records|
    ensures |lines| == numLines
  {
    seq(numLines, k requires 0 <= k < numLines => records[2 * k])
  }

  /** The destination image's lines: records 1, 3, 5, ... of the file. */
  function DestinationLines(records: seq<FeatureLine>, numLines: nat): (lines: seq<FeatureLine>)
    requires 2 * numLines <= |records|
    ensures |lines| == numLines
  {
    seq(numLines, k requires 0 <= k < numLines => records[2 * k + 1])
  }

  /** The line file's record order: source line, destination line, and so on. */
  function Interleave(src: seq<FeatureLine>, dst: seq<FeatureLine>): (records: seq<FeatureLine>)
    requires |src| == |dst|
    ensures |records| == 2 * |src|
  {
    seq(2 * |src|, k requires 0 <= k < 2 * |src| => if k % 2 == 0 then src[k / 2] else dst[k / 2])
  }

  /** Record `k` is line `k/2` of the set `k%2` names. */
  lemma Parity(k: nat)
    ensures k == 2 * (k / 2) + k % 2 && k % 2 < 2
  {
  }

  lemma Halves(k: nat)
    ensures (2 * k) / 2 == k && (2 * k) % 2 == 0
    ensures (2 * k + 1) / 2 == k && (2 * k + 1) % 2 == 1
  {
  }

  /** Splitting the records of a file into its two line sets and
      interleaving them again gives back the records. */
  lemma SplitInterleaveRoundTrip(records: seq<FeatureLine>, numLines: nat)
    requires |records| == 2 * numLines
    ensures Interleave(SourceLines(records, numLines), DestinationLines(records, numLines)) == records
  {
    var back := Interleave(SourceLines(records, numLines), DestinationLines(records, numLines));
    forall k | 0 <= k < |records|
      ensures back[k] == records[k]
    {
      Parity(k);
    }
  }

  /** Interleaving two line sets and splitting the result gives back the
      two sets. */
  lemma InterleaveSplitRoundTrip(src: seq<FeatureLine>, dst: seq<FeatureLine>)
    requires |src| == |dst|
    ensures SourceLines(Interleave(src, dst), |src|) == src
    ensures DestinationLines(Interleave(src, dst), |src|) == dst
  {
    var records, n := Interleave(src, dst), |src|;
    var evens, odds := SourceLines(records, n), DestinationLines(records, n);
    forall k | 0 <= k < n
      ensures evens[k] == src[k]
    {
      Halves(k);
    }
    forall k | 0 <= k < n
      ensures odds[k] == dst[k]
    {
      Halves(k);
      assert odds[k] == records[2 * k + 1];
    }
  }

  /** The de-interleaving loop of `loadLines`: record `i` of the file goes
      to index `i/2` of the line array `pairs[i%2]`, the first array
      holding the source lines and the second the destination lines. The
      records are the file's parsed 4-tuples. */
  method LoadLines(records: seq<FeatureLine>, numLines: nat) returns (pairs: seq<array<FeatureLine>>)
    requires 2 * numLines <= |records|
    ensures |pairs| == 2 && pairs[0] != pairs[1]
    ensures pairs[0].Length == numLines && pairs[1].Length == numLines
    ensures forall k :: 0 <= k < 2 * numLines ==> pairs[k % 2][k / 2] == records[k]
    ensures pairs[0][..] == SourceLines(records, numLines)
    ensures pairs[1][..] == DestinationLines(records, numLines)
  {
    var linesSrc := new FeatureLine[numLines];
    var linesDst := new FeatureLine[numLines];
    pairs := [linesSrc, linesDst];
    var i := 0;
    ghost var filledSrc, filledDst := 0, 0;
    while i < 2 * numLines
      invariant 0 <= i <= 2 * numLines
      invariant filledSrc + filledDst == i && (filledSrc == filledDst || filledSrc == filledDst + 1)
      invariant forall k :: 0 <= k < filledSrc ==> linesSrc[k] == records[2 * k]
      invariant forall k :: 0 <= k < filledDst ==> linesDst[k] == records[2 * k + 1]
    {
      var which := pairs[i % 2];
      var idx := i / 2;
      Parity(i);
      which[idx] := records[i];
      if filledSrc == filledDst {
        filledSrc := filledSrc + 1;
      } else {
        filledDst := filledDst + 1;
      }
      i := i + 1;
    }
    assert linesSrc[..] == SourceLines(records, numLines);
    assert linesDst[..] == DestinationLines(records, numLines);
    forall k | 0 <= k < 2 * numLines
      ensures pairs[k % 2][k / 2] == records[k]
    {
      Parity(k);
    }
  }

  /** Blend step `step` of `steps`: the parameter `t` of that step is
      `step * (1.0/steps)`. */
  datatype Frame = Frame(step: nat, steps: nat)

  /** The blend parameter of a frame, when there is at least one step. */
  function Time(f: Frame): real
    requires f.steps > 0
  {
    (1.0 / f.steps as real) * f.step as real
  }

  /** The frames the step loop produces run from `t = 0` to `t = 1` in
      equal increasing steps. */
  lemma FrameTimes(steps: nat, i: nat)
    requires 0 < steps && i < steps
    ensures Time(Frame(0, steps)) == 0.0
    ensures Time(Frame(steps, steps)) == 1.0
    ensures Time(Frame(i, steps)) < Time(Frame(i + 1, steps))
  {
  }

  /** The colour of morph-map pixel `(i, j)`, alpha 255, at blend frame `t`. */
  function MorphPixel(colour: (Frame, nat, nat) -> Rgb, t: Frame): (px: (nat, nat) -> Pixel)
    ensures forall i: nat, j: nat :: px(i, j) == Opaque(colour(t, i, j))
  {
    (i: nat, j: nat) => Opaque(colour(t, i, j))
  }

  /** Rank `rank`'s slab of the frame `t`: the morphed rows
      `[rank*(height/size), (rank+1)*(height/size))`, every pixel opaque. */
  function MorphSlab(colour: (Frame, nat, nat) -> Rgb, t: Frame, width: nat, height: nat, size: nat, rank: nat): (s: seq<Pixel>)
    requires size > 0
    ensures |s| == width * SlabRows(height, size)
    ensures forall p :: 0 <= p < |s| ==> s[p].a == 255
  {
    var rows, px := SlabRows(height, size), MorphPixel(colour, t);
    OpaqueSlab(px, width, SlabStart(rows, rank), rows);
    SlabImage(px, width, SlabStart(rows, rank), rows)
  }

  /** Bytes each rank allocates for its morph map: `sizeof(pixel)*width*height/size`. */
  function MapBytes(width: nat, height: nat, size: nat): nat
    requires size > 0
  {
    (PixelSize * width * height) / size
  }

  /** A rank's slab fits in the morph map it allocates. */
  lemma SlabFitsMap(width: nat, height: nat, size: nat)
    requires size > 0
    ensures SlabBytes(width, SlabRows(height, size)) <= MapBytes(width, height, size)
    ensures width * SlabRows(height, size) <= MapBytes(width, height, size) / PixelSize
  {
    var rows, a := SlabRows(height, size), PixelSize * width;
    assert SlabBytes(width, rows) == a * rows;
    assert (a * rows) * size == a * (size * rows);
    ScaleLeq(a, size * rows, height);
    DivLowerBound(a * rows, a * height, size);
    DivLowerBound(width * rows, MapBytes(width, height, size), PixelSize);
  }

  /** A multiple of `d` that stays below `y` stays below `y/d` once divided. */
  lemma DivLowerBound(x: nat, y: nat, d: nat)
    requires d > 0 && x * d <= y
    ensures x <= y / d
  {
    if y / d < x {
      MulLeq(y / d + 1, x, d);
    }
  }

  /** `morphKernel`: every pixel of the rank's rows is morphed and written
      at its local index; the map's slots past the slab keep what they held. */
  method MorphKernel(morphMap: array<Pixel>, width: nat, height: nat, size: nat, rank: nat,
                     t: Frame, colour: (Frame, nat, nat) -> Rgb)
    requires size > 0 && rank < size
    requires morphMap.Length == MapBytes(width, height, size) / PixelSize
    modifies morphMap
    ensures width * SlabRows(height, size) <= morphMap.Length
    ensures morphMap[..width * SlabRows(height, size)] == MorphSlab(colour, t, width, height, size, rank)
    ensures morphMap[width * SlabRows(height, size)..] == old(morphMap[width * SlabRows(height, size)..])
  {
    var localH := height / size;
    var startH := rank * localH;
    SlabFitsMap(width, height, size);
    FillSlab(morphMap, width, startH, localH, MorphPixel(colour, t));
  }

  /** `doMorph` on one rank: morph the slab of frame `t` and send its
      `sizeof(pixel)*width*(height/size)` bytes to the root. */
  method DoMorph(morphMap: array<Pixel>, width: nat, height: nat, size: nat, rank: nat,
                 t: Frame, colour: (Frame, nat, nat) -> Rgb) returns (sent: seq<Byte>)
    requires size > 0 && rank < size
    requires morphMap.Length == MapBytes(width, height, size) / PixelSize
    modifies morphMap
    ensures width * SlabRows(height, size) <= morphMap.Length
    ensures morphMap[..width * SlabRows(height, size)] == MorphSlab(colour, t, width, height, size, rank)
    ensures morphMap[width * SlabRows(height, size)..] == old(morphMap[width * SlabRows(height, size)..])
    ensures |sent| == SlabBytes(width, SlabRows(height, size))
    ensures sent == Serialize(MorphSlab(colour, t, width, height, size, rank))
  {
    MorphKernel(morphMap, width, height, size, rank, t, colour);
    var bytesToSend := PixelSize * (width * (height / size));
    sent := Serialize(morphMap[..width * (height / size)]);
    SerializeLength(morphMap[..width * (height / size)]);
  }

  /** The step loop of the program: `doMorph` runs once for each of the
      `steps + 1` frames `t = 0, 1/steps, ..., 1`, in that order, each
      call sending the slab of its frame; the morph map ends holding the
      slab of the last frame. */
  method MorphSteps(morphMap: array<Pixel>, width: nat, height: nat, size: nat, rank: nat,
                    steps: nat, colour: (Frame, nat, nat) -> Rgb) returns (frames: seq<Frame>, sent: seq<seq<Byte>>)
    requires size > 0 && rank < size
    requires morphMap.Length == MapBytes(width, height, size) / PixelSize
    modifies morphMap
    ensures |frames| == steps + 1 && |sent| == steps + 1
    ensures forall i :: 0 <= i <= steps ==> frames[i] == Frame(i, steps)
    ensures forall i :: 0 <= i <= steps ==>
              sent[i] == Serialize(MorphSlab(colour, frames[i], width, height, size, rank))
    ensures width * SlabRows(height, size) <= morphMap.Length
    ensures morphMap[..width * SlabRows(height, size)] == MorphSlab(colour, Frame(steps, steps), width, height, size, rank)
  {
    SlabFitsMap(width, height, size);
    frames, sent := [], [];
    var i := 0;
    while i < steps + 1
      invariant 0 <= i <= steps + 1
      invariant width * SlabRows(height, size) <= morphMap.Length
      invariant |frames| == i && |sent| == i
      invariant forall k :: 0 <= k < i ==> frames[k] == Frame(k, steps)
      invariant forall k :: 0 <= k < i ==>
                  sent[k] == Serialize(MorphSlab(colour, frames[k], width, height, size, rank))
      invariant i > 0 ==> morphMap[..width * SlabRows(height, size)]
                          == MorphSlab(colour, Frame(i - 1, steps), width, height, size, rank)
    {
      var t := Frame(i, steps);
      var bytes := DoMorph(morphMap, width, height, size, rank, t, colour);
      frames, sent := frames + [t], sent + [bytes];
      i := i + 1;
    }
  }

  /** The frame the root writes for blend step `t`: every rank's slab, in
      rank order, over the `width*height` pixels the root allocated. */
  function MorphFrame(colour: (Frame, nat, nat) -> Rgb, t: Frame, recv: seq<Pixel>, width: nat, height: nat, size: nat): (image: seq<Pixel>)
    requires size > 0 && |recv| == width * height
    ensures |image| == width * height
  {
    var slabs := seq(size, r requires 0 <= r < size => MorphSlab(colour, t, width, height, size, r));
    RootBufferRows(MorphPixel(colour, t), recv, width, height, size, slabs);
    RootBuffer(recv, slabs, width * SlabRows(height, size))
  }

  /** The written frame holds the morphed rows `[0, size*(height/size))`
      and, below them, whatever the root's buffer held: the last
      `height % size` rows are never morphed. */
  lemma MorphFrameRows(colour: (Frame, nat, nat) -> Rgb, t: Frame, recv: seq<Pixel>, width: nat, height: nat, size: nat)
    requires size > 0 && |recv| == width * height
    ensures width * (size * SlabRows(height, size)) <= width * height
    ensures MorphFrame(colour, t, recv, width, height, size)
            == SlabImage(MorphPixel(colour, t), width, 0, size * SlabRows(height, size))
               + recv[width * (size * SlabRows(height, size))..]
  {
    var slabs := seq(size, r requires 0 <= r < size => MorphSlab(colour, t, width, height, size, r));
    RootBufferRows(MorphPixel(colour, t), recv, width, height, size, slabs);
  }
}
