/** Halo exchange of the convolution engine (task3/main.c): the tile layout,
    which neighbours each rank exchanges rows with and in what order, and
    the rows each paired send-and-receive moves. */
module Halo {
  import opened Pixels
  import opened Rows

  /** `send_and_get_top` (peer `rank - 1`) and `send_and_get_bottom` (peer `rank + 1`). */
  datatype Direction = Top | Bottom

  /** The exchanges rank `rank` of `size` performs in one iteration, in order. */
  function Schedule(rank: nat, size: nat): seq<Direction>
  {
    if rank == 0 then (if size > 1 then [Bottom] else [])
    else if rank == size - 1 then [Top]
    else if rank % 2 == 0 then [Top, Bottom]
    else [Bottom, Top]
  }

  /** The rank on the other end of an exchange. */
  function Peer(rank: nat, d: Direction): int
  {
    if d == Top then rank - 1 else rank + 1
  }

  /** The exchange plan by worker role: a lone rank exchanges nothing, the
      first and last ranks exchange once, each with its only neighbour, and
      interior ranks exchange twice, with both neighbours, in an order set by
      the parity of the rank. */
  lemma ScheduleByRole(rank: nat, size: nat)
    requires rank < size
    ensures size == 1 ==> Schedule(rank, size) == []
    ensures size > 1 && rank == 0 ==> Schedule(rank, size) == [Bottom]
    ensures size > 1 && rank == size - 1 ==> Schedule(rank, size) == [Top]
    ensures 0 < rank < size - 1 ==>
              |Schedule(rank, size)| == 2 && Top in Schedule(rank, size) && Bottom in Schedule(rank, size)
              && Schedule(rank, size)[0] == (if rank % 2 == 0 then Top else Bottom)
  {
  }

  /** Every exchange names a rank that exists, and no rank exchanges twice
      with the same neighbour in one iteration. */
  lemma SchedulePeersExist(rank: nat, size: nat)
    requires rank < size
    ensures forall i :: 0 <= i < |Schedule(rank, size)| ==> 0 <= Peer(rank, Schedule(rank, size)[i]) < size
    ensures forall i, j :: 0 <= i < j < |Schedule(rank, size)| ==> Schedule(rank, size)[i] != Schedule(rank, size)[j]
  {
  }

  /** Exchanges come in matching pairs: rank `r` exchanges with the rank
      below exactly when that rank exchanges with the rank above, so every
      send-and-receive has a partner. */
  lemma SchedulePairsUp(r: nat, size: nat)
    requires r + 1 < size
    ensures Bottom in Schedule(r, size) && Top in Schedule(r + 1, size)
  {
  }

  /** Where the two halo regions are: a tile of `rows` owned rows has
      `rows + 2*radius` rows, the owned ones starting at row `radius`. */
  function TileRows(rows: nat, radius: nat): nat
  {
    rows + 2 * radius
  }

  /** First tile row that an exchange in direction `d` sends. */
  function SendRow(d: Direction, rows: nat, radius: nat): nat
  {
    if d == Top then radius else rows
  }

  /** First tile row that an exchange in direction `d` receives into. */
  function RecvRow(d: Direction, rows: nat, radius: nat): nat
  {
    if d == Top then 0 else rows + radius
  }

  /** The rows the source uses: `rawdata + width` and `rawdata` for the top
      exchange, `rawdata + width*my_image_height` and
      `rawdata + width*(my_image_height + 1)` for the bottom one. */
  function AsWrittenSendRow(d: Direction, rows: nat, radius: nat): nat
  {
    if d == Top then 1 else rows
  }

  function AsWrittenRecvRow(d: Direction, rows: nat, radius: nat): nat
  {
    if d == Top then 0 else rows + 1
  }

  /** Each side sends `radius` rows, its boundary rows, and receives the
      other's into its halo: the send range is owned rows, the receive range
      is halo rows, and they do not overlap. */
  lemma OffsetsRespectLayout(d: Direction, rows: nat, radius: nat)
    requires radius <= rows
    ensures radius <= SendRow(d, rows, radius) && SendRow(d, rows, radius) + radius <= radius + rows
    ensures RecvRow(d, rows, radius) + radius <= radius || rows + radius <= RecvRow(d, rows, radius)
    ensures RecvRow(d, rows, radius) + radius <= TileRows(rows, radius)
  {
  }

  /** The source's offsets are the layout's offsets exactly when the radius is 1. */
  lemma AsWrittenOffsetsMatchIffRadiusOne(rows: nat, radius: nat)
    ensures (forall d :: AsWrittenSendRow(d, rows, radius) == SendRow(d, rows, radius)
                      && AsWrittenRecvRow(d, rows, radius) == RecvRow(d, rows, radius))
            <==> radius == 1
  {
    if radius != 1 {
      assert AsWrittenSendRow(Top, rows, radius) != SendRow(Top, rows, radius);
    }
  }

  /** The sequential effect of the paired `MPI_Sendrecv` between `upper`'s
      bottom exchange and `lower`'s top exchange, for given send and receive
      rows: each tile receives `radius` rows of the other. */
  function Transfer(upper: seq<Pixel>, lower: seq<Pixel>, width: nat, radius: nat,
                    upperSend: nat, upperRecv: nat, lowerSend: nat, lowerRecv: nat): (r: (seq<Pixel>, seq<Pixel>))
    requires width * (upperSend + radius) <= |upper| && width * (upperRecv + radius) <= |upper|
    requires width * (lowerSend + radius) <= |lower| && width * (lowerRecv + radius) <= |lower|
    ensures |r.0| == |upper| && |r.1| == |lower|
  {
    Distribute(width, upperRecv, radius);
    Distribute(width, lowerRecv, radius);
    (Splice(upper, width * upperRecv, RowSlice(lower, width, lowerSend, radius)),
     Splice(lower, width * lowerRecv, RowSlice(upper, width, upperSend, radius)))
  }

  /** Shape of a tile of `rows` owned rows. */
  ghost predicate TileShape(tile: seq<Pixel>, width: nat, rows: nat, radius: nat)
  {
    |tile| == width * TileRows(rows, radius)
  }

  /** One halo exchange between neighbouring tiles, with the layout's offsets. */
  function ExchangeRows(upper: seq<Pixel>, lower: seq<Pixel>, width: nat, upperRows: nat, lowerRows: nat, radius: nat)
      : (r: (seq<Pixel>, seq<Pixel>))
    requires TileShape(upper, width, upperRows, radius) && TileShape(lower, width, lowerRows, radius)
    ensures |r.0| == |upper| && |r.1| == |lower|
  {
    RowRangeInTile(width, TileRows(upperRows, radius), SendRow(Bottom, upperRows, radius), radius);
    RowRangeInTile(width, TileRows(upperRows, radius), RecvRow(Bottom, upperRows, radius), radius);
    RowRangeInTile(width, TileRows(lowerRows, radius), SendRow(Top, lowerRows, radius), radius);
    RowRangeInTile(width, TileRows(lowerRows, radius), RecvRow(Top, lowerRows, radius), radius);
    Transfer(upper, lower, width, radius,
             SendRow(Bottom, upperRows, radius), RecvRow(Bottom, upperRows, radius),
             SendRow(Top, lowerRows, radius), RecvRow(Top, lowerRows, radius))
  }

  /** The same exchange with the offsets as the source writes them. */
  function ExchangeRowsAsWritten(upper: seq<Pixel>, lower: seq<Pixel>, width: nat, upperRows: nat, lowerRows: nat, radius: nat)
      : (r: (seq<Pixel>, seq<Pixel>))
    requires TileShape(upper, width, upperRows, radius) && TileShape(lower, width, lowerRows, radius)
    requires 1 <= radius
    ensures |r.0| == |upper| && |r.1| == |lower|
  {
    RowRangeInTile(width, TileRows(upperRows, radius), AsWrittenSendRow(Bottom, upperRows, radius), radius);
    RowRangeInTile(width, TileRows(upperRows, radius), AsWrittenRecvRow(Bottom, upperRows, radius), radius);
    RowRangeInTile(width, TileRows(lowerRows, radius), AsWrittenSendRow(Top, lowerRows, radius), radius);
    RowRangeInTile(width, TileRows(lowerRows, radius), AsWrittenRecvRow(Top, lowerRows, radius), radius);
    Transfer(upper, lower, width, radius,
             AsWrittenSendRow(Bottom, upperRows, radius), AsWrittenRecvRow(Bottom, upperRows, radius),
             AsWrittenSendRow(Top, lowerRows, radius), AsWrittenRecvRow(Top, lowerRows, radius))
  }

  /** After an exchange, the upper tile's owned rows and top halo are as
      they were, and its bottom halo holds the lower tile's first `radius`
      owned rows. */
  lemma ExchangeRefreshesUpperHalo(upper: seq<Pixel>, lower: seq<Pixel>, width: nat, upperRows: nat, lowerRows: nat, radius: nat)
    requires TileShape(upper, width, upperRows, radius) && TileShape(lower, width, lowerRows, radius)
    requires radius <= lowerRows
    ensures width * (radius + upperRows + radius) <= |upper| && width * (radius + radius) <= |lower|
    ensures var u := ExchangeRows(upper, lower, width, upperRows, lowerRows, radius).0;
            && RowSlice(u, width, 0, radius + upperRows) == RowSlice(upper, width, 0, radius + upperRows)
            && RowSlice(u, width, radius + upperRows, radius) == RowSlice(lower, width, radius, radius)
  {
    var u := ExchangeRows(upper, lower, width, upperRows, lowerRows, radius).0;
    var send, recv := SendRow(Top, lowerRows, radius), RecvRow(Bottom, upperRows, radius);
    RowRangeInTile(width, TileRows(upperRows, radius), 0, radius + upperRows + radius);
    RowRangeInTile(width, TileRows(lowerRows, radius), send, radius);
    var upward := RowSlice(lower, width, send, radius);
    assert u == Splice(upper, width * recv, upward);
    SpliceRowsOutside(upper, width, TileRows(upperRows, radius), recv, radius, upward, 0, radius + upperRows);
    SpliceRowsInside(upper, width, TileRows(upperRows, radius), recv, radius, upward);
  }

  /** The bottom exchange of the upper tile fills the lower tile's top halo
      with the upper tile's last `radius` owned rows and leaves the rest of
      the lower tile as it was. */
  lemma ExchangeRefreshesLowerHalo(upper: seq<Pixel>, lower: seq<Pixel>, width: nat, upperRows: nat, lowerRows: nat, radius: nat)
    requires TileShape(upper, width, upperRows, radius) && TileShape(lower, width, lowerRows, radius)
    requires radius <= upperRows
    ensures width * (radius + lowerRows + radius) <= |lower| && width * (upperRows + radius) <= |upper|
    ensures var l := ExchangeRows(upper, lower, width, upperRows, lowerRows, radius).1;
            && RowSlice(l, width, radius, lowerRows + radius) == RowSlice(lower, width, radius, lowerRows + radius)
            && RowSlice(l, width, 0, radius) == RowSlice(upper, width, upperRows, radius)
  {
    var l := ExchangeRows(upper, lower, width, upperRows, lowerRows, radius).1;
    var send, recv := SendRow(Bottom, upperRows, radius), RecvRow(Top, lowerRows, radius);
    RowRangeInTile(width, TileRows(lowerRows, radius), 0, radius + lowerRows + radius);
    RowRangeInTile(width, TileRows(upperRows, radius), send, radius);
    var downward := RowSlice(upper, width, send, radius);
    assert l == Splice(lower, width * recv, downward);
    SpliceRowsOutside(lower, width, TileRows(lowerRows, radius), recv, radius, downward, radius, lowerRows + radius);
    SpliceRowsInside(lower, width, TileRows(lowerRows, radius), recv, radius, downward);
  }

  /** The source's offsets and the layout's agree when the radius is 1. */
  lemma AsWrittenExchangeCorrectForRadiusOne(upper: seq<Pixel>, lower: seq<Pixel>, width: nat, upperRows: nat, lowerRows: nat)
    requires TileShape(upper, width, upperRows, 1) && TileShape(lower, width, lowerRows, 1)
    ensures ExchangeRowsAsWritten(upper, lower, width, upperRows, lowerRows, 1)
            == ExchangeRows(upper, lower, width, upperRows, lowerRows, 1)
  {
  }

  /** With a 5x5 kernel (radius 2) the source's bottom exchange receives
      into rows `[h+1, h+3)` of a tile whose owned rows are `[2, h+2)`, so it
      overwrites the last owned row of the upper tile with a row of the lower
      tile; the layout's exchange does not. One-pixel-wide tiles of two owned
      rows each show it. */
  lemma AsWrittenExchangeClobbersOwnedRow()
    ensures var upper := [Px(0), Px(1), Px(2), Px(3), Px(4), Px(5)];
            var lower := [Px(10), Px(11), Px(12), Px(13), Px(14), Px(15)];
            && TileShape(upper, 1, 2, 2) && TileShape(lower, 1, 2, 2)
            && RowSlice(ExchangeRowsAsWritten(upper, lower, 1, 2, 2, 2).0, 1, 2, 2) != RowSlice(upper, 1, 2, 2)
            && RowSlice(ExchangeRows(upper, lower, 1, 2, 2, 2).0, 1, 2, 2) == RowSlice(upper, 1, 2, 2)
  {
    var upper := [Px(0), Px(1), Px(2), Px(3), Px(4), Px(5)];
    var lower := [Px(10), Px(11), Px(12), Px(13), Px(14), Px(15)];
    var written := ExchangeRowsAsWritten(upper, lower, 1, 2, 2, 2).0;
    assert written == Splice(upper, 3, lower[1..3]);
    assert written[3] == Px(11);
    assert RowSlice(written, 1, 2, 2) == written[2..4];
    assert RowSlice(upper, 1, 2, 2) == upper[2..4];
    assert upper[3] == Px(3);
    assert RowSlice(written, 1, 2, 2)[1] != RowSlice(upper, 1, 2, 2)[1];
    ExchangeRefreshesUpperHalo(upper, lower, 1, 2, 2, 2);
    var fixed := ExchangeRows(upper, lower, 1, 2, 2, 2).0;
    assert RowSlice(fixed, 1, 0, 4)[2..4] == RowSlice(fixed, 1, 2, 2);
    assert RowSlice(upper, 1, 0, 4)[2..4] == RowSlice(upper, 1, 2, 2);
  }

  /** A grey pixel, to tell rows apart in examples. */
  function Px(v: Byte): Pixel
  {
    Pixel(v, v, v, 255)
  }

  /** One `MPI_Sendrecv` half: `radius` rows of `src` starting at row `send`
      land in `dst` starting at row `recv`. */
  method CopyRows(dst: array<Pixel>, width: nat, dstRows: nat, recv: nat,
                  src: seq<Pixel>, srcRows: nat, send: nat, radius: nat)
    requires dst.Length == width * dstRows && |src| == width * srcRows
    requires recv + radius <= dstRows && send + radius <= srcRows
    modifies dst
    ensures width * (send + radius) <= |src| && width * recv + width * radius <= dst.Length
    ensures dst[..] == Splice(old(dst[..]), width * recv, RowSlice(src, width, send, radius))
  {
    RowRangeInTile(width, dstRows, recv, radius);
    RowRangeInTile(width, srcRows, send, radius);
    Distribute(width, recv, radius);
    Distribute(width, send, radius);
    var bytesToExchange := width * radius;
    CopyInto(dst, width * recv, src, width * send, bytesToExchange);
  }

  /** `send_and_get_bottom` on the upper rank paired with `send_and_get_top`
      on the lower one, run as one step: each side's outgoing rows are read,
      then each side receives the other's into its halo. */
  method ExchangeHalos(upper: array<Pixel>, lower: array<Pixel>, width: nat, upperRows: nat, lowerRows: nat, radius: nat)
    requires upper != lower
    requires TileShape(upper[..], width, upperRows, radius) && TileShape(lower[..], width, lowerRows, radius)
    modifies upper, lower
    ensures (upper[..], lower[..]) == ExchangeRows(old(upper[..]), old(lower[..]), width, upperRows, lowerRows, radius)
  {
    var sentDown := upper[..];
    var sentUp := lower[..];
    CopyRows(upper, width, TileRows(upperRows, radius), RecvRow(Bottom, upperRows, radius),
             sentUp, TileRows(lowerRows, radius), SendRow(Top, lowerRows, radius), radius);
    CopyRows(lower, width, TileRows(lowerRows, radius), RecvRow(Top, lowerRows, radius),
             sentDown, TileRows(upperRows, radius), SendRow(Bottom, upperRows, radius), radius);
  }
}
