/**
 * The aggregation as the script runs it: one cursor over the sorted trades,
 * shared by all periods and never moved back; per period a skip over older
 * trades, a seeding trade and an update loop; and a last backwards pass that
 * pops every all-zero row. Each method is proved to compute the reference
 * definition of module Ohlcv.
 */
module Clump {
  import opened Ohlcv

  /** Advances the cursor past every trade dated before `bound`. */
  method SkipBefore(trades: seq<Trade>, from: nat, bound: real) returns (idx: nat)
    requires from <= |trades|
    ensures from <= idx <= |trades|
    ensures forall k :: from <= k < idx ==> trades[k].date < bound
    ensures idx < |trades| ==> bound <= trades[idx].date
  {
    idx := from;
    while idx < |trades| && trades[idx].date < bound
      invariant from <= idx <= |trades|
      invariant forall k :: from <= k < idx ==> trades[k].date < bound
    {
      idx := idx + 1;
    }
  }

  /**
   * Builds the row of a period whose first trade sits at the cursor: that
   * trade seeds open, high, low and close, then every trade before
   * `periodEnd` (the seeding one again included) sets close, lowers low or
   * else raises high, and adds to the volume.
   */
  method FillPeriod(trades: seq<Trade>, from: nat, periodEnd: real, mid: real, inFiat: bool)
    returns (row: Row, idx: nat)
    requires from < |trades| && trades[from].date < periodEnd
    ensures from < idx <= |trades|
    ensures forall k :: from <= k < idx ==> trades[k].date < periodEnd
    ensures idx < |trades| ==> periodEnd <= trades[idx].date
    ensures row == Candle(mid, trades[from..idx], inFiat)
  {
    var price := trades[from].price;
    var seed := price;
    row := Row(mid, price, price, price, price, 0.0);
    idx := from;
    while idx < |trades| && trades[idx].date < periodEnd
      invariant from <= idx <= |trades|
      invariant forall k :: from <= k < idx ==> trades[k].date < periodEnd
      invariant row.low <= row.high
      invariant idx == from ==> row == Row(mid, seed, seed, seed, seed, 0.0)
      invariant idx > from ==> row == Candle(mid, trades[from..idx], inFiat)
    {
      ghost var target := Candle(mid, trades[from..idx + 1], inFiat);
      ghost var prior := row;
      assert trades[from..idx + 1] == trades[from..idx] + [trades[idx]];
      CandleExtend(mid, trades[from..idx], trades[idx], inFiat);
      price := trades[idx].price;
      row := row.(close := price);
      if price < row.low {
        row := row.(low := price);
      } else if price > row.high {
        row := row.(high := price);
      }
      if inFiat {
        row := row.(volume := row.volume + trades[idx].amount * trades[idx].price);
      } else {
        row := row.(volume := row.volume + trades[idx].amount);
      }
      assert row.high == Max(prior.high, price) && row.low == Min(prior.low, price);
      assert row.volume == prior.volume + TradeVolume(trades[idx], inFiat);
      assert row == target;
      idx := idx + 1;
    }
  }

  /** Walks the rows from the last to the first and pops each all-zero one. */
  method RemoveEmptyRows(rows: seq<Row>) returns (data: seq<Row>)
    ensures data == RemoveEmpty(rows)
  {
    data := rows;
    for i := |rows| downto 0
      invariant data == rows[..i] + RemoveEmpty(rows[i..])
    {
      ghost var rest := RemoveEmpty(rows[i + 1..]);
      assert rows[i..][1..] == rows[i + 1..];
      assert data[..i] == rows[..i] && data[i] == rows[i];
      assert data[i + 1..] == rest;
      if IsEmptyRow(data[i]) {
        data := data[..i] + data[i + 1..];
      } else {
        assert rows[..i + 1] == rows[..i] + [rows[i]];
      }
    }
    assert rows[0..] == rows;
  }

  /** The trades of a period are the segment the cursor consumed for it, once
      every trade before the segment and every trade after it lies outside
      the period. */
  lemma {:induction false} WindowIsSegment(trades: seq<Trade>, lo: real, hi: real, a: nat, b: nat)
    requires a <= b <= |trades|
    requires forall k :: 0 <= k < a ==> !InPeriod(trades[k], lo, hi)
    requires forall k :: a <= k < b ==> InPeriod(trades[k], lo, hi)
    requires forall k :: b <= k < |trades| ==> !InPeriod(trades[k], lo, hi)
    ensures Window(trades, lo, hi) == trades[a..b]
  {
    if trades != [] {
      var tail := trades[1..];
      if a > 0 {
        WindowIsSegment(tail, lo, hi, a - 1, b - 1);
        assert |tail[a - 1..b - 1]| == |trades[a..b]|;
        assert forall k :: 0 <= k < b - a ==> tail[a - 1..b - 1][k] == trades[a..b][k];
      } else if b > 0 {
        WindowIsSegment(tail, lo, hi, 0, b - 1);
        assert trades[0..b] == [trades[0]] + tail[0..b - 1];
      } else {
        WindowIsSegment(tail, lo, hi, 0, 0);
      }
    }
  }

  /**
   * `clump_data`: the rows of `count` equal periods of `[startDate,
   * stopDate)`, without the all-zero ones. `count` must be positive (it is
   * divided by) and the trades sorted by date.
   */
  method ClumpData(count: nat, startDate: real, stopDate: real, trades: seq<Trade>, inFiat: bool)
    returns (data: seq<Row>)
    requires count > 0
    requires Sorted(trades)
    ensures data == Clumped(count, startDate, stopDate, trades, inFiat)
  {
    var periodSize := (stopDate - startDate) / count as real;
    var periodStart := startDate;
    // every slot is assigned before it is read, as with `[None] * count`
    data := seq(count, _ => EmptyRow(startDate));
    var rawIndex: nat := 0;
    for i := 0 to count
      invariant |data| == count
      invariant periodStart == PeriodStart(startDate, periodSize, i)
      invariant rawIndex <= |trades|
      invariant forall k :: 0 <= k < rawIndex ==> trades[k].date < periodStart || periodSize <= 0.0
      invariant forall j :: 0 <= j < i ==> data[j] == PeriodCandle(trades, startDate, periodSize, j, inFiat)
    {
      var periodMid := periodStart + periodSize / 2.0;
      data := data[i := EmptyRow(periodMid)];
      ghost var before := rawIndex;
      rawIndex := SkipBefore(trades, rawIndex, periodStart);
      ghost var first := rawIndex;
      if rawIndex < |trades| && trades[rawIndex].date < periodStart + periodSize {
        var row;
        row, rawIndex := FillPeriod(trades, rawIndex, periodStart + periodSize, periodMid, inFiat);
        data := data[i := row];
      }
      // the trades of period i are exactly trades[first..rawIndex]
      var periodEnd := periodStart + periodSize;
      assert data[i] == Candle(periodMid, trades[first..rawIndex], inFiat);
      forall k | rawIndex <= k < |trades| ensures periodEnd <= trades[k].date {
        assert trades[rawIndex].date <= trades[k].date;
      }
      forall k | first <= k < rawIndex ensures periodStart <= trades[k].date {
        assert trades[first].date <= trades[k].date;
      }
      WindowIsSegment(trades, periodStart, periodEnd, first, rawIndex);
      assert PeriodTrades(trades, startDate, periodSize, i) == trades[first..rawIndex];
      assert PeriodMid(startDate, periodSize, i) == periodMid;
      assert data[i] == PeriodCandle(trades, startDate, periodSize, i, inFiat);
      PeriodStartNext(startDate, periodSize, i);
      periodStart := periodStart + periodSize;
    }
    assert data == Periods(count, startDate, stopDate, trades, inFiat);
    data := RemoveEmptyRows(data);
  }

  /** `trade_data_to_ohlcv`: the same aggregation under the caller's names. */
  method TradeDataToOhlcv(trades: seq<Trade>, startDate: real, endDate: real, periodCount: nat, inFiat: bool)
    returns (ohlcv: seq<Row>)
    requires periodCount > 0
    requires Sorted(trades)
    ensures ohlcv == Clumped(periodCount, startDate, endDate, trades, inFiat)
  {
    ohlcv := ClumpData(periodCount, startDate, endDate, trades, inFiat);
  }
}
