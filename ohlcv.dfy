/**
 * The data of the aggregation (trades in, OHLCV rows out) and a reference
 * definition of what the aggregation produces: for each of `count` equal
 * periods, the row built from exactly the trades whose date falls in that
 * period, followed by the removal of every row whose four prices are zero.
 * The cursor scan in module Clump is proved to compute this.
 */
module Ohlcv {

  /** One trade tick. Dates are seconds; all three values are exact reals. */
  datatype Trade = Trade(date: real, price: real, amount: real)

  /** One row `[date, open, high, low, close, volume]`; `mid` is the period's
      midpoint on the time axis. */
  datatype Row = Row(mid: real, open: real, high: real, low: real, close: real, volume: real)

  /** The caller's promise: trades come in non-decreasing date order. */
  predicate Sorted(trades: seq<Trade>) {
    forall i, j :: 0 <= i <= j < |trades| ==> trades[i].date <= trades[j].date
  }

  /** Membership of the half-open period `[lo, hi)`. */
  predicate InPeriod(t: Trade, lo: real, hi: real) {
    lo <= t.date < hi
  }

  /** The trades that fall in `[lo, hi)`, in their original order. */
  function Window(trades: seq<Trade>, lo: real, hi: real): (w: seq<Trade>)
    ensures |w| <= |trades|
  {
    if trades == [] then []
    else (if InPeriod(trades[0], lo, hi) then [trades[0]] else []) + Window(trades[1..], lo, hi)
  }

  function Max(a: real, b: real): real {
    if a < b then b else a
  }

  function Min(a: real, b: real): real {
    if b < a then b else a
  }

  /** The highest price among `ts` (see PriceExtremes). */
  function MaxPrice(ts: seq<Trade>): real
    requires ts != []
  {
    if |ts| == 1 then ts[0].price
    else Max(MaxPrice(ts[..|ts| - 1]), ts[|ts| - 1].price)
  }

  /** The lowest price among `ts` (see PriceExtremes). */
  function MinPrice(ts: seq<Trade>): real
    requires ts != []
  {
    if |ts| == 1 then ts[0].price
    else Min(MinPrice(ts[..|ts| - 1]), ts[|ts| - 1].price)
  }

  /** What one trade adds to the volume: its base amount, or its value in
      fiat (amount times price). */
  function TradeVolume(t: Trade, inFiat: bool): real {
    if inFiat then t.amount * t.price else t.amount
  }

  /** The total volume of `ts`. */
  function Volume(ts: seq<Trade>, inFiat: bool): real {
    if ts == [] then 0.0
    else Volume(ts[..|ts| - 1], inFiat) + TradeVolume(ts[|ts| - 1], inFiat)
  }

  /** The row of a period that saw no trade. */
  function EmptyRow(mid: real): Row {
    Row(mid, 0.0, 0.0, 0.0, 0.0, 0.0)
  }

  /** The row of a period whose trades are `ts`: first price, highest, lowest,
      last price and total volume. Its open and close lie between its low and
      its high, and a period without trades gives an all-zero row. */
  function Candle(mid: real, ts: seq<Trade>, inFiat: bool): (r: Row)
    ensures r.mid == mid
    ensures PriceBounds(r)
    ensures ts == [] ==> IsEmptyRow(r)
  {
    if ts == [] then EmptyRow(mid)
    else
      PriceExtremes(ts);
      Row(mid, ts[0].price, MaxPrice(ts), MinPrice(ts), ts[|ts| - 1].price, Volume(ts, inFiat))
  }

  /** The width of each of the `count` periods of `[startDate, stopDate)`. */
  function PeriodSize(count: nat, startDate: real, stopDate: real): real
    requires count > 0
  {
    (stopDate - startDate) / count as real
  }

  function PeriodStart(startDate: real, size: real, i: int): real {
    startDate + i as real * size
  }

  /** Adding the width to a period's start gives the next period's start. */
  lemma PeriodStartNext(startDate: real, size: real, i: int)
    ensures PeriodStart(startDate, size, i + 1) == PeriodStart(startDate, size, i) + size
  {
  }

  function PeriodMid(startDate: real, size: real, i: int): real {
    PeriodStart(startDate, size, i) + size / 2.0
  }

  /** The trades of period `i`. */
  function PeriodTrades(trades: seq<Trade>, startDate: real, size: real, i: int): seq<Trade> {
    Window(trades, PeriodStart(startDate, size, i), PeriodStart(startDate, size, i) + size)
  }

  /** The row of period `i`, before empty rows are removed. */
  function PeriodCandle(trades: seq<Trade>, startDate: real, size: real, i: int, inFiat: bool): Row {
    Candle(PeriodMid(startDate, size, i), PeriodTrades(trades, startDate, size, i), inFiat)
  }

  /** One row per period, in period order. */
  function Periods(count: nat, startDate: real, stopDate: real, trades: seq<Trade>, inFiat: bool): (rows: seq<Row>)
    requires count > 0
    ensures |rows| == count
    ensures forall i :: 0 <= i < count ==>
      rows[i] == PeriodCandle(trades, startDate, PeriodSize(count, startDate, stopDate), i, inFiat)
  {
    seq(count, i => PeriodCandle(trades, startDate, PeriodSize(count, startDate, stopDate), i, inFiat))
  }

  /** The marker the removal pass looks for: open, high, low and close all
      zero, whatever the volume. */
  predicate IsEmptyRow(r: Row) {
    r.open == 0.0 && r.high == 0.0 && r.low == 0.0 && r.close == 0.0
  }

  /** `rows` without its all-zero rows, the others kept in order. */
  function RemoveEmpty(rows: seq<Row>): (kept: seq<Row>)
    ensures |kept| <= |rows|
  {
    if rows == [] then []
    else (if IsEmptyRow(rows[0]) then [] else [rows[0]]) + RemoveEmpty(rows[1..])
  }

  /** The rows the aggregation returns. */
  function Clumped(count: nat, startDate: real, stopDate: real, trades: seq<Trade>, inFiat: bool): (rows: seq<Row>)
    requires count > 0
    ensures |rows| <= count
    ensures forall r :: r in rows ==> !IsEmptyRow(r)
  {
    var all := Periods(count, startDate, stopDate, trades, inFiat);
    RemoveEmptyMembers(all);
    RemoveEmpty(all)
  }

  // ---------------------------------------------------------------------
  // Properties of the reference definition.

  predicate PriceBounds(r: Row) {
    r.low <= r.open <= r.high && r.low <= r.close <= r.high
  }

  predicate IncreasingMids(rows: seq<Row>) {
    forall a, b :: 0 <= a < b < |rows| ==> rows[a].mid < rows[b].mid
  }

  /** A window holds exactly the trades of the sequence that fall in the
      period. */
  lemma {:induction false} WindowMembers(trades: seq<Trade>, lo: real, hi: real)
    ensures forall t :: t in Window(trades, lo, hi) <==> t in trades && InPeriod(t, lo, hi)
  {
    if trades != [] {
      WindowMembers(trades[1..], lo, hi);
      assert trades == [trades[0]] + trades[1..];
    }
  }

  /** The removal keeps exactly the rows that are not all-zero. */
  lemma {:induction false} RemoveEmptyMembers(rows: seq<Row>)
    ensures forall r :: r in RemoveEmpty(rows) <==> r in rows && !IsEmptyRow(r)
  {
    if rows != [] {
      RemoveEmptyMembers(rows[1..]);
      assert rows == [rows[0]] + rows[1..];
    }
  }

  /** MaxPrice and MinPrice bound every price of `ts` and are each the price
      of one of its trades. */
  lemma {:induction false} PriceExtremes(ts: seq<Trade>)
    requires ts != []
    ensures forall k :: 0 <= k < |ts| ==> MinPrice(ts) <= ts[k].price <= MaxPrice(ts)
    ensures exists k :: 0 <= k < |ts| && ts[k].price == MaxPrice(ts)
    ensures exists k :: 0 <= k < |ts| && ts[k].price == MinPrice(ts)
  {
    if |ts| > 1 {
      var front := ts[..|ts| - 1];
      PriceExtremes(front);
      assert forall k :: 0 <= k < |front| ==> front[k] == ts[k];
      var h :| 0 <= h < |front| && front[h].price == MaxPrice(front);
      var l :| 0 <= l < |front| && front[l].price == MinPrice(front);
      assert ts[h] == front[h] && ts[l] == front[l];
      var last := |ts| - 1;
      if MaxPrice(front) < ts[last].price {
        assert ts[last].price == MaxPrice(ts);
      } else {
        assert ts[h].price == MaxPrice(ts);
      }
      if ts[last].price < MinPrice(front) {
        assert ts[last].price == MinPrice(ts);
      } else {
        assert ts[l].price == MinPrice(ts);
      }
    } else {
      assert ts[0].price == MaxPrice(ts) && ts[0].price == MinPrice(ts);
    }
  }

  /** How a row changes when one more trade joins the period: the trade
      becomes the close, may extend the high or the low, and adds its volume;
      the first trade of a period sets all four prices. */
  lemma CandleExtend(mid: real, ts: seq<Trade>, t: Trade, inFiat: bool)
    ensures var r, old_r := Candle(mid, ts + [t], inFiat), Candle(mid, ts, inFiat);
      && r.mid == mid && r.close == t.price
      && r.volume == old_r.volume + TradeVolume(t, inFiat)
      && (ts == [] ==> r.open == t.price && r.high == t.price && r.low == t.price)
      && (ts != [] ==> r.open == old_r.open && r.high == Max(old_r.high, t.price)
                       && r.low == Min(old_r.low, t.price))
  {
    var us := ts + [t];
    assert us[..|us| - 1] == ts;
    if ts == [] {
      assert Volume(ts, inFiat) == 0.0;
    }
  }

  /** The length bound and the shape of every returned row: at most `count`
      rows, none of them all-zero, each with its prices in order. */
  lemma ClumpedShape(count: nat, startDate: real, stopDate: real, trades: seq<Trade>, inFiat: bool)
    requires count > 0
    ensures |Clumped(count, startDate, stopDate, trades, inFiat)| <= count
    ensures forall r :: r in Clumped(count, startDate, stopDate, trades, inFiat) ==>
      !IsEmptyRow(r) && PriceBounds(r)
  {
    var rows := Periods(count, startDate, stopDate, trades, inFiat);
    var size := PeriodSize(count, startDate, stopDate);
    RemoveEmptyMembers(rows);
    forall r | r in RemoveEmpty(rows)
      ensures !IsEmptyRow(r) && PriceBounds(r)
    {
      var i :| 0 <= i < |rows| && rows[i] == r;
      assert r == Candle(PeriodMid(startDate, size, i), PeriodTrades(trades, startDate, size, i), inFiat);
    }
  }

  /** The first trade of a window is the first trade of the whole sequence
      that falls in the period. */
  lemma {:induction false} WindowFirst(trades: seq<Trade>, lo: real, hi: real)
    requires Window(trades, lo, hi) != []
    ensures exists k :: (0 <= k < |trades| && InPeriod(trades[k], lo, hi)
      && Window(trades, lo, hi)[0] == trades[k]
      && forall j :: 0 <= j < k ==> !InPeriod(trades[j], lo, hi))
  {
    if InPeriod(trades[0], lo, hi) {
      assert Window(trades, lo, hi)[0] == trades[0];
    } else {
      WindowFirst(trades[1..], lo, hi);
      var k :| 0 <= k < |trades[1..]| && InPeriod(trades[1..][k], lo, hi)
        && Window(trades[1..], lo, hi)[0] == trades[1..][k]
        && forall j :: 0 <= j < k ==> !InPeriod(trades[1..][j], lo, hi);
      assert forall j :: 0 < j < k + 1 ==> trades[j] == trades[1..][j - 1];
    }
  }

  /** The last trade of a window is the last trade of the whole sequence
      that falls in the period. */
  lemma {:induction false} WindowLast(trades: seq<Trade>, lo: real, hi: real)
    requires Window(trades, lo, hi) != []
    ensures exists k :: (0 <= k < |trades| && InPeriod(trades[k], lo, hi)
      && Window(trades, lo, hi)[|Window(trades, lo , hi)| - 1] == trades[k]
      && forall j :: k < j < |trades| ==> !InPeriod(trades[j], lo, hi))
  {
    var w, rest := Window(trades, lo, hi), Window(trades[1..], lo, hi);
    WindowMembers(trades[1..], lo, hi);
    if rest == [] {
      assert InPeriod(trades[0], lo, hi) && w == [trades[0]];
      forall j | 0 < j < |trades| ensures !InPeriod(trades[j], lo, hi) {
        assert trades[j] in trades[1..];
      }
    } else {
      WindowLast(trades[1..], lo, hi);
      var k :| 0 <= k < |trades[1..]| && InPeriod(trades[1..][k], lo, hi)
        && rest[|rest| - 1] == trades[1..][k]
        && forall j :: k < j < |trades[1..]| ==> !InPeriod(trades[1..][j], lo, hi);
      assert w[|w| - 1] == rest[|rest| - 1];
      assert forall j :: k + 1 < j < |trades| ==> trades[j] == trades[1..][j - 1];
    }
  }

  /** What a non-empty period's row holds, stated over the whole trade
      sequence: open is the price of the first trade in the period, close the
      price of the last, high and low bound every price in the period and are
      each reached by one of them. */
  lemma CandleOfPeriod(mid: real, trades: seq<Trade>, lo: real, hi: real, inFiat: bool)
    requires Window(trades, lo, hi) != []
    ensures var r := Candle(mid, Window(trades, lo, hi), inFiat);
      && r.mid == mid
      && (exists k :: 0 <= k < |trades| && InPeriod(trades[k], lo, hi) && r.open == trades[k].price
            && forall j :: 0 <= j < k ==> !InPeriod(trades[j], lo, hi))
      && (exists k :: 0 <= k < |trades| && InPeriod(trades[k], lo, hi) && r.close == trades[k].price
            && forall j :: k < j < |trades| ==> !InPeriod(trades[j], lo, hi))
      && (forall k :: 0 <= k < |trades| && InPeriod(trades[k], lo, hi) ==>
            r.low <= trades[k].price <= r.high)
      && (exists k :: 0 <= k < |trades| && InPeriod(trades[k], lo, hi) && r.high == trades[k].price)
      && (exists k :: 0 <= k < |trades| && InPeriod(trades[k], lo, hi) && r.low == trades[k].price)
  {
    var w := Window(trades, lo, hi);
    PriceExtremes(w);
    WindowMembers(trades, lo, hi);
    WindowFirst(trades, lo, hi);
    WindowLast(trades, lo, hi);
    forall k | 0 <= k < |trades| && InPeriod(trades[k], lo, hi)
      ensures MinPrice(w) <= trades[k].price <= MaxPrice(w)
    {
      assert trades[k] in w;
      var j :| 0 <= j < |w| && w[j] == trades[k];
    }
    var h :| 0 <= h < |w| && w[h].price == MaxPrice(w);
    assert w[h] in trades;
    var l :| 0 <= l < |w| && w[l].price == MinPrice(w);
    assert w[l] in trades;
  }

  /** The volume of a period counts every one of its trades once. */
  lemma {:induction false} VolumeOfAppend(ts: seq<Trade>, us: seq<Trade>, inFiat: bool)
    ensures Volume(ts + us, inFiat) == Volume(ts, inFiat) + Volume(us, inFiat)
  {
    if us != [] {
      var u' := us[..|us| - 1];
      assert (ts + us)[..|ts + us| - 1] == ts + u';
      VolumeOfAppend(ts, u', inFiat);
    } else {
      assert ts + us == ts;
    }
  }

  /** With no negative amount (and, for fiat volume, no negative price) the
      volume is not negative. */
  lemma {:induction false} VolumeNonNegative(ts: seq<Trade>, inFiat: bool)
    requires forall t :: t in ts ==> t.amount >= 0.0 && (inFiat ==> t.price >= 0.0)
    ensures Volume(ts, inFiat) >= 0.0
  {
    if ts != [] {
      var t := ts[|ts| - 1];
      assert t in ts;
      VolumeNonNegative(ts[..|ts| - 1], inFiat);
    }
  }

  /** A row is all-zero exactly when its period had no trade or every trade
      in it had price zero; so a period full of zero-price trades is dropped
      just like an empty one. */
  lemma CandleEmptyIff(mid: real, ts: seq<Trade>, inFiat: bool)
    ensures IsEmptyRow(Candle(mid, ts, inFiat)) <==> forall k :: 0 <= k < |ts| ==> ts[k].price == 0.0
  {
    if ts != [] {
      PriceExtremes(ts);
    }
    if ts != [] && forall k :: 0 <= k < |ts| ==> ts[k].price == 0.0 {
      var h :| 0 <= h < |ts| && ts[h].price == MaxPrice(ts);
      var l :| 0 <= l < |ts| && ts[l].price == MinPrice(ts);
    }
  }

  /** A period without trades produces the sentinel row, which is removed. */
  lemma EmptyPeriodRemoved(count: nat, startDate: real, stopDate: real, trades: seq<Trade>, inFiat: bool, i: int)
    requires count > 0 && 0 <= i < count
    requires PeriodTrades(trades, startDate, PeriodSize(count, startDate, stopDate), i) == []
    ensures Periods(count, startDate, stopDate, trades, inFiat)[i]
      == EmptyRow(PeriodMid(startDate, PeriodSize(count, startDate, stopDate), i))
    ensures Periods(count, startDate, stopDate, trades, inFiat)[i] !in Clumped(count, startDate, stopDate, trades, inFiat)
  {
    RemoveEmptyMembers(Periods(count, startDate, stopDate, trades, inFiat));
  }

  /** Without trades there are no rows. */
  lemma NoTradesNoRows(count: nat, startDate: real, stopDate: real, inFiat: bool)
    requires count > 0
    ensures Clumped(count, startDate, stopDate, [], inFiat) == []
  {
    RemoveAllEmpty(Periods(count, startDate, stopDate, [], inFiat));
  }

  /** An interval that ends where it starts, or earlier, holds no trade. */
  lemma {:induction false} EmptyIntervalWindow(trades: seq<Trade>, lo: real, hi: real)
    requires hi <= lo
    ensures Window(trades, lo, hi) == []
  {
    if trades != [] {
      EmptyIntervalWindow(trades[1..], lo, hi);
    }
  }

  /** The script does not reject `stopDate <= startDate`: the periods are
      then empty intervals and no row survives. */
  lemma DegenerateRangeGivesNothing(count: nat, startDate: real, stopDate: real, trades: seq<Trade>, inFiat: bool)
    requires count > 0 && stopDate <= startDate
    ensures Clumped(count, startDate, stopDate, trades, inFiat) == []
  {
    var size := PeriodSize(count, startDate, stopDate);
    var rows := Periods(count, startDate, stopDate, trades, inFiat);
    assert size <= 0.0;
    forall i | 0 <= i < count ensures IsEmptyRow(rows[i]) {
      var lo := PeriodStart(startDate, size, i);
      EmptyIntervalWindow(trades, lo, lo + size);
    }
    RemoveAllEmpty(rows);
  }

  /** A sequence without all-zero rows is left as it is. */
  lemma {:induction false} RemoveNoneEmpty(rows: seq<Row>)
    requires forall i :: 0 <= i < |rows| ==> !IsEmptyRow(rows[i])
    ensures RemoveEmpty(rows) == rows
  {
    if rows != [] {
      assert !IsEmptyRow(rows[0]);
      RemoveNoneEmpty(rows[1..]);
      assert rows == [rows[0]] + rows[1..];
    }
  }

  /** A sequence of all-zero rows is removed entirely. */
  lemma {:induction false} RemoveAllEmpty(rows: seq<Row>)
    requires forall i :: 0 <= i < |rows| ==> IsEmptyRow(rows[i])
    ensures RemoveEmpty(rows) == []
  {
    if rows != [] {
      assert IsEmptyRow(rows[0]);
      RemoveAllEmpty(rows[1..]);
    }
  }

  lemma MulMonotone(a: real, b: real, size: real)
    requires a <= b && size > 0.0
    ensures a * size <= b * size
  {
  }

  /** With a positive width, a later period starts no earlier than an
      earlier one ends. */
  lemma PeriodsOrdered(startDate: real, size: real, i: int, j: int)
    requires size > 0.0 && i < j
    ensures PeriodStart(startDate, size, i) + size <= PeriodStart(startDate, size, j)
  {
    MulMonotone((i + 1) as real, j as real, size);
    assert (i + 1) as real * size == i as real * size + size;
  }

  /** With a positive width the periods do not overlap, so a trade counts
      toward at most one period. */
  lemma PeriodsDisjoint(startDate: real, size: real, i: int, j: int, t: Trade)
    requires size > 0.0 && i != j
    ensures !(InPeriod(t, PeriodStart(startDate, size, i), PeriodStart(startDate, size, i) + size)
           && InPeriod(t, PeriodStart(startDate, size, j), PeriodStart(startDate, size, j) + size))
  {
    if i < j {
      PeriodsOrdered(startDate, size, i, j);
    } else {
      PeriodsOrdered(startDate, size, j, i);
    }
  }

  /** A trade before `startDate`, or at or after the end of the last period,
      is in no period. */
  lemma OutsideAllPeriods(count: nat, startDate: real, size: real, i: int, t: Trade)
    requires size > 0.0 && 0 <= i < count
    requires t.date < startDate || t.date >= PeriodStart(startDate, size, count)
    ensures !InPeriod(t, PeriodStart(startDate, size, i), PeriodStart(startDate, size, i) + size)
  {
    MulMonotone(0.0, i as real, size);
    MulMonotone((i + 1) as real, count as real, size);
  }

  /** Rows come out in period order: with a positive width their midpoints
      strictly increase. */
  lemma ClumpedMidsIncrease(count: nat, startDate: real, stopDate: real, trades: seq<Trade>, inFiat: bool)
    requires count > 0 && startDate < stopDate
    ensures IncreasingMids(Clumped(count, startDate, stopDate, trades, inFiat))
  {
    var rows := Periods(count, startDate, stopDate, trades, inFiat);
    var size := PeriodSize(count, startDate, stopDate);
    forall a, b | 0 <= a < b < |rows| ensures rows[a].mid < rows[b].mid {
      assert rows[a].mid == PeriodMid(startDate, size, a);
      assert rows[b].mid == PeriodMid(startDate, size, b);
      PeriodsOrdered(startDate, size, a, b);
    }
    RemoveEmptyKeepsOrder(rows);
  }

  lemma {:induction false} RemoveEmptyKeepsOrder(rows: seq<Row>)
    requires IncreasingMids(rows)
    ensures IncreasingMids(RemoveEmpty(rows))
  {
    if rows != [] {
      var tail := rows[1..];
      assert IncreasingMids(tail);
      RemoveEmptyKeepsOrder(tail);
      RemoveEmptyMembers(tail);
      var kept := RemoveEmpty(tail);
      forall b | 0 <= b < |kept| ensures rows[0].mid < kept[b].mid {
        assert kept[b] in tail;
      }
    }
  }

  // ---------------------------------------------------------------------
  // Worked examples.

  /** One period over [0, 10) holding three trades. */
  lemma OnePeriodExample(ts: seq<Trade>)
    requires ts == [Trade(0.0, 10.0, 1.0), Trade(5.0, 20.0, 1.0), Trade(9.0, 5.0, 1.0)]
    ensures Clumped(1, 0.0, 10.0, ts, false) == [Row(5.0, 10.0, 20.0, 5.0, 5.0, 3.0)]
  {
    var size := PeriodSize(1, 0.0, 10.0);
    var row := PeriodCandle(ts, 0.0, size, 0, false);
    assert row == Row(5.0, 10.0, 20.0, 5.0, 5.0, 3.0) by {
      assert size == 10.0;
      assert Window(ts, 0.0, 10.0) == ts by {
        assert Window(ts[1..][1..], 0.0, 10.0) == [ts[2]];
        assert ts[1..] == [ts[1], ts[2]];
      }
      ThreeTradeCandle(5.0, ts, false);
    }
    var rows := Periods(1, 0.0, 10.0, ts, false);
    assert rows == [row];
    assert RemoveEmpty(rows) == [row];
  }

  /** The closing row of a three-trade period: first price, highest, lowest,
      last price and total volume. */
  lemma ThreeTradeCandle(mid: real, ts: seq<Trade>, inFiat: bool)
    requires |ts| == 3
    ensures Candle(mid, ts, inFiat) == Row(mid, ts[0].price,
      Max(Max(ts[0].price, ts[1].price), ts[2].price),
      Min(Min(ts[0].price, ts[1].price), ts[2].price),
      ts[2].price,
      TradeVolume(ts[0], inFiat) + TradeVolume(ts[1], inFiat) + TradeVolume(ts[2], inFiat))
  {
    TwoTradeCandle(mid, ts[..2], inFiat);
    assert ts[..2][0] == ts[0] && ts[..2][1] == ts[1];
  }

  /** The closing row of a two-trade period. */
  lemma TwoTradeCandle(mid: real, ts: seq<Trade>, inFiat: bool)
    requires |ts| == 2
    ensures Candle(mid, ts, inFiat) == Row(mid, ts[0].price,
      Max(ts[0].price, ts[1].price), Min(ts[0].price, ts[1].price), ts[1].price,
      TradeVolume(ts[0], inFiat) + TradeVolume(ts[1], inFiat))
  {
    OneTradeCandle(mid, ts[..1], inFiat);
    assert ts[..1][0] == ts[0];
  }

  /** The closing row of a one-trade period. */
  lemma OneTradeCandle(mid: real, ts: seq<Trade>, inFiat: bool)
    requires |ts| == 1
    ensures Candle(mid, ts, inFiat) == Row(mid, ts[0].price, ts[0].price, ts[0].price, ts[0].price,
      TradeVolume(ts[0], inFiat))
  {
    assert ts[..0] == [];
    assert MaxPrice(ts) == ts[0].price && MinPrice(ts) == ts[0].price;
    assert Volume(ts, inFiat) == Volume(ts[..0], inFiat) + TradeVolume(ts[0], inFiat);
  }

  /** The same trades split into [0, 5) and [5, 10). */
  lemma TwoPeriodExample(ts: seq<Trade>)
    requires ts == [Trade(0.0, 10.0, 1.0), Trade(5.0, 20.0, 1.0), Trade(9.0, 5.0, 1.0)]
    ensures Clumped(2, 0.0, 10.0, ts, false)
      == [Row(2.5, 10.0, 10.0, 10.0, 10.0, 1.0), Row(7.5, 20.0, 20.0, 5.0, 5.0, 2.0)]
  {
    var row0, row1 := Row(2.5, 10.0, 10.0, 10.0, 10.0, 1.0), Row(7.5, 20.0, 20.0, 5.0, 5.0, 2.0);
    var rows := Periods(2, 0.0, 10.0, ts, false);
    assert rows == [row0, row1] by {
      var size := PeriodSize(2, 0.0, 10.0);
      assert size == 5.0;
      assert ts[1..] == [ts[1], ts[2]] && ts[1..][1..] == [ts[2]];
      assert PeriodCandle(ts, 0.0, size, 0, false) == row0 by {
        assert Window(ts, 0.0, 5.0) == [ts[0]] by {
          assert Window(ts[1..][1..], 0.0, 5.0) == [];
        }
        OneTradeCandle(2.5, [ts[0]], false);
      }
      assert PeriodCandle(ts, 0.0, size, 1, false) == row1 by {
        assert Window(ts, 5.0, 10.0) == [ts[1], ts[2]] by {
          assert Window(ts[1..][1..], 5.0, 10.0) == [ts[2]];
        }
        TwoTradeCandle(7.5, [ts[1], ts[2]], false);
      }
    }
    RemoveNoneEmpty(rows);
  }

  /** An empty period between two others is removed too, not only empty
      periods at the end. */
  lemma InteriorGapExample()
    ensures Clumped(3, 0.0, 3.0, [Trade(0.0, 4.0, 1.0), Trade(2.0, 6.0, 1.0)], false)
      == [Row(0.5, 4.0, 4.0, 4.0, 4.0, 1.0), Row(2.5, 6.0, 6.0, 6.0, 6.0, 1.0)]
  {
  }

  /** A lone trade of price 100 and amount 2: volume 2 in base currency,
      200 in fiat, and all four prices 100. */
  lemma VolumeModeExample(mid: real, date: real)
    ensures Candle(mid, [Trade(date, 100.0, 2.0)], false) == Row(mid, 100.0, 100.0, 100.0, 100.0, 2.0)
    ensures Candle(mid, [Trade(date, 100.0, 2.0)], true) == Row(mid, 100.0, 100.0, 100.0, 100.0, 200.0)
  {
    var ts := [Trade(date, 100.0, 2.0)];
    assert ts[..0] == [];
    assert MaxPrice(ts) == 100.0 && MinPrice(ts) == 100.0;
    assert Volume(ts, false) == 2.0;
    assert Volume(ts, true) == 200.0;
  }
}
