# btc_price_plot: trade-to-candle aggregation in Dafny

This project models the core of `btc_price_plot.py`, a script that turns a
date-sorted list of Bitcoin trades (`date`, `price`, `amount`) into at most
`count` OHLCV rows `[date, open, high, low, close, volume]`, one per equal
period of `[start_date, stop_date)`, for candlestick charts. The model also
covers the script's two span helpers, `str_to_days` and
`days_to_unixtimestamp`.

Files and modules:

- `span.dfy`, module `Span`: `str_to_days`, which parses a token such as
  `"2m"`, and `days_to_unixtimestamp`. Both are pure functions. The Python
  exceptions are modelled as a `Result`: an empty token or a lone digit is an
  `IndexError`; a first character that is not a digit is a `ValueError`, even
  in a one-character token, because `int(s[0])` runs before `s[1]` is read.
- `ohlcv.dfy`, module `Ohlcv`: the `Trade` and `Row` datatypes and a
  reference definition of what `clump_data` returns. `Window` gives the trades
  of a period, and `Candle` gives that period's row: first price, maximum,
  minimum, last price and summed volume. `Periods` gives one row per period.
  `RemoveEmpty` drops the all-zero rows, and `Clumped` combines the two steps.
  The module also holds the lemmas about this definition.
- `clump.dfy`, module `Clump`: `clump_data` written the way the script runs it,
  as methods with loops:
  - a single cursor `rawIndex`, shared by all periods and never moved back;
  - a skip loop over trades dated before the period;
  - a seeding trade, then an update loop in which a new low is tested before a
    new high (`if ... elif`);
  - a backwards pass that pops every all-zero row.

  `ClumpData` is proved to return exactly `Clumped`.

Modelling choices:

- Dates, prices, amounts and the period width are exact `real`s, so floating
  point rounding is not modelled.
- A row's `mid` is the raw value `period_start + period_size / 2`. The
  conversion to a matplotlib date number is not applied.
- The optional `volume_in_fiat=False` flag of `clump_data` and
  `trade_data_to_ohlcv` (lines 33 and 69) is the explicit parameter `inFiat`;
  both of its values are modelled.
- `count > 0` is a precondition, because line 34 divides by it. Trades sorted
  by date is a precondition too: the script assumes it and does not check it.
- The loop at lines 64-66 pops every row whose open, high, low and close are
  all zero, wherever it sits, not only trailing ones, and ignores the volume
  (`InteriorGapExample`, `CandleEmptyIff`). A period whose trades all have
  price zero is therefore removed as well.
- Nothing rejects `stop_date <= start_date`: the periods are then empty
  intervals and the result is `[]` (`DegenerateRangeGivesNothing`).
- `str_to_days` reads only `s[0]` as the multiplier and `s[1]` as the unit.
  So `"10d"` is 1 × 365 days, because `'0'` falls through to the year branch
  (`SpanExamples`).

## Model

| member | source | states |
|---|---|---|
| `Span.DaysToUnixTimestamp` | btc_price_plot.py:16-17 | seconds are days times 86400, and dividing by 86400 gives the days back |
| `Span.DaysToUnixTimestampMonotone` | btc_price_plot.py:16-17 | the conversion is strictly increasing and additive over sums of spans |
| `Span.IsDigit` | btc_price_plot.py:21 | the characters `int(s[0])` accepts: the ASCII digits `'0'` to `'9'`; `StrToDays` fails with a value error exactly on the others |
| `Span.DigitChar` | btc_price_plot.py:21 | the character written for a value below 10 is a decimal digit, the inverse of `int(s[0])` |
| `Span.DaysPerUnit` | btc_price_plot.py:22-30 | the days one unit letter stands for (1/24, 1, 7, 30, or 365 for any other letter) lie between an hour and a year |
| `Span.FormatSpan` | btc_price_plot.py:19-30 | the token for a one-digit span of a unit is two characters: the digit, then the unit letter |
| `Span.DigitValue` | btc_price_plot.py:21 | `int(s[0])` of a digit character is a value below 10 that formats back to the same character |
| `Span.StrToDays` | btc_price_plot.py:19-30 | succeeds exactly when the token has at least two characters and a digit first. An empty token is an index error, a non-digit first character a value error, a lone digit an index error. On success the result is the digit times 1/24, 1, 7, 30 or 365 days for h, d, w, m or any other unit, and lies between 0 and 9 × 365 |
| `Span.SpanRoundTrip` | btc_price_plot.py:19-30 | parsing a formatted one-digit span, followed by anything, gives that many units' worth of days |
| `Span.StrToDaysReadsTwoCharacters` | btc_price_plot.py:21 | two tokens that share their first two characters parse to the same result |
| `Span.SpanExamples` | btc_price_plot.py:19-30 | "2m" is 60, "1y" 365, "3h" 0.125, "2w" 14, "1d" 1, "10d" 365 days. "d" is a value error; "5" and "" are index errors |
| `Ohlcv.InPeriod` | btc_price_plot.py:47-50 | the half-open period test `period_start <= date < period_start + period_size` that the skip loop and the two guards apply; `WindowMembers` selects exactly the trades passing it |
| `Ohlcv.MaxPrice` | btc_price_plot.py:53-56 | the high the `elif` updates reach: the largest price of the run, as `PriceExtremes` proves (it bounds every price and is one of them) |
| `Ohlcv.MinPrice` | btc_price_plot.py:53-54 | the low the updates reach: the smallest price of the run, as `PriceExtremes` proves (it bounds every price and is one of them) |
| `Ohlcv.TradeVolume` | btc_price_plot.py:57-60 | what one trade adds to the volume: its amount, or amount times price when the volume is in fiat (`VolumeModeExample`) |
| `Ohlcv.Volume` | btc_price_plot.py:57-60 | the summed volume of a run of trades; `VolumeOfAppend` proves it adds up over concatenation, so each trade counts once |
| `Ohlcv.EmptyRow` | btc_price_plot.py:41 | the row `[period_mid, 0, 0, 0, 0, 0]` a period starts with and keeps when no trade falls in it (`EmptyPeriodRemoved`) |
| `Ohlcv.PeriodSize` | btc_price_plot.py:34 | the width `(stop_date - start_date) / count` of each period, as an exact quotient |
| `Ohlcv.PeriodStart` | btc_price_plot.py:35-62 | the start of period `i` in closed form, `start_date + i * period_size`; `PeriodStartNext` ties it to `period_start += period_size` |
| `Ohlcv.PeriodMid` | btc_price_plot.py:39 | the raw midpoint `period_start + period_size / 2` of period `i`; `ClumpedMidsIncrease` proves the midpoints increase |
| `Ohlcv.PeriodTrades` | btc_price_plot.py:43-50 | the trades of period `i`: the window of `[period_start, period_start + period_size)`; `WindowIsSegment` proves it is the run the cursor consumes |
| `Ohlcv.PeriodCandle` | btc_price_plot.py:41-61 | the row of period `i` before removal; `CandleOfPeriod` states it over the whole input |
| `Ohlcv.IsEmptyRow` | btc_price_plot.py:65 | the removal test: open, high, low and close all zero, the volume ignored; `CandleEmptyIff` says which periods pass it |
| `Ohlcv.Window` | btc_price_plot.py:47-50 | the trades the loop conditions select for one period, in input order: never more trades than the input has |
| `Ohlcv.Candle` | btc_price_plot.py:49-61 | a period's row keeps the period's midpoint, has open and close between low and high, and is all-zero when the period had no trade |
| `Ohlcv.Periods` | btc_price_plot.py:38-62 | exactly `count` rows, row `i` being the row of period `i` of width `(stop_date - start_date) / count` |
| `Ohlcv.RemoveEmpty` | btc_price_plot.py:64-66 | the rows without the all-zero ones: never more rows than before |
| `Ohlcv.Clumped` | btc_price_plot.py:33-67 | the result of `clump_data`: at most `count` rows, none of them with all four prices zero |
| `Ohlcv.WindowMembers` | btc_price_plot.py:43-50 | a period's trades are exactly the trades of the input dated in `[period_start, period_start + period_size)` |
| `Ohlcv.EmptyIntervalWindow` | btc_price_plot.py:47 | a period of non-positive width contains no trade |
| `Ohlcv.PriceExtremes` | btc_price_plot.py:53-56 | the reference high and low bound every price of the period, and each is the price of one of its trades |
| `Ohlcv.CandleExtend` | btc_price_plot.py:49-61 | one more trade in a period makes its price the close, extends the high or the low to it, and adds its volume; the first trade sets all four prices |
| `Ohlcv.ClumpedShape` | btc_price_plot.py:33-67 | the result has at most `count` rows, none with all four prices zero, each with its prices in order |
| `Ohlcv.WindowFirst` | btc_price_plot.py:43-49 | the first trade of a period is the earliest trade of the input inside it |
| `Ohlcv.WindowLast` | btc_price_plot.py:50-52 | the last trade of a period is the latest trade of the input inside it |
| `Ohlcv.CandleOfPeriod` | btc_price_plot.py:43-61 | for a non-empty period: open is the price of the first trade dated in it, close the price of the last. High and low bound every such price and are each reached by one |
| `Ohlcv.VolumeOfAppend` | btc_price_plot.py:57-60 | the volume of two runs of trades is the sum of their volumes, so each trade, the seeding one included, counts once |
| `Ohlcv.VolumeNonNegative` | btc_price_plot.py:57-60 | with non-negative amounts (and non-negative prices when the volume is in fiat) the volume is non-negative |
| `Ohlcv.CandleEmptyIff` | btc_price_plot.py:64-66 | a row is treated as empty exactly when its period had no trade or only zero-price trades |
| `Ohlcv.EmptyPeriodRemoved` | btc_price_plot.py:41 | a period without trades yields `[mid, 0, 0, 0, 0, 0]`, and that row is not in the result |
| `Ohlcv.NoTradesNoRows` | btc_price_plot.py:33-67 | with no trades the result is empty |
| `Ohlcv.DegenerateRangeGivesNothing` | btc_price_plot.py:34-47 | with `stop_date <= start_date` the result is empty |
| `Ohlcv.RemoveEmptyMembers` | btc_price_plot.py:64-66 | the removal keeps exactly the rows that are not all-zero |
| `Ohlcv.RemoveNoneEmpty` | btc_price_plot.py:64-66 | rows with no all-zero row among them are returned unchanged |
| `Ohlcv.RemoveAllEmpty` | btc_price_plot.py:64-66 | rows that are all all-zero are removed entirely |
| `Ohlcv.RemoveEmptyKeepsOrder` | btc_price_plot.py:64-66 | the removal keeps the surviving rows in their order |
| `Ohlcv.PeriodStartNext` | btc_price_plot.py:62 | `period_start += period_size` moves to the next period's start |
| `Ohlcv.PeriodsOrdered` | btc_price_plot.py:34 | with a positive width, a later period starts no earlier than an earlier one ends |
| `Ohlcv.PeriodsDisjoint` | btc_price_plot.py:43-50 | with a positive width no trade falls in two periods, so each trade counts toward at most one row |
| `Ohlcv.OutsideAllPeriods` | btc_price_plot.py:43-47 | a trade before `start_date`, or at or after the end of the last period, is in no period |
| `Ohlcv.ClumpedMidsIncrease` | btc_price_plot.py:39 | when `start_date < stop_date` the rows' midpoints strictly increase, so surviving rows follow period order |
| `Ohlcv.OneTradeCandle` | btc_price_plot.py:49-61 | a single-trade period has open = high = low = close = that price and that trade's volume |
| `Ohlcv.TwoTradeCandle` | btc_price_plot.py:49-61 | the row of a two-trade period |
| `Ohlcv.ThreeTradeCandle` | btc_price_plot.py:49-61 | the row of a three-trade period |
| `Ohlcv.OnePeriodExample` | btc_price_plot.py:33-67 | trades (0, 10, 1), (5, 20, 1), (9, 5, 1) in one period of [0, 10) give open 10, high 20, low 5, close 5, volume 3 |
| `Ohlcv.TwoPeriodExample` | btc_price_plot.py:33-67 | the same trades in two periods give rows (10, 10, 10, 10, 1) and (20, 20, 5, 5, 2) |
| `Ohlcv.InteriorGapExample` | btc_price_plot.py:64-66 | an empty middle period is removed, not only empty periods at the end |
| `Ohlcv.VolumeModeExample` | btc_price_plot.py:57-60 | a lone trade of price 100 and amount 2 has volume 2 in base currency and 200 in fiat |
| `Clump.SkipBefore` | btc_price_plot.py:43-44 | the cursor moves forward past exactly the trades dated before the period start, stopping at the first later trade or the end |
| `Clump.FillPeriod` | btc_price_plot.py:46-61 | the seed-then-update loop, with its low-before-high `elif`, consumes exactly the run of trades before the period end and returns the reference row of that run |
| `Clump.RemoveEmptyRows` | btc_price_plot.py:64-66 | the backwards pop loop returns the rows without their all-zero ones |
| `Clump.WindowIsSegment` | btc_price_plot.py:43-50 | a period's trades are the segment the cursor consumed for it |
| `Clump.ClumpData` | btc_price_plot.py:33-67 | the shared-cursor scan returns exactly the reference rows `Clumped` |
| `Clump.TradeDataToOhlcv` | btc_price_plot.py:69-71 | the pass-through returns the same rows as `clump_data` |

## Left out

- `plot` and `plot_price_vs_volume` (lines 73-189): matplotlib rendering and image-buffer output. This is presentation only.
- `read_data_since` (lines 191-225): HTTP download, gzip and CSV decoding, and pickle cache files. This is all I/O.
- `demo`, `lbc_vol_vs_bitstamp_price` and the `__main__` block (lines 227-267): they read the wall clock, write files and handle command-line arguments.
- `unixtimestamp_to_mpldatenum` (lines 12-14): a foreign call into `datetime` and `date2num` that returns a float. Rows carry the raw midpoint instead.
- Floating-point rounding of prices, amounts and `period_size`. All of these are exact reals here.
- `Span.StrToDays`: returns exact reals. In the script the `'h'` branch (lines 22-23) returns the float `multiplier / 24.0`, so `"1h"` is not exactly 1/24, and the other branches (lines 24-30) return Python integers.
- The midpoint `period_start + period_size / 2` (line 39) is the exact half-width here. In Python 2 it is integer division when `period_size` is an integer.
- Python 2's integer division when both dates and `count` are integers (line 34). The width here is the exact quotient.
- `ClumpData`: a negative `count` is not modelled; the script would return `[]` for it. `count == 0` is a precondition, since the script raises a division error there.
- `ClumpData`: trades not sorted by date are excluded by precondition. The script's result for them is not modelled.
- Malformed trade records (missing fields, non-numeric values) cannot occur, because trades are typed values.
- `Span.DigitValue`: non-ASCII digits are not modelled. The script is Python 2, where `s[0]` is a byte.
