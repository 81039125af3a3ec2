# S&P 500 pipeline and backtest dashboard — a Dafny model

This project models the repository's own data handling around a daily S&P 500
closing-price series. The market-data download, the database, the Streamlit UI
and the backtesting library are outside the model.

- **Row cleaner** (`clean_data`, module `Cleaning`). It runs four steps in a fixed order:
  1. drop rows with a missing value in any required column that is present;
  2. keep the last row of every date;
  3. sort by date;
  4. drop rows with a negative value.

  The model proves exactly which rows survive and that the dates come out strictly increasing.
- **Moving averages** (`calculate_moving_averages` and the dashboard's indicator lines; modules
  `MovingAverage` and `Indicators`). The `MA_<w>` column is pandas' `rolling(window=w).mean()`.
  A one-pass running-sum algorithm is proved equal to a per-row reference definition.
- **Incremental append** (the decision part of `save_to_postgres`, module `Persistence`):
  - which lookup errors mean "table missing, start fresh" and which are re-raised;
  - which rows are appended: those strictly newer than the stored maximum date.
- **Dashboard backtest driver** (modules `PriceSeries`, `Backtest`, `Report`):
  - the `ffill().dropna()` cleaning;
  - the analysis window for a selected duration;
  - "indicators on the full history, then an inclusive slice", with an empty slice giving no portfolio;
  - the outcome and status the page reports;
  - the buy-and-hold benchmark curve.

How the model represents the source:
- Prices are exact `real`s. A pandas NaN is `None`.
- Dates are integer day numbers. "Today" is a parameter.
- The entry/exit signals and the statistics come from the backtesting library. They are parameters, and so are the short and long windows the user enters.

Files:
- `options.dfy`: `Option` and `Result`.
- `frames.dfy`: the price table and row predicates.
- `cleaning.dfy`, `moving_average.dfy`, `indicators.dfy`, `persistence.dfy`: sp500_pipeline.py.
- `series.dfy`, `backtest.dfy`, `report.dfy`: dashboard.py.

Notes on the code as modelled (the model follows it as written):
- The window ends on the calendar day before today, not on the last settled trading day.
- The window is a plain inclusive label slice.
- Crossover detection and the portfolio replay are not written out: the dashboard delegates them to the library.

## Model

| member | source | states |
|---|---|---|
| Cleaning.CleanShape | sp500_pipeline.py:86-99 | Cleaning only removes rows: every output row is an unchanged input row, there are no more rows than before, the present columns are kept, and the output dates are unique and strictly increasing. |
| Cleaning.CleanMembers | sp500_pipeline.py:81-99 | A row is in the output iff it is the last complete row of its date and its present required values are all non-negative. Hence no output row has a missing value in a present required column, and absent required columns impose nothing. |
| Cleaning.CleanLastRowDecides | sp500_pipeline.py:92-99 | The last complete row of a date survives exactly when it is non-negative. When it is negative, no row of that date survives: an earlier, non-negative row of the same date does not take its place. |
| Cleaning.LastCompleteByIndex | sp500_pipeline.py:86-92 | The row kept for a date is, by position, the last complete row with that date. There is none iff every row with that date has a missing required value. |
| Cleaning.LastAfterDrop | sp500_pipeline.py:86-92 | Running keep-last after `dropna` picks the last complete row of each date, not the last row. |
| Cleaning.DedupLastMembers | sp500_pipeline.py:92 | `drop_duplicates(keep="last")` keeps a row iff it is the last row with its date. It never adds rows. |
| Cleaning.DedupLastDistinct | sp500_pipeline.py:92 | After deduplication no two rows share a date. |
| Cleaning.SortByDate | sp500_pipeline.py:95 | Sorting rows with distinct dates yields the same rows, as many of them, in strictly increasing date order. |
| MovingAverage.RollingMean | sp500_pipeline.py:121 | The one-pass running-sum computation yields one entry per row, equal to the reference rolling mean at every position. That is: undefined before `w` observations or when the window holds a NaN, otherwise the mean of the trailing `w` values. |
| MovingAverage.DefinedAfterWarmUp | sp500_pipeline.py:121 | On a NaN-free series the average is defined exactly from index `w - 1` on, where it is the mean of the trailing `w` closes. |
| MovingAverage.ConstantSeries | sp500_pipeline.py:121 | A constant price series has that constant as its moving average once warmed up. |
| Indicators.CalculateMovingAverages | sp500_pipeline.py:108-124 | For each window, `MA_<w>` gets exactly one value per row, equal to the rolling mean of `Close`. Other columns and other MA columns are untouched. Without a `Close` column the table is returned unchanged. |
| Indicators.CleanedClosesPresent | sp500_pipeline.py:81-86 | After cleaning, every row has a `Close` value when the table has a `Close` column. |
| Indicators.CleanAndAverage | sp500_pipeline.py:201-205 | The pipeline cleans the table and then adds averages with the default windows 20, 50, 100 and 200 (sp500_pipeline.py:108). Rows are the cleaned rows with only their averages changed, and average columns of other windows are untouched. Without a `Close` column the result is exactly the cleaned table. With one, each `MA_<w>` is undefined exactly on the first `w - 1` rows and is the trailing mean after that. |
| Indicators.CleanedAveragesDefined | sp500_pipeline.py:201-205 | In the pipeline (clean, then averages), `MA_<w>` is undefined exactly on the first `w - 1` rows and is the mean of the trailing `w` closes after that. |
| Persistence.ContainsIsSubstring | sp500_pipeline.py:148 | `Contains` holds iff the pattern occurs at some position of the message (Python's `in` on strings). |
| Persistence.ErrorTriage | sp500_pipeline.py:142-151 | A failed lookup counts as "no stored date" iff its message contains both "relation" and "does not exist". Every other error is re-raised with its message unchanged. A successful lookup's maximum is used as is. |
| Persistence.RowsAfter | sp500_pipeline.py:154 | The filtered rows are exactly the input rows dated strictly after the stored maximum. |
| Persistence.SaveSelectsNewRows | sp500_pipeline.py:142-162 | Reports an error iff the lookup failed for a reason other than a missing table. An append holds exactly the rows newer than the stored maximum (all rows when none is stored) and is never empty. Nothing is written iff no row is newer. |
| Persistence.NewRowsAreSuffix | sp500_pipeline.py:153-156 | On a date-sorted table the rows selected for append form a suffix of it. |
| Persistence.SecondSaveWritesNothing | sp500_pipeline.py:145-162 | When the new rows of a sorted table are appended, every appended date and any earlier stored maximum lie at or below the last appended date. So the table's `MAX(date)` after the append is that date, and saving the same table again writes nothing. |
| PriceSeries.FfillDropna | dashboard.py:135 | The output drops exactly the leading run of missing closes. Each remaining position keeps its date and takes the nearest present close at or before it. Sorted input dates stay sorted. |
| PriceSeries.MissingOnlyInLead | dashboard.py:135 | After forward filling, a position has no value iff it lies in the leading run of missing closes. |
| PriceSeries.PresentKept | dashboard.py:135 | A present close survives cleaning and keeps its value. |
| PriceSeries.FillIsNearestEarlier | dashboard.py:135 | A filled value is the close of an earlier observation, and every observation in between is missing. |
| Backtest.AnalysisWindow | dashboard.py:111-126 | The window ends the day before today and starts 365, 1095, 1825 or 18250 days earlier. So start < end < today. |
| Backtest.LowerBound | dashboard.py:68 | Binary search on sorted dates: every date before the returned position is below the key, and every date from it on is at least the key. |
| Backtest.SliceRange | dashboard.py:63-68 | The positions kept by the inclusive label slice `loc[start:end]` are exactly those whose date lies in [start, end], and they form one block. |
| Backtest.SmaCrossoverBacktest | dashboard.py:54-81 | Returns no portfolio iff no price lies within the bounds. Otherwise prices, entries and exits are sliced over the same block of positions, which holds exactly the in-bounds dates, and the starting cash is 100000. Without both bounds the whole history is used. |
| Backtest.WarmUpUsesFullHistory | dashboard.py:55-70 | `MA.run` is taken to be the trailing mean `MovingAverage.WindowMean`. Under that reading, indicators at a window position equal the full-history values. Recomputing on the sliced prices would leave the first `w - 1` window positions undefined even where the full history defines them. |
| MovingAverage.SliceAgreesInside | dashboard.py:148-149 | A rolling mean whose window lies inside a slice agrees with the full-history rolling mean at the same date. |
| MovingAverage.SliceLosesWarmUp | dashboard.py:55-57 | A rolling mean recomputed on a slice is undefined during the slice's own warm-up, even where the full-history mean is defined. |
| Report.RunAnalysis | dashboard.py:105-179 | "No data available" iff the loaded series has no present close. Otherwise a negative short or long window raises, because the chart's rolling means come first. Otherwise "no data for the period" iff no position after the leading missing run is dated in the analysis window. Otherwise results are reported, and the observation count is the size of the block of positions dated in the window. The short-period warning appears exactly below 20 observations. The status, trade count and summary come from the statistics. |
| Report.EmptyWindowIsNoData | dashboard.py:172-179 | An empty or missing portfolio is reported as "no data for the period", never as results with zero trades. A non-empty one always yields results, with a warning iff it has fewer than 20 observations. |
| Report.StatusMatchesSummary | dashboard.py:202-228 | The status card shows the win rate iff it is defined. "Holding" appears iff the summary describes an open position. "No Trades" appears iff the summary says no trades were completed and there is no win rate. A missing trade count shows as 0. |
| Report.BuyAndHold | dashboard.py:249-251 | With positive closes, the compounded daily changes give the benchmark value 100000 × close[i] / close[0] at every position. |
| Report.CompoundStep | dashboard.py:250-251 | Multiplying the cumulative growth up to the previous day by one plus the day's percentage change (0 on the first day) gives close[i] / close[0]. |
| Report.BenchmarkEnds | dashboard.py:249-251 | The benchmark's first value is exactly 100000, because the first change is filled with 0. Its last value is 100000 scaled by last close / first close. |

## Left out

- The backtesting library's `MA.run`, `ma_crossed_above`/`ma_crossed_below`, `Portfolio.from_signals`, `stats()` and `value()` (dashboard.py:56-60, 80, 175, 242): the entry/exit signals and the statistics are parameters. `Backtest.WarmUpUsesFullHistory` reads `MA.run` as the trailing mean `MovingAverage.WindowMean`. No trade replay is modelled, because its semantics are not in the repository's code.
- `get_close_data` (CSV/PostgreSQL selection and the one-hour cache), `fetch_sp500_data`, `export_latest_data`, fetch_full_data.py and deploy_pipeline.py: I/O and scheduling only.
- Engine creation, `conn.execute` and `to_sql` in `save_to_postgres`: database side effects. Only the decision what to write is modelled.
- The Streamlit layout, charts, `fmt` formatting, the "2000-01-01" plot filter, the final "MORE/LESS than buy-and-hold" text (dashboard.py:255-268) and the About page: presentation only.
- Floating-point rounding of the rolling mean and of `cumprod`: prices are exact reals.
- `pd.to_datetime` in `clean_data` and `Timestamp.now()`: dates are day numbers and today is a parameter, so a date that fails to parse is not modelled.
- MovingAverage.RollingMean: requires a window of at least 1. pandas rejects negative windows and treats a zero window specially; neither is modelled.
- Indicators.CalculateMovingAverages: requires every window to be at least 1, for the same reason.
- Backtest.SmaCrossoverBacktest: requires non-decreasing dates. pandas' label slicing on an unsorted index (a positional slice or a KeyError) is not modelled.
- Backtest.SliceRange: requires non-decreasing dates, for the same reason.
- Report.BuyAndHold: requires strictly positive closes. With a zero close, `pct_change` produces infinities or NaN, which are not modelled.
- Report.RunAnalysis: a window of 0 passes pandas' `rolling` and goes on to the library's `MA.run`, whose behaviour is not modelled; the given signals are used as they are. A negative window ends in `NegativeWindow`: the `ValueError` raised at dashboard.py:148 is not caught. The benchmark is not part of it; `Report.BuyAndHold` states that on its own.
- Report.StatusMatchesSummary: assumes the library's trade count is never negative.
- Cleaning.KeepNonNegative: the source filters column by column. The model filters once with the conjunction over all present columns, which keeps the same rows.
- Cleaning.SortByDate: pandas' default sort is not stable. The model relies on dates being unique after deduplication, which fixes the order.
