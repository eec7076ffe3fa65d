# GDPR impact analysis: the numeric core of the charting script

`run.py` draws a report of charts about broadband, internet use, cloud
adoption and research spending in Germany, Ireland and Switzerland around
the EU's digital regulations (GDPR, DSA, DMA, AI Act). Almost all of it is
plotting. This project models the small numeric pipeline inside it, over
mathematical reals, with a missing value (pandas' NaN) as `None`:

- **OECD reshape** (`prepare_oecd_data`). A wide table of countries by
  year-label columns is melted into (country, year, value) rows. The melt is
  column-major, so all rows of the first year column come first
  (`Oecd.MeltIndex`), and the coercion keeps the surviving rows in that order
  (`Oecd.CoerceAppend`). Year labels
  and cell texts are coerced to numbers. Rows before 2010 and rows whose year
  or value does not parse are dropped.
- **Group-by-mean and per-entity sort.** Duplicate (entity, period) rows
  collapse to the mean of their present values. One entity's rows are then
  sorted by period.
- **Year-over-year percent change** (`pct_change() * 100`). pandas pads a
  missing value with the last present one before dividing, and the model does
  the same.
- **Pre/post split.** A series is split at a cutoff year into `< C` and
  `>= C`. Each side is reduced to its mean, and a missing mean becomes 0.
  The split is done once per cutoff, giving interleaved before/after bars,
  and is also done on the growth series and on the research-spending table's
  own values.
- **Cumulative index.** Starts at 100 and chains each later growth rate onto
  the previous value. It is modelled once: as a fold, and as a loop that
  mirrors the script's.
- **Milestone window.** The five years around a milestone year. Each bar is
  the first row of that year, or missing.
- **Regulation timeline.** A date is placed at `year + (month - 1)/12`. Only
  milestones from a start year on are drawn. A COVID-19 span is shaded.

Modules:

- `Records`: observations, points, optional values.
- `Stats`: the mean that skips missing values.
- `Oecd`: the reshape, with number parsing.
- `Aggregate`: grouping and sorting.
- `Growth`: percent change and the cumulative index.
- `Comparison`: the pre/post split, before/after pairs and the milestone window.
- `Timeline`: regulation placement.
- `Charts`: the research-spending chart series composed end to end.

## Model

| member | source | states |
|---|---|---|
| Stats.Mean | run.py:143 | The mean is missing exactly when no value is present |
| Stats.MeanTimesCount | run.py:143 | A present mean times the count of present values is their sum |
| Stats.MeanOrZero | run.py:815-816 | A missing mean is reported as 0, and a present mean is reported unchanged |
| Stats.MeanOrZeroTotal | run.py:815-816 | The reported bar times the count of present values is their sum, also when none is present and the bar is 0 |
| Stats.SumPermutation | run.py:143 | Sum and count of present values depend only on the multiset of values |
| Stats.MeanPermutation | run.py:143 | Reordering the rows of a group does not change its mean |
| Stats.MeanSingleton | run.py:142-143 | A group of one observation keeps that observation's value |
| Stats.MeanBounds | run.py:143 | The mean lies between any lower and upper bound of the present values |
| Stats.MeanConstant | run.py:143 | A group whose present values all equal c has mean c |
| Oecd.ParseInt | run.py:116 | A year label parses exactly when it is an optional sign followed by one or more decimal digits |
| Oecd.ParseShowInt | run.py:116 | Every integer year written in decimal parses back to itself |
| Oecd.ParseUnsigned | run.py:118 | An unsigned value text parses exactly when it is digits, optionally a point and more digits, with at least one digit in all; its value is all the digits read as one integer, divided by 10 to the number of digits after the point |
| Oecd.ParseUnsignedValue | run.py:118 | Digits w before the point and f after it denote the integer of w followed by f, over 10 to the length of f |
| Oecd.DigitsAppend | run.py:116-118 | Appending digits shifts a digit string's value left by their count |
| Oecd.ParseNumber | run.py:118 | A value text parses exactly when, after an optional sign, it is such a decimal text; without a sign or with '+' the value is the unsigned one, and a minus sign negates it |
| Oecd.ParseNumberExtendsParseInt | run.py:116-118 | Value coercion agrees with year coercion on integer labels |
| Oecd.Coerce | run.py:116-119 | Coercion never adds rows; every kept row has year >= 2010 and a present value |
| Oecd.CoerceSingle | run.py:116-119 | One melted row is kept, as its observation, exactly when it is admitted |
| Oecd.CoerceAppend | run.py:116-119 | Coercion distributes over concatenation, so the admitted rows keep their melt order, each once |
| Oecd.PrepareOecd | run.py:113-120 | At most rows x year-columns results; every result has year >= 2010 and a present value |
| Oecd.MeltLength | run.py:115 | The melt yields exactly one row per (row, year column) pair |
| Oecd.MeltFromIndex | run.py:115 | From column c on, the cell of row r under header c + j sits at position j x rows + r |
| Oecd.MeltIndex | run.py:115 | The melt is column-major: the cell of row r under header c sits at position c x rows + r |
| Oecd.MeltMembership | run.py:115 | A melted row exists exactly when it is some table row's entity, a header and that row's cell under it |
| Oecd.CoerceMembership | run.py:116-119 | An observation survives coercion exactly when some melted row parses to it with year >= 2010 and a present value |
| Oecd.PrepareOecdMembership | run.py:115-119 | An observation is in the result exactly when some cell's header parses to its year (>= 2010) and the cell parses to its value |
| Oecd.PrepareOecdIdempotent | run.py:116-119 | Writing the result back as melted rows and coercing again gives the same rows |
| Oecd.ExampleLabels | run.py:118 | The text "3.6" coerces to 3.6 and OECD's ".." placeholder to missing |
| Oecd.ExampleYears | run.py:116 | The labels "2009", "2017", "2018", "2019" parse to those years |
| Oecd.FourDigits | run.py:116 | A four-digit year label coerces to its positional decimal value |
| Oecd.ExampleAdmit | run.py:116-119 | Of the German cells, 2009 is dropped as too early, ".." is dropped as not a number, and 2017 and 2018 are kept with their values |
| Oecd.ExampleMelt | run.py:115 | A one-row, four-column table melts to four rows in column order |
| Oecd.ExampleCoerce | run.py:116-119 | Of Germany's 2009, 2017, 2018 and 2019 cells, the 2009 cell (too early) and the ".." cell are dropped |
| Oecd.GermanyExample | run.py:113-120 | The example table reshapes to Germany 2017 = 3.6 and 2018 = 1.3 |
| Aggregate.DistinctKeys | run.py:143 | Lists each key of the input exactly once and no other key |
| Aggregate.GroupMean | run.py:143 | Keys are unique, they are the input's keys, and each row's value is the mean of the input values with that key |
| Aggregate.GroupMeanPermutation | run.py:143 | Reordering the input rows gives the same keys, and rows with the same key are equal |
| Aggregate.SingleObservation | run.py:142-143 | An observation whose key occurs once keeps its value, a missing value staying missing |
| Aggregate.EntityPoints | run.py:147 | A point is selected exactly when some row of that entity carries its period and value |
| Aggregate.EntityPointsSingle | run.py:147 | A single row is kept, as its point, exactly when it belongs to the entity |
| Aggregate.EntityPointsAppend | run.py:147 | The filter distributes over concatenation, so it keeps the entity's rows in table order, each once |
| Aggregate.SortByPeriod | run.py:147 | The result is ordered by period and is a permutation of the input |
| Aggregate.SortStrict | run.py:147 | Sorting points with distinct periods makes periods strictly increasing |
| Aggregate.SeriesOf | run.py:147 | One entity's rows, ordered by period: a permutation of the entity's filtered rows |
| Aggregate.GroupedSeries | run.py:143-147 | After grouping, an entity's series strictly increases in period, and its points are exactly that entity's keys with their group means |
| Aggregate.EntityPointsDistinct | run.py:143-147 | Over grouped rows, no two points of one entity share a period |
| Growth.ForwardFillIsLastPresent | run.py:809 | The padded value at i is the last present value at or before i |
| Growth.PctChange | run.py:809 | Keeps the length; element 0 is missing; with both neighbours present, element i is (v[i] - v[i-1]) / v[i-1] x 100 |
| Growth.PctChangePadded | run.py:809 | The growth at i compares the last present values at or before i-1 and at or before i, so a gap is bridged |
| Growth.PctChangeAcrossGap | run.py:809 | [1, _, 2] grows by 0 then 100; [1, _, _] by 0 then 0 |
| Growth.PctChangePresence | run.py:809 | Growth at i >= 1 is present exactly when some earlier value is present; a missing value after a present one gives 0 |
| Growth.PctChangeConstant | run.py:809 | A constant nonzero series grows by 0 at every period after the first |
| Growth.Chain | run.py:589-594 | Same length as the growth series, first entry 100 whatever the first growth is |
| Growth.CumulativeIndex | run.py:586-594 | Same length as the growth series; first entry 100 |
| Growth.ChainRecurrence | run.py:590-594 | Every later entry is one step from the previous entry |
| Growth.CumulativeIndexRecurrence | run.py:590-594 | index[i] = index[i-1] x (1 + g[i]/100) when g[i] is present, and index[i-1] when it is missing |
| Growth.RecurrenceDeterminesChain | run.py:589-594 | Any sequence that starts at 100 and obeys the recurrence is the chain |
| Growth.CumulativeIndexClosedForm | run.py:589-594 | index[i] is 100 times the product of the growth factors of periods 1..i |
| Growth.IndexAllMissing | run.py:589-594 | With every growth after the first missing, the index stays at 100 |
| Growth.IndexExample | run.py:589-594 | Growths [_, 10, -10] give [100, 110, 99] |
| Growth.CumulativeIndexLoop | run.py:588-594 | The loop as written: index[i] = index[i-1] x (1 + g[i]/100) for a present growth, and 100 for a missing one |
| Growth.PoliciesAgreeWhenPresent | run.py:589-594 | When every growth after the first is present, the loop as written and the carrying index coincide |
| Growth.ResetDiffersFromCarry | run.py:589-594 | Growths [_, 10, missing] give [100, 110, 100] as written but [100, 110, 110] when carried forward |
| Growth.IndexOfPctChange | run.py:590-594 | Chaining the percent changes of nonzero values rebases the series: index[i] = 100 x v[i] / v[0] |
| Comparison.SideValuesMembership | run.py:813-814 | A value is on a side exactly when some point on that side of the cutoff carries it |
| Comparison.SideMean | run.py:813-816 | A side with no present value gives 0; otherwise the bar is the mean of the side's present values |
| Comparison.SideMeanTotal | run.py:813-816 | A bar times the side's count of present values is the side's total, also for an empty side |
| Comparison.SidesPartition | run.py:813-814 | Every point is on exactly one side: the lengths and the multisets of values of the two sides add up to those of the whole series |
| Comparison.SidesTotals | run.py:813-814 | The sums and counts of present values of the two sides add up to those of the whole series |
| Comparison.SplitWeightedMean | run.py:813-816 | The two bars, weighted by their counts, add up to the total of the series |
| Comparison.SideValuesPermutation | run.py:975-976 | The values on a side depend only on the multiset of points |
| Comparison.SideMeanPermutation | run.py:975-979 | Row order does not change a bar |
| Comparison.CutoffAfterAll | run.py:813-816 | A cutoff after every period gives an empty post side (bar 0), and the pre bar is the mean of the whole series |
| Comparison.BeforeAfterPairs | run.py:811-816 | Length 2 x the number of cutoffs; entry 2k is the before bar and entry 2k+1 the after bar of cutoff k |
| Comparison.GrowthSeries | run.py:809 | Each growth point keeps its row's period and carries the percent change at that row; the first is missing, and between present neighbours it is their relative difference in percent |
| Comparison.GrowthAcrossGap | run.py:809-814 | Across a gap the growth compares the last present values, and the growth point falls on the same side of a cutoff as its row |
| Comparison.TrafficBars | run.py:807-816 | No bars for a series of at most one row; otherwise two bars per cutoff, each the mean growth on its side of the cutoff, or 0 when that side has none |
| Comparison.LevelComparison | run.py:975-979 | Each bar is 0 for a side with no present value, otherwise that side's mean |
| Comparison.GrowthComparison | run.py:890-898 | Present exactly when the series has more than one row; the bars are the growth series' before and after bars |
| Comparison.GrowthComparisonConstant | run.py:892-898 | A series that does not move shows 0 growth on both sides |
| Comparison.ZeroSide | run.py:897-898 | A side whose present values are all 0 has bar 0, present or not |
| Comparison.Window | run.py:723 | Exactly the five years y-2, y-1, y, y+1, y+2 |
| Comparison.FirstIndex | run.py:733-734 | The position of the first point of the year, or the series length when there is none |
| Comparison.FirstMatchIsFirst | run.py:733-734 | The lookup is missing when no point has the year, and is the first such point's value otherwise |
| Comparison.WindowValues | run.py:732-734 | Five entries; entry k is the lookup at year y-2+k |
| Comparison.FirstMatchUnique | run.py:733-734 | With distinct periods the lookup finds the point of that year, wherever it is |
| Comparison.WindowValuesPermutation | run.py:730-734 | With distinct periods, reordering the rows does not change the window |
| Timeline.XPositionBounds | run.py:57 | A date's position lies in [year, year + 1) |
| Timeline.XPositionRoundTrip | run.py:57 | Year and month can be read back from the position |
| Timeline.XPositionOrder | run.py:57 | Positions are ordered as (year, month) pairs, and equal exactly when year and month are equal |
| Timeline.Drawn | run.py:55-56 | A milestone is drawn exactly when it is one of the milestones and its year is >= the start year |
| Timeline.DrawnSingle | run.py:55-56 | One milestone is drawn exactly when its year is the start year or later |
| Timeline.DrawnAppend | run.py:55-56 | The drawing filter distributes over concatenation, so drawn milestones keep their order, each once |
| Timeline.Markers | run.py:55-57 | One line per drawn milestone, at that milestone's position |
| Timeline.DrawnMonotone | run.py:56 | A later start year draws no more milestones |
| Timeline.DrawnAll | run.py:56 | A start year no later than every milestone draws them all |
| Timeline.AllDrawnByDefault | run.py:48-57 | With the default start year 2010 all four milestones are drawn |
| Timeline.GdprPosition | run.py:30-35 | GDPR (May 2018) sits at 2018 + 4/12 |
| Timeline.CovidSpan | run.py:45-53 | The shaded span runs from 2020 + 2/12 to 2023 + 4/12 |
| Timeline.TimelineLayout | run.py:30-57 | The milestone lines go left to right; GDPR is before the span, DSA inside it, and DMA on its right edge |
| Timeline.MilestoneYearsMatch | run.py:717 | The window charts' years are the regulations' years, and the traffic chart's cutoffs are the first three |
| Charts.CountrySeries | run.py:583-586 | A country's prepared rows are ordered by year, each from 2010 on and present, and a point is in the series exactly when a cell of that country's row yields it |
| Charts.IndexChart | run.py:583-594 | Over a prepared table the loop's chart equals the carrying index: 100 first, same length as the series |
| Charts.GerdWindow | run.py:725-734 | Five bars; bar k is present exactly when the country has a prepared row for year y-2+k, and is the value of the first such row in table order |
| Charts.WindowFirstRows | run.py:730-734 | Each window bar is the value of the entity's first row of that year |
| Charts.FirstRowMatch | run.py:732-734 | The year lookup among an entity's rows finds the entity's first row of that year |
| Charts.FirstMatchPresent | run.py:733-734 | Over rows with present values, the lookup is present exactly when the entity has a row of that year |
| Charts.GerdComparison | run.py:966-979 | The research-spending bars over unsorted rows equal those over the period-sorted series |
| Charts.OrderIrrelevant | run.py:973-976 | Sorting the rows first would not change the bars |
| Charts.GermanySeries | run.py:113-120 | Germany's prepared series is its 2017 and 2018 values, in year order |
| Charts.GermanyIndex | run.py:583-594 | Germany's growths 3.6 and 1.3 chain to the index [100, 101.3] |

## Left out

- Rendering: figures, styles, legends, hatching, bar offsets and file
  saving. This is presentation only.
- CSV loading and the final message. These are I/O; the model starts from
  tables and rows.
- The choropleth maps. They rely on geometry library calls that are not
  part of this model, and their inputs are hard-coded dictionaries.
- Parsing of the VPN series dates. This is a library call.
- The hard-coded survey arrays of the stacked-bar charts. They are literals
  with no behaviour.
- Floating point. Values are exact reals. A zero prior value in the percent
  change gives an infinite result in pandas; here it is excluded by a
  precondition (`NonzeroPriors`).
- Growth.PctChange: the pandas default of padding missing values is
  modelled. A pandas release whose `pct_change` no longer pads would give a
  missing growth, not 0, after a missing value.
- Oecd.ParseInt: year labels written as floats ("2017.0"), with whitespace,
  or with exponents are not parsed, and they would be dropped.
- Oecd.ParseNumber: value texts are limited to an optional sign, digits and
  one decimal point. Whitespace, exponents, "inf" and "nan", which
  `pd.to_numeric` accepts, are not parsed, so such cells become missing.
- Aggregate.GroupMean: groups appear in first-appearance order, not pandas'
  sorted key order. Every use filters one entity and sorts by period, so the
  order is not observable downstream.
- Entity filters (`isin` on the three countries) and the `>= 2010` filters
  of the Eurostat tables are plain filters and are not modelled separately.
  The OECD year filter is modelled, inside `Oecd.Coerce`.
- Timeline dates are not checked to be real calendar dates. `ValidDate`
  only bounds month and day.
- Aggregate.SortByPeriod: a stable insertion sort. pandas `sort_values`
  defaults to quicksort, which is not guaranteed stable, so the order of two
  rows of the same period may differ. That order only shows when a wide
  table repeats an entity's row.
- Two behaviours of the script worth knowing when reading the charts:
  - `pct_change` pads a missing value, so a missing value after a present
    one gets growth 0 (`Growth.PctChangePadded`).
  - The index charts chain the table's own values, which are already growth
    rates, so the Germany example chains to [100, 101.3]
    (`Charts.GermanyIndex`). Chaining the percent changes of a level series
    instead rebases it (`Growth.IndexOfPctChange`).

## Findings

| source | as written | input that shows it | evidently intended | confidence | as-written member | corrected member |
|---|---|---|---|---|---|---|
| run.py:589-594 | The index column is pre-filled with 100.0, and a row is overwritten only when its growth is present, so a missing growth resets the index to 100 | growths [_, 10, missing] give [100, 110, 100] | A missing growth carries the previous index forward, giving [100, 110, 110] | not executed; low impact, since the rows come from the OECD reshape, which drops missing values (`Charts.IndexChart` proves the two agree there) | Growth.CumulativeIndexLoop, Growth.ResetDiffersFromCarry | Growth.CumulativeIndex, Growth.CumulativeIndexRecurrence |
