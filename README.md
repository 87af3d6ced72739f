# Firestorm time-series engine — a Dafny model

This project models the analysis core of a Twitter "firestorm" study: the
tweets collected for one online outrage (a *firestorm*) and how they are
filtered, bucketed into hours and compared over time. It also models the
small classification, formatting and dict helpers around that core. It is
written in Dafny, and the properties the code promises are proved about the
model.

What is modelled, module by module:

- **Filters and rate tables.**
  - `Filters` holds the row filters: equality, half-open between, and the default chain.
  - `FirestormTweets` holds the `Tweets` object: the filter loop with its filter log, the dense hourly rate table, the cached metric properties and `metadata`.
  - `LibTweets` holds the older sparse table, the half-open time-range selections and the preprocessing.
- **Activity window.** `ActivityWindow` computes the threshold `max(100, 0.2·peak)` and the day-then-hour scan that finds a firestorm's active window. The scan raises when the burst never subsides.
- **Phases.** `LibPhases` is the `TweetsInPhases` class. It maps change-point indices to hours, pops the stored list and splits the tweets into half-open phases.
- **Time helpers.** `DateTimes` has a civil datetime with microseconds and an optional zone. It covers hour flooring and half-up rounding, six-hour slots, day-wrapping midnights and `isoformat`.
- **Series.**
  - `Series` is the `Timeseries` class: `len`, `normalize`, and the per-row logic of the CSV loader.
  - `ConsecutiveRuns` groups runs of consecutive integers.
  - `TsCorrelation` does lag alignment and significance marks.
- **Hypothesis-testing helpers.**
  - `HypothesesHelpers` covers the before/peak/after epoch, the regression formula and the dummy columns.
  - `LatexResults` covers the LaTeX results prettifier and its line state machine.
- **Per-tweet attributes.**
  - `Classifiers` covers tweet type, user type, URL presence and sentiment category.
  - `UserGroups` covers the percentile user groups.
  - `AddAttributes` covers the attribute pass with its skip/overwrite rule and `determine_offensiveness`.
  - `InterRater` is the three-rater majority vote.
  - `Hashtags` removes the first `#`.
- **Configuration and I/O-adjacent logic.**
  - `Queried` is the defaulting pass over the firestorm table.
  - `SearchResponse` is the API response object: accessors, media attachment, field buffering and `flatten`.
  - `RequestsBase` builds request parameters and headers.
  - `InsertJson` is the JSON-lines cleaner.
  - `Overview` covers the metadata row, hourly quantities and the filter-cut statistics.
- **Shared modules.**
  - `Wrappers` provides `Option`, and `Result` with an `Error` per Python exception class.
  - `PyValues` provides JSON-shaped values and insertion-ordered dicts, with Python's `in`, subscripting and truthiness.
  - `PyStrings` provides the `str` methods the code relies on.
  - `Ordering` provides strictly increasing sequences and insertion.

How the model represents the program:

- A Python exception is an `Err` carrying its class.
- A loop that stops at an exception is a fold over a prefix of its input. The result is the state left behind plus the exception.
- Objects whose fields the code updates are classes. Their methods are proved against those folds.
- Timestamps are integer microseconds, and grouping keys are integer hour numbers, in one fixed zone.
- Shares and ratios are exact `real`s.

## Model

| member | source | states |
|---|---|---|
| DateTimes.NextDay | src/utils/datetime_helpers.py:37 | `day + timedelta(days=1)` is the valid date one ordinal later; past 9999-12-31 it raises OverflowError |
| DateTimes.AddHour | lib/utils/datetime_helpers.py:8-9 | adding one hour keeps the zone and moves the instant by exactly one hour; only 23:00 of 9999-12-31 overflows |
| DateTimes.RoundToHour | src/utils/datetime_helpers.py:13-15 | minutes, seconds and microseconds become zero, date, hour and zone are kept, and `result <= t < result + 1h` |
| DateTimes.RoundToHourIdempotent | src/utils/datetime_helpers.py:13-15 | flooring an already floored datetime changes nothing |
| DateTimes.FloorDiv | src/utils/datetime_helpers.py:23 | Python's `//` rounds towards minus infinity for either sign of the divisor |
| DateTimes.RoundToHourSlots | src/utils/datetime_helpers.py:18-24 | the hour becomes a multiple of `k` at most `h` and within `k` of it, on the same date and zone; `k == 0` raises ZeroDivisionError |
| DateTimes.SlotHour | src/utils/datetime_helpers.py:22-24 | `(h // k) * k` is a multiple of `k` within `k` of `h`, on the side given by the sign of `k`, and not negative for a non-negative hour and a positive `k` |
| DateTimes.RoundToHourSlotsNegative | src/utils/datetime_helpers.py:22-24 | a negative slot width can push the hour past 23, and `replace` raises ValueError |
| DateTimes.RoundToHourSlotsIdempotent | src/utils/datetime_helpers.py:18-24 | slotting an already slotted datetime keeps it |
| DateTimes.DayWrappingDatetimes | src/utils/datetime_helpers.py:27-38 | midnight of the day and midnight of the next day, both in the day's zone, exactly one day apart, with `first <= day < second`; overflows only on the last representable day |
| DateTimes.DayWindowsAbut | src/utils/datetime_helpers.py:35-38 | the second datetime of day `d`'s window is the first datetime of day `d+1`'s window |
| DateTimes.RoundToNearestHour | lib/utils/datetime_helpers.py:6-9 | minute < 30 floors, minute >= 30 floors and adds an hour; the result is on the hour, in the same zone and within 30 minutes of the input |
| DateTimes.RoundToNearestHourRollover | lib/utils/datetime_helpers.py:8-9 | 23:30 or later rounds to midnight of the next day |
| DateTimes.RoundToNearestHourSlots | lib/utils/datetime_helpers.py:11-15 | the slot is taken from the half-up rounded hour and is a multiple of the slot width; width 0 raises ZeroDivisionError |
| DateTimes.HalfPastFiveSlot | lib/utils/datetime_helpers.py:11-15 | 05:30 lands in the 06:00 six-hour slot, where the flooring helper of src/utils/datetime_helpers.py gives 00:00 |
| DateTimes.ZeroPad | src/twitter_data/firestorm_overview.py:29 | the text is all decimal digits and reads back as `n`; a number below `10^w` takes exactly `w` characters |
| DateTimes.IsoFormat | src/twitter_data/firestorm_overview.py:29 | `isoformat()` has 19 characters for a whole-second naive datetime, with `-`, `T` and `:` at their fixed positions |
| DateTimes.ClockText | src/twitter_data/firestorm_overview.py:29 | `YYYY-MM-DDTHH:MM:SS` is 19 characters whose six fields read back as the year, month, day, hour, minute and second |
| DateTimes.FracText | src/twitter_data/firestorm_overview.py:29 | nothing when the microseconds are zero, else `.` and six digits reading back as the microseconds |
| DateTimes.ZoneText | src/twitter_data/firestorm_overview.py:29 | nothing for a naive datetime; for an offset within a day, a sign that is `-` exactly for a negative offset, then hours, `:` and minutes below 60 that read back as the offset |
| DateTimes.IsoFormatFields | src/twitter_data/firestorm_overview.py:29 | the text's year, month, day, hour, minute and second fields read back as those of the datetime; `.ffffff` is present exactly when there are microseconds and reads back as them; an aware datetime ends with its offset |
| DateTimes.IsoFormatInjective | src/twitter_data/firestorm_overview.py:29 | different datetimes give different `isoformat()` texts |
| PyStrings.LeadingZeros | src/twitter_data/firestorm_overview.py:29 | zeros in front of a run of digits do not change the number it denotes |
| DateTimes.HourOrdinal | src/utils/datetime_helpers.py:13-15 | the number of the hour a datetime falls in: its hour start is at or before it and the next one after; the day and the hour of day are read back from it |
| Filters.Apply | src/twitter_data/filters.py:1-14 | `tweets[mask]` keeps exactly the rows the mask holds for (`== expected`, or `lower <= x < upper`), in their original order, as a subsequence of the input |
| Filters.ApplyAll | src/twitter_data/tweets.py:21-23 | the filters one after another never add rows, and keep exactly the input's rows that every filter keeps |
| Filters.ApplyCounts | src/twitter_data/filters.py:3-12 | every copy of a kept row survives and every copy of a dropped row is gone |
| Filters.FilterIdempotent | src/twitter_data/filters.py:3-12 | applying a filter to its own output changes nothing |
| Filters.ApplyKeepsAll | src/twitter_data/filters.py:3-12 | a filter whose mask holds on every row returns the frame unchanged |
| Filters.ApplyKeepsNone | src/twitter_data/filters.py:3-12 | a filter whose mask holds on no row returns an empty frame |
| Filters.BetweenEmpty | src/twitter_data/filters.py:11 | a between filter with `lower >= upper` returns no rows |
| Filters.FiltersCommute | src/twitter_data/filters.py:17-23 | two filters applied in either order give the same rows in the same order |
| Filters.TimeBound | src/twitter_data/filters.py:20 | the bound is read from the query dict; a missing key or a non-datetime value is an error |
| Filters.DefaultFilters | src/twitter_data/filters.py:17-23 | exactly two filters: `created_at` in `[true_start_date, true_end_date)`, then `lang == "de"`; a missing start date raises KeyError |
| Filters.DefaultFiltersSelect | src/twitter_data/filters.py:17-23 | the default chain keeps exactly the German tweets created in the window, and either order of the two filters gives the same rows |
| Filters.ApplyAllPair | src/twitter_data/tweets.py:20-23 | a chain of two filters applies the second to the first one's output |
| Filters.GermanInRange | src/twitter_data/filters.py:17-23 | membership after the language filter and then the time range |
| Filters.KeepsLang | src/twitter_data/filters.py:22 | the equality filter on `lang` keeps exactly the rows in that language |
| FirestormTweets.Categorize | src/twitter_data/tweets.py:108-111 | the categorical cast keeps a value that is one of the levels and turns any other value into a missing cell |
| FirestormTweets.Preprocess | src/twitter_data/tweets.py:95-111 | `hour` is the hour the creation time falls in, `six_hour_slot` the six-hour slot start on the same day, the categorical columns are cast and the other columns kept |
| FirestormTweets.PreprocessAll | src/twitter_data/tweets.py:73-115 | preprocessing works row by row and keeps the number and order of rows |
| FirestormTweets.Group | src/twitter_data/tweets.py:182-184 | a group of `groupby(grouping_var)` holds exactly the tweets with that grouping value |
| FirestormTweets.GroupIsMask | src/twitter_data/tweets.py:182-184 | the group is the boolean mask `df[grouping_var == h]`, in frame order |
| FirestormTweets.Ratio | src/twitter_data/tweets.py:190-197 | a count divided by a larger or equal positive count lies in [0, 1], is 1 for equal counts and 0 for a zero count |
| FirestormTweets.Rate | src/twitter_data/tweets.py:187-193 | the share `count(var == value) / len(group)`, 0 when the value is absent, always in [0, 1] |
| FirestormTweets.Rates | src/twitter_data/tweets.py:187-193 | one share per requested rate column |
| FirestormTweets.Zeros | src/twitter_data/tweets.py:177-179 | the zero-filled rate cells of a fresh row |
| FirestormTweets.MinKey | src/twitter_data/tweets.py:163 | the smallest grouping value that occurs |
| FirestormTweets.MaxKey | src/twitter_data/tweets.py:164 | the largest grouping value that occurs |
| FirestormTweets.IndexCoversKeys | src/twitter_data/tweets.py:163-167 | every grouping value lies between the first and the last index label |
| FirestormTweets.RateTableUnique | src/twitter_data/tweets.py:161-201 | the table is determined by the tweets, the grouping and the rate columns |
| FirestormTweets.TableCoversTweets | src/twitter_data/tweets.py:163-186 | every tweet's grouping value is one of the table's hours |
| FirestormTweets.TableSpansWholeDays | src/twitter_data/tweets.py:163-167 | the index starts at a midnight and ends at 23:00, unless the last grouping value is itself a midnight and `.at` appends that one hour |
| FirestormTweets.EmptyHoursAreZero | src/twitter_data/tweets.py:171-179 | an hour without tweets keeps `total_tweets == 0`, `total_tweets_pct == 0` and every share 0 |
| FirestormTweets.SharesAreFractions | src/twitter_data/tweets.py:184-198 | every share and every `total_tweets_pct` lies in [0, 1], and some hour has `total_tweets_pct == 1` |
| FirestormTweets.TableSorted | src/twitter_data/tweets.py:167-201 | the rows are in strictly ascending hour order, each hour once |
| FirestormTweets.SixHourRowsOffSlotEmpty | src/twitter_data/tweets.py:163-167 | grouped by six-hour slot the index is still hourly, so a row off a slot start holds no tweets |
| FirestormTweets.KeySet | src/twitter_data/tweets.py:182 | the set of grouping values that occur |
| FirestormTweets.ZeroTable | src/twitter_data/tweets.py:163-179 | the index is laid out and preset to zero, which is already the final row for every hour without tweets |
| FirestormTweets.CountTable | src/twitter_data/tweets.py:182-193 | after the group loop every row holds its group's size and shares over the full index |
| FirestormTweets.SomeRowNonEmpty | src/twitter_data/tweets.py:184-186 | a non-empty frame puts at least one tweet into some row |
| FirestormTweets.RescaleKeepsCounts | src/twitter_data/tweets.py:196-198 | writing `total_tweets_pct` leaves the index, the counts and the shares unchanged |
| FirestormTweets.NormalizeTotals | src/twitter_data/tweets.py:196-198 | `total_tweets_pct = total_tweets / max(total_tweets)`: a busiest row is found and every other column is kept |
| FirestormTweets.GroupRow | src/twitter_data/tweets.py:185-193 | the row of a non-empty group holds its size and the share of every rate column |
| FirestormTweets.GroupEmptyOutsideKeys | src/twitter_data/tweets.py:176-179 | an hour no tweet falls into has an empty group and zero shares |
| FirestormTweets.FilterLogShape | src/twitter_data/tweets.py:17-23 | the filter log has one entry more than there are filters, starts with the unfiltered count, ends with the final count and never increases |
| FirestormTweets.LogNonIncreasing | src/twitter_data/tweets.py:20-23 | no entry of the filter log exceeds the unfiltered count |
| FirestormTweets.FilterLogNext | src/twitter_data/tweets.py:17-23 | one more filter applies to the previous output and logs its count |
| FirestormTweets.FilterLog | src/twitter_data/tweets.py:17-23 | one count more than there are filters, the first the input's length, and each count at most the one before |
| FirestormTweets.RatioScales | src/twitter_data/tweets.py:190-197 | a share times its denominator is the count, and its complement times it the rest |
| FirestormTweets.RatioBetween | src/twitter_data/tweets.py:190-197 | a positive count below its denominator gives a share strictly between 0 and 1 |
| FirestormTweets.SlotOrdinal | src/twitter_data/tweets.py:98-101 | the six-hour slot start is a multiple of six, on the same day, within six hours before the hour |
| FirestormTweets.DayBounds | src/twitter_data/tweets.py:163-167 | the index starts at a midnight not after its end, and ends at 23:00 unless the last value itself is the end |
| FirestormTweets.WriteGroupRow | src/twitter_data/tweets.py:184-193 | writing a group's row keeps the index and marks that hour as counted |
| FirestormTweets.Tweets.constructor | src/twitter_data/tweets.py:17-23 | the rows are preprocessed, each filter is applied to the previous filter's output and the count after each step is logged |
| FirestormTweets.Tweets.MetricsPerTimeInterval | src/twitter_data/tweets.py:117-201 | the result is the dense rate table (default rate columns when none are given); an empty frame raises ValueError |
| FirestormTweets.Tweets.HourwiseMetrics | src/twitter_data/tweets.py:55-59 | the hourly table is computed once and cached; a second read returns the cached table |
| FirestormTweets.Tweets.SixHourwiseMetrics | src/twitter_data/tweets.py:61-67 | the six-hour table is computed once and cached; a second read returns the cached table |
| FirestormTweets.Tweets.Metadata | src/twitter_data/tweets.py:208-225 | the fractions handed to `float_to_pct`: `1 - log[-1]/log[0]` in [0, 1] and `True/(True+False)` over the labelled tweets; an empty unfiltered frame divides by zero, a missing label is a KeyError |
| LibTweets.SortedHours | lib/twitter_data/tweets.py:128-135 | the distinct observed hours, strictly ascending, each once |
| LibTweets.MaxCount | lib/twitter_data/tweets.py:145 | the largest group size over the observed hours, attained by one of them |
| LibTweets.HourGroupNonEmpty | lib/twitter_data/tweets.py:128-134 | every hour of the index has at least one tweet |
| LibTweets.RawCells | lib/twitter_data/tweets.py:136-141 | the row of one group before normalisation: the group size under `total_tweets`, `count/total` under every rate column |
| LibTweets.RatesPerHour | lib/twitter_data/tweets.py:96-148 | the sparse table over the observed hours, with `total_tweets` divided by its maximum; a rate whose value is not a label of `value_counts` raises KeyError |
| LibTweets.RawTable | lib/twitter_data/tweets.py:134-141 | the group loop writes one raw row per observed hour in ascending order, and stops exactly when some cell raises |
| LibTweets.GroupCells | lib/twitter_data/tweets.py:136-141 | the cells of one group, or a KeyError exactly when one of them has no `value_counts` label |
| LibTweets.Busiest | lib/twitter_data/tweets.py:145 | `output_df['total_tweets'].max()` is an upper bound of the counts and one of them |
| LibTweets.MaxOfCounts | lib/twitter_data/tweets.py:145 | the largest raw count is the largest group size |
| LibTweets.NormalizedTable | lib/twitter_data/tweets.py:143-148 | dividing the `total_tweets` cells of the raw rows by the largest group size gives the sparse table |
| LibTweets.NormalizedRow | lib/twitter_data/tweets.py:145 | one raw row with its `total_tweets` cell divided by the busiest count |
| LibTweets.Normalized | lib/twitter_data/tweets.py:143-145 | only the `total_tweets` cells change; the hour and the number of cells are kept |
| LibTweets.SparseIndexIsObservedHours | lib/twitter_data/tweets.py:128-148 | the index is exactly the observed hours, ascending, and no empty hour appears |
| LibTweets.SparseCellsAreFractions | lib/twitter_data/tweets.py:138-145 | every cell lies in [0, 1], and a `total_tweets` column holds 1 at the busiest hour |
| LibTweets.SparseTableComplete | lib/twitter_data/tweets.py:141 | a table that was built had no missing `value_counts` label |
| LibTweets.DefaultTableRaisesOnlyOnLevels | lib/twitter_data/tweets.py:111-141 | with the default columns, a non-empty frame raises exactly when `de` or `en` is not a level of the language column |
| LibTweets.SelectTimeRange | lib/preprocessing/preprocess_tweets_df.py:31-42 | exactly the rows with `start_point <= t < end_point`, as a subsequence of the input in its order |
| LibTweets.SelectInvertedEmpty | lib/preprocessing/preprocess_tweets_df.py:42 | `start_point >= end_point` selects nothing |
| LibTweets.SelectEverything | lib/preprocessing/preprocess_tweets_df.py:42 | a range that holds every row selects the whole frame |
| LibTweets.SelectAdjacent | lib/preprocessing/preprocess_tweets_df.py:31-42 | adjacent ranges `[a,b)` and `[b,c)` share no row and together have as many rows as `[a,c)` |
| LibTweets.SelectTimeRangeOf | lib/twitter_data/tweets.py:31-55 | tz information on either bound is dropped with one warning each, then exactly the rows in the half-open range are kept, in an object of the caller's own class |
| LibTweets.SelectTweetsInTimeRange | lib/twitter_data/tweets.py:58-63 | the same half-open rule, always building a plain `Tweets`; a tz-aware bound cannot be compared with the naive column and raises TypeError |
| LibTweets.NewTweets | lib/twitter_data/tweets.py:10-12 | the table is computed eagerly, so a frame is built exactly when its table has no missing label |
| LibTweets.SubsetTableBuilds | lib/twitter_data/tweets.py:135-141 | a selection out of a frame that could be built can itself be built, as its language levels are inherited |
| LibTweets.PreprocessRow | lib/twitter_data/tweets.py:79-80 | `hour` is the half-up rounded creation time, within 30 minutes of it; the other columns are kept |
| LibTweets.PreprocessRows | lib/twitter_data/tweets.py:65-94 | preprocessing works row by row and keeps the number and order of rows |
| LibTweets.LangLevels | lib/twitter_data/tweets.py:91-92 | the levels of `astype("category")` are the distinct languages the frame holds |
| LibTweets.FromRaw | lib/twitter_data/tweets.py:78-84 | a row whose rounding overflows leaves the frame without `hour` and grouping raises KeyError; otherwise the frame is built exactly when its table has no missing label |
| LibTweets.FromRawNeedsGermanAndEnglish | lib/twitter_data/tweets.py:91-124 | a non-empty raw frame builds exactly when it holds a German and an English tweet |
| Ordering.PositionOrder | lib/twitter_data/tweets.py:148 | in the ascending index a smaller hour sits at an earlier position |
| Ordering.Insert | lib/twitter_data/tweets.py:128-148 | adding an hour to the sorted distinct index keeps it sorted and distinct, with exactly the old hours and the new one |
| LibPhases.BreakpointHours | lib/twitter_data/tweets_in_phases.py:51-52 | each change point `b` names the index entry at `b - 1`; the hours keep their order and the last one is the last hour of the index |
| LibPhases.MinHour | lib/twitter_data/tweets_in_phases.py:66 | `tweets["hour"].min()` is an hour of some tweet and at most every tweet's hour |
| LibPhases.MaxHour | lib/twitter_data/tweets_in_phases.py:68 | `tweets["hour"].max()` is an hour of some tweet and at least every tweet's hour |
| LibPhases.HourScale | lib/twitter_data/tweets_in_phases.py:72-73 | comparing hour values as instants keeps their order |
| LibPhases.Phase | lib/twitter_data/tweets_in_phases.py:71-76 | a phase holds exactly the tweets with `lo <= hour < hi`, in the frame's order |
| LibPhases.Wrapped | lib/twitter_data/tweets_in_phases.py:65-69 | the bounds are the first hour, the remaining breakpoints, then the last hour |
| LibPhases.WrappedOrdered | lib/twitter_data/tweets_in_phases.py:51-69 | with Pelt's increasing positions the wrapped bounds never go down |
| LibPhases.PhasesDisjoint | lib/twitter_data/tweets_in_phases.py:71-76 | phases over non-decreasing bounds share no tweet |
| LibPhases.SegmentOf | lib/twitter_data/tweets_in_phases.py:71-76 | an hour between the first and the last bound falls in some phase's range |
| LibPhases.PhasesCover | lib/twitter_data/tweets_in_phases.py:68-76 | a tweet is in some phase exactly when its hour lies in `[min hour, max hour)` |
| LibPhases.PhaseSizes | lib/twitter_data/tweets_in_phases.py:71-76 | with bounds in order, the first `k` phases together hold as many tweets as the range from the first to the `k`-th bound |
| LibPhases.AdjacentWhenOrdered | lib/twitter_data/tweets_in_phases.py:71-76 | with bounds in order, the range up to one bound and the next phase make up the range up to the next bound |
| LibPhases.ThroughLastOrdered | lib/twitter_data/tweets_in_phases.py:65-69 | closing the last range one hour later keeps the bounds in order |
| LibPhases.PhaseAdjacent | lib/twitter_data/tweets_in_phases.py:71-76 | two adjacent hour ranges split the range they make up |
| LibPhases.LastHourInNoPhase | lib/twitter_data/tweets_in_phases.py:68-76 | a tweet of the maximal hour lies in no phase |
| LibPhases.WrappedThroughLast | lib/twitter_data/tweets_in_phases.py:65-69 | the corrected bounds end one hour after the last hour |
| LibPhases.PhasesThroughLastPartition | lib/twitter_data/tweets_in_phases.py:65-76 | with the corrected bounds every tweet is in some phase and the phase sizes add up to the frame's length |
| LibPhases.IndexEnds | lib/twitter_data/tweets_in_phases.py:66-68 | the ends of the hourly index are the minimal and the maximal hour |
| LibPhases.BuildPhases | lib/twitter_data/tweets_in_phases.py:71-76 | one frame per pair of consecutive bounds, each holding its phase's tweets, and each can be built |
| LibPhases.BuiltFrameIndex | lib/twitter_data/tweets_in_phases.py:51-52 | the change points of a built frame index its observed hours, and such a frame has tweets |
| LibPhases.TweetsInPhases.constructor | lib/twitter_data/tweets_in_phases.py:8-22 | the breakpoints are the change points mapped to hours with the last one popped, and there are as many phases as change points |
| LibPhases.TweetsInPhases.SplitAtBreakpoints | lib/twitter_data/tweets_in_phases.py:54-76 | the stored breakpoint list loses its last entry, and the phases are the selections between consecutive wrapped bounds |
| LibPhases.TweetsInPhases.Length | lib/twitter_data/tweets_in_phases.py:24-25 | `len` is the number of phases, one more than the stored breakpoints |
| ActivityWindow.MaxTotal | src/ts_analysis/pruning_raw_firestorm.py:24 | the peak hourly count: an upper bound of every row's count and attained by one row |
| ActivityWindow.Threshold | src/ts_analysis/pruning_raw_firestorm.py:17-25 | `max(100, 0.2 * peak)`: never below 100, never below 20% of the peak, and equal to one of the two |
| ActivityWindow.Days | src/ts_analysis/pruning_raw_firestorm.py:36 | the days of `groupby(lambda x: x.date)`, ascending, exactly the days that have rows |
| ActivityWindow.DayMonotone | src/ts_analysis/pruning_raw_firestorm.py:36 | a later hour never falls on an earlier day |
| ActivityWindow.DayRows | src/aggregating/pruning_raw_firestorm.py:31-57 | `get_group(day)` holds exactly the rows of that day |
| ActivityWindow.DayRowsIncreasing | src/aggregating/pruning_raw_firestorm.py:51-57 | a day's rows keep the index order |
| ActivityWindow.PrependIncreasing | src/aggregating/pruning_raw_firestorm.py:31 | a row earlier than every row of an ascending group keeps it ascending when put in front |
| ActivityWindow.DayPeaks | src/ts_analysis/pruning_raw_firestorm.py:41 | each day's peak is `max(df_group["total_tweets"])` of that day's rows |
| ActivityWindow.Active | src/ts_analysis/pruning_raw_firestorm.py:43-47 | a day is active exactly when its peak reaches the threshold |
| ActivityWindow.FirstAt | src/ts_analysis/pruning_raw_firestorm.py:40-50 | the first position from `from` on holding the wanted flag, every earlier one holding the other |
| ActivityWindow.FirstReachingIndex | src/ts_analysis/pruning_raw_firestorm.py:56-59 | the first row of a day reaching the threshold, every earlier row below it |
| ActivityWindow.LastReachingIndex | src/ts_analysis/pruning_raw_firestorm.py:62-66 | the last row of a day reaching the threshold, every later row below it |
| ActivityWindow.ActiveSpan | src/ts_analysis/pruning_raw_firestorm.py:37-50 | `(None, None)` exactly when no day is active; otherwise the first active day and the run of active days up to the day before the first inactive one; KeyError when the run never ends |
| ActivityWindow.SpanFromDays | src/ts_analysis/pruning_raw_firestorm.py:45-50 | the end day is the day before the first inactive day after the start |
| ActivityWindow.SpanByPositions | src/aggregating/pruning_raw_firestorm.py:32-48 | no active day gives `(None, None)`; a run that never ends, or an end day without rows, raises KeyError |
| ActivityWindow.WrappingDatetimes | src/aggregating/pruning_raw_firestorm.py:23-64 | the three loops compute the window the specification `WindowOf` defines, error cases included |
| ActivityWindow.WindowFromPeaks | src/aggregating/pruning_raw_firestorm.py:33-64 | the day loop and the two hour loops give the window of the given days and peaks |
| ActivityWindow.ScanDays | src/aggregating/pruning_raw_firestorm.py:33-45 | `start_date` is the first active day; `end_date` the day before the first inactive day after it, `None` when there is none |
| ActivityWindow.FirstReaching | src/aggregating/pruning_raw_firestorm.py:50-54 | the loop stops at the first hour of the start day reaching the threshold |
| ActivityWindow.LastReaching | src/aggregating/pruning_raw_firestorm.py:56-62 | every reaching hour of the end day overwrites the end, so the end is one hour after the last one |
| ActivityWindow.RowWithinPeak | src/ts_analysis/pruning_raw_firestorm.py:41 | no row of a day exceeds that day's peak |
| ActivityWindow.ActiveDayReaches | src/ts_analysis/pruning_raw_firestorm.py:55-66 | an active day has a first and a last hour reaching the threshold |
| ActivityWindow.GroupReaches | src/ts_analysis/pruning_raw_firestorm.py:56-66 | a group whose peak reaches the threshold has a first and a last reaching hour |
| ActivityWindow.SomeDayActiveIffBusy | src/ts_analysis/pruning_raw_firestorm.py:17-44 | some day is active exactly when some hour has at least 100 tweets |
| ActivityWindow.QuietIffNoWindow | src/ts_analysis/pruning_raw_firestorm.py:52-53 | the result is `(None, None)` exactly when every hourly count is below 100 |
| ActivityWindow.BusyDayActive | src/ts_analysis/pruning_raw_firestorm.py:17-44 | an hour with at least 100 tweets makes some day active |
| ActivityWindow.ActiveDayBusy | src/ts_analysis/pruning_raw_firestorm.py:17-44 | an active day has an hour with at least 100 tweets |
| ActivityWindow.GaplessSpan | src/aggregating/pruning_raw_firestorm.py:32-56 | on consecutive days the span raises exactly when the active run reaches the last day |
| ActivityWindow.WindowFromNone | src/ts_analysis/pruning_raw_firestorm.py:52-53 | the window is `(None, None)` exactly when no day is active |
| ActivityWindow.WindowFromQuiet | src/ts_analysis/pruning_raw_firestorm.py:52-53 | without an active day the window is `(None, None)` |
| ActivityWindow.WindowFromUnended | src/aggregating/pruning_raw_firestorm.py:32-56 | a run that never ends, or an end day without rows, raises KeyError |
| ActivityWindow.WindowFromFound | src/ts_analysis/pruning_raw_firestorm.py:55-69 | otherwise the window is the first reaching hour of the start day and the hour after the last reaching hour of the end day |
| ActivityWindow.NeverSubsidingRaises | src/ts_analysis/pruning_raw_firestorm.py:37-62 | when every day from the start day on is active, `end_date` stays `None` and the lookup raises KeyError |
| ActivityWindow.ConsecutiveDays | src/twitter_data/tweets.py:163-167 | on an index without gaps the days are consecutive |
| ActivityWindow.DenseTableRaisesOnlyWhenNeverSubsiding | src/aggregating/pruning_raw_firestorm.py:32-56 | on the dense hourly table detection raises exactly when the burst never falls back below the threshold |
| ActivityWindow.DenseTableConsecutive | src/twitter_data/tweets.py:163-167 | the dense table is a non-empty ascending run of consecutive hours |
| ActivityWindow.GaplessRaisesOnlyWhenNeverSubsiding | src/aggregating/pruning_raw_firestorm.py:32-56 | on consecutive hours detection raises exactly when the burst never falls back below the threshold |
| ActivityWindow.EndDayActive | src/ts_analysis/pruning_raw_firestorm.py:45-50 | the end day lies after the start day and is itself active |
| ActivityWindow.NothingBeforeStart | src/ts_analysis/pruning_raw_firestorm.py:40-59 | no hour before the window's start reaches the threshold |
| ActivityWindow.BeforeFirstInGroup | src/ts_analysis/pruning_raw_firestorm.py:56-59 | within the start day, rows before the first reaching one stay below the threshold |
| ActivityWindow.WindowShape | src/ts_analysis/pruning_raw_firestorm.py:55-69 | a reported window has `start < end`; its start is the first hour of the table reaching the threshold and the hour before its end reaches it too |
| ActivityWindow.ShapeFromDays | src/ts_analysis/pruning_raw_firestorm.py:55-66 | the window over a run of active days starts before it ends, at reaching hours |
| ActivityWindow.FirstNotAfterLast | src/ts_analysis/pruning_raw_firestorm.py:55-66 | the first reaching hour of a day is not after the last reaching hour of the same or a later day |
| ActivityWindow.ReachedHourInRows | src/ts_analysis/pruning_raw_firestorm.py:56-66 | the first and last reaching hours of a day are hours of rows that reach the threshold |
| Series.Max | src/ts_analysis/timeseries.py:30 | `max(self._y)` bounds every entry and is one of them |
| Series.Scaled | src/ts_analysis/timeseries.py:31 | every entry divided by the maximum, the length kept |
| Series.Normalized | src/ts_analysis/timeseries.py:29-31 | an empty series makes `max` raise ValueError, a zero maximum raises ZeroDivisionError, otherwise every entry is divided by the maximum |
| Series.NormalizedMaxIsOne | src/twitter_data/timeseries.py:21-23 | with a positive maximum the normalised series has the same length, every entry at most 1, and exactly the entries equal to the maximum become 1 |
| Series.DivAtMostOne | src/twitter_data/timeseries.py:23 | an entry at most the positive maximum divides to at most 1, and to 1 exactly when it equals the maximum |
| Series.NormalizeIdempotent | src/ts_analysis/timeseries.py:29-31 | normalising a normalised series with a positive maximum changes nothing |
| Series.Positions | src/ts_analysis/timeseries.py:13 | `list(range(len(y)))` |
| Series.Timeseries.constructor | src/ts_analysis/timeseries.py:10-13 | `y` is the converted input; without `x` (or with an empty one) `x` is `0..n-1`, and with a non-empty `x` `_x` is never set |
| Series.Timeseries.Length | src/twitter_data/timeseries.py:10-11 | `len` is the number of values |
| Series.Timeseries.X | src/twitter_data/timeseries.py:13-15 | reading `x` when `_x` was never set raises AttributeError |
| Series.Timeseries.Normalize | src/twitter_data/timeseries.py:21-23 | `y` becomes the normalised series; on an empty series or a zero maximum the error is raised and `y` is unchanged |
| Series.Floats | src/ts_analysis/timeseries.py:11 | `float()` on every cell, failing exactly when some cell is rejected |
| Series.LoadFromCsv | src/ts_analysis/timeseries.py:58-81 | the loop's result is the fold of the rows: each row gives `(row[0], Timeseries(row[1:]))` in file order, a row without a trend is skipped, normalisation follows the trend step |
| Series.LoadedFailsEarly | src/ts_analysis/timeseries.py:64-79 | a failing row aborts the load: later rows are never read |
| Series.LoadedNext | src/ts_analysis/timeseries.py:64-79 | one more CSV row either aborts the load with its error or adds its entry (none when it has no trend) |
| Series.LoadedNames | src/ts_analysis/timeseries.py:64-79 | without trend or normalisation every row yields one entry, named by its first cell, holding the remaining cells, in file order |
| ConsecutiveRuns.Groups | src/hypotheses_testing/descriptive_stats.py:86-87 | the groups of a result holding no `None` |
| ConsecutiveRuns.RunsOf | src/hypotheses_testing/descriptive_stats.py:78-86 | the runs of a non-empty sequence; the last one is non-empty |
| ConsecutiveRuns.RunsOfSplit | src/hypotheses_testing/descriptive_stats.py:75-87 | the runs are non-empty, each element its predecessor + 1, no run continues into the next, and their concatenation is the input |
| ConsecutiveRuns.AreRunsInit | src/hypotheses_testing/descriptive_stats.py:83-85 | the runs before the last are runs, and the last continues none of them |
| ConsecutiveRuns.GroupConsecutiveNumbers | src/hypotheses_testing/descriptive_stats.py:75-87 | empty input gives `[None]`; otherwise the groups are exactly the maximal runs of the input |
| ConsecutiveRuns.ExtendRun | src/hypotheses_testing/descriptive_stats.py:81-82 | a run extended by the next integer is still a run |
| ConsecutiveRuns.CloseRun | src/hypotheses_testing/descriptive_stats.py:83-85 | a finished run appended after runs it does not continue keeps them runs |
| ConsecutiveRuns.RunsAppend | src/hypotheses_testing/descriptive_stats.py:78-85 | one more number extends the last run or starts a new one, and the runs still concatenate to the input |
| ConsecutiveRuns.AboveThreshold | src/hypotheses_testing/descriptive_stats.py:118 | exactly the `x` whose paired `y >= 0.2`, in order |
| ConsecutiveRuns.AboveThresholdAscending | src/hypotheses_testing/descriptive_stats.py:118-119 | over ascending positions the selection is ascending too |
| TsCorrelation.Aligned | src/ts_analysis/ts_correlation.py:8-25 | unequal lengths raise ValueError; for `lag >= 0` A[i] is paired with B[i+lag], for `lag < 0` A[i+abs(lag)] with B[i], both of length `n - abs(lag)` (0 when the lag exceeds the length) |
| TsCorrelation.AlignedNoLag | src/ts_analysis/ts_correlation.py:15-19 | lag 0 pairs the full series |
| TsCorrelation.AlignedSwap | src/ts_analysis/ts_correlation.py:20-25 | a negative lag is the positive one with the two series swapped |
| TsCorrelation.SignificanceMark | src/ts_analysis/ts_correlation.py:30-38 | "***" exactly for p < 0.001, "**" for 0.001 <= p < 0.01, "*" for 0.01 <= p < 0.05, "" otherwise |
| TsCorrelation.MarksNonIncreasing | src/ts_analysis/ts_correlation.py:30-38 | a larger p-value never earns more stars |
| HypothesesHelpers.TimeEpoch | src/hypotheses_testing/helpers.py:79-87 | "before" exactly when `entry < start`, "after" exactly when `start <= entry` and `end <= entry`, "peak" exactly when `start <= entry < end` |
| HypothesesHelpers.InvertedWindowHasNoPeak | src/hypotheses_testing/helpers.py:82-87 | with `start >= end` the epoch is never "peak" |
| HypothesesHelpers.LessThan | src/hypotheses_testing/helpers.py:82-84 | two datetimes compare when both are naive or both aware; anything else raises TypeError |
| HypothesesHelpers.TimeEpochFromQueries | src/hypotheses_testing/helpers.py:71-76 | the window is the firestorm's `true_start_date` and `true_end_date`; a missing firestorm raises, and the result is the epoch of the entry in that window |
| HypothesesHelpers.Without | src/hypotheses_testing/helpers.py:142 | the list without any copy of `y`, every other column kept as often as before |
| HypothesesHelpers.FormulaGenerator | src/hypotheses_testing/helpers.py:141-143 | the formula starts with `y ~ ` followed by the other columns joined by ` + ` |
| HypothesesHelpers.WithoutAbsent | src/hypotheses_testing/helpers.py:142 | with no column equal to `y` the column list is kept as it is |
| HypothesesHelpers.WithoutConcat | src/hypotheses_testing/helpers.py:142 | filtering out `y` works piecewise on a split column list, so the order of the other columns is kept |
| HypothesesHelpers.FormulaOverAllColumns | src/hypotheses_testing/helpers.py:141-143 | without `y` among the columns the formula is `y ~ ` and every column joined by ` + `, in order |
| HypothesesHelpers.FormulaIgnoresY | src/hypotheses_testing/helpers.py:142-143 | a copy of `y` anywhere among the columns leaves the formula unchanged |
| HypothesesHelpers.DummyName | src/hypotheses_testing/helpers.py:108-110 | a dummy column name has every ' ' and '-' replaced by '_', the length and other characters kept |
| HypothesesHelpers.DummyColumns | src/hypotheses_testing/helpers.py:105-116 | one renamed column per category, without the base value's column when one is given; a base value that is not a column raises KeyError |
| HypothesesHelpers.DummifyColumns | src/hypotheses_testing/helpers.py:99-126 | the variable's column is gone, every other column stays, every kept dummy column is added, and nothing else appears; a missing variable raises KeyError |
| LatexResults.ReplaceEach | src/hypotheses_testing/results_latex_parser.py:36-37 | renaming in dict order; a line holding none of the old terms is unchanged |
| LatexResults.Stars | src/hypotheses_testing/results_latex_parser.py:40-48 | "***" exactly for p < 0.001/12, "**", "*" and "†" for the next bands up to 0.1/12, nothing above; exactly one band applies |
| LatexResults.StarsMonotone | src/hypotheses_testing/results_latex_parser.py:40-48 | a smaller p-value never earns a weaker mark |
| LatexResults.PrettifyLine | src/hypotheses_testing/results_latex_parser.py:27-51 | a one-token line becomes that token, renamed; a longer line becomes its first five tokens joined by " & ", renamed and marked by the fifth token's p-value; fewer than five tokens raise IndexError, an unparsable p-value ValueError |
| LatexResults.PrettifiedEndsRow | src/hypotheses_testing/results_latex_parser.py:50 | every prettified line ends with the LaTeX row end |
| LatexResults.PrettifiedFailsEarly | src/hypotheses_testing/results_latex_parser.py:58-60 | once a line fails, the whole pass fails with that error |
| LatexResults.PrettifiedSkipsUnnamed | src/hypotheses_testing/results_latex_parser.py:19-59 | lines that name no renamed term and no firestorm are dropped, whatever they hold |
| LatexResults.Prettified | src/hypotheses_testing/results_latex_parser.py:54-60 | when the pass succeeds, every kept line could be prettified |
| LatexResults.PrettifyResults | src/hypotheses_testing/results_latex_parser.py:54-60 | the loop writes the prettified kept lines, in order, as the fold `Prettified` defines |
| LatexResults.CategoricalVarHeader | src/hypotheses_testing/results_latex_parser.py:63-72 | a header exactly for a line starting with one of the four first levels, else "" |
| LatexResults.HeaderOfFirstLevel | src/hypotheses_testing/results_latex_parser.py:64-71 | each of the four first levels gets its own header |
| LatexResults.FirstCharOf | src/hypotheses_testing/results_latex_parser.py:63-72 | a line starting with a prefix starts with the prefix's first character |
| LatexResults.Epilogue | src/hypotheses_testing/results_latex_parser.py:109-120 | the firestorm's name appears in both the caption and the label; `None` raises TypeError |
| LatexResults.SubstringIn | src/hypotheses_testing/results_latex_parser.py:116-117 | a text occurs in any concatenation around it |
| LatexResults.FsName | src/hypotheses_testing/results_latex_parser.py:85 | a title's name holds no `*` and no `\` |
| LatexResults.RemoveAllKeepsAbsent | src/hypotheses_testing/results_latex_parser.py:85 | removing one character brings back no other |
| LatexResults.CurrentFs | src/hypotheses_testing/results_latex_parser.py:79-85 | no firestorm is current exactly when no line so far holds a single token |
| LatexResults.CurrentIsLastTitle | src/hypotheses_testing/results_latex_parser.py:82-85 | the firestorm being written is the one the last title line named |
| LatexResults.LatexPassFailsIffNoTitle | src/hypotheses_testing/results_latex_parser.py:79-96 | the pass raises TypeError, from `epilogue(None)`, exactly when no line holds a single token (an empty file included) |
| LatexResults.LatexPassNamesLastTable | src/hypotheses_testing/results_latex_parser.py:96-116 | the last table written carries the name of the last title line |
| LatexResults.SubstringSuffix | src/hypotheses_testing/results_latex_parser.py:96 | a text in the last write is in the whole output |
| LatexResults.LatexPassLoop | src/hypotheses_testing/results_latex_parser.py:75-96 | the loop's writes are the fold `Written` plus the final epilogue, a title line closing the previous table only when its name is non-empty |
| LatexResults.Written | src/hypotheses_testing/results_latex_parser.py:80-94 | every line that is not a title line is written out whole |
| LatexResults.LatexPass | src/hypotheses_testing/results_latex_parser.py:75-96 | when the pass succeeds, every line that is not a title line is in the output |
| LatexResults.RowsExtend | src/hypotheses_testing/results_latex_parser.py:80-94 | one more write keeps the rows written so far, and a row line is kept when the write holds it |
| LatexResults.RowsKept | src/hypotheses_testing/results_latex_parser.py:80-94 | what is appended later never removes a row already written |
| LatexResults.RowBlockEndsWithLine | src/hypotheses_testing/results_latex_parser.py:90-94 | the writes for a row end with the row's line itself |
| LatexResults.SubstringPrefix | src/hypotheses_testing/results_latex_parser.py:80-96 | text already written stays a part of the file as more is appended |
| LatexResults.WriteTitle | src/hypotheses_testing/results_latex_parser.py:85-88 | a title line writes the name comment, the section header and the preamble |
| LatexResults.WriteRow | src/hypotheses_testing/results_latex_parser.py:90-94 | a row line writes its header, a tab, an indent unless it is the intercept, then the line |
| Classifiers.ContainsUrl | src/discourse_style_metrics/discourse_stlye_metrics.py:1-7 | a tweet without `entities` raises the look-up's error; otherwise true exactly when `entities` has a `urls` key |
| Classifiers.First | lib/preprocessing/tweet_type.py:13 | `refs[0]` on a non-empty list is its first item; a dict raises KeyError, a number or bool TypeError |
| Classifiers.ReferenceLabel | lib/preprocessing/tweet_type.py:15-22 | succeeds exactly for `quoted`, `retweeted`, `replied_to`, mapped to "retweet with comment", "retweet without comment", "reply"; any other type raises |
| Classifiers.TweetType | lib/preprocessing/tweet_type.py:2-22 | "original tweet" exactly when `referenced_tweets` is present and falsy; for a non-empty list the label of the first reference's `type`; a missing key raises |
| Classifiers.TweetTypeFirstReferenceOnly | lib/preprocessing/tweet_type.py:12-13 | two tweets whose first references agree get the same type, whatever follows |
| Classifiers.TweetTypeLabels | src/discourse_style_metrics/discourse_stlye_metrics.py:24-48 | a tweet typed without error gets one of the four labels |
| Classifiers.UserTypeIn | src/analysis/analysis_helpers.py:54-62 | "hyper-active" iff in the hype group; "active" iff not there and in the active group; "laggard" iff only in the laggard group; raises iff in none |
| Classifiers.UserType | lib/preprocessing/user_type.py:3-12 | with the author and the three group keys present, the same ordered look-up as with the groups passed separately; a missing `author_id` raises its error |
| Classifiers.HyperActiveNeedsOnlyItsGroup | src/discourse_style_metrics/discourse_stlye_metrics.py:10-12 | an author in `hyper_active_users` is "hyper-active" even when the other group keys are missing |
| Classifiers.SentimentCategory | lib/preprocessing/tweet_sentiment.py:9-23 | "negative" iff score < low cut-off, "neutral" iff low <= score < high, "positive" iff score >= both |
| Classifiers.CrossedCutoffsNeverNeutral | src/analysis/analysis_helpers.py:24-28 | with the high cut-off at or below the low one no score is neutral |
| Classifiers.SentimentMonotone | src/analysis/analysis_helpers.py:14-28 | a higher score is never in a lower band: positive stays positive upward, negative stays negative downward |
| Hashtags.FirstHash | lib/utils/regex_helpers.py:12 | the position of the first '#': no '#' before it, a '#' at it unless it is the length |
| Hashtags.RemoveFirstHash | lib/utils/regex_helpers.py:12 | the result is at most one character shorter, and it equals the input exactly when the input holds no '#' |
| Hashtags.RemoveFirstHashEffect | lib/utils/regex_helpers.py:12 | a string without '#' is unchanged; otherwise the '#' at the first position holding one is removed, the characters before and after it kept in order, so the string is one character shorter and loses exactly one '#' |
| Hashtags.NotIdempotent | lib/utils/regex_helpers.py:12 | only the first '#' goes per call: "##a" becomes "#a", and a second call gives "a" |
| Hashtags.RemoveLeadingHashtag | lib/utils/regex_helpers.py:5-12 | same number of hashtags in the same order, each one with its first '#' removed; each at most one character shorter, those without '#' unchanged |
| InterRater.OffenseVotes | src/discourse_style_metrics/inter_rater.py:33-35 | the number of "OFFENSE" labels is at most three |
| InterRater.Majority | src/discourse_style_metrics/inter_rater.py:33-37 | "OFFENSE" exactly when at least two of the three raters say "OFFENSE", otherwise "OTHER" |
| InterRater.MajoritySymmetric | src/discourse_style_metrics/inter_rater.py:35 | the vote is the same under any swap of raters |
| InterRater.AggregateLabels | src/discourse_style_metrics/inter_rater.py:31-39 | one label per row, in row order, each the majority vote of its row |
| UserGroups.DistinctAuthors | src/discourse_style_metrics/add_attributes_to_entries.py:61-63 | the group keys: strictly increasing, and exactly the authors of the tweets |
| UserGroups.ActivityCounts | src/discourse_style_metrics/add_attributes_to_entries.py:61-63 | one row per distinct author, in key order, each holding the number of that author's tweets |
| UserGroups.InsertByCount | src/discourse_style_metrics/add_attributes_to_entries.py:65-67 | inserting a row into a table ranked by descending count keeps it ranked, one longer, with the same rows plus the new one |
| UserGroups.InsertKeepsDistinct | src/discourse_style_metrics/add_attributes_to_entries.py:65-67 | inserting a row of a new author keeps the authors distinct |
| UserGroups.DistinctCons | src/discourse_style_metrics/add_attributes_to_entries.py:65-67 | a row whose author is in no other row keeps the authors distinct when put in front |
| UserGroups.RankByCount | lib/preprocessing/add_attributes_to_entries.py:43 | the ranked table has descending counts, the same length and the same rows |
| UserGroups.RankKeepsDistinct | lib/preprocessing/add_attributes_to_entries.py:43 | ranking keeps the authors distinct |
| UserGroups.AuthorsOf | src/discourse_style_metrics/add_attributes_to_entries.py:73 | the `author_id` column of a table slice, row by row |
| UserGroups.Ranked | src/discourse_style_metrics/add_attributes_to_entries.py:61-67 | one row per distinct author, ranked by descending count |
| UserGroups.CalculateUserGroups | src/discourse_style_metrics/add_attributes_to_entries.py:56-94 | with `n` distinct authors: `n // 100` hyper-active, `n // 10 - n // 100` active, `n - n // 10` lurking |
| UserGroups.RankedRows | lib/preprocessing/add_attributes_to_entries.py:41-43 | the ranked rows have distinct authors; a row is in the table iff its author wrote a tweet and its count is that author's number of tweets |
| UserGroups.AuthorsOfSlice | src/discourse_style_metrics/add_attributes_to_entries.py:69-87 | an author is in a slice's author list iff some row of the slice is theirs |
| UserGroups.AdjacentSlicesDisjoint | src/discourse_style_metrics/add_attributes_to_entries.py:69-87 | with distinct authors, no author is in two adjacent slices |
| UserGroups.RankedAuthor | lib/preprocessing/add_attributes_to_entries.py:41-43 | the authors of the ranked table are exactly the authors of the tweets |
| UserGroups.GroupsPartitionAuthors | lib/preprocessing/add_attributes_to_entries.py:45-53 | every author of a tweet is in exactly one of the three groups, and nobody else is in any |
| UserGroups.EarlierSliceCountsMore | src/discourse_style_metrics/add_attributes_to_entries.py:65-87 | in a table ranked by descending count, an author of an earlier slice has a row at least as high as an author of a later one |
| UserGroups.RankedSlicesOrdered | src/discourse_style_metrics/add_attributes_to_entries.py:65-87 | an author of an earlier slice of the ranked table wrote at least as many tweets as one of a later slice |
| UserGroups.RankedCount | src/discourse_style_metrics/add_attributes_to_entries.py:61-67 | each ranked row's count is its author's number of tweets |
| UserGroups.GroupsOrderedByActivity | src/discourse_style_metrics/add_attributes_to_entries.py:65-87 | every hyper-active author wrote at least as many tweets as every active one, and every active one at least as many as every lurking one |
| UserGroups.SmallFirestormGroups | src/discourse_style_metrics/add_attributes_to_entries.py:69-87 | under 100 authors nobody is hyper-active; under 10 nobody is active and everybody lurks |
| UserGroups.IntList | src/discourse_style_metrics/add_attributes_to_entries.py:70-74 | `list(...)` of the author ids: same length, each item the id |
| UserGroups.IntListIn | src/discourse_style_metrics/discourse_stlye_metrics.py:11 | membership of an author id in the group list is membership of the id in the group |
| UserGroups.UserTypeOfGroupedAuthor | src/discourse_style_metrics/add_attributes_to_entries.py:26-45 | every author of the firestorm is classified without error by `user_type` against the computed groups, with the label of the group they were ranked into |
| AddAttributes.RetweetedId | src/discourse_style_metrics/add_attributes_to_entries.py:112-122 | a found id is the `id` of a reference of type `retweeted`; with every reference typed and none retweeted the text is never bound (UnboundLocalError) |
| AddAttributes.RetweetText | src/discourse_style_metrics/add_attributes_to_entries.py:108-122 | a tweet without `referenced_tweets` raises KeyError; a text is found only when the references are a list holding a retweeted reference with an id |
| AddAttributes.DetermineOffensiveness | src/discourse_style_metrics/add_attributes_to_entries.py:97-130 | a tweet without `tweet_type` raises; without `lang` KeyError; not German gives None; a German result is a bool; for a German tweet that is not a plain retweet, the verdict on its text with line breaks replaced by `\|LBR\|` |
| AddAttributes.AttributeValue | src/discourse_style_metrics/add_attributes_to_entries.py:40-51 | any attribute other than the four known ones raises ValueError |
| AddAttributes.LibAttributeValue | lib/preprocessing/add_attributes_to_entries.py:25-32 | any attribute other than the three known ones raises ValueError |
| AddAttributes.TweetRunWritesNeeded | src/discourse_style_metrics/add_attributes_to_entries.py:38-53 | every write for a tweet is to that tweet, of a requested attribute that needed computing, with its computed value |
| AddAttributes.TweetRunWritesAllNeeded | src/discourse_style_metrics/add_attributes_to_entries.py:38-53 | without a failure, every requested attribute the tweet needed is written for it |
| AddAttributes.RunWritesAllNeeded | src/discourse_style_metrics/add_attributes_to_entries.py:34-53 | without a failure, every requested attribute every tweet needed is written for that tweet |
| AddAttributes.WrittenInEither | src/discourse_style_metrics/add_attributes_to_entries.py:34-53 | a write made for the earlier tweets or for the last one is among the run's writes |
| AddAttributes.LibWritesEveryAttribute | lib/preprocessing/add_attributes_to_entries.py:16-33 | without a failure, the older variant writes every requested attribute of every tweet, each write with the value computed for that tweet |
| AddAttributes.TweetRun | src/discourse_style_metrics/add_attributes_to_entries.py:38-53 | one tweet gets at most one write per requested attribute, each addressed to that tweet |
| AddAttributes.Run | src/discourse_style_metrics/add_attributes_to_entries.py:34-53 | every write is addressed to one of the tweets, and the writes come tweet by tweet in the tweets' order |
| AddAttributes.RunWritesOnlyNeeded | src/discourse_style_metrics/add_attributes_to_entries.py:34-53 | over all tweets, a write is only ever of a requested attribute the tweet lacked (or any when overwriting), with the value computed from the tweet as loaded |
| AddAttributes.TweetRunNothingNeeded | src/discourse_style_metrics/add_attributes_to_entries.py:39 | without overwrite, a tweet that has every requested attribute gets no write and raises nothing |
| AddAttributes.RunNothingNeeded | src/discourse_style_metrics/add_attributes_to_entries.py:34-39 | without overwrite, tweets that have every requested attribute get no write, even when an attribute is unknown |
| AddAttributes.UnknownAttributeRaises | src/discourse_style_metrics/add_attributes_to_entries.py:48-51 | an unknown attribute that needs computing raises ValueError before any write |
| AddAttributes.TweetRunAgrees | src/discourse_style_metrics/add_attributes_to_entries.py:38-53 | two computations agreeing on the requested attributes give the same writes and failure for a tweet |
| AddAttributes.RunAgrees | src/discourse_style_metrics/add_attributes_to_entries.py:34-53 | the same over all tweets |
| AddAttributes.LibIsOverwritingRun | lib/preprocessing/add_attributes_to_entries.py:16-33 | the older variant is the newer one with `overwrite` on, whenever offensiveness is not requested |
| AddAttributes.AddAttributesToTweets | src/discourse_style_metrics/add_attributes_to_entries.py:23-53 | the writes and failure are those of the run over the tweets, with the user groups computed from the tweets' authors; every write is of a requested attribute the tweet needed, with the value computed for it; without a failure every needed attribute of every tweet is written |
| AddAttributes.RunLoop | src/discourse_style_metrics/add_attributes_to_entries.py:34-38 | the outer loop gives the run's writes and failure |
| AddAttributes.TweetLoop | src/discourse_style_metrics/add_attributes_to_entries.py:38-53 | the inner loop gives one tweet's writes and failure |
| AddAttributes.TweetRunFailsEarly | src/discourse_style_metrics/add_attributes_to_entries.py:48-51 | once an attribute has raised, the later attributes change nothing |
| AddAttributes.RunFailsEarly | src/discourse_style_metrics/add_attributes_to_entries.py:34-53 | once a tweet has raised, the later tweets change nothing |
| SearchResponse.CatchKeyError | TwitterSearchResponse.py:16-19 | a value comes back wrapped, a KeyError becomes None, and every other exception propagates |
| SearchResponse.Meta | TwitterSearchResponse.py:15-19 | the response's `meta` entry, None when it is missing |
| SearchResponse.NextToken | lib/twitter_fetching/TwitterSearchResponse.py:27-32 | the token inside `meta`, None when `meta` lacks it; a missing or non-dict `meta` raises TypeError, which is not caught |
| SearchResponse.Media | TwitterSearchResponse.py:27-31 | `includes.media`, None when `includes` is missing or lacks `media`; a None `includes` raises TypeError |
| SearchResponse.Users | lib/twitter_fetching/TwitterSearchResponse.py:48-54 | `includes.users`, None when `includes` is missing or lacks `users`; a None `includes` raises TypeError |
| SearchResponse.Tweets | lib/twitter_fetching/TwitterSearchResponse.py:41-46 | the response's `data` entry, None when it is missing |
| SearchResponse.AttachOne | TwitterSearchResponse.py:46-49 | a tweet gets `media` set exactly when its `attachments.media_keys` holds the media key, and is otherwise unchanged; a tweet without `attachments` is untouched; a media object without a key raises when the tweet has media keys |
| SearchResponse.EachTweet | lib/twitter_fetching/TwitterSearchResponse.py:61-64 | a loop over the tweets updating each where it stands keeps their number; an empty list raises nothing |
| SearchResponse.AttachAll | TwitterSearchResponse.py:43-49 | the outer loop keeps the number of tweets |
| SearchResponse.AttachedResponse | TwitterSearchResponse.py:39-41 | with no media, or empty media, the response is unchanged and the tweets are returned; an error reading the media propagates |
| SearchResponse.EachTweetOk | TwitterSearchResponse.py:45-49 | without a failure the loop body ran on every tweet and each tweet is what the body made of it |
| SearchResponse.MatchesKept | lib/twitter_fetching/TwitterSearchResponse.py:62-64 | setting `media` does not change whether a later media object matches |
| SearchResponse.AttachStep | lib/twitter_fetching/TwitterSearchResponse.py:60-64 | one more media object either leaves a tweet as it was or sets its `media`, replacing an earlier match, with every other key unchanged |
| SearchResponse.AttachAllLastMatch | lib/twitter_fetching/TwitterSearchResponse.py:60-64 | without a failure every tweet holds the last media object whose key it lists, every other key unchanged; an unmatched tweet is untouched |
| SearchResponse.AttachedResponseLastMatch | TwitterSearchResponse.py:39-53 | with media and no failure, the response's `data` holds and returns the tweets, each with its last matching media object attached |
| SearchResponse.AttachAllStep | TwitterSearchResponse.py:43-44 | in the root variant a media object without a key raises before any tweet is looked at; otherwise the inner loop runs on the tweets as left |
| SearchResponse.AttachAllFailsEarly | lib/twitter_fetching/TwitterSearchResponse.py:60-64 | once a media object raises, the later ones are not looked at |
| SearchResponse.EachTweetFailsEarly | lib/twitter_fetching/TwitterSearchResponse.py:61-64 | once a tweet raises, the later tweets are left as they were |
| SearchResponse.Fill | TwitterSearchResponse.py:88-90 | after filling, the keys are the tweet's own plus the requested fields |
| SearchResponse.FillGet | lib/twitter_fetching/TwitterSearchResponse.py:106-108 | an existing value is kept, a missing requested field holds the empty string, and no other key appears |
| SearchResponse.FillFixed | lib/twitter_fetching/TwitterSearchResponse.py:106-108 | a tweet that has every requested field is left alone |
| SearchResponse.FieldsOf | TwitterSearchResponse.py:88 | the comma-split of `tweet.fields`; a missing entry raises its look-up error, a non-string AttributeError |
| SearchResponse.BufferTweet | lib/twitter_fetching/TwitterSearchResponse.py:106-111 | a dict tweet gets every requested field (and `media` in the lib variant); any other tweet raises |
| SearchResponse.EachTweetEntry | TwitterSearchResponse.py:45-49 | without a failure, tweet `i` is the body applied to the original tweet `i` |
| SearchResponse.BufferedResponse | TwitterSearchResponse.py:84-91 | an error reading the tweets propagates; missing tweets (None) raise TypeError |
| SearchResponse.BufferAllOk | TwitterSearchResponse.py:87-90 | without a failure the fields were read (if there was a tweet) and every tweet is `BufferTweet` of the original one |
| SearchResponse.BufferedTweetGet | lib/twitter_fetching/TwitterSearchResponse.py:102-112 | after buffering, each tweet keeps its old values, every requested field (and `media` in the lib variant) missing before holds "", nothing else is added, and the updated list is returned |
| SearchResponse.BufferedIdempotent | lib/twitter_fetching/TwitterSearchResponse.py:105-111 | buffering a second time changes nothing |
| SearchResponse.EachTweetFixed | lib/twitter_fetching/TwitterSearchResponse.py:105-111 | tweets the loop body leaves alone are left alone by the loop |
| SearchResponse.EachTweetNext | lib/twitter_fetching/TwitterSearchResponse.py:61-64 | one more tweet through the loop after no failure: the body's result is appended, or the tweet as it was with the exception |
| SearchResponse.EachTweetStops | lib/twitter_fetching/TwitterSearchResponse.py:61-64 | a tweet the body raises on ends the loop with the tweets as they stand and that exception |
| SearchResponse.EachTweetGoesOn | lib/twitter_fetching/TwitterSearchResponse.py:61-64 | a tweet the body succeeds on is replaced where it stands and the later tweets are untouched |
| SearchResponse.BufferBodyIs | TwitterSearchResponse.py:87-90 | the buffering body raises the error of reading the fields when they cannot be read, and otherwise buffers the tweet |
| SearchResponse.BufferedResponseOf | lib/twitter_fetching/TwitterSearchResponse.py:102-112 | on a response with a tweet list the loop's tweets are stored under `data` and returned unless it raised |
| SearchResponse.AttachedResponseData | TwitterSearchResponse.py:39-53 | with media and no failure the attach pass stores its tweets under `data` and returns them |
| SearchResponse.ListItemAt | TwitterSearchResponse.py:119-121 | a plain list element contributes one item keyed by the list's key, `_` and its index |
| SearchResponse.BufferAgainFixed | lib/twitter_fetching/TwitterSearchResponse.py:105-111 | a second buffering run over tweets already buffered leaves them alone and raises nothing |
| SearchResponse.TwitterSearchResponse.constructor | TwitterSearchResponse.py:11-13 | the object holds the response dict and the search parameters |
| SearchResponse.TwitterSearchResponse.AttachMediaToTweets | TwitterSearchResponse.py:39-53 | the response dict and the return value become those of the attach pass; the search parameters are unchanged |
| SearchResponse.TwitterSearchResponse.BufferMissingFields | lib/twitter_fetching/TwitterSearchResponse.py:102-112 | the response dict and the return value become those of the buffering pass; the search parameters are unchanged |
| SearchResponse.AttachLoop | TwitterSearchResponse.py:43-49 | the outer loop computes the outer fold |
| SearchResponse.AttachToTweetsLoop | lib/twitter_fetching/TwitterSearchResponse.py:61-64 | the inner loop over the tweets is `EachTweet` of attaching one media object |
| SearchResponse.BufferLoop | lib/twitter_fetching/TwitterSearchResponse.py:105-111 | the tweet loop is `EachTweet` of the buffering body, stopping at the first exception |
| SearchResponse.FillLoop | TwitterSearchResponse.py:88-90 | the field loop computes the fill of one tweet |
| SearchResponse.UpdateFresh | TwitterSearchResponse.py:124 | `dict(items)` over items with distinct keys keeps them in order |
| SearchResponse.DictItemsFlat | TwitterSearchResponse.py:115-123 | entries that are neither dicts nor lists are kept as they are, in order |
| SearchResponse.FlattenFlat | TwitterSearchResponse.py:103-124 | a dict without dict or list values comes back unchanged |
| SearchResponse.DictOfSingle | TwitterSearchResponse.py:121 | `dict([(k, v)])` is the one-entry dict |
| SearchResponse.FlattenNested | TwitterSearchResponse.py:115-118 | a dict of plain values with distinct keys nested under key `k` comes out as its own entries, in order, each key `k`, the separator and the inner key |
| SearchResponse.FlattenList | TwitterSearchResponse.py:119-121 | a list of plain values under key `k` comes out element by element, in order, keyed `k_0`, `k_1`, ...: joined with `_` whatever separator was passed |
| SearchResponse.FlattenLeaves | TwitterSearchResponse.py:103-124 | whatever the nesting, the flattened dict holds no dict or list value and its keys are distinct |
| SearchResponse.DictItemsLeaves | TwitterSearchResponse.py:114-123 | the items collected from a dict hold no dict or list value |
| SearchResponse.FlatPairLeaves | TwitterSearchResponse.py:117-123 | the items one entry contributes hold no dict or list value |
| SearchResponse.ListItemsLeaves | TwitterSearchResponse.py:119-121 | the items a list contributes hold no dict or list value |
| SearchResponse.DictItemsOfLeaves | TwitterSearchResponse.py:114-123 | the items of a dict of plain values are its entries, in order, each under its key joined to the parent |
| SearchResponse.ListItemsOfLeaves | TwitterSearchResponse.py:119-121 | the items of a list of plain values are its elements, in order, each under the list's key joined with `_` to its index |
| SearchResponse.NestedKeysUnique | TwitterSearchResponse.py:115-118 | distinct inner keys stay distinct once joined to the parent key |
| SearchResponse.ListKeysUnique | TwitterSearchResponse.py:119-121 | the items of a list of plain values have distinct keys |
| SearchResponse.NewKeyInjective | TwitterSearchResponse.py:116 | under one parent and separator, different keys give different joined keys |
| SearchResponse.NatToStringInjective | TwitterSearchResponse.py:121 | `str(k)` tells different indexes apart |
| SearchResponse.FlattenSingle | TwitterSearchResponse.py:114-124 | a one-entry dict flattens to `dict` of what its entry contributes |
| SearchResponse.DictOfUnique | TwitterSearchResponse.py:124 | `dict(items)` over items with distinct keys keeps them as they are, in order |
| SearchResponse.Flatten | TwitterSearchResponse.py:103-124 | every key of the flattened dict starts with the parent key |
| SearchResponse.DictItems | TwitterSearchResponse.py:114-123 | every collected key starts with the parent key |
| SearchResponse.FlatPair | TwitterSearchResponse.py:117-123 | every key an entry contributes starts with that entry's joined key |
| SearchResponse.ListItems | TwitterSearchResponse.py:119-121 | every key a list contributes starts with the list's key |
| SearchResponse.NewKeyUnder | TwitterSearchResponse.py:116 | a joined key starts with its parent |
| Queried.Default | src/db/queried.py:207-210 | fails exactly when the target is unset and the source key is missing (KeyError); an unset target takes the source's value; a set target leaves the configuration as it was |
| Queried.DefaultGet | lib/db/queried.py:45-48 | after one step the target holds the source's value if it was unset, else its own; every other key keeps its value; the keys gain at most the target |
| Queried.DefaultStable | lib/db/queried.py:45-48 | a step whose work is already done leaves the configuration as it is |
| Queried.FillTrueDatesEffect | src/db/queried.py:206-210 | with both data dates present nothing raises; an unset true date takes its data date, a set one is kept, every other key is unchanged |
| Queried.FillTrueDatesSetsBoth | src/db/queried.py:207-210 | with truthy data dates both true dates are set afterwards |
| Queried.FillTrueDatesIdempotent | lib/db/queried.py:44-48 | running the step again on its result changes nothing |
| Queried.FillTrueDates | src/db/queried.py:206-210 | a configuration that is not a dict raises TypeError, a dict can only raise KeyError, and without an exception both true dates are keys of the result |
| Queried.Pass | src/db/queried.py:206 | the loop over the table with any per-firestorm step keeps the firestorms' names in their order |
| Queried.PassEachEntry | src/db/queried.py:206-210 | without a failure every firestorm's configuration is the step applied to it |
| Queried.PassIdempotent | lib/db/queried.py:44-48 | running the whole pass twice leaves the table as one run did |
| Queried.PassFixed | src/db/queried.py:206-210 | a table every configuration of which the step leaves alone is left alone |
| Queried.QueryTable.constructor | src/db/queried.py:206 | the table holds the given firestorms |
| Queried.QueryTable.DefaultTrueDates | src/db/queried.py:206-210 | the table afterwards and the exception raised are those of the pass over the old table; firestorms after a failure are untouched |
| Queried.PassFailsEarly | lib/db/queried.py:44-48 | once a firestorm raises, the rest of the table is left alone |
| Queried.PassEntry | src/db/queried.py:206-210 | without a failure, firestorm `i`'s configuration is the step applied to its old one |
| Queried.PassNext | src/db/queried.py:206-210 | one more firestorm through the pass after no failure appends the step's result and its exception |
| RequestsBase.CreateParams | requests_base.py:34-63 | the dict is the query followed by each truthy optional argument under its own key, in argument order |
| RequestsBase.Params | requests_base.py:49-61 | the query comes first, and at most six keys are present |
| RequestsBase.ParamsGet | requests_base.py:49-61 | `query` always holds the query; each optional key holds its argument exactly when that argument is truthy; no other key exists |
| RequestsBase.AddOptional | requests_base.py:51-52 | one conditional insertion adds its key exactly when the value is truthy and changes no existing key |
| RequestsBase.ParamsUnique | requests_base.py:49-63 | no key appears twice in the dict |
| RequestsBase.AddOptionalUnique | requests_base.py:51-61 | an insertion under a new key keeps the keys distinct |
| RequestsBase.AddFresh | requests_base.py:49-61 | an insertion under a key not used so far keeps the keys distinct and adds at most that key |
| RequestsBase.CreateHeaders | requests_base.py:21-31 | exactly one `Authorization` entry: "Bearer " and the given token when it is non-empty, else the environment's token, printed as `None` when there is none |
| RequestsBase.GivenTokenWins | requests_base.py:28-29 | a given non-empty token is used whatever the environment holds |
| RequestsBase.NoTokenAnywhere | requests_base.py:28-30 | with no token anywhere the header is "Bearer None" |
| InsertJson.Classify | src/db/insert_json.py:55-61 | a line is of the newest, users or media kind exactly when its first eight characters are the marker; a shorter line is always a tweet line |
| InsertJson.Kept | src/db/insert_json.py:62-63 | the written lines are never more than the input lines |
| InsertJson.Count | src/db/insert_json.py:56-61 | a count of one kind never exceeds the number of lines |
| InsertJson.CleanJson | src/db/insert_json.py:43-65 | the lines written are the kept lines, and the report is `(newest, users, media)`, each the number of lines of that kind |
| InsertJson.CountsAddUp | src/db/insert_json.py:51-63 | the three counts plus the written lines make up the input |
| InsertJson.KeptIsFilter | src/db/insert_json.py:53-63 | the written lines are exactly the tweet lines of the input, in their order |
| InsertJson.FilterTweets | src/db/insert_json.py:53-63 | at most as many lines as the input, every one of them a tweet line |
| InsertJson.FilterTweetsAppend | src/db/insert_json.py:53-63 | the front-to-back filter of a longer file is the filter of the shorter one plus the new line if it is a tweet line |
| InsertJson.ShortLinesKept | src/db/insert_json.py:55 | a line shorter than eight characters is always written |
| InsertJson.MarkedLinesDropped | src/db/insert_json.py:56-61 | a line starting with a marker is never written |
| Overview.IsoOf | src/twitter_data/firestorm_overview.py:28-29 | a datetime becomes text; every other value is kept |
| Overview.Isoformatted | src/twitter_data/firestorm_overview.py:27-29 | the keys are kept and no datetime is left |
| Overview.PutDatesValid | src/twitter_data/firestorm_overview.py:29 | storing a real datetime keeps every datetime in the dict real |
| Overview.UpdateDatesValid | src/twitter_data/firestorm_overview.py:24 | merging two dicts of real datetimes gives one |
| Overview.FirestormsMetadata | src/twitter_data/firestorm_overview.py:17-31 | the result is the query dict merged over the metadata, with every datetime written as ISO text |
| Overview.IsoformatStep | src/twitter_data/firestorm_overview.py:27-29 | one pass of the loop gives entry `i` its ISO value, keeps the finished entries before it and leaves the later ones untouched |
| Overview.GetIsoformatted | src/exploration/firestorm_overview.py:15-17 | each key holds its old value, a datetime turned into ISO text; no key is added |
| Overview.MetadataGet | src/aggregating/firestorms_overview.py:31-45 | the row holds every key of both dicts; the query dict wins on a shared key; datetimes come out as ISO text, other values as they were |
| Overview.Trunc | src/aggregating/firestorms_overview.py:18 | conversion to int64 truncates toward zero |
| Overview.TweetQuantityPerHour | src/aggregating/firestorms_overview.py:11-18 | one integer per hourly row, each the truncated total |
| Overview.QuantitiesOfCounts | src/aggregating/firestorms_overview.py:18 | whole tweet counts come through unchanged |
| Overview.RoundHalfEven | src/aggregating/firestorms_overview.py:28 | `round` lands within one half of its input |
| Overview.Round4 | src/aggregating/firestorms_overview.py:28 | `round(x, 4)` lands within 0.00005 of `x` |
| Overview.OffensivenessPerHour | src/aggregating/firestorms_overview.py:21-28 | one value per hourly row, each within 0.00005 of the raw percentage |
| Overview.ParseAll | src/twitter_data/firestorm_overview.py:99 | one integer per piece; any failure is a ValueError |
| Overview.IntStringChars | src/twitter_data/firestorm_overview.py:99 | `str(i)` consists of digits and a sign and does not start with white space |
| Overview.ReprItemsChars | src/twitter_data/firestorm_overview.py:93-98 | the written list holds only digits, signs, commas and spaces, so removing the brackets leaves it intact |
| Overview.ReprItemsRoundTrip | src/twitter_data/firestorm_overview.py:97-99 | splitting the written items at the commas and reading each as an integer gives the list back |
| Overview.ItemRoundTrip | src/twitter_data/firestorm_overview.py:97-99 | one written integer, after any leading spaces, holds no comma and reads back as itself |
| Overview.LastItemRoundTrip | src/twitter_data/firestorm_overview.py:97-99 | a one-element list reads back from its written form |
| Overview.NextItemRoundTrip | src/twitter_data/firestorm_overview.py:97-99 | if the tail reads back, the whole list does |
| Overview.ReprItemsCons | src/twitter_data/firestorm_overview.py:93-98 | the written list is its first item, a comma, a space and the written tail |
| Overview.SplitPart | src/twitter_data/firestorm_overview.py:99 | a comma-free piece before a comma reads as the first integer and the rest as the tail |
| Overview.ParseCons | src/twitter_data/firestorm_overview.py:99 | reading a piece in front of other pieces puts its integer in front |
| Overview.ParseLogRoundTrip | src/twitter_data/firestorm_overview.py:93-99 | reading back the written filter log of a non-empty list gives the list |
| Overview.ParseLog | src/twitter_data/firestorm_overview.py:93-99 | a log read back holds at least one count; any failure is a ValueError from `int` |
| Overview.Repr | src/twitter_data/firestorm_overview.py:93-98 | the written list starts with `[` and ends with `]`, and is just `[]` exactly when the list is empty |
| Overview.EmptyLogRaises | src/twitter_data/firestorm_overview.py:99 | the log of an empty list raises ValueError on `int('')` |
| Overview.Cuts | src/twitter_data/firestorm_overview.py:102-107 | succeeds exactly with at least three entries and non-zero first two; fewer than two entries raise IndexError; the cuts are `1 - log[1]/log[0]` and `1 - log[2]/log[1]` |
| Overview.CutsAreShares | src/twitter_data/firestorm_overview.py:102-107 | for a positive, non-increasing log both cuts lie in [0, 1] |
| Overview.AllCuts | src/twitter_data/firestorm_overview.py:91-107 | one pair of cuts per row |
| Overview.Mean | src/twitter_data/firestorm_overview.py:110-111 | an empty list raises; otherwise mean times length is the sum |
| Overview.SumBounds | src/twitter_data/firestorm_overview.py:110-111 | the sum of shares lies between 0 and the number of shares |
| Overview.CalculateFilterCuts | src/twitter_data/firestorm_overview.py:78-111 | a failing row's error propagates; no rows raise StatisticsError; otherwise both cut lists are every row's and their means are reported |
| Overview.AllCutsFailsEarly | src/twitter_data/firestorm_overview.py:91-99 | once a row raises, the later rows do not matter |
| Overview.MeanCutsAreShares | src/twitter_data/firestorm_overview.py:110-111 | the mean of shares is a share |
| PyValues.Get | src/db/queried.py:207 | a key is found exactly when it is among the dict's keys, with a value stored under it |
| PyValues.Put | src/db/queried.py:208 | after `d[k] = v`, `k` holds `v`; the keys gain at most `k`; an existing key keeps its place and a new one is appended |
| PyValues.PutOther | src/db/queried.py:208-210 | an item assignment leaves every other key's value unchanged |
| PyValues.PutSame | src/db/queried.py:208 | assigning the value already stored changes nothing |
| PyValues.GetConcat | requests_base.py:49-61 | a look-up in two dicts laid end to end finds the first one's value |
| PyValues.PutUnique | src/twitter_data/firestorm_overview.py:29 | an item assignment keeps the keys distinct |
| PyValues.UpdateUnique | src/twitter_data/firestorm_overview.py:24 | `update` keeps the keys distinct |
| PyValues.PutFrom | TwitterSearchResponse.py:124 | storing a pair adds nothing but that pair |
| PyValues.UpdateFrom | TwitterSearchResponse.py:124 | every pair of `dict(items)` is one of the items |
| PyValues.UniqueSplit | src/twitter_data/firestorm_overview.py:24 | a dict without repeated keys splits into a first key not in the rest and a rest without repeated keys |
| PyValues.UniqueCons | src/twitter_data/firestorm_overview.py:24 | an entry whose key is not in a dict without repeated keys keeps the keys distinct when put in front |
| PyValues.UpdateGet | src/twitter_data/firestorm_overview.py:24 | after `a.update(b)` a key of `b` holds `b`'s value and every other key `a`'s |
| PyValues.Subscript | TwitterSearchResponse.py:17 | a dict subscript gives the stored value or raises KeyError; subscripting anything else raises TypeError |
| PyValues.In | src/discourse_style_metrics/discourse_stlye_metrics.py:7 | `in` is key membership for a dict and element membership for a list; None and scalars raise TypeError |
| PyStrings.WordLength | src/hypotheses_testing/results_latex_parser.py:28 | the run of non-space characters at the front of a string |
| PyStrings.Words | src/hypotheses_testing/results_latex_parser.py:28 | `split()` gives non-empty pieces without white space |
| PyStrings.WordsOfWord | src/hypotheses_testing/results_latex_parser.py:81-82 | a string without white space splits into itself |
| PyStrings.WordsCons | src/hypotheses_testing/results_latex_parser.py:81 | a word without white space, a space and the rest split into that word followed by the rest's pieces |
| PyStrings.WordsLeadingSpace | src/hypotheses_testing/results_latex_parser.py:81 | white space in front changes nothing in `split()` |
| PyStrings.WordLengthAll | src/hypotheses_testing/results_latex_parser.py:28 | a string without white space is one run |
| PyStrings.SplitOn | src/twitter_data/firestorm_overview.py:97 | `split(sep)` gives at least one piece, none holding the separator |
| PyStrings.SplitOnFree | TwitterSearchResponse.py:88 | a string free of the separator splits into itself |
| PyStrings.SplitOnAppend | src/twitter_data/firestorm_overview.py:97 | splitting at a first separator gives the part before it and the split of the rest |
| PyStrings.ReplaceAbsent | src/hypotheses_testing/results_latex_parser.py:37 | replacing a string that does not occur changes nothing |
| PyStrings.RemoveAll | src/twitter_data/firestorm_overview.py:95-96 | removing a character leaves none of it and never lengthens the string |
| PyStrings.RemoveAllAbsent | src/twitter_data/firestorm_overview.py:95-96 | removing an absent character changes nothing |
| PyStrings.RemoveAllConcat | src/hypotheses_testing/results_latex_parser.py:85 | removing a character distributes over concatenation |
| PyStrings.Upper | src/hypotheses_testing/results_latex_parser.py:86-87 | `upper()` keeps the length and upper-cases each letter |
| PyStrings.StripLeft | src/twitter_data/firestorm_overview.py:99 | `lstrip()` never lengthens and leaves no leading white space |
| PyStrings.StripRight | src/twitter_data/firestorm_overview.py:99 | `rstrip()` never lengthens and leaves no trailing white space |
| PyStrings.NatToString | src/twitter_data/firestorm_overview.py:99 | `str(n)` is a non-empty run of digits |
| PyStrings.DigitsOfNat | src/twitter_data/firestorm_overview.py:99 | reading back the digits of `str(n)` gives `n` |
| PyStrings.ParseInt | src/twitter_data/firestorm_overview.py:99 | `int(s)` fails only with ValueError |
| PyStrings.IntRoundTrip | src/twitter_data/firestorm_overview.py:99 | `int(str(i)) == i`, also with white space in front |
| PyStrings.StripLeftSpaces | src/twitter_data/firestorm_overview.py:99 | `lstrip()` removes exactly the leading white space |
| PyStrings.StripRightDigitEnd | src/twitter_data/firestorm_overview.py:99 | a string not ending in white space is kept by `rstrip()` |
| PyStrings.StripRightSpaces | src/twitter_data/firestorm_overview.py:99 | `rstrip()` removes exactly the trailing white space: a string not ending in white space, followed by spaces, comes back as that string |

## Left out

- MongoDB, the Twitter HTTP API, the offensiveness model, plotting, CSV and file writing, and `print` are not modelled. `make_request`, `write_to_db` and `write_to_csv` are left out for this reason. So are the `insert_*` functions and the progress messages.
- The file reader is a sequence of lines. In `calculate_filter_cuts`, a CSV row is reduced to its `filtering_lengths_log` cell.
- `auth()` reads the token from the environment. Here that token is a parameter of `RequestsBase.CreateHeaders`.
- `TextBlobDE` polarity is an input. Only `tweet_sentiment_category` is modelled, with the score as its argument.
- The ruptures Pelt solver is left out. Its change-point indices are an input: strictly increasing and ending at the number of rows.
- The statistics-library parts are left out:
  - the Pearson correlation, of which only the lag alignment is modelled;
  - the Fleiss kappa;
  - the trend step in `load_ts_from_csv`, which is a function parameter.
- pandas is modelled by what each call computes on the rows:
  - `groupby` gives groups in key order.
  - `value_counts` and the categorical levels are modelled.
  - `sort_values(ascending=False)` is modelled as a stable insertion by count. pandas' order among authors with equal counts is not specified and is not modelled.
- Floating point is exact `real` arithmetic. `round` and `round(x, 4)` are only bounded: within one half and within 0.00005 of the exact value.
- `Overview.RoundHalfEven`: states only the distance to the input, not which neighbour a tie picks.
- `FirestormTweets.Tweets.Metadata`: `pct_filtered` and `average_aggressiveness` are the fractions before `float_to_pct`. `src/utils/conversions.py`, which defines `float_to_pct`, is not part of this model, so the conversion to a percentage is not applied.
- `PyStrings.Words`, `PyStrings.StripLeft`, `PyStrings.StripRight` and `PyStrings.Upper`: only ASCII is handled. `split()` and `strip()` treat space, tab, line feed, carriage return, vertical tab and form feed as white space. Python's other white space (U+001C to U+001F, U+0085, U+00A0, U+2028 and the rest of Unicode's) is treated as an ordinary character. `upper()` maps only `a`-`z`; non-ASCII case mapping (`ß` to `SS`, accented letters) is not modelled.
- Time zones and daylight saving time are not modelled:
  - An aware datetime carries its UTC offset, which is kept and compared but never applied to the wall-clock time.
  - The tz-dropping in `select_time_range` drops the offset and counts one warning per aware bound.
  - An offset is a whole number of minutes. The `isoformat()` read-back assumes the offset lies strictly within a day, as Python's `timezone` requires. Offsets with seconds (`+HH:MM:SS`) are not modelled.
- `created_at` is taken as already a datetime. The src `tweets.py` imports `unix_ms_to_date`, which the src `datetime_helpers.py` does not define.
- The duplicate functions are each modelled once, and the rows above cite the copies they cover:
  - the two pruning files;
  - the two `Timeseries` classes;
  - the two `queried` passes;
  - the three `get_firestorms_metadata`;
  - `contains_url`, `tweet_type` and `user_type` in several files.
- lib `misc_attribute_helpers.contains_url` is not part of this model. The lib attribute dispatch uses the src `contains_url` in its place.
- Python `dict` tests follow `isinstance(value, collections.MutableMapping)`. Only the modelled dict value counts as a mapping.
- The source's other `TypeError`s are modelled only as error results:
  - a `data` or `includes` entry that is not a list;
  - a tweet that is not a dict while buffering or attaching.
  The model reports them as `TypeError` and does not distinguish their messages.
- `flatten_response` only applies `flatten` to every line. It is not modelled separately.
- The cached properties of `Tweets` are modelled as `Option` fields.
  - The class invariant states that a cached table is the table of the object's tweets.
  - Changes to the frame made by other code, behind the object's back, are not modelled.
- `HypothesesHelpers.FormulaGenerator`: its own contract gives only the `y ~ ` prefix. The column part is stated by `HypothesesHelpers.FormulaOverAllColumns` and `HypothesesHelpers.FormulaIgnoresY`.
- `Series.LoadFromCsv`: the CSV parser's quoting rules are not modelled; a row is a sequence of cells.

## Findings

| source | as written | input that shows it | evidently intended | confidence | as-written member | corrected member |
|---|---|---|---|---|---|---|
| lib/twitter_data/tweets_in_phases.py:65-76 | the last phase is `[last breakpoint, max hour)`, so the maximal hour itself is in no phase | any frame: the tweets of its latest hour appear in no phase | every tweet belongs to exactly one phase | not executed | LibPhases.LastHourInNoPhase | LibPhases.PhasesThroughLastPartition |
