# Carousel training-set builder: a Dafny model

`main.py` builds a training set for a cross-selling carousel. It takes three inputs:

- impressions ("prints"), one per carousel slot shown to a user on a day;
- taps on carousel slots;
- payments.

For every impression of the last seven days it writes one row. The row holds:

- the impression's day, user, offer (`value_prop`) and position;
- a `clicked` label: whether the user tapped that offer on that day;
- four history features: the impressions, taps, payments and paid amount of the same (user, offer) on the 21 days before the impression's day.

The model covers the computational core of that script, with no file handling:

- **Records** holds the entities. Raw event and payment rows have the fields that may be null or unparseable as `Option`s. Validated `Event`s and `Payment`s, the daily tables keyed by (user, offer, day), and the output `FeatureRow` are plain datatypes.
- **Validation** covers `_validar_columnas` and `normalizar_eventos`, plus the payment-table checks of `construir_dataset`. Every failure is a `Result` error, and the first failing check decides which error.
- **Aggregation** covers `conteos_diarios` (a count per key) and the daily payment table. The payment table is the outer merge of a per-key count and a per-key amount sum, with a missing side filled with 0. Grouping skips a row whose key has a null part, as pandas' `groupby` does.
- **Series** and **TrailingWindow** cover `ventana_prev_21d`. Per (user, offer) group it:
  - lays out a dense day timeline from the group's first to its last day;
  - fills days without a row with 0;
  - takes the rolling 21-day sum (`min_periods=1`), shifted by one day and with the leading gap filled with 0.
- **Assembly** covers the rest of `construir_dataset`:
  - the target week, meaning the seven days ending on the latest impression day;
  - the `clicked` label;
  - the four left joins on (day, user, offer), with 0 where nothing matches or where a window table is empty;
  - the final sort.
- **Ordering** is that sort: by (day, user, offer, position), with missing offers and positions last.
- **Dataset** chains validation and assembly in the script's order.
- **Invariance** shows that the output does not depend on the order of the input rows.

Amounts are integers (cents). Days are integers, so day arithmetic is exact.

The model comes in two variants. The script as written is `Assembly.Assemble`. The variant whose history features match their description is `Assembly.AssembleIntended`; see "Findings".

Every feature is also given a reference definition computed directly from the events:

- `PriorCount`, `PriorPayments` and `PriorAmount` total over the 21 days before the impression;
- `TappedSameDay` gives the label.

The main theorems connect each variant's join pipeline to these definitions, row by row.

## Model

| member | source | states |
|---|---|---|
| Validation.Missing | main.py:32 | a column is reported missing exactly when it is required and absent; no required column is missing exactly when the result is empty |
| Validation.CheckColumns | main.py:31-34 | no error exactly when every required column is present; otherwise the error names the table and exactly the absent required columns |
| Validation.FlattenAll | main.py:62-67 | one event per raw row, carrying its day, its user, and the `value_prop` and `position` read from `event_data` (None when absent) |
| Validation.NormalizeEvents | main.py:52-76 | success exactly when the columns are present and every row has a mapping, a valid day and a user; in that case one flat event per row, field by field; a missing column, a non-mapping, a bad day and a null user each give their own error, in that order of precedence |
| Validation.NormalizePayments | main.py:139-149 | success exactly when the four payment columns are present and every row has a valid pay date and a numeric total; in that case one payment per row with those values; otherwise the matching error, missing columns first, then dates, then amounts |
| Aggregation.Tally | main.py:83 | adding one observation to a keyed table keeps keys unique, adds only that key, and raises only that key's value |
| Aggregation.GroupSum | main.py:180-181 | the grouped table has unique keys, exactly the keys of its entries, and each key's value is the sum of that key's entries |
| Aggregation.DailyCounts | main.py:79-84 | empty input gives an empty table; keys are unique and exactly the keys of events with an offer; each value is the number of events with that key and is positive; the values add up to the number of keyed events |
| Aggregation.DailyCountsTotal | main.py:83 | when every event has an offer, the counts add up to the number of events |
| Aggregation.DailyCountsBetween | main.py:79-84 | the daily counts of a group summed over a day range equal the number of that group's events in the range |
| Aggregation.RightOnly | main.py:182 | the right-only half of the merge: exactly the amount keys absent from the counts, each once, with a zero count and its amount |
| Aggregation.OuterMerge | main.py:182 | the merge has unique keys, covers exactly the keys present on either side, and carries each side's value, 0 where that side lacks the key |
| Aggregation.PaymentDaily | main.py:176-182 | empty payments give an empty table; otherwise one row per key of a payment with user and offer, holding that key's number of payments and summed amount |
| Aggregation.MergeFillsNothing | main.py:180-182 | the count and amount tables come from the same payments with the same null keys dropped, so the outer merge has no amount-only key and fills no count with 0 |
| Aggregation.PaymentColumns | main.py:176-188 | the count and amount columns of the daily payment table have unique keys, exactly the payment keys, and give each key's count and amount |
| Aggregation.PaymentColumnsBetween | main.py:180-188 | summed over a day range, the two columns give the number and the total amount of the group's payments in that range |
| Series.ShiftedRolling | main.py:105 | entry i of the shifted rolling sum is the sum of the up to w entries before i, and entry 0 is 0 |
| Series.ShiftedRollingSum | main.py:105 | a loop computes the shifted 21-day rolling sum; each output is the sum of the preceding window, and the loop matches the functional definition |
| TrailingWindow.Groups | main.py:99 | each group of the table appears exactly once |
| TrailingWindow.TimelineValues | main.py:103-105 | on a group's dense timeline, the shifted rolling sum of day i equals that group's total over the 21 days before it |
| TrailingWindow.GroupWindow | main.py:99-109 | one row per day from the group's first day to the end of its span, each keyed by its day and holding the trailing 21-day total |
| TrailingWindow.Window | main.py:86-115 | empty input gives an empty table; the computation succeeds exactly when the input keys are unique |
| TrailingWindow.WindowRows | main.py:99-115 | the window table has unique keys, holds a key exactly when it lies on its group's timeline, and every row is the trailing value of its day |
| TrailingWindow.WindowLookup | main.py:99-115 | looking up a key gives its trailing 21-day total when the key is on its group's timeline, 0 otherwise |
| TrailingWindow.FirstDayHasNoHistory | main.py:105 | the first day of a group always has a trailing value of 0 |
| TrailingWindow.TrailingStep | main.py:105 | moving one day on adds that day's value and drops the value from 21 days back |
| TrailingWindow.NoLeakage | main.py:88 | the trailing value a window-table row holds for day D depends only on the group's values on days D-21 to D-1; whether day D has a row at all is a separate matter, see "Findings" |
| TrailingWindow.OldDaysDoNotCount | main.py:105 | with no rows in the 21 days before D, the trailing value is 0 |
| TrailingWindow.WindowNonNegative | main.py:105 | non-negative inputs give non-negative window values |
| TrailingWindow.BeforeSpanIsZero | main.py:103-105 | a group that is absent, or a day not after its first day, has a trailing value of 0 |
| TrailingWindow.AsComputedLookup | main.py:103-105 | as written, a key's value is its trailing total if the group has a row on or after that day, and 0 otherwise |
| TrailingWindow.ExtendedLookup | main.py:103-105 | when the timeline runs on to day t, every key up to t reads its trailing total |
| TrailingWindow.ExtendedWindowAgrees | main.py:103-105 | extending the timeline changes no value the as-written table already holds |
| TrailingWindow.ActiveUntil | main.py:103 | a day is at most its group's last day exactly when some row of the group is on or after it |
| TrailingWindow.GroupIsolation | main.py:99 | computing one group alone gives a table whose keys are exactly that group's keys in the table of the whole computation, with the same value at each, and no key of any other group |
| TrailingWindow.OwnTrailing | main.py:99-105 | a group's trailing totals depend only on the rows of that group |
| Ordering.CompareRowsLaws | main.py:229 | the row comparison says equal exactly when the sort keys are equal, and it is antisymmetric |
| Ordering.CompareRowsTrans | main.py:229 | the row order is transitive |
| Ordering.RowLeTotal | main.py:229 | any two rows are comparable |
| Ordering.Insert | main.py:229 | inserting into a sorted sequence keeps it sorted and adds exactly the new row |
| Ordering.SortRows | main.py:229 | the result is sorted by (day, user, offer, position), with missing values last, and is a permutation of the input |
| Ordering.SortedUnique | main.py:229 | when rows with equal sort keys are identical, two sorted permutations of the same rows are equal |
| Assembly.MaxDay | main.py:160 | the latest impression day: no impression is later, and some impression is on it |
| Assembly.Week | main.py:163-164 | keeps exactly the events within the 7 days ending on the given day, each as often as it occurs |
| Assembly.TargetWeek | main.py:151-165 | the target week is empty exactly when there are no impressions; otherwise it is the impressions of the 7 days ending on the latest impression day |
| Assembly.WeekMembers | main.py:163-165 | every member of the target week is an impression within that week |
| Assembly.Matches | main.py:197-200 | a row without an offer matches nothing; a row matches nothing exactly when its key is absent from the right table |
| Assembly.JoinRow | main.py:219 | a left row yields at least one output row, and every output row keeps the left row's fields |
| Assembly.MatchesUnique | main.py:219 | with unique keys on the right, a present key matches exactly its one value |
| Assembly.LeftJoinUnique | main.py:197-201 | with unique keys on the right, a left join with 0-fill keeps every left row in order and sets the column from the lookup, 0 where nothing matches |
| Assembly.JoinColumnUnique | main.py:194-226 | a feature column, joined or created with 0 when the table is empty, is the lookup of each row's key |
| Assembly.ClickedLookup | main.py:196 | the clicked table gives 1 for a key with a positive tap count, 0 otherwise |
| Assembly.ClickedFeature | main.py:193-203 | the label read for a key is 1 exactly when some tap carries that key |
| Assembly.JoinedRows | main.py:190-226 | with unique keys in all five tables, the joins keep one row per impression, in order, each carrying its five lookups |
| Assembly.EventFeatureExtended | main.py:173-185 | with the timeline extended to day t, a count feature is the number of events of the group in the 21 days before the day |
| Assembly.PaymentCountExtended | main.py:176-187 | the same for the payment count |
| Assembly.PaymentAmountExtended | main.py:176-188 | the same for the payment amount |
| Assembly.EventFeatureAsWritten | main.py:173-186 | as written, a count feature is the 21-day total when the group has an event on or after the day, 0 otherwise |
| Assembly.PaymentCountAsWritten | main.py:176-187 | as written, the payment count feature is the 21-day count when the group has a payment on or after the day, 0 otherwise |
| Assembly.PaymentAmountAsWritten | main.py:176-188 | as written, the amount feature is the 21-day sum when the group has a payment on or after the day, 0 otherwise |
| Assembly.LaterEventIffLaterRow | main.py:83 | the daily table has a row of the group on or after a day exactly when some event does |
| Assembly.LaterPaymentIffLaterRow | main.py:180-182 | the same for payments |
| Assembly.IntendedLookup | main.py:185-226 | with extended timelines, an impression's joined row is its reference row: the same-day tap label and the four 21-day totals |
| Assembly.AsWrittenLookup | main.py:185-226 | as written, an impression's joined row is the reference row with the tap and payment features zeroed when the group has no tap, respectively no payment, on or after the impression's day |
| Assembly.Assemble | main.py:151-229 | the as-written output is sorted and has one row per target-week impression |
| Assembly.AssembleIntended | main.py:151-229 | the corrected output is sorted and has one row per target-week impression |
| Assembly.AssembleRows | main.py:151-229 | the as-written output is the sorted arrangement of the as-written rows of the target-week impressions |
| Assembly.AssembleIntendedRows | main.py:151-229 | the corrected output is the sorted arrangement of the reference rows of the target-week impressions |
| Assembly.AsWrittenTies | main.py:229 | two output rows with the same sort key are identical, because the sort key is the whole impression |
| Assembly.AnySortIsAssemble | main.py:229 | any sorted arrangement of the output rows is the output, so how the sort breaks ties makes no difference |
| Assembly.IntendedTies | main.py:229 | two corrected rows with the same sort key are identical |
| Assembly.AnySortIsIntended | main.py:229 | any sorted arrangement of the corrected rows is the corrected output |
| Assembly.LeakCounterexample | main.py:103-105 | two tap inputs that differ only by a tap on the impression's own day give different as-written `taps_prev_3w` (0 and 1) and `clicked` values, while the corrected `taps_prev_3w` is 1 for both |
| Assembly.WindowEndCounterexample | main.py:103-105 | an impression on day 15 after a single tap of the same (user, offer) on day 10: the reference total is 1 and the corrected output gives 1, but the as-written output gives 0 |
| Invariance.SumOfPermutation | main.py:83 | a sum over the rows does not depend on their order |
| Invariance.CountBetweenPermutation | main.py:83 | the number of events of a group in a day range does not depend on the order of the event rows |
| Invariance.PaymentsBetweenPermutation | main.py:180 | the same for the number of payments |
| Invariance.AmountBetweenPermutation | main.py:181 | the same for the paid amount |
| Invariance.MaxDayPermutation | main.py:159-160 | the latest impression day does not depend on the order of the impressions |
| Invariance.TargetWeekPermutation | main.py:159-164 | two arrangements of the same impressions select the same target-week impressions |
| Invariance.MapPermutation | main.py:191 | one row per impression: mapping two arrangements of the same impressions gives two arrangements of the same rows |
| Invariance.AsWrittenRowPermutation | main.py:173-226 | an impression's as-written row is the same for every arrangement of the three inputs |
| Invariance.IntendedRowPermutation | main.py:173-226 | the same for its corrected row |
| Invariance.AssembleIgnoresInputOrder | main.py:135-229 | the as-written output is the same for any two arrangements of the same impression, tap and payment rows |
| Invariance.AssembleIntendedIgnoresInputOrder | main.py:135-229 | the same for the corrected output |
| Invariance.IntendedIgnoresLaterTaps | main.py:88 | corrected, appending taps dated on or after an impression's day leaves its `taps_prev_3w` unchanged |
| Dataset.BuildDataset | main.py:135-229 | success exactly when all three inputs validate; errors come from impressions, then taps, then payments, in that order; a success is sorted and empty exactly when there are no impression rows |
| Dataset.MissingPrintColumn | main.py:57 | a missing impression column fails the whole build with a missing-columns error against the event table that names it |
| Dataset.BuildDatasetRows | main.py:135-229 | a successful build is the sorted as-written rows of the target week of the normalized impressions |

## Left out

- File handling is not modelled: the directory and file checks, reading JSON Lines and CSV, writing the output CSV, the command line and the logging. The inputs are given as tables of raw rows whose column names are kept apart from the rows.
- Date parsing and numeric coercion are not modelled. A raw day, pay date or total is an `Option` that is None exactly when the conversion gives NaT or NaN.
- Amounts are integers (cents) and the rolling sums are exact. In the script, `total` becomes a float column when it holds decimals (main.py:144), and the rolling sums are floats (main.py:105). Rounding is not modelled.
- Wrapping a pandas exception into a `RuntimeError` (main.py:68-69 and 110-111) is not modelled. Building the flat frame and the rolling sums cannot fail on validated input.
- The column check inside `ventana_prev_21d` (main.py:95) is not modelled. Its inputs are always daily tables that carry those columns.
- The rename fallback for the window column (main.py:215-218) is not modelled. The window tables always carry the expected column, so that branch never runs.
- The check at main.py:161-162 (no valid maximum day) is not modelled. Validation already rejects every invalid day.
- The early return for an empty target week (main.py:165-170) is not a separate path. A non-empty impression table always has an impression on its latest day.
- The row order of the daily and window tables is not modelled. It only feeds left joins on unique keys, whose result does not depend on it. `Window` reports a repeated key as an error, but `WindowRows` shows this cannot happen on daily tables.
- The sort is modelled as a functional insertion sort, not as the library's stable multi-column sort. Nothing depends on the difference: `Assembly.AnySortIsAssemble` shows that every sorted arrangement of the rows is the same sequence, because tied rows are identical.
- User ids and offers are strings and compare in code-point order. When the `user_id` column is read as integers, the script sorts it numerically, so for such inputs the model's row order among users of one day can differ from the script's (`"10"` sorts before `"9"`). The rows themselves are the same.
- An empty JSON Lines file has no columns in pandas, so the script reports missing columns for it. It does not go on with an empty table. The model follows the code: only a table that has the columns and no rows counts as empty.

## Findings

| source | as written | input that shows it | evidently intended | confidence | as-written member | corrected member |
|---|---|---|---|---|---|---|
| main.py:103 | each group's timeline ends on that group's last active day, so an impression after it finds no row in the window table and reads 0 | one impression of (u, v) on day 15, one tap of (u, v) on day 10, no payments: `taps_prev_3w` is 0 although a tap lies in the 21 days before; adding a second tap on day 15 turns it into 1, so the feature depends on activity on and after the impression's day | every impression reads the activity of the 21 days before its day, so the timelines run on to the latest impression day | not executed | Assembly.Assemble, Assembly.WindowEndCounterexample, Assembly.LeakCounterexample | Assembly.AssembleIntended, Assembly.AssembleIntendedRows, Invariance.IntendedIgnoresLaterTaps |

The gap is a leak from the impression's own day and later days. Whether a history feature is 0 depends on whether the group has a tap or payment on or after the impression's day, which a feature of the 21 days before must not see. `Assembly.LeakCounterexample` shows two tap inputs that agree on every day before the impression and still give different `taps_prev_3w`. Corrected, `Invariance.IntendedIgnoresLaterTaps` shows the feature ignores such taps.

The same gap affects `payments_prev_3w` and `amount_prev_3w`; `Assembly.AsWrittenLookup` states exactly when it occurs. `prints_prev_3w` is not affected, because the impression itself is a row on or after its own day.
