# Health & Fitness Tracker — record store and metrics

This project models the record-store logic of a small personal health tracker.
The app keeps three tables in an SQLite database:

- **workouts:** date, exercise type, minutes, calories burned, and optional notes.
- **meals:** date, meal type, food name, calories, and optional protein, carbs and fats.
- **body measurements:** at most one per date, with a weight and an optional height, BMI, body-fat percentage and notes.

The app does the following:

- It logs workouts and meals.
- It saves a body measurement by updating that day's row or inserting a new one.
- It deletes workouts and meals.
- Its pages show a dashboard, a daily calorie balance, per-day and per-exercise breakdowns, a date-range history, recent-entry lists and a weight-change message.

The model has four modules.

| module | file | contents |
|---|---|---|
| `Models` | `models.dfy` | The row shapes. A nullable column is an `Option`. The table invariant `ValidTables` says ids are unique per table and measurement dates are unique. |
| `Queries` | `queries.dfy` | The query primitives the pages are built from, generic over the row type: WHERE filters, SUM, SQLite's choice of a new primary key, ORDER BY date DESC with LIMIT, and the group-by-and-sum that pandas computes. |
| `Metrics` | `metrics.dfy` | The read side: BMI, dashboard figures, daily balance, breakdowns, history, today's totals, the recent lists and the weight-change message. |
| `Tracker` | `tracker.dfy` | The write side. The submitted forms, the rows they produce, and a `Store` class whose three sequence fields are the tables. The store's methods log, upsert and delete, and keep `ValidTables` as an invariant. |

Modelling decisions:

- A table is a sequence of rows in insertion order.
- Dates are day numbers. "Today" is a parameter.
- Weights, heights and macros are `real`. Calories and minutes are `int`.
- A new row's id is the one SQLite gives an `INTEGER PRIMARY KEY` table that has no AUTOINCREMENT: one more than the largest id present, or 1 when the table is empty. So the id of a row deleted from the top of a table is reused.
- A day's consumed calories (`Metrics.Consumed`) are defined once. The dashboard, the daily balance and today's meal totals all use that definition.

## Model

| member | source | states |
|---|---|---|
| `Queries.Where` | app.py:96-98 | A filter keeps exactly the rows satisfying the predicate, drawn from the table (as a sub-multiset), and never grows the table. |
| `Queries.Since` | app.py:57 | `date >= d` keeps exactly the table's rows on or after `d`, drawn from the table as a sub-multiset. |
| `Queries.Between` | app.py:435-437 | The inclusive date range keeps exactly the table's rows with `lo <= date <= hi`, drawn from the table as a sub-multiset. |
| `Queries.Matching` | app.py:68-70 | `date == today` (or any equality filter) keeps exactly the rows with that key, drawn from the table as a sub-multiset. |
| `Queries.Without` | app.py:229-231 | Removing by key keeps exactly the rows whose key differs, drawn from the table as a sub-multiset. |
| `Queries.FirstIndex` | app.py:356-358 | `filter(date == d).first()` is the first row with that key, and it is absent exactly when no row has the key. |
| `Queries.Sum` | app.py:59-62 | `SUM(...) or 0`: an empty sum is 0, and a sum of non-negative values is non-negative. |
| `Queries.SumReal` | app.py:293-296 | Python's `sum` over the macros: 0.0 for no rows, and non-negative for non-negative values. |
| `Queries.SumAppend` | app.py:59-62 | A new row adds its value to the sum. |
| `Queries.SumRealAppend` | app.py:293-296 | A new row adds its value to the real-valued sum. |
| `Queries.AtMostOneRowPerKey` | models.py:39 | Under `ValidTables`, the unique `date` column means at most one measurement has any given date. The same holds for each table's id column (models.py:8, 22, 38). |
| `Queries.NewId` | models.py:8 | A new integer primary key exceeds every id present. It is one more than the largest id, or 1 for an empty table. |
| `Queries.NewestFirst` | app.py:64-66 | `order_by(date.desc())` is a permutation of the table with dates non-increasing. |
| `Queries.TopN` | app.py:214-216 | `order_by(date.desc()).limit(n)` returns min(n, size) rows, newest first, from the table. No row left out is newer than a returned row. |
| `Queries.PrefixIsNewest` | app.py:388-390 | Every row beyond a LIMIT on a newest-first list is at most as new as every row within it. |
| `Queries.RangeNewestFirst` | app.py:435-438 | The range rows newest first: exactly the table's rows within the range, as a permutation of the filtered rows, in non-increasing date order. |
| `Queries.SortedDates` | app.py:108 | The group keys of a group-by-date are ascending, and they are exactly the dates that occur. |
| `Queries.DistinctKeys` | app.py:460 | The group keys of a group-by-exercise are duplicate-free, and they are exactly the keys that occur. |
| `Queries.GroupSum` | app.py:108-111 | One group per key, in key order. Group i holds key i and the sum of the value over exactly the rows with that key. |
| `Queries.GroupSumTotal` | app.py:108-111 | Grouping partitions the rows: the group totals add up to the overall sum whenever the keys are distinct and cover every row. |
| `Queries.SinceBounds` | app.py:56-62 | The count since a day equals the total count iff every row is on or after that day. The sum since a day is at most the total when values are non-negative. |
| `Queries.WhereSumAtMost` | app.py:59-62 | A filtered sum of non-negative values never exceeds the unfiltered sum. |
| `Queries.SumSplit` | app.py:108-111 | Sum and size split into the rows with a key and the rows without it. |
| `Queries.WithoutUniqueKey` | app.py:229-231 | Deleting by a unique id removes exactly one row when the id is present, and nothing otherwise. |
| `Queries.WithoutIdempotent` | app.py:323-325 | Deleting the same id twice is the same as deleting it once. |
| `Queries.MatchingUnique` | models.py:39 | In a unique column, the rows with a row's key are that row alone. |
| `Queries.WhereKeepsDistinct` | models.py:8 | Removing rows keeps a column unique. |
| `Queries.DistinctOfSubMultiset` | models.py:39 | Any selection of a table's rows keeps a unique column unique. |
| `Metrics.Bmi` | app.py:39-44 | The BMI is present iff height > 0. When present, BMI × (height in metres)² equals the weight. |
| `Metrics.Latest` | app.py:64-66 | The latest measurement is absent iff the table is empty. Otherwise it is a row of the table, and no row is newer. |
| `Metrics.DashboardOf` | app.py:53-70 | The four dashboard figures. The workout count is the table size. The week's count and calories are the count and sum over the workouts dated on or after seven days ago. The week's count never exceeds the total, and equals it iff every workout is within the week. The week's calories never exceed the total when no workout burns a negative amount. "Calories today" is the day's consumed figure. |
| `Metrics.WeekAfterWorkout` | app.py:56-62 | Logging a workout dated within the week raises the week's count by one and its calories by the workout's calories. An older workout leaves both unchanged. |
| `Metrics.DailyBalance` | app.py:155-168 | Net = consumed − burned. The label is Surplus iff more was eaten than burned, and Deficit iff net <= 0, so a break-even day is a Deficit. |
| `Metrics.IdleDayBalance` | app.py:68-70 | A day without meals has consumed 0, and a day without workouts has burned 0 (`scalar() or 0`). |
| `Metrics.BalanceAfterMeal` | app.py:68-70 | Logging a meal raises that day's consumed calories by the meal's calories. It leaves other days and the burned figure as they were. |
| `Metrics.BalanceAfterWorkout` | app.py:155-157 | Logging a workout raises that day's burned calories by the workout's calories. It leaves other days and the consumed figure as they were. |
| `Metrics.Summarise` | app.py:108-111 | Duration and calories are grouped under the same keys. Each group holds the sums over exactly the workouts with its key. |
| `Metrics.ActivityPerDay` | app.py:95-111 | The 30-day chart has ascending days, exactly the days of workouts in the window. Each day's duration and calories are the sums over that day's workouts in the window, and the daily figures add up to the window's totals. |
| `Metrics.ExerciseBreakdown` | app.py:460-463 | One group per exercise type that occurs, with no duplicates. Each group holds the duration and calories summed over exactly that type's workouts, and the groups add up to the listed workouts' totals. |
| `Metrics.IntakePerDay` | app.py:490 | Ascending days, exactly the days that occur. Each day's intake is the calories summed over that day's meals, and the daily intakes add up to the calories of all listed meals. |
| `Metrics.WorkoutHistoryOf` | app.py:435-463 | The range's workouts newest first, with their count. The total duration and calories are the sums over those rows. The breakdown is their exercise breakdown, and its groups add up to the totals. |
| `Metrics.MealHistoryOf` | app.py:474-490 | The range's meals newest first. The daily intake is the per-day intake of those rows, and it sums to their total calories. |
| `Metrics.RecentWorkouts` | app.py:214-216 | At most five workouts, newest first, drawn from the table. No omitted workout is newer. |
| `Metrics.MeasurementHistory` | app.py:388-390 | At most ten measurements, newest first, drawn from the table. No omitted measurement is newer. |
| `Metrics.TodaysTotals` | app.py:287-296 | Today's calorie total is the day's consumed calories. Every total is zero on a day without meals, and the macro totals are non-negative when no macro is negative. |
| `Metrics.TodaysTotalsAfterMeal` | app.py:287-296 | Logging a meal for today adds its calories and macros (an absent macro adds 0) to today's totals. A meal for another day changes nothing. |
| `Metrics.WeightChange` | app.py:406-407 | A weight change exists iff at least two measurements are listed. |
| `Metrics.TrendAsWritten` | app.py:408-413 | As written: absent iff there is no change. "Lost" iff the change is positive, "gained" iff it is negative, each by the absolute change. |
| `Metrics.Trend` | app.py:408-413 | As intended: absent iff there is no change. "Gained" iff the change is positive, "lost" iff it is negative, each by the absolute change. |
| `Metrics.WeightTrendAsWritten` | app.py:406-413 | The message as written is present iff there are two measurements or more. It says "lost" iff the newest listed weight is above the oldest listed one. |
| `Metrics.WeightTrendOf` | app.py:406-413 | The corrected message is present iff there are two measurements or more. It says "gained" iff the newest listed weight is above the oldest listed one. |
| `Metrics.WeightTrendSpec` | app.py:406-413 | With one measurement per date, a trend exists iff there are two measurements or more. It compares the table's newest measurement with a strictly older one. The corrected message says "gained" iff the newest weight is higher and "lost" iff it is lower, by the difference. |
| `Metrics.HistoryEnds` | app.py:388-390 | The ten-row history starts at the newest measurement and ends at a strictly older one. |
| `Metrics.WeightTrendAsWrittenInverted` | app.py:408-413 | The message as written is always the corrected message with gained and lost swapped. |
| `Metrics.TrendInverted` | app.py:408-413 | For every change value, the label as written is the swap of the corrected label. |
| `Metrics.WeightGainReportedAsLoss` | app.py:406-413 | 75.2 kg on day 1 and then 77.5 kg on day 8 is reported as written as 2.3 kg lost. The corrected message reports 2.3 kg gained. |
| `Metrics.WeightLossReportedAsGain` | app.py:406-413 | The app's sample data (77.5 kg four weeks ago, 75.2 kg today) is reported as written as 2.3 kg gained. The corrected message reports 2.3 kg lost. |
| `Tracker.TextOrAbsent` | app.py:202 | Empty notes are stored as NULL, and any other text is stored as entered. |
| `Tracker.PositiveOrAbsent` | app.py:272-274 | An amount is stored iff it is > 0, and NULL otherwise. |
| `Tracker.WorkoutRow` | app.py:197-203 | The stored workout carries the form's fields, with empty notes stored as NULL. |
| `Tracker.MealRow` | app.py:268-275 | The stored meal carries the form's fields, with zero macros stored as NULL. |
| `Tracker.MeasurementRow` | app.py:368-375 | The saved measurement always stores the height. Its BMI is `Bmi(weight, height)`. Zero body fat and empty notes are stored as NULL. |
| `Tracker.Upserted` | app.py:356-377 | The table after saving holds the form's values under some id. It grows by one row iff no row had the form's date, and keeps its size otherwise. |
| `Tracker.UpsertedSpec` | app.py:351-377 | After saving for date d, exactly one row has date d and it holds the form's values. Its id is kept and the size unchanged if d existed; otherwise the id is fresh and the size grows by one. Other days' rows are unchanged, and ids and dates stay unique. |
| `Tracker.UpdatedDay` | app.py:360-366 | Overwriting the day's row keeps ids and dates unique. The day then holds only the new values under the old id, and other rows are untouched. |
| `Tracker.CreatedDay` | app.py:367-377 | Appending a new day under a fresh id keeps ids and dates unique. The day then holds only the new row, and other rows are untouched. |
| `Tracker.UpsertedIdempotent` | app.py:351-382 | Submitting the same measurement form twice leaves the table as submitting it once. |
| `Tracker.Store.constructor` | models.py:5-49 | A fresh database has three empty tables, which satisfy the table invariants. |
| `Tracker.Store.LogWorkout` | app.py:195-205 | Appends exactly one workout, built from the form, under a fresh id. The other tables are unchanged and the invariants are kept. |
| `Tracker.Store.LogMeal` | app.py:264-282 | Writes nothing iff the food name is empty. Otherwise appends exactly one meal under a fresh id. The other tables are unchanged. |
| `Tracker.Store.SaveMeasurement` | app.py:351-382 | Updates in place iff a row already has the date, else creates a row with a fresh id. The table becomes `Upserted` of the old one, whose row for the day stores `Bmi(weight, height)`. The outcome reports the BMI only for a created row, as the page does. The other tables are unchanged. |
| `Tracker.Store.DeleteWorkout` | app.py:229-231 | Removes exactly the workout with that id, so the table shrinks by one when the id is present. Other rows and tables are unchanged. |
| `Tracker.Store.DeleteMeal` | app.py:323-325 | Removes exactly the meal with that id, so the table shrinks by one when the id is present. Other rows and tables are unchanged. |

## Left out

- Streamlit layout, widgets, `st.rerun`, and the Plotly charts. These are user interface and rendering. Only the numbers the charts are drawn from are modelled.
- Session handling, engine creation and `init_db` in database.py. These are persistence plumbing: every operation reads and writes the tables directly, and a commit is the end of the method.
- The sample-data seeding script. It is a one-shot fixture loader. Two of its five measurement rows (populate_sample_data.py:76 and :80, without their notes) appear in `Metrics.WeightLossReportedAsGain`, and in reverse order in `Metrics.WeightGainReportedAsLoss`.
- Metrics.Bmi: does not model `round(..., 2)`. The model keeps the exact real quotient, because decimal rounding of floats is out of scope.
- Float arithmetic in general. Weights, heights, macros and BMI are exact reals.
- The average daily calories on the history page (floating division).
- `created_at` timestamps and `date.today()`. These are clock reads. Today's meals are listed in logging order, which is what ordering by `created_at` gives.
- The `__repr__` display strings.
- Queries.DistinctKeys and Metrics.ExerciseBreakdown: keys come in first-appearance order, while pandas sorts the group keys alphabetically. The order only affects the order of pie slices.
- Queries.NewestFirst: rows with equal dates are ordered by the insertion sort. The database leaves the order of ties unspecified.
- Metrics.WeightTrendAsWritten and Metrics.WeightTrendOf: the message's "since <date>" part is not carried in `WeightTrend`. The date it names is that of the oldest listed measurement, `h[|h| - 1]`, about which `Metrics.WeightTrendSpec` and `Metrics.HistoryEnds` state the facts.
- Deleting a body measurement: the app has no delete for measurements.
- Tracker.Store.LogWorkout, LogMeal and SaveMeasurement assume the form's number-input bounds: duration at least 1 minute, non-negative calories, macros, weight and height, and body fat from 0 to 100. The widgets enforce these bounds before submission.
- Concurrent writers: the app runs lookup-then-write without a transaction around it, and the model has one writer.

## Findings

| source | as written | input that shows it | evidently intended | confidence | as-written member | corrected member |
|---|---|---|---|---|---|---|
| app.py:406-413 | The list is ordered newest first, so `measurements[0].weight - measurements[-1].weight > 0` means the weight went up. It is reported as "You've lost … kg"; a negative change is reported as gained. | 75.2 kg on day 1, 77.5 kg on day 8: the weight rose by 2.3 kg and the message says 2.3 kg lost. Mirror case, the app's own sample data: 77.5 kg four weeks ago, 75.2 kg today, reported as 2.3 kg gained | A positive newest-minus-oldest change is reported as weight gained, a negative one as lost | not executed | `Metrics.WeightTrendAsWritten`, `Metrics.WeightGainReportedAsLoss`, `Metrics.WeightLossReportedAsGain` | `Metrics.WeightTrendOf`, `Metrics.WeightTrendSpec` |
