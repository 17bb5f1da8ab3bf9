/** The read side of the tracker (app.py): the BMI formula, the dashboard
    figures, the daily calorie balance, the per-day and per-exercise
    breakdowns, the history page's range queries and the weight-change
    message. Every query reads the tables as sequences of rows; "today" is a
    parameter. */
module Metrics {
  import opened Models
  import opened Queries

  /** The dashboard's "this week" starts seven days before today. */
  const WEEK: int := 7
  /** The dashboard's activity chart covers the last thirty days. */
  const MONTH: int := 30
  /** The workout page lists the five most recent workouts. */
  const RECENT_WORKOUTS: nat := 5
  /** The measurement page lists the ten most recent measurements. */
  const RECENT_MEASUREMENTS: nat := 10

  // ---------------------------------------------------------------------------
  // BMI

  /** Weight (kg) over the square of the height in metres; absent, rather than a
      division by zero, unless the height is positive. */
  function Bmi(weight: real, height: real): (r: Option<real>)
    ensures r.Some? <==> height > 0.0
    ensures r.Some? ==> r.value * ((height / 100.0) * (height / 100.0)) == weight
  {
    if height > 0.0 then
      var metres := height / 100.0;
      Some(weight / (metres * metres))
    else None
  }

  // ---------------------------------------------------------------------------
  // Dashboard

  datatype Dashboard = Dashboard(
    totalWorkouts: nat,
    workoutsThisWeek: nat,
    totalBurned: int,
    burnedThisWeek: int,
    latest: Option<BodyMeasurement>,
    consumedToday: int)

  /** The newest measurement: `order_by(date.desc()).first()`. */
  function Latest(measurements: seq<BodyMeasurement>): (r: Option<BodyMeasurement>)
    ensures r.None? <==> measurements == []
    ensures r.Some? ==> r.value in measurements
    ensures r.Some? ==> forall m :: m in measurements ==> m.date <= r.value.date
  {
    if measurements == [] then None
    else
      NewestFirstHead(measurements, MeasurementDate);
      Some(NewestFirst(measurements, MeasurementDate)[0])
  }

  /** The four dashboard metrics. The week's figures never exceed the all-time
      ones (for the sums: as long as no workout burns a negative amount). */
  function DashboardOf(workouts: seq<Workout>, meals: seq<Meal>, measurements: seq<BodyMeasurement>, today: Date): (d: Dashboard)
    ensures d.totalWorkouts == |workouts|
    ensures d.workoutsThisWeek == |Since(workouts, WorkoutDate, today - WEEK)|
    ensures d.burnedThisWeek == Sum(Since(workouts, WorkoutDate, today - WEEK), CaloriesBurned)
    ensures d.workoutsThisWeek <= d.totalWorkouts
    ensures d.workoutsThisWeek == d.totalWorkouts <==> forall w :: w in workouts ==> w.date >= today - WEEK
    ensures (forall w :: w in workouts ==> w.caloriesBurned >= 0) ==> d.burnedThisWeek <= d.totalBurned
    ensures d.totalBurned == Sum(workouts, CaloriesBurned)
    ensures d.latest == Latest(measurements)
    ensures d.consumedToday == DailyBalance(workouts, meals, today).consumed
  {
    var weekAgo := today - WEEK;
    var thisWeek := Since(workouts, WorkoutDate, weekAgo);
    SinceBounds(workouts, WorkoutDate, weekAgo, CaloriesBurned);
    Dashboard(|workouts|, |thisWeek|, Sum(workouts, CaloriesBurned), Sum(thisWeek, CaloriesBurned),
              Latest(measurements), DailyBalance(workouts, meals, today).consumed)
  }

  /** Logging a workout dated within the week raises the week's count by one
      and its calories by the workout's; an older workout leaves both as they
      were. */
  lemma WeekAfterWorkout(workouts: seq<Workout>, meals: seq<Meal>, measurements: seq<BodyMeasurement>, w: Workout, today: Date)
    ensures var before := DashboardOf(workouts, meals, measurements, today);
      var after := DashboardOf(workouts + [w], meals, measurements, today);
      && (w.date >= today - WEEK ==> after.workoutsThisWeek == before.workoutsThisWeek + 1)
      && (w.date >= today - WEEK ==> after.burnedThisWeek == before.burnedThisWeek + w.caloriesBurned)
      && (w.date < today - WEEK ==> after.workoutsThisWeek == before.workoutsThisWeek)
      && (w.date < today - WEEK ==> after.burnedThisWeek == before.burnedThisWeek)
  {
    var week := Since(workouts, WorkoutDate, today - WEEK);
    SinceAppend(workouts, w, WorkoutDate, today - WEEK);
    if w.date >= today - WEEK {
      SumAppend(week, w, CaloriesBurned);
    } else {
      assert Since(workouts + [w], WorkoutDate, today - WEEK) == week;
    }
  }

  // ---------------------------------------------------------------------------
  // Daily calorie balance

  datatype BalanceLabel = Surplus | Deficit

  datatype Balance = Balance(consumed: int, burned: int, net: int, status: BalanceLabel)

  /** The calories eaten on `day` (`sum(Meal.calories) where date == day`, 0 if none). */
  function Consumed(meals: seq<Meal>, day: Date): int {
    Sum(Matching(meals, MealDate, day), MealCalories)
  }

  /** The calories burned on `day`. */
  function Burned(workouts: seq<Workout>, day: Date): int {
    Sum(Matching(workouts, WorkoutDate, day), CaloriesBurned)
  }

  /** Calories eaten and burned on `day`, their difference, and its label:
      "Surplus" only when strictly more was eaten than burned, so a day that
      breaks even is a "Deficit". */
  function DailyBalance(workouts: seq<Workout>, meals: seq<Meal>, day: Date): (b: Balance)
    ensures b.net == b.consumed - b.burned
    ensures b.status == Surplus <==> b.consumed > b.burned
    ensures b.status == Deficit <==> b.net <= 0
  {
    var consumed := Consumed(meals, day);
    var burned := Burned(workouts, day);
    var net := consumed - burned;
    Balance(consumed, burned, net, if net > 0 then Surplus else Deficit)
  }

  /** A day without meals has consumed 0, a day without workouts burned 0. */
  lemma IdleDayBalance(workouts: seq<Workout>, meals: seq<Meal>, day: Date)
    ensures (forall m :: m in meals ==> m.date != day) ==> DailyBalance(workouts, meals, day).consumed == 0
    ensures (forall w :: w in workouts ==> w.date != day) ==> DailyBalance(workouts, meals, day).burned == 0
  {
    MatchingNone(meals, MealDate, day);
    MatchingNone(workouts, WorkoutDate, day);
  }

  /** Logging a meal adds its calories to the balance of its own day and to no
      other day's. */
  lemma BalanceAfterMeal(workouts: seq<Workout>, meals: seq<Meal>, m: Meal, day: Date)
    ensures DailyBalance(workouts, meals + [m], day).consumed
         == DailyBalance(workouts, meals, day).consumed + (if m.date == day then m.calories else 0)
    ensures DailyBalance(workouts, meals + [m], day).burned == DailyBalance(workouts, meals, day).burned
  {
    MatchingAppend(meals, m, MealDate, day);
    if m.date == day {
      SumAppend(Matching(meals, MealDate, day), m, MealCalories);
    } else {
      assert Matching(meals + [m], MealDate, day) == Matching(meals, MealDate, day);
    }
  }

  /** Logging a workout adds its calories to the burned figure of its own day
      and to no other day's. */
  lemma BalanceAfterWorkout(workouts: seq<Workout>, meals: seq<Meal>, w: Workout, day: Date)
    ensures DailyBalance(workouts + [w], meals, day).burned
         == DailyBalance(workouts, meals, day).burned + (if w.date == day then w.caloriesBurned else 0)
    ensures DailyBalance(workouts + [w], meals, day).consumed == DailyBalance(workouts, meals, day).consumed
  {
    MatchingAppend(workouts, w, WorkoutDate, day);
    if w.date == day {
      SumAppend(Matching(workouts, WorkoutDate, day), w, CaloriesBurned);
    } else {
      assert Matching(workouts + [w], WorkoutDate, day) == Matching(workouts, WorkoutDate, day);
    }
  }

  // ---------------------------------------------------------------------------
  // Breakdowns (pandas group-by-and-sum of duration and calories)

  /** Duration and calories summed per group; both lists carry the same keys. */
  datatype Summary<K> = Summary(duration: seq<Group<K>>, calories: seq<Group<K>>)

  /** Duration and calories grouped by `key`, one group per key of `keys`. */
  function Summarise<K(==)>(keys: seq<K>, workouts: seq<Workout>, key: Workout -> K): (r: Summary<K>)
    ensures Keys(r.duration) == keys && Keys(r.calories) == keys
    ensures |r.duration| == |keys| && |r.calories| == |keys|
    ensures forall i :: 0 <= i < |r.duration| ==>
      r.duration[i].total == Sum(Matching(workouts, key, r.duration[i].key), Duration)
    ensures forall i :: 0 <= i < |r.calories| ==>
      r.calories[i].total == Sum(Matching(workouts, key, r.calories[i].key), CaloriesBurned)
  {
    Summary(GroupSum(keys, workouts, key, Duration), GroupSum(keys, workouts, key, CaloriesBurned))
  }

  /** The dashboard's activity chart: the workouts of the last thirty days,
      summed per day. The days are ascending, each is the day of some workout in
      the window, every workout in the window has its day among them, and the
      daily figures add up to the window's totals. */
  function ActivityPerDay(workouts: seq<Workout>, today: Date): (r: Summary<Date>)
    ensures Keys(r.duration) == Keys(r.calories)
    ensures Ascending(Keys(r.calories))
    ensures forall w :: w in workouts && w.date >= today - MONTH ==> w.date in Keys(r.calories)
    ensures forall k :: k in Keys(r.calories) ==> exists w :: w in workouts && w.date >= today - MONTH && w.date == k
    ensures |r.duration| == |r.calories|
    ensures forall i :: 0 <= i < |r.duration| ==>
      r.duration[i].total == Sum(Matching(Since(workouts, WorkoutDate, today - MONTH), WorkoutDate, r.duration[i].key), Duration)
    ensures forall i :: 0 <= i < |r.calories| ==>
      r.calories[i].total == Sum(Matching(Since(workouts, WorkoutDate, today - MONTH), WorkoutDate, r.calories[i].key), CaloriesBurned)
    ensures Column(r.duration) == Sum(Since(workouts, WorkoutDate, today - MONTH), Duration)
    ensures Column(r.calories) == Sum(Since(workouts, WorkoutDate, today - MONTH), CaloriesBurned)
  {
    var window := Since(workouts, WorkoutDate, today - MONTH);
    var days := SortedDates(window, WorkoutDate);
    GroupSumTotal(days, window, WorkoutDate, Duration);
    GroupSumTotal(days, window, WorkoutDate, CaloriesBurned);
    var r := Summarise(days, window, WorkoutDate);
    assert Keys(r.calories) == days;
    assert forall w :: w in workouts && w.date >= today - MONTH ==> w.date in days by {
      forall w | w in workouts && w.date >= today - MONTH ensures w.date in days {
        assert w in window;
        assert WorkoutDate(w) in days;
      }
    }
    assert forall k :: k in days ==> exists w :: w in workouts && w.date >= today - MONTH && w.date == k by {
      forall k | k in days ensures exists w :: w in workouts && w.date >= today - MONTH && w.date == k {
        var w :| w in window && WorkoutDate(w) == k;
        assert w in workouts && w.date >= today - MONTH;
      }
    }
    r
  }

  /** The history page's exercise-type breakdown of the listed workouts: one
      group per exercise type that occurs, and the groups add up to the totals. */
  function ExerciseBreakdown(rows: seq<Workout>): (r: Summary<string>)
    ensures Keys(r.duration) == Keys(r.calories)
    ensures NoDuplicates(Keys(r.calories))
    ensures forall w :: w in rows ==> w.exerciseType in Keys(r.calories)
    ensures forall k :: k in Keys(r.calories) ==> exists w :: w in rows && w.exerciseType == k
    ensures |r.duration| == |r.calories|
    ensures forall i :: 0 <= i < |r.duration| ==>
      r.duration[i].total == Sum(Matching(rows, ExerciseType, r.duration[i].key), Duration)
    ensures forall i :: 0 <= i < |r.calories| ==>
      r.calories[i].total == Sum(Matching(rows, ExerciseType, r.calories[i].key), CaloriesBurned)
    ensures Column(r.duration) == Sum(rows, Duration)
    ensures Column(r.calories) == Sum(rows, CaloriesBurned)
  {
    var types := DistinctKeys(rows, ExerciseType);
    GroupSumTotal(types, rows, ExerciseType, Duration);
    GroupSumTotal(types, rows, ExerciseType, CaloriesBurned);
    Summarise(types, rows, ExerciseType)
  }

  /** The history page's daily calorie intake of the listed meals: ascending
      days, and the daily figures add up to the calories of all listed meals. */
  function IntakePerDay(rows: seq<Meal>): (r: seq<Group<Date>>)
    ensures Ascending(Keys(r))
    ensures forall m :: m in rows ==> m.date in Keys(r)
    ensures forall k :: k in Keys(r) ==> exists m :: m in rows && m.date == k
    ensures forall i :: 0 <= i < |r| ==> r[i].total == Consumed(rows, r[i].key)
    ensures Column(r) == Sum(rows, MealCalories)
  {
    var days := SortedDates(rows, MealDate);
    GroupSumTotal(days, rows, MealDate, MealCalories);
    GroupSum(days, rows, MealDate, MealCalories)
  }

  // ---------------------------------------------------------------------------
  // History page

  datatype WorkoutHistory = WorkoutHistory(
    rows: seq<Workout>, count: nat, totalDuration: int, totalCalories: int, byExercise: Summary<string>)

  /** The workouts of an inclusive range of days, newest first, with their count,
      totals and exercise breakdown. */
  function WorkoutHistoryOf(workouts: seq<Workout>, start: Date, end: Date): (h: WorkoutHistory)
    ensures h.rows == RangeNewestFirst(workouts, WorkoutDate, start, end)
    ensures h.count == |h.rows|
    ensures h.totalDuration == Sum(h.rows, Duration)
    ensures h.totalCalories == Sum(h.rows, CaloriesBurned)
    ensures h.byExercise == ExerciseBreakdown(h.rows)
    ensures Column(h.byExercise.duration) == h.totalDuration
    ensures Column(h.byExercise.calories) == h.totalCalories
  {
    var rows := RangeNewestFirst(workouts, WorkoutDate, start, end);
    WorkoutHistory(rows, |rows|, Sum(rows, Duration), Sum(rows, CaloriesBurned), ExerciseBreakdown(rows))
  }

  datatype MealHistory = MealHistory(rows: seq<Meal>, daily: seq<Group<Date>>)

  /** The meals of an inclusive range of days, newest first, with the calories
      eaten per day. */
  function MealHistoryOf(meals: seq<Meal>, start: Date, end: Date): (h: MealHistory)
    ensures h.rows == RangeNewestFirst(meals, MealDate, start, end)
    ensures h.daily == IntakePerDay(h.rows)
    ensures Column(h.daily) == Sum(h.rows, MealCalories)
  {
    var rows := RangeNewestFirst(meals, MealDate, start, end);
    MealHistory(rows, IntakePerDay(rows))
  }

  // ---------------------------------------------------------------------------
  // Recent rows

  /** The workout page's list: the five most recent workouts, newest first. */
  function RecentWorkouts(workouts: seq<Workout>): (r: seq<Workout>)
    ensures |r| == if |workouts| < RECENT_WORKOUTS then |workouts| else RECENT_WORKOUTS
    ensures NewestFirstOrder(r, WorkoutDate)
    ensures multiset(r) <= multiset(workouts)
    ensures forall w, v :: w in r && v in multiset(workouts) - multiset(r) ==> v.date <= w.date
  {
    TopN(workouts, WorkoutDate, RECENT_WORKOUTS)
  }

  /** The measurement page's table: the ten most recent measurements, newest first. */
  function MeasurementHistory(measurements: seq<BodyMeasurement>): (r: seq<BodyMeasurement>)
    ensures |r| == if |measurements| < RECENT_MEASUREMENTS then |measurements| else RECENT_MEASUREMENTS
    ensures NewestFirstOrder(r, MeasurementDate)
    ensures multiset(r) <= multiset(measurements)
    ensures forall m, n :: m in r && n in multiset(measurements) - multiset(r) ==> n.date <= m.date
  {
    TopN(measurements, MeasurementDate, RECENT_MEASUREMENTS)
  }

  // ---------------------------------------------------------------------------
  // Today's meals

  datatype MealTotals = MealTotals(calories: int, protein: real, carbs: real, fats: real)

  /** An absent macro counts as zero grams (`m.protein or 0`). */
  function OrZero(x: Option<real>): real {
    match x
    case Some(v) => v
    case None => 0.0
  }

  function Protein(m: Meal): real { OrZero(m.protein) }
  function Carbs(m: Meal): real { OrZero(m.carbs) }
  function Fats(m: Meal): real { OrZero(m.fats) }

  /** The totals over the meals of `today`, in the order they were logged: the
      calories are the day's consumed calories, every total is zero on a day
      without meals, and the macro totals are never negative. */
  function TodaysTotals(meals: seq<Meal>, today: Date): (t: MealTotals)
    ensures t.calories == Consumed(meals, today)
    ensures (forall m :: m in meals ==> m.date != today) ==> t == MealTotals(0, 0.0, 0.0, 0.0)
    ensures (forall m :: m in meals ==> NonNegativeMacros(m)) ==> t.protein >= 0.0 && t.carbs >= 0.0 && t.fats >= 0.0
  {
    var eaten := Matching(meals, MealDate, today);
    MatchingNone(meals, MealDate, today);
    MealTotals(Consumed(meals, today), SumReal(eaten, Protein), SumReal(eaten, Carbs), SumReal(eaten, Fats))
  }

  /** Every macro of the meal is absent or non-negative, as the form's inputs ensure. */
  predicate NonNegativeMacros(m: Meal) {
    Protein(m) >= 0.0 && Carbs(m) >= 0.0 && Fats(m) >= 0.0
  }

  /** Logging a meal for today adds its calories and its macros to today's
      totals, an absent macro adding nothing; a meal for another day changes
      nothing. */
  lemma TodaysTotalsAfterMeal(meals: seq<Meal>, m: Meal, today: Date)
    ensures m.date == today ==> TodaysTotals(meals + [m], today) == MealTotals(
      TodaysTotals(meals, today).calories + m.calories,
      TodaysTotals(meals, today).protein + OrZero(m.protein),
      TodaysTotals(meals, today).carbs + OrZero(m.carbs),
      TodaysTotals(meals, today).fats + OrZero(m.fats))
    ensures m.date != today ==> TodaysTotals(meals + [m], today) == TodaysTotals(meals, today)
  {
    MatchingAppend(meals, m, MealDate, today);
    var eaten := Matching(meals, MealDate, today);
    if m.date == today {
      SumAppend(eaten, m, MealCalories);
      SumRealAppend(eaten, m, Protein);
      SumRealAppend(eaten, m, Carbs);
      SumRealAppend(eaten, m, Fats);
    } else {
      assert Matching(meals + [m], MealDate, today) == eaten;
    }
  }

  // ---------------------------------------------------------------------------
  // Weight change

  datatype WeightTrend = Lost(kg: real) | Gained(kg: real) | Stable

  /** Newest weight minus oldest weight of a newest-first list, once it holds
      at least two measurements. */
  function WeightChange(history: seq<BodyMeasurement>): (r: Option<real>)
    ensures r.None? <==> |history| < 2
  {
    if |history| >= 2 then Some(history[0].weight - history[|history| - 1].weight) else None
  }

  /** The message of app.py as written: a positive change, which on the
      newest-first list means the newest weight is the higher one, is reported
      as weight lost. */
  function TrendAsWritten(change: Option<real>): (r: Option<WeightTrend>)
    ensures r.None? <==> change.None?
    ensures r.Some? ==> (r.value.Lost? <==> change.value > 0.0)
    ensures r.Some? ==> (r.value.Gained? <==> change.value < 0.0)
    ensures r.Some? && r.value.Lost? ==> r.value.kg == change.value
    ensures r.Some? && r.value.Gained? ==> r.value.kg == -change.value
  {
    match change
    case None => None
    case Some(c) => Some(if c > 0.0 then Lost(c) else if c < 0.0 then Gained(-c) else Stable)
  }

  /** The message as intended: weight gained when the change is positive. */
  function Trend(change: Option<real>): (r: Option<WeightTrend>)
    ensures r.None? <==> change.None?
    ensures r.Some? ==> (r.value.Gained? <==> change.value > 0.0)
    ensures r.Some? ==> (r.value.Lost? <==> change.value < 0.0)
    ensures r.Some? && r.value.Gained? ==> r.value.kg == change.value
    ensures r.Some? && r.value.Lost? ==> r.value.kg == -change.value
  {
    match change
    case None => None
    case Some(c) => Some(if c > 0.0 then Gained(c) else if c < 0.0 then Lost(-c) else Stable)
  }

  /** The weight-change message of the measurement page, as written: present
      from two measurements on, and "lost" exactly when the newest listed
      weight is above the oldest listed one. */
  function WeightTrendAsWritten(measurements: seq<BodyMeasurement>): (r: Option<WeightTrend>)
    ensures r.None? <==> |measurements| < 2
    ensures var h := MeasurementHistory(measurements);
      r.Some? ==> |h| >= 2 && (r.value.Lost? <==> h[0].weight > h[|h| - 1].weight)
  {
    TrendAsWritten(WeightChange(MeasurementHistory(measurements)))
  }

  /** The weight-change message as intended: "gained" exactly when the newest
      listed weight is above the oldest listed one. */
  function WeightTrendOf(measurements: seq<BodyMeasurement>): (r: Option<WeightTrend>)
    ensures r.None? <==> |measurements| < 2
    ensures var h := MeasurementHistory(measurements);
      r.Some? ==> |h| >= 2 && (r.value.Gained? <==> h[0].weight > h[|h| - 1].weight)
  {
    Trend(WeightChange(MeasurementHistory(measurements)))
  }

  /** With one measurement per day: there is a trend exactly when there are two
      measurements or more; it compares the newest measurement of the table with
      an older one, the oldest of the ten listed; and it says "gained" exactly
      when the newest weight is the higher, by the difference. */
  lemma WeightTrendSpec(measurements: seq<BodyMeasurement>)
    requires Distinct(measurements, MeasurementDate)
    ensures WeightTrendOf(measurements).None? <==> |measurements| < 2
    ensures var h := MeasurementHistory(measurements);
      WeightTrendOf(measurements).Some? ==>
        && h[0] in measurements && h[|h| - 1] in measurements
        && (forall m :: m in measurements ==> m.date <= h[0].date)
        && h[|h| - 1].date < h[0].date
        && (WeightTrendOf(measurements).value.Gained? <==> h[0].weight > h[|h| - 1].weight)
        && (WeightTrendOf(measurements).value.Lost? <==> h[0].weight < h[|h| - 1].weight)
        && (WeightTrendOf(measurements).value.Gained? ==> h[0].weight == h[|h| - 1].weight + WeightTrendOf(measurements).value.kg)
        && (WeightTrendOf(measurements).value.Lost? ==> h[0].weight + WeightTrendOf(measurements).value.kg == h[|h| - 1].weight)
  {
    if |measurements| >= 2 {
      HistoryEnds(measurements);
      TrendOfHistory(MeasurementHistory(measurements));
    }
  }

  /** On a list of two measurements or more, the corrected message compares its
      first and last weights and names the difference. */
  lemma TrendOfHistory(h: seq<BodyMeasurement>)
    requires |h| >= 2
    ensures var t := Trend(WeightChange(h));
      && t.Some?
      && (t.value.Gained? <==> h[0].weight > h[|h| - 1].weight)
      && (t.value.Lost? <==> h[0].weight < h[|h| - 1].weight)
      && (t.value.Gained? ==> h[0].weight == h[|h| - 1].weight + t.value.kg)
      && (t.value.Lost? ==> h[0].weight + t.value.kg == h[|h| - 1].weight)
  {
    assert WeightChange(h) == Some(h[0].weight - h[|h| - 1].weight);
  }

  /** With one measurement per day and two or more of them, the listed history
      starts at the newest measurement and ends at a strictly older one. */
  lemma HistoryEnds(measurements: seq<BodyMeasurement>)
    requires Distinct(measurements, MeasurementDate) && |measurements| >= 2
    ensures var h := MeasurementHistory(measurements);
      && |h| >= 2
      && h[0] in measurements && h[|h| - 1] in measurements
      && (forall m :: m in measurements ==> m.date <= h[0].date)
      && h[|h| - 1].date < h[0].date
  {
    var h := MeasurementHistory(measurements);
    var last := |h| - 1;
    assert h[0] in multiset(h) && h[last] in multiset(h);
    DistinctOfSubMultiset(h, measurements, MeasurementDate);
    assert MeasurementDate(h[0]) != MeasurementDate(h[last]);
    forall m | m in measurements ensures m.date <= h[0].date {
      if m !in h {
        assert m in multiset(measurements) - multiset(h);
      } else {
        var j :| 0 <= j < |h| && h[j] == m;
      }
    }
  }

  /** The message as written names the trend the
      wrong way round: whenever the newest weight is above the oldest listed,
      it reports a loss, and the other way round. */
  lemma WeightTrendAsWrittenInverted(measurements: seq<BodyMeasurement>)
    ensures WeightTrendAsWritten(measurements) == Invert(WeightTrendOf(measurements))
  {
    TrendInverted(WeightChange(MeasurementHistory(measurements)));
  }

  lemma TrendInverted(change: Option<real>)
    ensures TrendAsWritten(change) == Invert(Trend(change))
  {
    match change
    case None =>
    case Some(c) =>
      if c > 0.0 {
        assert Trend(change) == Some(Gained(c));
      } else if c < 0.0 {
        assert Trend(change) == Some(Lost(-c));
      }
  }

  function Invert(t: Option<WeightTrend>): Option<WeightTrend> {
    match t
    case None => None
    case Some(Lost(kg)) => Some(Gained(kg))
    case Some(Gained(kg)) => Some(Lost(kg))
    case Some(Stable) => Some(Stable)
  }

  /** A concrete case: 75.2 kg on day 1, then 77.5 kg on day 8. The newest
      weight is 2.3 kg higher, and the message as written reports 2.3 kg lost. */
  lemma WeightGainReportedAsLoss()
    ensures var table := [BodyMeasurement(1, 1, 75.2, Some(175.0), None, None, None),
                          BodyMeasurement(2, 8, 77.5, Some(175.0), None, None, None)];
      && WeightTrendAsWritten(table) == Some(Lost(2.3))
      && WeightTrendOf(table) == Some(Gained(2.3))
  {
    var table := [BodyMeasurement(1, 1, 75.2, Some(175.0), None, None, None),
                  BodyMeasurement(2, 8, 77.5, Some(175.0), None, None, None)];
    var h := MeasurementHistory(table);
    assert |h| == 2;
    assert h[0] == table[1] && h[1] == table[0] by {
      assert h[0].date >= h[1].date;
      assert multiset(h) == multiset(table);
      assert h[0] in table && h[1] in table;
    }
  }

  /** The app's own sample measurements, shortened to their two ends: 77.5 kg
      four weeks ago and 75.2 kg today. The weight fell by 2.3 kg, and the
      message as written reports 2.3 kg gained. */
  lemma WeightLossReportedAsGain()
    ensures var table := [BodyMeasurement(1, 28, 75.2, Some(175.0), Some(24.55), Some(15.5), None),
                          BodyMeasurement(2, 0, 77.5, Some(175.0), Some(25.31), Some(17.2), None)];
      && WeightTrendAsWritten(table) == Some(Gained(2.3))
      && WeightTrendOf(table) == Some(Lost(2.3))
  {
    var table := [BodyMeasurement(1, 28, 75.2, Some(175.0), Some(24.55), Some(15.5), None),
                  BodyMeasurement(2, 0, 77.5, Some(175.0), Some(25.31), Some(17.2), None)];
    var h := MeasurementHistory(table);
    assert |h| == 2;
    assert h[0] == table[0] && h[1] == table[1] by {
      assert h[0].date >= h[1].date;
      assert multiset(h) == multiset(table);
      assert h[0] in table && h[1] in table;
    }
  }
}
