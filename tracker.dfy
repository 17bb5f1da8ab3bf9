/** The write side of the tracker (app.py): the three entry forms, the rows
    they produce, and the store that holds the three tables and changes them
    when a form is submitted or a row's delete button is pressed. */
module Tracker {
  import opened Models
  import opened Queries
  import opened Metrics

  // ---------------------------------------------------------------------------
  // Forms: the values a submitted form carries

  datatype WorkoutForm = WorkoutForm(
    date: Date, exerciseType: string, duration: int, caloriesBurned: int, notes: string)

  datatype MealForm = MealForm(
    date: Date, mealType: string, foodName: string, calories: int,
    protein: real, carbs: real, fats: real)

  datatype MeasurementForm = MeasurementForm(
    date: Date, weight: real, height: real, bodyFat: real, notes: string)

  /** An empty text field is stored as NULL (`notes if notes else None`). */
  function TextOrAbsent(text: string): (r: Option<string>)
    ensures r.None? <==> text == []
    ensures r.Some? ==> r.value == text
  {
    if text == [] then None else Some(text)
  }

  /** A zero amount is stored as NULL (`x if x > 0 else None`). */
  function PositiveOrAbsent(x: real): (r: Option<real>)
    ensures r.None? <==> x <= 0.0
    ensures r.Some? ==> r.value == x && r.value > 0.0
  {
    if x > 0.0 then Some(x) else None
  }

  /** The bounds of the form's number inputs (`min_value`/`max_value`). */
  predicate WorkoutInput(f: WorkoutForm) {
    f.duration >= 1 && f.caloriesBurned >= 0
  }

  predicate MealInput(f: MealForm) {
    f.calories >= 0 && f.protein >= 0.0 && f.carbs >= 0.0 && f.fats >= 0.0
  }

  predicate MeasurementInput(f: MeasurementForm) {
    f.weight >= 0.0 && f.height >= 0.0 && 0.0 <= f.bodyFat <= 100.0
  }

  // ---------------------------------------------------------------------------
  // Rows built from a form

  function WorkoutRow(id: int, f: WorkoutForm): (w: Workout)
    ensures w.id == id && w.date == f.date && w.exerciseType == f.exerciseType
    ensures w.duration == f.duration && w.caloriesBurned == f.caloriesBurned
    ensures w.notes == TextOrAbsent(f.notes)
  {
    Workout(id, f.date, f.exerciseType, f.duration, f.caloriesBurned, TextOrAbsent(f.notes))
  }

  function MealRow(id: int, f: MealForm): (m: Meal)
    ensures m.id == id && m.date == f.date && m.mealType == f.mealType
    ensures m.foodName == f.foodName && m.calories == f.calories
    ensures m.protein == PositiveOrAbsent(f.protein)
    ensures m.carbs == PositiveOrAbsent(f.carbs)
    ensures m.fats == PositiveOrAbsent(f.fats)
  {
    Meal(id, f.date, f.mealType, f.foodName, f.calories,
         PositiveOrAbsent(f.protein), PositiveOrAbsent(f.carbs), PositiveOrAbsent(f.fats))
  }

  /** The measurement a saved form leaves in the table: the height is always
      stored, the BMI is derived from weight and height. */
  function MeasurementRow(id: int, f: MeasurementForm): (m: BodyMeasurement)
    ensures m.id == id && m.date == f.date && m.weight == f.weight
    ensures m.height == Some(f.height)
    ensures m.bmi == Bmi(f.weight, f.height)
    ensures m.bodyFatPercentage == PositiveOrAbsent(f.bodyFat)
    ensures m.notes == TextOrAbsent(f.notes)
  {
    BodyMeasurement(id, f.date, f.weight, Some(f.height), Bmi(f.weight, f.height),
                    PositiveOrAbsent(f.bodyFat), TextOrAbsent(f.notes))
  }

  // ---------------------------------------------------------------------------
  // Saving a measurement: update the day's row if there is one, else insert

  /** The table after saving form `f`: the form's values are in it under some
      id, and it has grown by a row exactly when no row had the form's date. */
  function Upserted(ms: seq<BodyMeasurement>, f: MeasurementForm): (r: seq<BodyMeasurement>)
    ensures exists id :: MeasurementRow(id, f) in r
    ensures (exists m :: m in ms && m.date == f.date) ==> |r| == |ms|
    ensures (forall m :: m in ms ==> m.date != f.date) ==> |r| == |ms| + 1
  {
    match FirstIndex(ms, MeasurementDate, f.date)
    case Some(i) =>
      var r := ms[i := MeasurementRow(ms[i].id, f)];
      assert r[i] == MeasurementRow(ms[i].id, f);
      r
    case None =>
      var r := ms + [MeasurementRow(NewId(ms, MeasurementId), f)];
      assert r[|ms|] == MeasurementRow(NewId(ms, MeasurementId), f);
      r
  }

  /** Saving a measurement keeps one row per day and unique ids; afterwards the
      day holds exactly one row, carrying the form's values, under the id the
      day already had or under a fresh id; every other day's rows are
      untouched; the table grows by one row exactly when the day was new. */
  lemma UpsertedSpec(ms: seq<BodyMeasurement>, f: MeasurementForm)
    requires Distinct(ms, MeasurementId) && Distinct(ms, MeasurementDate)
    ensures Distinct(Upserted(ms, f), MeasurementId)
    ensures Distinct(Upserted(ms, f), MeasurementDate)
    ensures Without(Upserted(ms, f), MeasurementDate, f.date) == Without(ms, MeasurementDate, f.date)
    ensures forall m :: m in ms && m.date == f.date ==>
      && Matching(Upserted(ms, f), MeasurementDate, f.date) == [MeasurementRow(m.id, f)]
      && |Upserted(ms, f)| == |ms|
    ensures (forall m :: m in ms ==> m.date != f.date) ==>
      && Matching(Upserted(ms, f), MeasurementDate, f.date) == [MeasurementRow(NewId(ms, MeasurementId), f)]
      && |Upserted(ms, f)| == |ms| + 1
  {
    match FirstIndex(ms, MeasurementDate, f.date)
    case Some(i) =>
      assert Upserted(ms, f) == ms[i := MeasurementRow(ms[i].id, f)];
      UpdatedDay(ms, f, i);
      forall m | m in ms && m.date == f.date ensures m == ms[i] {
        var j :| 0 <= j < |ms| && ms[j] == m;
        assert MeasurementDate(ms[j]) == MeasurementDate(ms[i]);
      }
    case None =>
      assert Upserted(ms, f) == ms + [MeasurementRow(NewId(ms, MeasurementId), f)];
      CreatedDay(ms, f);
  }

  /** The day already had row `i`: it is overwritten under its own id. */
  lemma UpdatedDay(ms: seq<BodyMeasurement>, f: MeasurementForm, i: nat)
    requires Distinct(ms, MeasurementId) && Distinct(ms, MeasurementDate)
    requires i < |ms| && ms[i].date == f.date
    ensures var r := ms[i := MeasurementRow(ms[i].id, f)];
      && Distinct(r, MeasurementId)
      && Distinct(r, MeasurementDate)
      && Without(r, MeasurementDate, f.date) == Without(ms, MeasurementDate, f.date)
      && Matching(r, MeasurementDate, f.date) == [MeasurementRow(ms[i].id, f)]
  {
    var row := MeasurementRow(ms[i].id, f);
    DistinctUpdate(ms, i, row, MeasurementId);
    DistinctUpdate(ms, i, row, MeasurementDate);
    WithoutUpdate(ms, i, row, MeasurementDate);
    MatchingUnique(ms[i := row], MeasurementDate, i);
  }

  /** The day was new: a row is appended under a fresh id. */
  lemma CreatedDay(ms: seq<BodyMeasurement>, f: MeasurementForm)
    requires Distinct(ms, MeasurementId) && Distinct(ms, MeasurementDate)
    requires forall m :: m in ms ==> m.date != f.date
    ensures var r := ms + [MeasurementRow(NewId(ms, MeasurementId), f)];
      && Distinct(r, MeasurementId)
      && Distinct(r, MeasurementDate)
      && Without(r, MeasurementDate, f.date) == Without(ms, MeasurementDate, f.date)
      && Matching(r, MeasurementDate, f.date) == [MeasurementRow(NewId(ms, MeasurementId), f)]
  {
    var row := MeasurementRow(NewId(ms, MeasurementId), f);
    DistinctAppend(ms, row, MeasurementId);
    DistinctAppend(ms, row, MeasurementDate);
    WithoutAppend(ms, row, MeasurementDate, f.date);
    MatchingAppend(ms, row, MeasurementDate, f.date);
    MatchingNone(ms, MeasurementDate, f.date);
  }

  /** Saving the same form twice leaves the table as saving it once. */
  lemma UpsertedIdempotent(ms: seq<BodyMeasurement>, f: MeasurementForm)
    ensures Upserted(Upserted(ms, f), f) == Upserted(ms, f)
  {
    var r := Upserted(ms, f);
    match FirstIndex(ms, MeasurementDate, f.date)
    case Some(i) =>
      FirstIndexAt(r, MeasurementDate, f.date, i);
    case None =>
      assert forall j :: 0 <= j < |ms| ==> ms[j] in ms;
      FirstIndexAt(r, MeasurementDate, f.date, |ms|);
  }

  // ---------------------------------------------------------------------------
  // The store

  datatype MealOutcome = Logged(id: int) | MissingFoodName
  /** What the page reports: an update shows no figures, a creation shows the
      new row's BMI. */
  datatype SaveOutcome = Updated | Created(id: int, bmi: Option<real>)

  /** Every row satisfies the bounds of the form that wrote it. */
  predicate Entered(workouts: seq<Workout>, meals: seq<Meal>) {
    && (forall w :: w in workouts ==> w.duration >= 1 && w.caloriesBurned >= 0)
    && (forall m :: m in meals ==> m.calories >= 0 && m.foodName != [])
  }

  /** The database behind the app: three tables, each in insertion order. */
  class Store {
    var workouts: seq<Workout>
    var meals: seq<Meal>
    var measurements: seq<BodyMeasurement>

    ghost predicate Valid()
      reads this
    {
      ValidTables(workouts, meals, measurements) && Entered(workouts, meals)
    }

    /** `create_all` on a fresh database file: three empty tables. */
    constructor()
      ensures Valid()
      ensures workouts == [] && meals == [] && measurements == []
    {
      workouts := [];
      meals := [];
      measurements := [];
    }

    /** "Log Workout": the row is appended under a fresh id. */
    method LogWorkout(f: WorkoutForm) returns (id: int)
      requires Valid() && WorkoutInput(f)
      modifies this
      ensures Valid()
      ensures id == NewId(old(workouts), WorkoutId)
      ensures workouts == old(workouts) + [WorkoutRow(id, f)]
      ensures meals == old(meals) && measurements == old(measurements)
    {
      id := NewId(workouts, WorkoutId);
      DistinctAppend(workouts, WorkoutRow(id, f), WorkoutId);
      workouts := workouts + [WorkoutRow(id, f)];
    }

    /** "Log Meal": refused, with nothing written, when the food name is empty. */
    method LogMeal(f: MealForm) returns (outcome: MealOutcome)
      requires Valid() && MealInput(f)
      modifies this
      ensures Valid()
      ensures outcome.MissingFoodName? <==> f.foodName == []
      ensures outcome.MissingFoodName? ==> meals == old(meals)
      ensures outcome.Logged? ==> outcome.id == NewId(old(meals), MealId)
      ensures outcome.Logged? ==> meals == old(meals) + [MealRow(outcome.id, f)]
      ensures workouts == old(workouts) && measurements == old(measurements)
    {
      if f.foodName != [] {
        var id := NewId(meals, MealId);
        DistinctAppend(meals, MealRow(id, f), MealId);
        meals := meals + [MealRow(id, f)];
        outcome := Logged(id);
      } else {
        outcome := MissingFoodName;
      }
    }

    /** "Save Measurement": the day's row, if there is one, has its fields
        overwritten in place; otherwise a new row is inserted. */
    method SaveMeasurement(f: MeasurementForm) returns (outcome: SaveOutcome)
      requires Valid() && MeasurementInput(f)
      modifies this
      ensures Valid()
      ensures measurements == Upserted(old(measurements), f)
      ensures outcome.Updated? <==> exists m :: m in old(measurements) && m.date == f.date
      ensures outcome.Created? ==> outcome.bmi == Bmi(f.weight, f.height)
      ensures outcome.Created? ==> outcome.id == NewId(old(measurements), MeasurementId)
      ensures workouts == old(workouts) && meals == old(meals)
    {
      var bmi := Bmi(f.weight, f.height);
      var found := FirstIndex(measurements, MeasurementDate, f.date);
      match found
      case Some(i) =>
        UpdatedDay(measurements, f, i);
        assert measurements[i] in measurements;
        var existing := measurements[i];
        existing := existing.(weight := f.weight, height := Some(f.height), bmi := bmi,
                              bodyFatPercentage := PositiveOrAbsent(f.bodyFat),
                              notes := TextOrAbsent(f.notes));
        assert existing == MeasurementRow(measurements[i].id, f);
        measurements := measurements[i := existing];
        outcome := Updated;
      case None =>
        CreatedDay(measurements, f);
        var id := NewId(measurements, MeasurementId);
        measurements := measurements + [MeasurementRow(id, f)];
        outcome := Created(id, bmi);
    }

    /** The delete button of a listed workout. */
    method DeleteWorkout(id: int)
      requires Valid()
      modifies this
      ensures Valid()
      ensures workouts == Without(old(workouts), WorkoutId, id)
      ensures (exists w :: w in old(workouts) && w.id == id) ==> |workouts| == |old(workouts)| - 1
      ensures meals == old(meals) && measurements == old(measurements)
    {
      WithoutUniqueKey(workouts, WorkoutId, id);
      WithoutKeepsDistinct(workouts, WorkoutId, id, WorkoutId);
      workouts := Without(workouts, WorkoutId, id);
    }

    /** The delete button of one of today's meals. */
    method DeleteMeal(id: int)
      requires Valid()
      modifies this
      ensures Valid()
      ensures meals == Without(old(meals), MealId, id)
      ensures (exists m :: m in old(meals) && m.id == id) ==> |meals| == |old(meals)| - 1
      ensures workouts == old(workouts) && measurements == old(measurements)
    {
      WithoutUniqueKey(meals, MealId, id);
      WithoutKeepsDistinct(meals, MealId, id, MealId);
      meals := Without(meals, MealId, id);
    }
  }
}
