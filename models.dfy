/** The three record tables of the tracker (models.py): their row shapes and
    the invariants the table definitions declare. A column declared
    `nullable=False` is a plain field; a nullable column is an `Option`. */
module Models {

  datatype Option<T> = None | Some(value: T)

  /** A calendar day, as a day number (consecutive days differ by one). */
  type Date = int

  /** A row of the `workouts` table. */
  datatype Workout = Workout(
    id: int,
    date: Date,
    exerciseType: string,
    duration: int,          // minutes
    caloriesBurned: int,
    notes: Option<string>)

  /** A row of the `meals` table; the macros are grams. */
  datatype Meal = Meal(
    id: int,
    date: Date,
    mealType: string,
    foodName: string,
    calories: int,
    protein: Option<real>,
    carbs: Option<real>,
    fats: Option<real>)

  /** A row of the `body_measurements` table; weight in kg, height in cm. */
  datatype BodyMeasurement = BodyMeasurement(
    id: int,
    date: Date,
    weight: real,
    height: Option<real>,
    bmi: Option<real>,
    bodyFatPercentage: Option<real>,
    notes: Option<string>)

  // Column accessors, passed to the generic queries as key and value selectors.

  function WorkoutId(w: Workout): int { w.id }
  function WorkoutDate(w: Workout): Date { w.date }
  function ExerciseType(w: Workout): string { w.exerciseType }
  function Duration(w: Workout): int { w.duration }
  function CaloriesBurned(w: Workout): int { w.caloriesBurned }

  function MealId(m: Meal): int { m.id }
  function MealDate(m: Meal): Date { m.date }
  function MealCalories(m: Meal): int { m.calories }

  function MeasurementId(m: BodyMeasurement): int { m.id }
  function MeasurementDate(m: BodyMeasurement): Date { m.date }

  /** No two rows of `s` agree on the column `key`. */
  predicate Distinct<T, K(==)>(s: seq<T>, key: T -> K) {
    forall i, j :: 0 <= i < j < |s| ==> key(s[i]) != key(s[j])
  }

  /** The table-level invariants: every table's integer primary key is unique
      within its table, and `body_measurements.date` is declared unique. */
  predicate ValidTables(workouts: seq<Workout>, meals: seq<Meal>, measurements: seq<BodyMeasurement>) {
    && Distinct(workouts, WorkoutId)
    && Distinct(meals, MealId)
    && Distinct(measurements, MeasurementId)
    && Distinct(measurements, MeasurementDate)
  }
}
