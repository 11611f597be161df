/** The records the application keeps: a generated workout plan and its parts,
    a saved copy of a plan, and one entry of the completion history. */
module Types {

  datatype Option<+T> = None | Some(value: T)

  /** A point in time: milliseconds on the local wall clock since local
      midnight of 1970-01-01 (a Thursday). The time zone is a fixed offset. */
  type Instant = int

  datatype Exercise = Exercise(
    name: string,
    sets: string,
    reps: string,
    rest: string,
    description: string)

  datatype DailyWorkout = DailyWorkout(
    day: int,
    title: string,
    focus: string,
    exercises: seq<Exercise>)

  datatype WorkoutPlan = WorkoutPlan(
    planTitle: string,
    weeklySummary: string,
    dailyWorkouts: seq<DailyWorkout>)

  /** A plan as the saved-plan list holds it. */
  datatype SavedWorkoutPlan = SavedWorkoutPlan(
    id: string,
    savedAt: Instant,
    plan: WorkoutPlan)

  datatype CompletedWorkoutLog = CompletedWorkoutLog(
    date: Instant,
    workoutTitle: string)
}
