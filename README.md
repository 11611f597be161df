# Workout planner: saved plans, completion history and weekly summary

This project models the sequential logic behind the workout planner's UI and proves properties of it.

The browser's local storage is one map from string keys to text, `KeyValueStore.LocalStore`. Two services share that one store:

- **The saved-plan repository** (`PlanService.PlanRepository`). It keeps one serialized list of saved plans under the key `workoutSavedPlans`, most recently saved first. Saving puts a new entry in front. Deleting filters the list by id. `IsPlanSaved` asks whether some entry has the same title and summary as a plan.
- **The progress log** (`ProgressService.ProgressLog`). It keeps the completion history under the key `workoutProgressHistory`, oldest first. Logging appends one entry, unless an entry already lies at or after today's local midnight. Clearing removes the key.

The progress chart's weekly summary (`ProgressTracker.WeeklyData`) works on a history. It snaps "now" and each entry to the Monday midnight of its week. It computes a week index for each entry, counts the entries into four buckets for the indices 0 to 3, and returns the buckets oldest first.

Modelling choices:

- **Time.** Time is an integer, `Types.Instant`: milliseconds on the local wall clock since local midnight of 1970-01-01, which was a Thursday. The time zone is a fixed offset. `Calendar` gives local midnight, `getDay` and `setHours` on that scale.
- **Clock readings.** Every `new Date()` of the source becomes a parameter. `saveWorkoutPlan` reads the clock twice, once for the id and once for `savedAt`. `logWorkoutCompletion` also reads it twice: once in its guard and once for the new entry's date. So each of these methods takes two instants.
- **Serialization.** `JSON.stringify`/`JSON.parse` are a `KeyValueStore.Codec`: an encoding function and a decoding function that may fail. Both repository classes require `RoundTrips(codec)`: a written list decodes back to itself, and its text is never empty.

Three facts about the code that the model keeps:

- Saved-plan ids are not guaranteed to be unique. An id is the title, a dash and a timestamp, so two saves of one title in the same millisecond get the same id.
- Deleting an id removes every entry with that id.
- The weekly buckets are built current week first and then reversed, so they are returned oldest first.

## Model

| member | source | states |
|---|---|---|
| Calendar.LocalDay | services/progressService.ts:37 | the local day number of `t` is the floor of `t` over one day: its day starts at most `t` and ends after `t` |
| Calendar.Midnight | services/progressService.ts:36-37 | local midnight of the day of `t`: at most `t`, less than a day before it, a whole number of days, on the same local day |
| Calendar.GetDay | components/ProgressTracker.tsx:32 | `getDay()` lies in 0..6 |
| Calendar.SetHours | components/ProgressTracker.tsx:33 | `setHours(h)` lands in hour `h` counted from the midnight of `t`, rolling over days for negative or large `h` |
| Calendar.TimestampText | services/planService.ts:21 | the timestamp part of an id is non-empty text |
| Calendar.NatTextInjective | services/planService.ts:21 | two numbers with the same decimal text are equal |
| Calendar.TimestampTextInjective | services/planService.ts:21 | two instants with the same timestamp text are equal |
| KeyValueStore.LocalStore.GetItem | services/planService.ts:9 | `getItem` gives the text under the key exactly when the key is present |
| KeyValueStore.LocalStore.SetItem | services/planService.ts:26 | `setItem` replaces the text under one key and changes no other key |
| KeyValueStore.LocalStore.RemoveItem | services/progressService.ts:31 | `removeItem` drops exactly that key |
| KeyValueStore.ReadList | services/planService.ts:7-15 | a missing key or text that does not decode reads as `[]`; non-empty text that decodes reads as the decoded list; reading never fails |
| KeyValueStore.ReadWritten | services/planService.ts:9-10 | text written from a list reads back as that list |
| PlanService.PlanRepository.GetSavedPlans | services/planService.ts:7-15 | the saved list is empty when the key is missing or its text does not decode, and otherwise is the decoded list |
| PlanService.PlanRepository.SaveWorkoutPlan | services/planService.ts:18-27 | the store gets `[new entry] + old list` under the plan key and nothing else changes; listing afterwards returns that list; the new entry carries the plan unchanged and the id `title + "-" + timestamp`; the plan then counts as saved |
| PlanService.PlanRepository.DeleteSavedPlan | services/planService.ts:30-34 | the store gets the old list filtered by id, and listing afterwards returns exactly `Without(old list, id)`, written even when nothing matched |
| PlanService.NewSavedPlan | services/planService.ts:20-24 | the new entry carries the plan unchanged and the second clock reading as `savedAt`, and its id starts with the plan title and a dash |
| PlanService.NewSavedPlanIds | services/planService.ts:21 | for one title, two new entries have the same id exactly when their id clock readings are the same instant |
| PlanService.Without | services/planService.ts:32 | the filtered list is no longer than the original, and no entry in it has the deleted id |
| PlanService.WithoutCounts | services/planService.ts:32 | each entry with another id keeps its number of occurrences; an entry with the deleted id has none left |
| PlanService.WithoutConcat | services/planService.ts:32 | filtering distributes over concatenation, so kept entries stay in their original relative order |
| PlanService.WithoutAbsent | services/planService.ts:32 | deleting an id no entry has leaves the list unchanged |
| PlanService.WithoutIdempotent | services/planService.ts:32 | deleting an id twice gives the same list as deleting it once |
| PlanService.DeleteAfterSave | services/planService.ts:25-32 | deleting a just-saved entry's id also removes older entries with that id; when there are none, the list from before the save comes back |
| PlanService.SameTitleAndSummary | services/planService.ts:41-42 | the comparison `isPlanSaved` makes: an equal title and an equal summary |
| PlanService.AnySame | services/planService.ts:40-43 | true iff some entry has an equal title and an equal summary |
| PlanService.PlanRepository.IsPlanSaved | services/planService.ts:37-44 | false without a plan; otherwise true iff some saved entry has both an equal title and an equal summary |
| ProgressService.AnyOnOrAfter | services/progressService.ts:39 | true iff some entry's date is at or after the given bound |
| ProgressService.ProgressLog.GetWorkoutHistory | services/progressService.ts:6-14 | the history is empty when the key is missing or its text does not decode, and otherwise is the decoded list |
| ProgressService.ProgressLog.HasCompletedWorkoutToday | services/progressService.ts:34-40 | true iff some entry is at or after local midnight of today, entries dated in the future included |
| ProgressService.ProgressLog.LogWorkoutCompletion | services/progressService.ts:16-28 | store unchanged when today's check already holds; otherwise exactly one entry `(loggedAt, workout.title)` is appended after the old entries and nothing else changes |
| ProgressService.ProgressLog.ClearWorkoutHistory | services/progressService.ts:30-32 | the key is removed, the history reads as empty, and no instant counts as logged today |
| ProgressService.Logged | services/progressService.ts:17-27 | one call leaves the history unchanged exactly when some entry is at or after midnight of the guard's day; otherwise it appends exactly the new entry `(loggedAt, workout.title)` at the end |
| ProgressService.LoggedAll | services/progressService.ts:16-28 | a series of calls never shortens the history or alters an earlier entry, and adds at most one entry per call |
| ProgressService.LoggedThenCompleted | services/progressService.ts:17-40 | after a call, today's check holds at every instant of the guard's day, provided the clock did not run backwards |
| ProgressService.NoOpOnceLogged | services/progressService.ts:17-20 | once today is logged, every further call on that day leaves the history unchanged |
| ProgressService.OneEntryPerDay | services/progressService.ts:16-28 | any number of calls on one local day add at most one entry, at the end, and keep the earlier entries |
| ProgressService.FromEmptyOneEntryPerDay | services/progressService.ts:16-28 | from an empty history, one or more calls on one day leave exactly one entry |
| ProgressService.NewDayLogsAgain | services/progressService.ts:21-27 | when every entry is older than today's midnight, a call appends the new entry |
| ProgressTracker.IsoWeekday | components/ProgressTracker.tsx:32 | the day number with Sunday as 7 (`getDay()`, or 7 when it is 0) lies in 1..7 and agrees with `getDay` modulo 7, so Sunday is 7 |
| ProgressTracker.IsWeekStart | components/ProgressTracker.tsx:32-34 | an instant is a Monday at local midnight |
| ProgressTracker.WeekPhase | components/ProgressTracker.tsx:30-36 | the time since the most recent Monday midnight lies in `[0, one week)` |
| ProgressTracker.WeekStartPhase | components/ProgressTracker.tsx:30-36 | an instant is a Monday midnight iff its week phase is zero |
| ProgressTracker.StartOfWeekSteps | components/ProgressTracker.tsx:32-34 | the two `setHours` steps reach the instant minus its week phase |
| ProgressTracker.StartOfWeek | components/ProgressTracker.tsx:30-36 | `startOfWeek(d)` is a Monday at local midnight with `start <= d < start + 7 days` |
| ProgressTracker.StartOfWeekUnique | components/ProgressTracker.tsx:30-36 | every instant of a week maps to that week's Monday midnight |
| ProgressTracker.StartOfWeekByWeekday | components/ProgressTracker.tsx:32-34 | the week starts `IsoWeekday(d) - 1` days before the midnight of `d` |
| ProgressTracker.SundayMapsToPreviousMonday | components/ProgressTracker.tsx:32-33 | a Sunday maps to the Monday six days earlier |
| ProgressTracker.StartOfWeekIdempotent | components/ProgressTracker.tsx:30-36 | `startOfWeek(startOfWeek(d)) == startOfWeek(d)` |
| ProgressTracker.WeekIndexExactly | components/ProgressTracker.tsx:38-42 | week index `k` holds exactly the instants from `k` weeks before this week's Monday midnight, for one week; entries in the current week get index 0, entries in later weeks get a negative index |
| ProgressTracker.WeekIndex | components/ProgressTracker.tsx:42 | when counted from a Monday midnight, the division is exact: the two week starts are exactly the index times one week apart |
| ProgressTracker.WeekIndexExact | components/ProgressTracker.tsx:42 | the difference of two Monday midnights divided by one week and multiplied back gives the difference again |
| ProgressTracker.CountInWeek | components/ProgressTracker.tsx:40-47 | a bucket count is at most the history length |
| ProgressTracker.WeeklyData | components/ProgressTracker.tsx:22-50 | the loop over the history and the in-place reversal produce exactly `WeeklyBuckets(history, today)` |
| ProgressTracker.CountInWindow | components/ProgressTracker.tsx:44-46 | the number of entries with index 0..3 is at most the history length |
| ProgressTracker.WeeklyBuckets | components/ProgressTracker.tsx:23-49 | exactly four buckets, labelled "3 Weeks Ago", "2 Weeks Ago", "Last Week", "This Week" in that order, the `i`-th holding the count of week index `3 - i` |
| ProgressTracker.WindowSum | components/ProgressTracker.tsx:40-47 | the four counts add up to the number of entries with index 0..3, which is at most the history length |
| ProgressTracker.WeeklyBucketsSum | components/ProgressTracker.tsx:40-49 | the returned counts sum to the in-window count, at most the history length |
| ProgressTracker.OutOfWindowIgnored | components/ProgressTracker.tsx:44-46 | an entry with index below 0 or above 3 changes no bucket |
| ProgressTracker.WeekStartShift | components/ProgressTracker.tsx:42 | a Monday midnight shifted by whole weeks is a Monday midnight |
| ProgressTracker.WeekStartsApart | components/ProgressTracker.tsx:42 | two Monday midnights are a whole number of weeks apart, so the division at line 42 is exact |
| ProgressTracker.WednesdayExample | components/ProgressTracker.tsx:22-50 | with "now" on a Wednesday, entries 2, 9, 16 and 23 days old give one count in each bucket, and an entry 30 days old adds to none |
| ProgressTracker.MaxWorkouts | components/ProgressTracker.tsx:52 | `maxWorkouts` is at least 1, at least every bucket count, and is either 1 or one of the counts |

## Left out

- React rendering, state hooks, styling, `window.confirm` and the chart's JSX and bar-height percentages. These are UI and floating-point display arithmetic.
- The plan-generation service (services/geminiService.ts). It is a remote call whose response schema is enforced by the remote service. services/geminiService.ts is not part of this model.
- The `planSaved` and `workoutCompleted` window events. They are fire-and-forget notifications and carry no data.
- `console.error` and `console.warn` diagnostics. They are output only.
- Real ISO-8601 text. `savedAt` and `date` are stored as instants, not as `toISOString()` text. An id's timestamp part is the decimal millisecond count, not the ISO calendar format.
- ProgressService.ProgressLog.HasCompletedWorkoutToday: compares instants. The source compares the two dates' ISO strings lexicographically, which agrees with instant order only for years 0000 to 9999.
- Unparseable dates. `new Date(log.date).toISOString()` throws on a stored date it cannot parse, and that exception is not caught. The model has no such dates, because a record's date is an instant.
- KeyValueStore.ReadList: text that parses as JSON but is not a list of records (`null`, a number, an object) is treated as a decode failure, that is, as `[]`. In the source such a value is returned, and the callers then fail or misbehave when they use it as an array.
- Daylight-saving time. The local offset is fixed, so a day is always 24 hours long. Because of that, the division by one week at components/ProgressTracker.tsx:42 is exact, and `Math.floor` is modelled by integer floor division.
- The uniqueness of saved-plan ids. The source does not ensure it, and the model does not assume it.
- Two interleaved read-modify-write updates from different views can lose one of them. The model runs operations one at a time.
- JavaScript's `Array.prototype.reverse` on the four-entry array is modelled as one simultaneous swap of the four elements.
