/** The completion history: an append-only serialized list of completed workouts
    under one storage key, oldest first, with at most one new entry per local day. */
module ProgressService {
  import opened Types
  import opened Calendar
  import opened KeyValueStore

  const ProgressKey: string := "workoutProgressHistory"

  /** `history.some(log => log.date >= dayStart)`. */
  function AnyOnOrAfter(history: seq<CompletedWorkoutLog>, dayStart: Instant): (r: bool)
    ensures r <==> exists k :: 0 <= k < |history| && history[k].date >= dayStart
  {
    if history == [] then false
    else history[0].date >= dayStart || AnyOnOrAfter(history[1..], dayStart)
  }

  /** The history after one `logWorkoutCompletion` call whose guard reads the clock
      at `checkedAt` and whose new entry is stamped `loggedAt`. */
  function Logged(history: seq<CompletedWorkoutLog>, workout: DailyWorkout, checkedAt: Instant, loggedAt: Instant)
    : (r: seq<CompletedWorkoutLog>)
    ensures r == history <==> AnyOnOrAfter(history, Midnight(checkedAt))
    ensures r != history ==> r == history + [CompletedWorkoutLog(loggedAt, workout.title)]
  {
    if AnyOnOrAfter(history, Midnight(checkedAt)) then history
    else history + [CompletedWorkoutLog(loggedAt, workout.title)]
  }

  /** One call of `logWorkoutCompletion`, with its two clock readings. */
  datatype LogCall = LogCall(workout: DailyWorkout, checkedAt: Instant, loggedAt: Instant)

  /** The history after a series of calls, in order. */
  function LoggedAll(history: seq<CompletedWorkoutLog>, calls: seq<LogCall>): (r: seq<CompletedWorkoutLog>)
    ensures |history| <= |r| <= |history| + |calls| && r[..|history|] == history
    decreases calls
  {
    if calls == [] then history
    else LoggedAll(Logged(history, calls[0].workout, calls[0].checkedAt, calls[0].loggedAt), calls[1..])
  }

  /** After a call, the today check holds for every instant of the guard's day,
      provided the clock did not run backwards between the two readings. */
  lemma {:induction false} LoggedThenCompleted(history: seq<CompletedWorkoutLog>, workout: DailyWorkout,
                                                checkedAt: Instant, loggedAt: Instant, t: Instant)
    requires checkedAt <= loggedAt && LocalDay(t) == LocalDay(checkedAt)
    ensures AnyOnOrAfter(Logged(history, workout, checkedAt, loggedAt), Midnight(t))
  {
    var h := Logged(history, workout, checkedAt, loggedAt);
    assert Midnight(t) == Midnight(checkedAt);
    if !AnyOnOrAfter(history, Midnight(checkedAt)) {
      assert h[|history|].date == loggedAt;
    }
  }

  /** Once some entry lies on or after the midnight of `day`, every call whose guard
      runs on that day is a no-op. */
  lemma {:induction false} NoOpOnceLogged(history: seq<CompletedWorkoutLog>, calls: seq<LogCall>, day: int)
    requires AnyOnOrAfter(history, day * DayMs)
    requires forall i :: 0 <= i < |calls| ==> LocalDay(calls[i].checkedAt) == day
    ensures LoggedAll(history, calls) == history
  {
    if calls != [] {
      assert Midnight(calls[0].checkedAt) == day * DayMs;
      NoOpOnceLogged(history, calls[1..], day);
    }
  }

  /** Any number of calls on one local day add at most one entry, at the end. */
  lemma {:induction false} OneEntryPerDay(history: seq<CompletedWorkoutLog>, calls: seq<LogCall>, day: int)
    requires forall i :: 0 <= i < |calls| ==> LocalDay(calls[i].checkedAt) == day && LocalDay(calls[i].loggedAt) == day
    ensures var h := LoggedAll(history, calls);
      |history| <= |h| <= |history| + 1 && h[..|history|] == history
  {
    if calls != [] {
      var c := calls[0];
      var next := Logged(history, c.workout, c.checkedAt, c.loggedAt);
      if next == history {
        OneEntryPerDay(history, calls[1..], day);
      } else {
        assert next[|history|].date == c.loggedAt;
        assert AnyOnOrAfter(next, day * DayMs);
        NoOpOnceLogged(next, calls[1..], day);
        assert next[..|history|] == history;
      }
    }
  }

  /** From an empty history, any positive number of calls on one day leaves exactly one entry. */
  lemma FromEmptyOneEntryPerDay(calls: seq<LogCall>, day: int)
    requires |calls| > 0
    requires forall i :: 0 <= i < |calls| ==> LocalDay(calls[i].checkedAt) == day && LocalDay(calls[i].loggedAt) == day
    ensures |LoggedAll([], calls)| == 1
  {
    var c := calls[0];
    var next := Logged([], c.workout, c.checkedAt, c.loggedAt);
    assert |next| == 1 && next[0].date == c.loggedAt;
    NoOpOnceLogged(next, calls[1..], day);
  }

  /** On a new day, when every entry is older than that day's midnight, a call logs again. */
  lemma NewDayLogsAgain(history: seq<CompletedWorkoutLog>, workout: DailyWorkout, checkedAt: Instant, loggedAt: Instant)
    requires forall k :: 0 <= k < |history| ==> history[k].date < Midnight(checkedAt)
    ensures Logged(history, workout, checkedAt, loggedAt) == history + [CompletedWorkoutLog(loggedAt, workout.title)]
  {
  }

  /** The completion-history operations over the shared store. */
  class ProgressLog {
    const store: LocalStore
    const codec: Codec<CompletedWorkoutLog>

    ghost predicate Valid()
    {
      RoundTrips(codec)
    }

    constructor (store: LocalStore, codec: Codec<CompletedWorkoutLog>)
      requires RoundTrips(codec)
      ensures this.store == store && this.codec.encode == codec.encode && this.codec.decode == codec.decode
      ensures Valid()
    {
      this.store := store;
      this.codec := codec;
    }

    /** `getWorkoutHistory`: the stored list; empty when the key is missing or its text does not parse. */
    function GetWorkoutHistory(): (r: seq<CompletedWorkoutLog>)
      reads store
      ensures ProgressKey !in store.items ==> r == []
      ensures ProgressKey in store.items && codec.decode(store.items[ProgressKey]).None? ==> r == []
      ensures ProgressKey in store.items && store.items[ProgressKey] != "" && codec.decode(store.items[ProgressKey]).Some? ==>
                r == codec.decode(store.items[ProgressKey]).value
      ensures r == [] || (ProgressKey in store.items && codec.decode(store.items[ProgressKey]) == Some(r))
    {
      ReadList(store.GetItem(ProgressKey), codec)
    }

    /** `hasCompletedWorkoutToday` with the clock at `now`: some entry is at or after
        local midnight of today, entries dated in the future included. */
    function HasCompletedWorkoutToday(now: Instant): (r: bool)
      reads store
      ensures r <==> exists k :: 0 <= k < |GetWorkoutHistory()| && GetWorkoutHistory()[k].date >= Midnight(now)
    {
      AnyOnOrAfter(GetWorkoutHistory(), Midnight(now))
    }

    /** `logWorkoutCompletion`: nothing changes when today is already logged;
        otherwise one entry for `workout`, stamped `loggedAt`, goes at the end. */
    method LogWorkoutCompletion(workout: DailyWorkout, checkedAt: Instant, loggedAt: Instant)
      requires Valid()
      modifies store
      ensures old(HasCompletedWorkoutToday(checkedAt)) ==> store.items == old(store.items)
      ensures !old(HasCompletedWorkoutToday(checkedAt)) ==>
        store.items == old(store.items)[ProgressKey := codec.encode(old(GetWorkoutHistory()) + [CompletedWorkoutLog(loggedAt, workout.title)])]
      ensures GetWorkoutHistory() == Logged(old(GetWorkoutHistory()), workout, checkedAt, loggedAt)
    {
      if HasCompletedWorkoutToday(checkedAt) {
        return;
      }
      var history := GetWorkoutHistory();
      var newLog := CompletedWorkoutLog(loggedAt, workout.title);
      history := history + [newLog];
      store.SetItem(ProgressKey, codec.encode(history));
      ReadWritten(codec, history);
    }

    /** `clearWorkoutHistory`: removes the key, so the history reads as empty and no day counts as logged. */
    method ClearWorkoutHistory()
      modifies store
      ensures store.items == old(store.items) - {ProgressKey}
      ensures GetWorkoutHistory() == []
      ensures forall now :: !HasCompletedWorkoutToday(now)
    {
      store.RemoveItem(ProgressKey);
    }
  }
}
