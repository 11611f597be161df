/** The weekly summary of the progress chart: completions counted per calendar
    week (weeks start on Monday at local midnight) for the current week and the
    three before it. */
module ProgressTracker {
  import opened Types
  import opened Calendar

  /** `getDay() || 7`: the day of the week with Monday = 1 ... Sunday = 7. */
  function IsoWeekday(t: Instant): (d: int)
    ensures 1 <= d <= 7
    ensures d % 7 == GetDay(t)
  {
    var g := GetDay(t);
    if g == 0 then 7 else g
  }

  /** `s` is a Monday at local midnight. */
  predicate IsWeekStart(s: Instant)
  {
    Midnight(s) == s && IsoWeekday(s) == 1
  }

  /** Time elapsed since the most recent Monday midnight, by plain modular arithmetic. */
  function WeekPhase(t: Instant): (p: int)
    ensures 0 <= p < WeekMs
  {
    (t - FirstMondayMs) % WeekMs
  }

  lemma DayDiv(x: int, q: int)
    requires q * DayMs <= x < q * DayMs + DayMs
    ensures x / DayMs == q
  {
  }

  lemma WeekMod(x: int, q: int, r: int)
    requires x == q * WeekMs + r && 0 <= r < WeekMs
    ensures x % WeekMs == r
  {
  }

  /** A Monday midnight is exactly an instant whose week phase is zero. */
  lemma {:induction false} WeekStartPhase(s: Instant)
    ensures IsWeekStart(s) <==> WeekPhase(s) == 0
  {
    var d := LocalDay(s);
    if IsWeekStart(s) {
      assert s == d * DayMs;
      assert (d + 4) % 7 == 1;
      var b := (d + 4) / 7;
      assert d - 4 == 7 * (b - 1);
      assert s - FirstMondayMs == (b - 1) * WeekMs;
      WeekMod(s - FirstMondayMs, b - 1, 0);
    }
    if WeekPhase(s) == 0 {
      var b := (s - FirstMondayMs) / WeekMs;
      assert s == (7 * b + 4) * DayMs;
      DayDiv(s, 7 * b + 4);
      assert (7 * b + 8) % 7 == 1;
    }
  }

  /** The two `setHours` calls of `startOfWeek` step back `day - 1` whole days and
      then to midnight: the result is the instant minus its week phase. */
  lemma {:induction false} StartOfWeekSteps(d: Instant, day: int)
    requires day == IsoWeekday(d)
    ensures Midnight(if day != 1 then SetHours(d, -24 * (day - 1)) else d) == d - WeekPhase(d)
  {
    var n := LocalDay(d);
    var r := d - n * DayMs;
    var date := if day != 1 then SetHours(d, -24 * (day - 1)) else d;
    assert (n - day + 1) * DayMs <= date < (n - day + 1) * DayMs + DayMs;
    DayDiv(date, n - day + 1);
    var g := (n + 4) % 7;
    var a := (n + 4) / 7;
    var b := if g == 0 then a - 2 else a - 1;
    assert n - 4 == 7 * b + (day - 1);
    assert d - FirstMondayMs == b * WeekMs + ((day - 1) * DayMs + r);
    WeekMod(d - FirstMondayMs, b, (day - 1) * DayMs + r);
  }

  /** `startOfWeek`: the Monday at local midnight that begins the week of `d`. */
  function StartOfWeek(d: Instant): (s: Instant)
    ensures IsWeekStart(s)
    ensures s <= d < s + WeekMs
  {
    var day := IsoWeekday(d);
    var date := if day != 1 then SetHours(d, -24 * (day - 1)) else d;
    StartOfWeekSteps(d, day);
    WeekPhaseShift(d);
    WeekStartPhase(Midnight(date));
    Midnight(date)
  }

  lemma {:induction false} WeekPhaseShift(d: Instant)
    ensures WeekPhase(d - WeekPhase(d)) == 0
  {
    var b := (d - FirstMondayMs) / WeekMs;
    WeekMod(d - WeekPhase(d) - FirstMondayMs, b, 0);
  }

  /** The week start of every instant in a week is that week's Monday midnight. */
  lemma {:induction false} StartOfWeekUnique(s: Instant, x: Instant)
    requires IsWeekStart(s) && s <= x < s + WeekMs
    ensures StartOfWeek(x) == s
  {
    WeekStartPhase(s);
    var b := (s - FirstMondayMs) / WeekMs;
    WeekMod(x - FirstMondayMs, b, x - s);
    StartOfWeekSteps(x, IsoWeekday(x));
  }

  /** The week of `d` began `IsoWeekday(d) - 1` days before the midnight of `d`. */
  lemma {:induction false} StartOfWeekByWeekday(d: Instant)
    ensures StartOfWeek(d) == Midnight(d) - (IsoWeekday(d) - 1) * DayMs
  {
    var day := IsoWeekday(d);
    StartOfWeekSteps(d, day);
    if day != 1 {
      DayDiv(SetHours(d, -24 * (day - 1)), LocalDay(d) - (day - 1));
    }
  }

  /** A Sunday (day 7, not day 0) belongs to the week that began six days earlier. */
  lemma SundayMapsToPreviousMonday(d: Instant)
    requires GetDay(d) == 0
    ensures StartOfWeek(d) == Midnight(d) - 6 * DayMs
  {
    StartOfWeekByWeekday(d);
  }

  lemma {:induction false} StartOfWeekIdempotent(d: Instant)
    ensures StartOfWeek(StartOfWeek(d)) == StartOfWeek(d)
  {
    StartOfWeekUnique(StartOfWeek(d), StartOfWeek(d));
  }

  /** The bucket labels in the order the buckets are first built, current week first. */
  const Labels: seq<string> := ["This Week", "Last Week", "2 Weeks Ago", "3 Weeks Ago"]

  datatype WeekBucket = WeekBucket(weekLabel: string, count: nat)

  /** `Math.floor((thisWeekStart - startOfWeek(t)) / (7 * 24 * 60 * 60 * 1000))`. */
  function WeekIndex(thisWeekStart: Instant, t: Instant): (r: int)
    ensures IsWeekStart(thisWeekStart) ==> thisWeekStart - StartOfWeek(t) == r * WeekMs
  {
    WeekIndexExact(thisWeekStart, StartOfWeek(t));
    (thisWeekStart - StartOfWeek(t)) / WeekMs
  }

  lemma WeekIndexExact(s: Instant, u: Instant)
    requires IsWeekStart(u)
    ensures IsWeekStart(s) ==> s - u == (s - u) / WeekMs * WeekMs
  {
    if IsWeekStart(s) {
      WeekStartsApart(s, u);
    }
  }

  /** Number of entries of `history` whose week index is `k`. */
  function CountInWeek(history: seq<CompletedWorkoutLog>, thisWeekStart: Instant, k: int): (n: nat)
    ensures n <= |history|
  {
    if history == [] then 0
    else
      var last := history[|history| - 1];
      CountInWeek(history[..|history| - 1], thisWeekStart, k) + (if WeekIndex(thisWeekStart, last.date) == k then 1 else 0)
  }

  /** Number of entries of `history` whose week index lies in the displayed window 0..3. */
  function CountInWindow(history: seq<CompletedWorkoutLog>, thisWeekStart: Instant): (n: nat)
    ensures n <= |history|
  {
    if history == [] then 0
    else
      var last := history[|history| - 1];
      CountInWindow(history[..|history| - 1], thisWeekStart) + (if 0 <= WeekIndex(thisWeekStart, last.date) < 4 then 1 else 0)
  }

  /** What the chart shows: four buckets, oldest week first. */
  function WeeklyBuckets(history: seq<CompletedWorkoutLog>, today: Instant): (w: seq<WeekBucket>)
    ensures |w| == 4
    ensures w[0].weekLabel == "3 Weeks Ago" && w[1].weekLabel == "2 Weeks Ago"
    ensures w[2].weekLabel == "Last Week" && w[3].weekLabel == "This Week"
    ensures forall i :: 0 <= i < 4 ==> w[i].count == CountInWeek(history, StartOfWeek(today), 3 - i)
  {
    var s := StartOfWeek(today);
    seq(4, i requires 0 <= i < 4 => WeekBucket(Labels[3 - i], CountInWeek(history, s, 3 - i)))
  }

  /** The `weeklyData` computation: a four-entry array of buckets, one pass over
      the history that increments the bucket of each entry's week index when that
      index is in range, and a final in-place reversal. */
  method WeeklyData(history: seq<CompletedWorkoutLog>, today: Instant) returns (weekly: seq<WeekBucket>)
    ensures weekly == WeeklyBuckets(history, today)
  {
    var weeks := new WeekBucket[4](i requires 0 <= i < 4 => WeekBucket(Labels[i], 0));
    var thisWeekStart := StartOfWeek(today);
    var n := 0;
    while n < |history|
      invariant 0 <= n <= |history|
      invariant forall k :: 0 <= k < 4 ==> weeks[k] == WeekBucket(Labels[k], CountInWeek(history[..n], thisWeekStart, k))
    {
      var logDate := history[n].date;
      var weekIndex := WeekIndex(thisWeekStart, logDate);
      if 0 <= weekIndex < weeks.Length {
        weeks[weekIndex] := weeks[weekIndex].(count := weeks[weekIndex].count + 1);
      }
      CountInWeekStep(history, n, thisWeekStart);
      n := n + 1;
    }
    assert history[..n] == history;
    weeks[0], weeks[1], weeks[2], weeks[3] := weeks[3], weeks[2], weeks[1], weeks[0];
    weekly := weeks[..];
  }

  lemma CountInWeekStep(history: seq<CompletedWorkoutLog>, n: nat, s: Instant)
    requires n < |history|
    ensures forall k :: CountInWeek(history[..n + 1], s, k) ==
                        CountInWeek(history[..n], s, k) + (if WeekIndex(s, history[n].date) == k then 1 else 0)
  {
    assert history[..n + 1][..n] == history[..n];
  }

  /** The four counts add up to the number of entries in the window, hence to at most the history length. */
  lemma {:induction false} WindowSum(history: seq<CompletedWorkoutLog>, s: Instant)
    ensures CountInWeek(history, s, 0) + CountInWeek(history, s, 1) + CountInWeek(history, s, 2) + CountInWeek(history, s, 3)
            == CountInWindow(history, s)
    ensures CountInWindow(history, s) <= |history|
  {
    if history != [] {
      WindowSum(history[..|history| - 1], s);
    }
  }

  lemma WeeklyBucketsSum(history: seq<CompletedWorkoutLog>, today: Instant)
    ensures var w := WeeklyBuckets(history, today);
      w[0].count + w[1].count + w[2].count + w[3].count == CountInWindow(history, StartOfWeek(today)) <= |history|
  {
    WindowSum(history, StartOfWeek(today));
  }

  /** An entry whose week index is outside 0..3 changes no bucket. */
  lemma OutOfWindowIgnored(history: seq<CompletedWorkoutLog>, log: CompletedWorkoutLog, today: Instant)
    requires !(0 <= WeekIndex(StartOfWeek(today), log.date) < 4)
    ensures WeeklyBuckets(history + [log], today) == WeeklyBuckets(history, today)
  {
    assert (history + [log])[..|history|] == history;
  }

  lemma WeekDiv(x: int, q: int)
    requires x == q * WeekMs
    ensures x / WeekMs == q
  {
  }

  /** Shifting a Monday midnight by whole weeks gives a Monday midnight. */
  lemma {:induction false} WeekStartShift(s: Instant, k: int)
    requires IsWeekStart(s)
    ensures IsWeekStart(s + k * WeekMs)
  {
    WeekStartPhase(s);
    var b := (s - FirstMondayMs) / WeekMs;
    WeekMod(s + k * WeekMs - FirstMondayMs, b + k, 0);
    WeekStartPhase(s + k * WeekMs);
  }

  /** Two Monday midnights are a whole number of weeks apart. */
  lemma {:induction false} WeekStartsApart(s: Instant, u: Instant)
    requires IsWeekStart(s) && IsWeekStart(u)
    ensures (s - u) % WeekMs == 0
  {
    WeekStartPhase(s);
    WeekStartPhase(u);
    var a := (s - FirstMondayMs) / WeekMs;
    var b := (u - FirstMondayMs) / WeekMs;
    WeekMod(s - u, a - b, 0);
  }

  /** Week index `k` holds exactly the instants of the `k`-th week before the current
      one: its Monday midnight is `k` weeks before this week's, and it lasts one week. */
  lemma {:induction false} WeekIndexExactly(today: Instant, t: Instant, k: int)
    ensures var s := StartOfWeek(today);
      WeekIndex(s, t) == k <==> s - k * WeekMs <= t < s - k * WeekMs + WeekMs
  {
    var s := StartOfWeek(today);
    var u := StartOfWeek(t);
    WeekStartsApart(s, u);
    var q := (s - u) / WeekMs;
    WeekDiv(s - u, q);
    if s - k * WeekMs <= t < s - k * WeekMs + WeekMs {
      WeekStartShift(s, -k);
      StartOfWeekUnique(s - k * WeekMs, t);
    }
  }

  /** `maxWorkouts`: `Math.max(...counts, 1)`. */
  function MaxWorkouts(weekly: seq<WeekBucket>): (m: nat)
    ensures m >= 1
    ensures forall i :: 0 <= i < |weekly| ==> weekly[i].count <= m
    ensures m == 1 || exists i :: 0 <= i < |weekly| && weekly[i].count == m
  {
    if weekly == [] then 1
    else
      var rest := MaxWorkouts(weekly[1..]);
      if weekly[0].count > rest then weekly[0].count else rest
  }

  /** With "now" on a Wednesday, entries 2, 9, 16 and 23 days old fill the four
      buckets with one each, and an entry 30 days old is in none. */
  lemma {:induction false} WednesdayExample(now: Instant, title: string)
    requires IsoWeekday(now) == 3
    ensures var h := [CompletedWorkoutLog(now - 2 * DayMs, title), CompletedWorkoutLog(now - 9 * DayMs, title),
                      CompletedWorkoutLog(now - 16 * DayMs, title), CompletedWorkoutLog(now - 23 * DayMs, title),
                      CompletedWorkoutLog(now - 30 * DayMs, title)];
            var w := WeeklyBuckets(h, now);
            w[0].count == 1 && w[1].count == 1 && w[2].count == 1 && w[3].count == 1
  {
    StartOfWeekByWeekday(now);
    var s := StartOfWeek(now);
    assert s + 2 * DayMs <= now < s + 3 * DayMs;
    var h := [CompletedWorkoutLog(now - 2 * DayMs, title), CompletedWorkoutLog(now - 9 * DayMs, title),
              CompletedWorkoutLog(now - 16 * DayMs, title), CompletedWorkoutLog(now - 23 * DayMs, title),
              CompletedWorkoutLog(now - 30 * DayMs, title)];
    WeekIndexExactly(now, h[0].date, 0);
    WeekIndexExactly(now, h[1].date, 1);
    WeekIndexExactly(now, h[2].date, 2);
    WeekIndexExactly(now, h[3].date, 3);
    WeekIndexExactly(now, h[4].date, 4);
    assert h[..4][..3] == h[..3] && h[..3][..2] == h[..2] && h[..2][..1] == h[..1] && h[..1][..0] == [];
    forall k | 0 <= k < 4
      ensures CountInWeek(h, s, k) == 1
    {
      assert CountInWeek(h[..1], s, k) == if k == 0 then 1 else 0;
      assert CountInWeek(h[..2], s, k) == if k <= 1 then 1 else 0;
      assert CountInWeek(h[..3], s, k) == if k <= 2 then 1 else 0;
      assert CountInWeek(h[..4], s, k) == 1;
    }
  }
}
