/**
 * The habit store of src/store/habitStore.ts: an ordered list of habit
 * records, `addHabit` (append a fresh record), `completeHabit` (the daily
 * streak rule, applied to every record with the given id) and the reviver
 * that turns the persisted date fields back into dates.
 *
 * Time is abstracted: an instant is a local calendar day number and the
 * milliseconds since that day's local midnight, and the clock is a `now`
 * parameter.
 */
module HabitStore {
  import opened Options

  // ---------------------------------------------------------------------
  // Time
  // ---------------------------------------------------------------------

  /** `1000 * 60 * 60 * 24`, the divisor of the day difference. */
  const MillisPerDay: int := 1000 * 60 * 60 * 24

  /** Milliseconds elapsed since local midnight. */
  type TimeOfDay = ms: int | 0 <= ms < MillisPerDay

  /** A JavaScript `Date`, seen in local time: the calendar day number and the time within that day. */
  datatype Instant = Instant(day: int, time: TimeOfDay)

  /**
   * `getTime()`: milliseconds since the epoch (no daylight-saving shifts in
   * this model). Day and time of day can be read back from it.
   */
  function EpochMillis(t: Instant): (ms: int)
    ensures ms / MillisPerDay == t.day && ms % MillisPerDay == t.time
  {
    t.day * MillisPerDay + t.time
  }

  /** `setHours(0, 0, 0, 0)`: the local midnight that starts the instant's day. */
  function StartOfDay(t: Instant): (m: Instant)
    ensures m.day == t.day && m.time == 0
    ensures EpochMillis(m) <= EpochMillis(t) < EpochMillis(m) + MillisPerDay
  {
    Instant(t.day, 0)
  }

  /**
   * `Math.round(n / d)` for a positive divisor: the floor of `n / d + 1/2`,
   * that is the integer nearest to `n / d`, halves rounded up.
   */
  function RoundDiv(n: int, d: int): (r: int)
    requires d > 0
    ensures 2 * d * r - d <= 2 * n < 2 * d * r + d
  {
    var q := (2 * n + d) / (2 * d);
    assert 2 * n + d == (2 * d) * q + (2 * n + d) % (2 * d);
    assert (2 * d) * q == 2 * d * q;
    q
  }

  /** Division is determined by quotient and remainder. */
  lemma DivUnique(a: int, b: int, q: int, r: int)
    requires b > 0 && 0 <= r < b && a == b * q + r
    ensures a / b == q
  {
    var q', r' := a / b, a % b;
    assert a == b * q' + r' && 0 <= r' < b;
    assert b * (q - q') == r' - r;
    if q > q' {
      MulAtLeast(b, q - q');
      assert false;
    } else if q < q' {
      MulAtLeast(b, q' - q);
      assert false;
    }
  }

  /** A positive multiple of a natural number is at least that number. */
  lemma {:induction false} MulAtLeast(b: nat, k: int)
    requires k >= 1
    ensures b * k >= b
  {
    if k > 1 {
      MulAtLeast(b, k - 1);
      assert b * k == b * (k - 1) + b;
    }
  }

  /** Rounding an exact multiple of the divisor gives back the multiplier. */
  lemma {:induction false} RoundDivExact(k: int, d: int)
    requires d > 0
    ensures RoundDiv(k * d, d) == k
  {
    assert 2 * (k * d) + d == (2 * d) * k + d;
    DivUnique(2 * (k * d) + d, 2 * d, k, d);
  }

  /**
   * `diffDays`: the difference between the two instants' local midnights,
   * in milliseconds, divided by the length of a day and rounded. It is the
   * difference of the day numbers.
   */
  function DiffDays(today: Instant, last: Instant): (r: int)
    ensures r == today.day - last.day
  {
    var diffTime := EpochMillis(StartOfDay(today)) - EpochMillis(StartOfDay(last));
    assert diffTime == (today.day - last.day) * MillisPerDay;
    RoundDivExact(today.day - last.day, MillisPerDay);
    RoundDiv(diffTime, MillisPerDay)
  }

  // ---------------------------------------------------------------------
  // Records
  // ---------------------------------------------------------------------

  datatype Frequency = Daily | Weekly

  /** One habit record. `reminderTime` is optional in the source; absent and `null` are both `None`. */
  datatype Habit = Habit(
    id: string,
    name: string,
    streak: int,
    lastCompleted: Option<Instant>,
    frequency: Frequency,
    startDate: Instant,
    reminderTime: Option<Instant>)

  /** What a caller passes to `addHabit`: a habit without `id`, `streak` and `lastCompleted`. */
  datatype HabitInput = HabitInput(
    name: string,
    frequency: Frequency,
    startDate: Instant,
    reminderTime: Option<Instant>)

  /** The fields a completion never touches agree. */
  predicate SameIdentity(h: Habit, h': Habit)
  {
    h.id == h'.id && h.name == h'.name && h.frequency == h'.frequency
    && h.startDate == h'.startDate && h.reminderTime == h'.reminderTime
  }

  /** The same-day test of src/components/HabitCard.tsx: last completed on `now`'s calendar day. */
  predicate CompletedToday(h: Habit, now: Instant)
  {
    h.lastCompleted.Some? && h.lastCompleted.value.day == now.day
  }

  /** The store's invariant: no streak is negative. */
  predicate StreaksNonNegative(habits: seq<Habit>)
  {
    forall i :: 0 <= i < |habits| ==> habits[i].streak >= 0
  }

  // ---------------------------------------------------------------------
  // addHabit
  // ---------------------------------------------------------------------

  /**
   * The record `addHabit` creates: the given id, streak 0, never completed,
   * and fields from which the input is recovered unchanged.
   */
  function NewHabit(input: HabitInput, id: string): (h: Habit)
    ensures h.id == id && h.streak == 0 && h.lastCompleted == None
    ensures HabitInput(h.name, h.frequency, h.startDate, h.reminderTime) == input
  {
    Habit(id, input.name, 0, None, input.frequency, input.startDate, input.reminderTime)
  }

  /** The list after `addHabit`: the old list, unchanged and in order, and one fresh record at the end. */
  function Appended(habits: seq<Habit>, input: HabitInput, id: string): (r: seq<Habit>)
    ensures |r| == |habits| + 1 && r[..|habits|] == habits
    ensures var h := r[|habits|];
      h.id == id && h.streak == 0 && h.lastCompleted == None
      && h.name == input.name && h.frequency == input.frequency
      && h.startDate == input.startDate && h.reminderTime == input.reminderTime
    ensures StreaksNonNegative(habits) ==> StreaksNonNegative(r)
  {
    habits + [NewHabit(input, id)]
  }

  // ---------------------------------------------------------------------
  // completeHabit
  // ---------------------------------------------------------------------

  /**
   * The streak rule: 1 for a first completion; for an earlier completion, one
   * more after a gap of exactly one day, 1 again after a longer gap, and
   * unchanged when the gap is zero or negative.
   */
  function NextStreak(streak: int, lastCompleted: Option<Instant>, now: Instant): (r: int)
    ensures lastCompleted.None? ==> r == 1
    ensures lastCompleted.Some? ==>
      var gap := now.day - lastCompleted.value.day;
      (gap == 1 ==> r == streak + 1) && (gap > 1 ==> r == 1) && (gap <= 0 ==> r == streak)
  {
    match lastCompleted
    case None => 1
    case Some(last) =>
      var diffDays := DiffDays(now, last);
      if diffDays == 1 then streak + 1
      else if diffDays > 1 then 1
      else streak
  }

  /** The streak rule keeps streaks non-negative and grows a streak by at most one. */
  lemma {:induction false} NextStreakBounds(streak: int, lastCompleted: Option<Instant>, now: Instant)
    ensures streak >= 0 ==> NextStreak(streak, lastCompleted, now) >= 0
    ensures NextStreak(streak, lastCompleted, now) <= if streak >= 0 then streak + 1 else 1
    ensures NextStreak(streak, lastCompleted, now) == streak || NextStreak(streak, lastCompleted, now) == streak + 1
            || NextStreak(streak, lastCompleted, now) == 1
  {
  }

  /** One matched record after `completeHabit`: new streak, `lastCompleted` the full current instant. */
  function Completed(h: Habit, now: Instant): (r: Habit)
    ensures SameIdentity(r, h) && r.lastCompleted == Some(now)
    ensures r.streak == NextStreak(h.streak, h.lastCompleted, now)
  {
    h.(streak := NextStreak(h.streak, h.lastCompleted, now), lastCompleted := Some(now))
  }

  /**
   * The list after `completeHabit(id)` at instant `now`: same length and
   * order; every record with another id unchanged; every record with this id
   * completed on `now`'s day with only its streak and completion time changed.
   */
  function CompleteAll(habits: seq<Habit>, id: string, now: Instant): (r: seq<Habit>)
    ensures |r| == |habits|
    ensures forall i :: 0 <= i < |habits| && habits[i].id != id ==> r[i] == habits[i]
    ensures forall i :: 0 <= i < |habits| && habits[i].id == id ==>
      SameIdentity(r[i], habits[i]) && r[i].lastCompleted == Some(now)
      && r[i].streak == NextStreak(habits[i].streak, habits[i].lastCompleted, now)
  {
    seq(|habits|, i requires 0 <= i < |habits| =>
      if habits[i].id == id then Completed(habits[i], now) else habits[i])
  }

  /**
   * A habit that already reads as completed on `now`'s day keeps its streak
   * when completed again that day; only its completion time moves.
   */
  lemma CompleteWhenCompletedToday(h: Habit, now: Instant)
    requires CompletedToday(h, now)
    ensures Completed(h, now) == h.(lastCompleted := Some(now))
  {
  }

  /** An id that matches no record leaves the whole list unchanged. */
  lemma CompleteUnknownId(habits: seq<Habit>, id: string, now: Instant)
    requires forall i :: 0 <= i < |habits| ==> habits[i].id != id
    ensures CompleteAll(habits, id, now) == habits
  {
  }

  /** Completion keeps every streak non-negative. */
  lemma CompletePreservesNonNegative(habits: seq<Habit>, id: string, now: Instant)
    requires StreaksNonNegative(habits)
    ensures StreaksNonNegative(CompleteAll(habits, id, now))
  {
    var r := CompleteAll(habits, id, now);
    forall i | 0 <= i < |r|
      ensures r[i].streak >= 0
    {
      if habits[i].id == id {
        NextStreakBounds(habits[i].streak, habits[i].lastCompleted, now);
      }
    }
  }

  /**
   * A second completion on the same calendar day does not touch the streak:
   * completing at `t1` and again at `t2` of the same day is the same as
   * completing once, at `t2`.
   */
  lemma CompleteTwiceSameDay(habits: seq<Habit>, id: string, t1: Instant, t2: Instant)
    requires t1.day == t2.day
    ensures CompleteAll(CompleteAll(habits, id, t1), id, t2) == CompleteAll(habits, id, t2)
  {
    var once := CompleteAll(habits, id, t1);
    var twice := CompleteAll(once, id, t2);
    var direct := CompleteAll(habits, id, t2);
    forall i | 0 <= i < |habits|
      ensures twice[i] == direct[i]
    {
      if habits[i].id == id {
        assert once[i].lastCompleted == Some(t1);
        assert twice[i].streak == once[i].streak;
      }
    }
  }

  /** The record after `completeHabit` was called on it at each instant of `history`, in order. */
  function Replay(h: Habit, history: seq<Instant>): Habit
  {
    if history == [] then h
    else Completed(Replay(h, history[..|history| - 1]), history[|history| - 1])
  }

  /** Some completion in `history` fell on calendar day `d`. */
  predicate CompletedOnDay(history: seq<Instant>, d: int)
  {
    exists i :: 0 <= i < |history| && history[i].day == d
  }

  /** The clock never runs backwards between two completions. */
  predicate Chronological(history: seq<Instant>)
  {
    forall i, j :: 0 <= i < j < |history| ==> history[i].day <= history[j].day
  }

  /**
   * What a streak means: for a new habit completed at the instants of a
   * chronological history, the streak is the number of consecutive calendar
   * days, ending with the day of the latest completion, on which the habit
   * was completed at least once.
   */
  lemma {:induction false} StreakIsTrailingRun(h: Habit, history: seq<Instant>)
    requires h.lastCompleted == None
    requires |history| > 0 && Chronological(history)
    ensures var r, last := Replay(h, history), history[|history| - 1];
      r.lastCompleted == Some(last) && r.streak >= 1
      && (forall d :: last.day - r.streak < d <= last.day ==> CompletedOnDay(history, d))
      && !CompletedOnDay(history, last.day - r.streak)
  {
    var n := |history|;
    var t := history[n - 1];
    var r := Replay(h, history);
    if n == 1 {
      assert history[..0] == [];
      assert r == Completed(Replay(h, history[..0]), t);
      assert Replay(h, []) == h;
      assert r == Completed(h, t);
      assert r.streak == 1;
      assert CompletedOnDay(history, t.day);
    } else {
      var prefix := history[..n - 1];
      var p := prefix[n - 2];
      assert Chronological(prefix);
      StreakIsTrailingRun(h, prefix);
      var s := Replay(h, prefix).streak;
      assert p.day <= t.day;
      // A day on which the prefix was completed is a day on which the history was completed.
      forall d | CompletedOnDay(prefix, d)
        ensures CompletedOnDay(history, d)
      {
        var i :| 0 <= i < |prefix| && prefix[i].day == d;
        assert history[i].day == d;
      }
      // A day other than t's on which the history was completed is one of the prefix's.
      forall d | d != t.day && CompletedOnDay(history, d)
        ensures CompletedOnDay(prefix, d) && d <= p.day
      {
        var i :| 0 <= i < n && history[i].day == d;
        assert i < n - 1;
        assert prefix[i].day == d;
        assert history[i].day <= history[n - 2].day;
      }
      assert CompletedOnDay(history, t.day);
      if t.day == p.day {
        assert r.streak == s;
      } else if t.day == p.day + 1 {
        assert r.streak == s + 1;
        forall d | t.day - r.streak < d < t.day
          ensures CompletedOnDay(history, d)
        {
          assert CompletedOnDay(prefix, d);
        }
      } else {
        assert r.streak == 1;
      }
    }
  }

  /** The scenarios the streak rule is designed for, on a habit completed at 08:00 or 09:00. */
  lemma StreakScenarios(h: Habit, today: int)
    ensures h.lastCompleted == None ==> Completed(h, Instant(today, 0)).streak == 1
    ensures h.streak == 3 && h.lastCompleted == Some(Instant(today - 1, 8 * 3600000)) ==>
      Completed(h, Instant(today, 12 * 3600000)).streak == 4
    ensures h.streak == 5 && h.lastCompleted == Some(Instant(today - 3, 8 * 3600000)) ==>
      Completed(h, Instant(today, 12 * 3600000)).streak == 1
    ensures h.streak == 2 && h.lastCompleted == Some(Instant(today, 9 * 3600000)) ==>
      Completed(h, Instant(today, 18 * 3600000)) == h.(lastCompleted := Some(Instant(today, 18 * 3600000)))
  {
  }

  // ---------------------------------------------------------------------
  // The reviver of the persisted state
  // ---------------------------------------------------------------------

  /** A parsed JSON value. */
  datatype Json =
    | Null
    | Bool(b: bool)
    | Number(n: real)
    | Str(s: string)
    | Array(elements: seq<Json>)
    | Object(members: seq<(string, Json)>)

  /** What the reviver returns for one key: the value as parsed, or the date parsed from a string. */
  datatype Revived = Kept(value: Json) | ParsedDate(text: string)

  /** The keys whose persisted strings denote dates. */
  const DateKeys: set<string> := {"lastCompleted", "startDate", "reminderTime"}

  /**
   * The reviver: a non-empty string under one of the three date keys becomes
   * the date it denotes; every other value, and every empty string, is
   * returned unchanged.
   */
  function Reviver(key: string, value: Json): (r: Revived)
    ensures !value.Str? ==> r == Kept(value)
    ensures value.Str? ==> (r.ParsedDate? <==> key in DateKeys && value.s != "")
    ensures r.ParsedDate? ==> r.text == value.s
    ensures r.Kept? ==> r.value == value
  {
    if !value.Str? then Kept(value)
    else if key == "lastCompleted" && value.s != "" then ParsedDate(value.s)
    else if key == "startDate" && value.s != "" then ParsedDate(value.s)
    else if key == "reminderTime" && value.s != "" then ParsedDate(value.s)
    else Kept(value)
  }

  // ---------------------------------------------------------------------
  // The store object
  // ---------------------------------------------------------------------

  /** The store: `habits` is replaced, never updated in place, by its two transitions. */
  class Store {
    var habits: seq<Habit>

    constructor ()
      ensures habits == []
    {
      habits := [];
    }

    /** `addHabit`: `id` stands for the `Date.now()` string the source generates. */
    method AddHabit(input: HabitInput, id: string)
      modifies this
      ensures habits == Appended(old(habits), input, id)
      ensures StreaksNonNegative(old(habits)) ==> StreaksNonNegative(habits)
    {
      habits := habits + [NewHabit(input, id)];
    }

    /** `completeHabit(id)` with the clock read as `now`. */
    method CompleteHabit(id: string, now: Instant)
      modifies this
      ensures habits == CompleteAll(old(habits), id, now)
      ensures |habits| == |old(habits)|
      ensures StreaksNonNegative(old(habits)) ==> StreaksNonNegative(habits)
    {
      if StreaksNonNegative(habits) {
        CompletePreservesNonNegative(habits, id, now);
      }
      habits := CompleteAll(habits, id, now);
    }
  }
}
