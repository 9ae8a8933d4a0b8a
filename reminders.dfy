/**
 * Daily reminders (src/hooks/use-notifications.tsx).
 *
 * The module-level map from habit id to pending timeout is the field
 * `timeouts` of a `ReminderTimers` object; a timeout is represented by the
 * delay it was armed with, in milliseconds. The clock is two parameters:
 * `today` (a day number) and `nowMs` (milliseconds since midnight today).
 * Arming, cancelling and firing browser timers and showing notifications
 * are outside the model; `Fire` is the map update a firing timer makes.
 */
module Reminders {
  import opened Types

  /** 19:00:00.000 as milliseconds since midnight. */
  const REMINDER_MS: int := 19 * 60 * 60 * 1000

  /** Some entry of the habit, main or extra, is dated today and completed. */
  predicate DoneToday(h: Habit, today: Day)
  {
    exists e :: e in h.entries && e.date == today && e.completed
  }

  /** The timeouts that scheduling leaves, folding the habits in order (a later equal id overwrites). */
  function Scheduled(habits: seq<Habit>, today: Day, nowMs: int): map<string, int>
  {
    if habits == [] then map[]
    else
      var m := Scheduled(habits[..|habits| - 1], today, nowMs);
      var h := habits[|habits| - 1];
      if DoneToday(h, today) || nowMs > REMINDER_MS then m else m[h.id := REMINDER_MS - nowMs]
  }

  /**
   * A habit id is scheduled exactly when it is not yet 19:00 and some habit
   * with that id is not done today; every delay is the time left until 19:00.
   */
  lemma {:induction false} ScheduledMeaning(habits: seq<Habit>, today: Day, nowMs: int)
    ensures forall id :: id in Scheduled(habits, today, nowMs) <==>
      nowMs <= REMINDER_MS && exists h :: h in habits && h.id == id && !DoneToday(h, today)
    ensures forall id :: id in Scheduled(habits, today, nowMs) ==> Scheduled(habits, today, nowMs)[id] == REMINDER_MS - nowMs
  {
    if habits != [] {
      var init := habits[..|habits| - 1];
      ScheduledMeaning(init, today, nowMs);
      assert forall h :: h in habits <==> h in init || h == habits[|habits| - 1];
    }
  }

  /** After 19:00 nothing is scheduled; before it, every habit not done today is; an id all of whose habits are done is not. */
  lemma AllOrNothing(habits: seq<Habit>, today: Day, nowMs: int)
    ensures nowMs > REMINDER_MS ==> Scheduled(habits, today, nowMs) == map[]
    ensures nowMs <= REMINDER_MS ==> forall h :: h in habits && !DoneToday(h, today) ==> h.id in Scheduled(habits, today, nowMs)
    ensures forall id :: (forall g :: g in habits && g.id == id ==> DoneToday(g, today)) ==>
              id !in Scheduled(habits, today, nowMs)
  {
    ScheduledMeaning(habits, today, nowMs);
    if nowMs > REMINDER_MS {
      assert Scheduled(habits, today, nowMs).Keys == {};
    }
  }

  /** Every scheduled delay is non-negative. */
  lemma ScheduledDelaysNonNegative(habits: seq<Habit>, today: Day, nowMs: int)
    ensures forall id :: id in Scheduled(habits, today, nowMs) ==> Scheduled(habits, today, nowMs)[id] >= 0
  {
    ScheduledMeaning(habits, today, nowMs);
  }

  class ReminderTimers {
    var timeouts: map<string, int>

    /** No pending timeout has a negative delay. */
    predicate Valid()
      reads this
    {
      forall id :: id in timeouts ==> timeouts[id] >= 0
    }

    constructor ()
      ensures Valid() && timeouts == map[]
    {
      timeouts := map[];
    }

    /** `clearAllReminders`: every pending timeout is cancelled and the map emptied. */
    method ClearAllReminders()
      modifies this
      ensures Valid() && timeouts == map[]
    {
      timeouts := map[];
    }

    /** `scheduleDailyReminders`: clear, then arm one 19:00 timeout per habit not done today. */
    method ScheduleDailyReminders(habits: seq<Habit>, today: Day, nowMs: int)
      modifies this
      ensures Valid()
      ensures timeouts == Scheduled(habits, today, nowMs)
    {
      ClearAllReminders();
      for i := 0 to |habits|
        invariant timeouts == Scheduled(habits[..i], today, nowMs)
      {
        var habit := habits[i];
        assert habits[..i + 1][..i] == habits[..i];
        var hasCompletedToday := DoneToday(habit, today);
        if hasCompletedToday {
          continue;
        }
        if nowMs > REMINDER_MS {
          continue;
        }
        var delay := REMINDER_MS - nowMs;
        timeouts := timeouts[habit.id := delay];
      }
      assert habits[..|habits|] == habits;
      ScheduledDelaysNonNegative(habits, today, nowMs);
    }

    /** The enable/disable branch of `handleStorageChange`. */
    method HandleStorageChange(notificationsEnabled: bool, permissionGranted: bool,
                               habits: seq<Habit>, today: Day, nowMs: int)
      modifies this
      ensures Valid()
      ensures timeouts == if notificationsEnabled && permissionGranted then Scheduled(habits, today, nowMs) else map[]
    {
      if notificationsEnabled && permissionGranted {
        ScheduleDailyReminders(habits, today, nowMs);
      } else {
        ClearAllReminders();
      }
    }

    /** A timeout that fires removes its own entry. */
    method Fire(id: string)
      requires Valid()
      modifies this
      ensures Valid()
      ensures timeouts == old(timeouts) - {id}
    {
      timeouts := timeouts - {id};
    }
  }
}
