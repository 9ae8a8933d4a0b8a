/**
 * The day-number label and the two update payloads of one displayed entry
 * (src/components/HabitEntryDisplay.tsx), and how the home page applies a
 * payload (`handleUpdateEntry` in src/app/(main)/home/page.tsx, without
 * the experience points it grants).
 *
 * A payload is a partial entry; applying it overwrites the fields it
 * carries. The home page applies it to EVERY entry of the habit whose date
 * is the displayed entry's date, extra entries included.
 */
module EntryDisplay {
  import opened Types
  import opened Completion

  // ---------------------------------------------------------------------
  // Day number

  /** `findIndex` of the first entry on date `d`, or -1. */
  function FindIndexOnDate(entries: seq<Entry>, d: Day): (k: int)
    ensures -1 <= k < |entries|
    ensures k >= 0 ==> entries[k].date == d && forall j :: 0 <= j < k ==> entries[j].date != d
    ensures k == -1 ==> forall j :: 0 <= j < |entries| ==> entries[j].date != d
  {
    if entries == [] then -1
    else if entries[0].date == d then 0
    else
      var k := FindIndexOnDate(entries[1..], d);
      if k == -1 then -1 else k + 1
  }

  /** The "Día n" label: the number of main entries minus the index of the first one on the entry's date. */
  function DayNumber(mainDayEntries: seq<Entry>, entry: Entry): int
  {
    |mainDayEntries| - FindIndexOnDate(mainDayEntries, entry.date)
  }

  /** With a main entry on the same date the label lies in 1..|main entries|; without one it is one past. */
  lemma DayNumberRange(mainDayEntries: seq<Entry>, entry: Entry)
    ensures (exists j :: 0 <= j < |mainDayEntries| && mainDayEntries[j].date == entry.date) ==>
      1 <= DayNumber(mainDayEntries, entry) <= |mainDayEntries|
    ensures (forall j :: 0 <= j < |mainDayEntries| ==> mainDayEntries[j].date != entry.date) ==>
      DayNumber(mainDayEntries, entry) == |mainDayEntries| + 1
  {
  }

  /** Main entries with distinct dates, newest first, are numbered |m|, |m|-1, …, 1. */
  lemma DayNumberOfMainEntry(mainDayEntries: seq<Entry>, k: nat)
    requires k < |mainDayEntries|
    requires forall i, j :: 0 <= i < j < |mainDayEntries| ==> mainDayEntries[i].date != mainDayEntries[j].date
    ensures DayNumber(mainDayEntries, mainDayEntries[k]) == |mainDayEntries| - k
  {
    var f := FindIndexOnDate(mainDayEntries, mainDayEntries[k].date);
    assert f >= 0;
  }

  /** An extra entry carries the day number of its date's main entry. */
  lemma ExtraSharesDayNumber(mainDayEntries: seq<Entry>, extra: Entry, k: nat)
    requires k < |mainDayEntries| && mainDayEntries[k].date == extra.date
    requires forall i, j :: 0 <= i < j < |mainDayEntries| ==> mainDayEntries[i].date != mainDayEntries[j].date
    ensures DayNumber(mainDayEntries, extra) == DayNumber(mainDayEntries, mainDayEntries[k]) == |mainDayEntries| - k
  {
    DayNumberOfMainEntry(mainDayEntries, k);
  }

  // ---------------------------------------------------------------------
  // Update payloads

  /** A `Partial<HabitEntry>` with the two fields the display ever sends. */
  datatype EntryPatch = EntryPatch(completed: Option<bool>, journal: Option<string>)

  /** `handleMarkComplete`: `{ completed: !entry.completed }`. */
  function MarkCompletePatch(entry: Entry): EntryPatch
  {
    EntryPatch(Some(!entry.completed), None)
  }

  /** `handleSaveAndClose`: `{ journal: journalText }`. */
  function SaveJournalPatch(text: string): EntryPatch
  {
    EntryPatch(None, Some(text))
  }

  /** `{ ...e, ...newValues }`. */
  function ApplyPatch(e: Entry, p: EntryPatch): Entry
  {
    e.(completed := if p.completed.Some? then p.completed.value else e.completed,
       journal := if p.journal.Some? then p.journal else e.journal)
  }

  /** `entries.map(e => e.date === entryDate ? { ...e, ...newValues } : e)`. */
  function UpdateEntries(es: seq<Entry>, date: Day, p: EntryPatch): (r: seq<Entry>)
    ensures |r| == |es|
  {
    if es == [] then []
    else [if es[0].date == date then ApplyPatch(es[0], p) else es[0]] + UpdateEntries(es[1..], date, p)
  }

  /** `habits.map(h => h.id === habitId ? { ...h, entries: updatedEntries } : h)`. */
  function UpdateHabits(hs: seq<Habit>, habitId: string, date: Day, p: EntryPatch): (r: seq<Habit>)
    ensures |r| == |hs|
  {
    if hs == [] then []
    else
      var h := if hs[0].id == habitId then hs[0].(entries := UpdateEntries(hs[0].entries, date, p)) else hs[0];
      [h] + UpdateHabits(hs[1..], habitId, date, p)
  }

  lemma {:induction false} UpdateEntriesAt(es: seq<Entry>, date: Day, p: EntryPatch, i: nat)
    requires i < |es|
    ensures UpdateEntries(es, date, p)[i] == if es[i].date == date then ApplyPatch(es[i], p) else es[i]
  {
    if i > 0 {
      UpdateEntriesAt(es[1..], date, p, i - 1);
    }
  }

  lemma {:induction false} UpdateHabitsAt(hs: seq<Habit>, habitId: string, date: Day, p: EntryPatch, i: nat)
    requires i < |hs|
    ensures UpdateHabits(hs, habitId, date, p)[i] ==
      if hs[i].id == habitId then hs[i].(entries := UpdateEntries(hs[i].entries, date, p)) else hs[i]
  {
    if i > 0 {
      UpdateHabitsAt(hs[1..], habitId, date, p, i - 1);
    }
  }

  // ---------------------------------------------------------------------
  // What an update does

  /** Toggling an entry and then toggling the result gives the entry back. */
  lemma ToggleTwiceRestoresEntry(e: Entry)
    ensures var once := ApplyPatch(e, MarkCompletePatch(e));
      once.completed == !e.completed && ApplyPatch(once, MarkCompletePatch(once)) == e
  {
  }

  /**
   * Marking an entry sets `completed` to the negation of that entry's flag on
   * every entry of its date, main or extra; entries of other dates and every
   * other field are untouched.
   */
  lemma MarkCompleteReachesWholeDate(es: seq<Entry>, e: Entry)
    ensures forall i :: 0 <= i < |es| && es[i].date == e.date ==>
      UpdateEntries(es, e.date, MarkCompletePatch(e))[i] == es[i].(completed := !e.completed)
    ensures forall i :: 0 <= i < |es| && es[i].date != e.date ==>
      UpdateEntries(es, e.date, MarkCompletePatch(e))[i] == es[i]
  {
    forall i | 0 <= i < |es|
      ensures UpdateEntries(es, e.date, MarkCompletePatch(e))[i] == if es[i].date == e.date then es[i].(completed := !e.completed) else es[i]
    {
      UpdateEntriesAt(es, e.date, MarkCompletePatch(e), i);
    }
  }

  /** Saving a journal changes only `journal`, and only on entries of that habit and date. */
  lemma SaveJournalOnlyTouchesJournal(hs: seq<Habit>, habitId: string, date: Day, text: string)
    ensures var r := UpdateHabits(hs, habitId, date, SaveJournalPatch(text));
      forall i :: 0 <= i < |hs| ==>
        r[i].id == hs[i].id && |r[i].entries| == |hs[i].entries| &&
        forall j :: 0 <= j < |hs[i].entries| ==>
          r[i].entries[j] == (if hs[i].id == habitId && hs[i].entries[j].date == date
                              then hs[i].entries[j].(journal := Some(text)) else hs[i].entries[j])
  {
    var r := UpdateHabits(hs, habitId, date, SaveJournalPatch(text));
    forall i | 0 <= i < |hs|
      ensures r[i].id == hs[i].id && |r[i].entries| == |hs[i].entries|
      ensures forall j :: 0 <= j < |hs[i].entries| ==>
        r[i].entries[j] == (if hs[i].id == habitId && hs[i].entries[j].date == date
                            then hs[i].entries[j].(journal := Some(text)) else hs[i].entries[j])
    {
      UpdateHabitsAt(hs, habitId, date, SaveJournalPatch(text), i);
      forall j | 0 <= j < |hs[i].entries| && hs[i].id == habitId
        ensures r[i].entries[j] == (if hs[i].entries[j].date == date
                                    then hs[i].entries[j].(journal := Some(text)) else hs[i].entries[j])
      {
        UpdateEntriesAt(hs[i].entries, date, SaveJournalPatch(text), j);
      }
    }
  }

  lemma {:induction false} UpdateKeepsMainCount(es: seq<Entry>, date: Day, p: EntryPatch)
    ensures MainCount(UpdateEntries(es, date, p)) == MainCount(es)
  {
    if es != [] {
      UpdateKeepsMainCount(es[1..], date, p);
    }
  }

  /**
   * No update payload changes which challenges are completed: completion
   * counts main entries and never reads `completed` or `journal`.
   */
  lemma UpdateKeepsAggregate(hs: seq<Habit>, habitId: string, date: Day, p: EntryPatch)
    ensures Aggregate(UpdateHabits(hs, habitId, date, p)) == Aggregate(hs)
  {
    var r := UpdateHabits(hs, habitId, date, p);
    forall i | 0 <= i < |hs|
      ensures r[i].category == hs[i].category && IsCompleted(r[i]) == IsCompleted(hs[i])
    {
      UpdateHabitsAt(hs, habitId, date, p, i);
      UpdateKeepsMainCount(hs[i].entries, date, p);
    }
    AggregateByStatus(r, hs);
  }
}
