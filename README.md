# Habit tracker scoring core, modelled in Dafny

This project models the scoring logic of a habit-tracking web application:

- **Streaks.** The streak of a habit counts consecutive days of completed entries, ending today or yesterday. It comes with a `justIncreased` flag.
- **Challenge completion.** A habit's challenge is completed once it has as many main entries as its `duration`. The model tallies completed challenges per category and in total.
- **Achievements.** A fixed catalog of eleven achievements, each with a checker predicate. An engine unlocks the achievements whose checkers now hold.
- **Rank.** The user's rank is the highest one whose per-category minimums are all met.
- **Entry updates.** The day-number label of a displayed entry, and the "mark complete" and "save journal" updates it sends.
- **Reminders.** Daily reminders at 19:00 for habits not yet done today, kept in a map from habit id to timeout.

How the model represents things:

- A calendar date `YYYY-MM-DD` is an integer day number (`Types.Day`), so yesterday is `today - 1`.
- The current day (`today`) and the time of day (`nowMs`, milliseconds since midnight) are parameters.
- Chat history may be missing (`Option`).
- Icons are dropped.

The modules:

- `Types`: the data shapes.
- `Streak`, `Completion` and `Unlock`: the three functions of `src/lib/utils.ts`.
- `Achievements`: the catalog.
- `Ranks`: the rank loop of the sidebar.
- `EntryDisplay`: the entry label and update payloads, with how the home page applies a payload.
- `Reminders`: the notification hook.

Each operation that the source writes as a loop is a method with loop invariants. Each such method is proved equal to a reference function, and lemmas state the promised properties of that function. `StreakOf` and `Aggregate` are written independently of the loop: per date and as a map comprehension. `NewlyUnlocked`, `HighestMet` and `Scheduled` are the loops rewritten as recursion. What they mean is stated by the ensures of `NewlyUnlocked` and `ResolvedRank` and by `ScheduledMeaning`:

- the streak walk: `Streak.CalculateStreak`, with reference `Streak.StreakOf`;
- the category tally: `Completion.CalculateCompletedHabitsByCategory`, with reference `Completion.Aggregate`;
- the catalog walk: `Unlock.CheckAndUnlockAchievements`, with reference `Unlock.NewlyUnlocked`;
- the count-down over ranks: `Ranks.CurrentRank`, with reference `Ranks.ResolvedRank`;
- the reminder loop: `Reminders.ReminderTimers.ScheduleDailyReminders`, with reference `Reminders.Scheduled`.

The mutable timeout map is the field of a class.

Some behaviour of the code that the model keeps:

- JavaScript's sort is stable, so entries of one date keep their input order. The walk looks only at the first entry of each date. An uncompleted main entry listed before a completed extra entry of the same day therefore stops the streak (`Streak.UncompletedFirstEntryStopsStreak`).
- Completion counts main entries whether or not they are marked completed.
- The object `{ ...counts, total }` is read through `Completion.Lookup`. There, the key `"total"` always reads the total, even when a category has that name.
- The home page (`handleUpdateEntry`, src/app/(main)/home/page.tsx lines 103-120) receives the payload through `onUpdateEntry`. It applies an update to every entry of the habit dated like the displayed entry, extra entries included. Marking an extra entry complete therefore also sets the main entry of that day (`EntryDisplay.MarkCompleteReachesWholeDate`).

## Model

| member | source | states |
|---|---|---|
| `Streak.PastOrToday` | src/lib/utils.ts:25-26 | `filter(parseISO(e.date) <= today)`: the entries dated on or before today, in input order |
| `Streak.SortByDateDesc` | src/lib/utils.ts:27 | `sort((a, b) => b.date.localeCompare(a.date))` as a stable insertion sort, newest date first |
| `Streak.PastOrTodayMembers` | src/lib/utils.ts:25-26 | the filtered list holds exactly the entries dated on or before today |
| `Streak.SortSorted` | src/lib/utils.ts:27 | the sort orders newest first and is a permutation of its input |
| `Streak.SortKeepsDates` | src/lib/utils.ts:27 | the sort is stable: the entries of every date keep their input order |
| `Streak.FindCompleted` | src/lib/utils.ts:30 | `find(e => e.completed)`: the index of the first completed entry, or none when no entry is completed |
| `Streak.LatestCompletion` | src/lib/utils.ts:30-34 | none exactly when no completed entry is dated on or before today; otherwise the date of one completed entry, and no completed past entry is later |
| `Streak.StreakOf` | src/lib/utils.ts:14-78 | reference streak: if every completed past entry is older than yesterday, the result is `{0, false}` |
| `Streak.DayCounts` | src/lib/utils.ts:53-62 | a day counts when its first entry in the walk is completed; the walk stops at the first entry of the expected day otherwise |
| `Streak.RunFrom` | src/lib/utils.ts:50-66 | the number of consecutive counting days from a day backwards, as the walk with `expectedDate` computes |
| `Streak.RunFromMeaning` | src/lib/utils.ts:50-66 | the counted run is exactly the consecutive days, from the latest completion backwards, whose first entry is completed; the day before the run does not count |
| `Streak.LatestIsFirstCompleted` | src/lib/utils.ts:25-34 | in the filtered newest-first list, the first completed entry is dated at the latest completion on or before today |
| `Streak.JustIncreasedSorted` | src/lib/utils.ts:69 | "the second entry newest first is a completed entry dated yesterday" is equivalent to "today has exactly one entry and yesterday's first entry is completed" |
| `Streak.PastEntriesNewestFirst` | src/lib/utils.ts:25-27 | the filtered sorted list is newest first, holds exactly the past entries, and keeps each past date's entries in input order |
| `Streak.CountRun` | src/lib/utils.ts:50-66 | the walk with `break` counts exactly the run of counting days ending at the latest completion |
| `Streak.CalculateStreak` | src/lib/utils.ts:14-78 | the calculator returns exactly the reference streak `StreakOf` |
| `Streak.StreakIgnoresFuture` | src/lib/utils.ts:25-26 | two entry lists with the same entries dated on or before today have the same streak |
| `Streak.FutureEntriesIgnored` | src/lib/utils.ts:25-26 | appending entries dated after today leaves the streak unchanged |
| `Streak.StreakNeedsRecentCompletion` | src/lib/utils.ts:36-47 | a positive streak needs a completed entry dated today or yesterday |
| `Streak.JustIncreasedMeansTwoDays` | src/lib/utils.ts:68-74 | whenever `justIncreased` is set, the count is at least 2 |
| `Streak.RunBounded` | src/lib/utils.ts:53-63 | a run from any date is at most the number of distinct dates up to it |
| `Streak.StreakBoundedByDates` | src/lib/utils.ts:53-63 | the streak never exceeds the number of distinct dates on or before today, however many entries share a date |
| `Streak.ConsecutiveDaysEndingToday` | src/lib/utils.ts:50-66 | n consecutive counting days ending today, preceded by a day that does not count, give a streak of exactly n |
| `Streak.TwoDayRunAfterMissedDay` | src/lib/utils.ts:50-74 | completed, missed, completed, completed (today) gives `{count: 2, justIncreased: true}` |
| `Streak.UncompletedFirstEntryStopsStreak` | src/lib/utils.ts:53-62 | an uncompleted main entry before a completed extra entry of today gives `{count: 0, justIncreased: false}` |
| `Streak.RunFromTwo` | src/lib/utils.ts:53-63 | the run from a day reaches 2 exactly when that day and the day before both count |
| `Streak.JustIncreasedIntended` | src/lib/utils.ts:68-74 | corrected flag: the latest completion is today, and today and yesterday both count |
| `Streak.JustIncreasedIntendedMeaning` | src/lib/utils.ts:68-74 | the intended flag holds exactly when the latest completion is today and the streak is at least 2 |
| `Streak.JustIncreasedAsWrittenIsNarrower` | src/lib/utils.ts:69 | the flag as written implies the intended flag |
| `Streak.ExtraEntryHidesIncrease` | src/lib/utils.ts:69 | completed yesterday and today plus an extra entry today, completed or not, gives `{2, false}`, yet the intended flag holds |
| `Completion.MainCount` | src/lib/utils.ts:98 | the number of non-extra entries is at most the number of entries |
| `Completion.MainCountAppend` | src/lib/utils.ts:98 | the main-entry count of a concatenation is the sum of the counts |
| `Completion.IsCompleted` | src/lib/utils.ts:98-99 | a missing or `NaN` duration is never reached; a completed habit has at least `duration` entries; a duration of at most 0 is always reached |
| `Completion.CompletedWhere` | src/lib/utils.ts:97-103 | the number of completed habits, optionally of one category, is at most the number of habits and positive exactly when such a habit exists |
| `Completion.Aggregate` | src/lib/utils.ts:93-107 | reference aggregate: per category with a completed habit, the number of completed habits of it, and the total |
| `Completion.Lookup` | src/lib/utils.ts:106 | reads key k of `{ ...counts, total }`, a missing key as 0, as achievements.ts lines 72-86 and Sidebar.tsx line 61 do: "total" gives the total, a missing category 0 |
| `Completion.AggregateMeaning` | src/lib/utils.ts:93-107 | a category is present exactly when some habit of it is completed, and holds their number; the total is the number of completed habits and at most the number of habits |
| `Completion.LookupAggregate` | src/lib/utils.ts:106 | reading key k of `{ ...counts, total }`, missing keys as 0, gives the total for "total" and the category count, 0 when absent, for any other key |
| `Completion.CategoryWithinTotal` | src/lib/utils.ts:101-102 | no category count exceeds the total |
| `Completion.LookupWithinTotal` | src/lib/utils.ts:101-106 | every value read from the result is at most the total, which is at most the number of habits |
| `Completion.Tick` | src/lib/utils.ts:98-103 | one run of the `forEach` body: a completed habit adds one to its category, 0 when missing, and to the total |
| `Completion.AggregateStep` | src/lib/utils.ts:97-104 | folding one more habit adds one to its category and to the total if it is completed, and changes nothing otherwise |
| `Completion.FoldIsAggregate` | src/lib/utils.ts:94-106 | the order-dependent fold of the loop equals the reference aggregate |
| `Completion.CalculateCompletedHabitsByCategory` | src/lib/utils.ts:93-107 | the loop updating `counts` and `total` returns exactly the reference aggregate |
| `Completion.AggregatePermutation` | src/lib/utils.ts:97-104 | permuting the habit list leaves the aggregate unchanged |
| `Completion.AggregateByStatus` | src/lib/utils.ts:98-99 | the aggregate depends on each habit only through its category and whether it is completed |
| `Completion.ExtraEntryKeepsAggregate` | src/lib/utils.ts:98 | inserting an extra entry anywhere in a habit's log leaves the aggregate unchanged |
| `Achievements.Holds` | src/lib/achievements.ts:26-106 | the six checker shapes: a completed entry, a streak of n, a total of n, a category count of n, a user message, a habit matching a suggestion |
| `Achievements.CATALOG` | src/lib/achievements.ts:19-108 | the eleven achievements in order, each with its id, name, description, secrecy and checker |
| `Achievements.History` | src/lib/achievements.ts:95-104 | the `chatHistory` fallback to an empty list: a missing history reads as the empty one |
| `Achievements.SuggestionsOf` | src/lib/achievements.ts:104 | the flattened suggestions are exactly those attached to some message, whatever its role |
| `Achievements.CatalogShape` | src/lib/achievements.ts:19-108 | eleven achievements with pairwise distinct ids; only `ai_habit_added` is secret |
| `Achievements.StreakCheckersNest` | src/lib/achievements.ts:33-47 | a streak checker for n days implies the one for fewer days |
| `Achievements.StreakImpliesFirstStep` | src/lib/achievements.ts:26-33 | any positive streak checker implies `first_step` |
| `Achievements.CatalogStreakChain` | src/lib/achievements.ts:26-47 | `streak_21_days` implies `streak_7_days`, which implies `streak_3_days`, which implies `first_step` |
| `Achievements.CategoryImpliesCompletion` | src/lib/achievements.ts:72-86 | a category checker for n completed habits implies a total of n |
| `Achievements.CatalogCompletionChain` | src/lib/achievements.ts:56-86 | `five_habits_completed` and each of the three category achievements imply `first_habit_completed` |
| `Achievements.MissingHistoryIsEmpty` | src/lib/achievements.ts:95-104 | a missing chat history behaves as an empty one for every checker, and then neither chat checker holds |
| `Achievements.SuggestedHabitMeaning` | src/lib/achievements.ts:103-106 | `ai_habit_added` holds exactly when some habit has the name and category of a suggestion on some message |
| `Unlock.NewlyUnlocked` | src/lib/utils.ts:114-124 | an id is newly unlocked exactly when a catalog achievement has it, it is not unlocked yet, and its checker holds |
| `Unlock.Dedup` | src/lib/utils.ts:126 | `[...new Set(s)]` has no repeats and the same members as `s` |
| `Unlock.CheckAndUnlockAchievements` | src/lib/utils.ts:109-129 | the catalog walk returns exactly `NewlyUnlocked` over the catalog, and the full list is `Dedup(existing + newly)` |
| `Unlock.NewlyDisjointFromExisting` | src/lib/utils.ts:118-126 | no unlocked id is unlocked again, and every old id is in the full list |
| `Unlock.DedupOfNoDup` | src/lib/utils.ts:126 | de-duplicating a list without repeats returns it unchanged |
| `Unlock.DedupPrefix` | src/lib/utils.ts:126 | the de-duplicated old list is a prefix of the de-duplicated whole, so first occurrences keep their place |
| `Unlock.NewlyNoDup` | src/lib/utils.ts:116-124 | with distinct catalog ids, the new ids have no repeats |
| `Unlock.AllIsExistingThenNewly` | src/lib/utils.ts:126 | with duplicate-free old ids, the full list is the old ids followed by the new ones |
| `Unlock.NothingLeftToUnlock` | src/lib/utils.ts:116-124 | once a list covers the old and the new ids, a walk against it unlocks nothing |
| `Unlock.Idempotent` | src/lib/utils.ts:116-126 | re-running on the full list unlocks nothing, and the full list stays the same |
| `Unlock.OnlyIdAndCheckerMatter` | src/lib/achievements.ts:102 | catalogs that agree on ids and checkers unlock the same ids: `isSecret`, name and description are inert |
| `Ranks.RequirementsMet` | src/components/Sidebar.tsx:60-63 | every `(category, requiredCount)` of the rank has a count, 0 when the category is missing, of at least `requiredCount` |
| `Ranks.HighestMet` | src/components/Sidebar.tsx:58-66 | the largest index whose requirements are met; no higher index is met; none found means no rank below the bound is met |
| `Ranks.ResolvedRank` | src/components/Sidebar.tsx:57-69 | no rank exactly for an empty rank list; otherwise the highest rank whose requirements are all met, with no higher rank met, or the lowest rank when none is met |
| `Ranks.CurrentRank` | src/components/Sidebar.tsx:57-69 | the count-down loop with early return returns exactly the resolved rank |
| `Ranks.RankIndexMeaning` | src/components/Sidebar.tsx:58-68 | the resolved index is the largest met one, or 0 when no rank is met |
| `Ranks.EmptyRequirementsAlwaysMet` | src/components/Sidebar.tsx:60 | a rank with no requirements is met, so the resolved rank is at least as high as it |
| `Ranks.RankMonotone` | src/components/Sidebar.tsx:57-69 | pointwise larger counts never give a lower rank |
| `Completion.CompletedWhereGrows` | src/lib/utils.ts:97-103 | adding a habit never lowers a completion count |
| `Ranks.AddingHabitKeepsRank` | src/components/Sidebar.tsx:55-69 | adding a habit, completed or not, never lowers the rank |
| `EntryDisplay.FindIndexOnDate` | src/components/HabitEntryDisplay.tsx:37 | `findIndex` gives the first index on that date, or -1 when no entry has it |
| `EntryDisplay.DayNumber` | src/components/HabitEntryDisplay.tsx:37-38 | the label is the number of main entries minus the `findIndex` of the entry's date |
| `EntryDisplay.DayNumberRange` | src/components/HabitEntryDisplay.tsx:37-38 | with a same-date main entry the day number lies in 1..n; without one it is n+1 |
| `EntryDisplay.DayNumberOfMainEntry` | src/components/HabitEntryDisplay.tsx:37-38 | main entries with distinct dates at index k are numbered n-k |
| `EntryDisplay.ExtraSharesDayNumber` | src/components/HabitEntryDisplay.tsx:37-57 | an extra entry gets the day number of its date's main entry |
| `EntryDisplay.MarkCompletePatch` | src/components/HabitEntryDisplay.tsx:33-35 | the payload `{ completed: !entry.completed }` |
| `EntryDisplay.SaveJournalPatch` | src/components/HabitEntryDisplay.tsx:28-31 | the payload `{ journal: journalText }` |
| `EntryDisplay.ApplyPatch` | src/components/HabitEntryDisplay.tsx:17 | `{ ...e, ...newValues }` for the payload passed to `onUpdateEntry`; home/page.tsx line 110 applies it |
| `EntryDisplay.UpdateEntries` | src/components/HabitEntryDisplay.tsx:17 | the `entries.map` of home/page.tsx line 110 that receives `onUpdateEntry`'s payload: same length, the payload applied to the entries of the date |
| `EntryDisplay.UpdateHabits` | src/components/HabitEntryDisplay.tsx:17 | the `habits.map` of home/page.tsx lines 105-117 that receives `onUpdateEntry`'s call: same length, only the habit with that id changes |
| `EntryDisplay.UpdateEntriesAt` | src/components/HabitEntryDisplay.tsx:17 | for the `entries.map` of home/page.tsx line 110 behind `onUpdateEntry`: each entry dated like the update gets the payload applied; the others are unchanged |
| `EntryDisplay.UpdateHabitsAt` | src/components/HabitEntryDisplay.tsx:17 | for the `habits.map` of home/page.tsx lines 105-117 behind `onUpdateEntry`: only the habit with the given id has its entries updated |
| `EntryDisplay.ToggleTwiceRestoresEntry` | src/components/HabitEntryDisplay.tsx:33-35 | the mark-complete payload negates `completed`; applying it twice restores the entry |
| `EntryDisplay.MarkCompleteReachesWholeDate` | src/components/HabitEntryDisplay.tsx:33-35 | marking an entry sets every entry of its date, extra ones included, to the negation of that entry's flag, and leaves other dates alone |
| `EntryDisplay.SaveJournalOnlyTouchesJournal` | src/components/HabitEntryDisplay.tsx:28-31 | saving a journal sets `journal` on that habit's entries of that date and changes nothing else, `completed` included |
| `EntryDisplay.UpdateKeepsMainCount` | src/components/HabitEntryDisplay.tsx:28-35 | an update never changes the number of main entries |
| `EntryDisplay.UpdateKeepsAggregate` | src/components/HabitEntryDisplay.tsx:28-35 | no update payload changes the completion aggregate |
| `Reminders.DoneToday` | src/hooks/use-notifications.tsx:26-28 | `hasCompletedToday`: some entry of the habit, main or extra, is dated today and completed |
| `Reminders.Scheduled` | src/hooks/use-notifications.tsx:24-55 | the timeout map the `forEach` leaves: habits in order, a later equal id overwriting an earlier one |
| `Reminders.ScheduledMeaning` | src/hooks/use-notifications.tsx:24-55 | an id is scheduled exactly when it is not past 19:00 and some habit with that id is not done today, and every delay is 19:00 minus now |
| `Reminders.AllOrNothing` | src/hooks/use-notifications.tsx:26-41 | after 19:00 nothing is scheduled; before it, every habit not done today is; an id all of whose habits are done is not |
| `Reminders.ScheduledDelaysNonNegative` | src/hooks/use-notifications.tsx:43 | every scheduled delay is non-negative |
| `Reminders.ReminderTimers.constructor` | src/hooks/use-notifications.tsx:10 | the timeout map starts empty |
| `Reminders.ReminderTimers.ClearAllReminders` | src/hooks/use-notifications.tsx:61-64 | clearing leaves the map empty |
| `Reminders.ReminderTimers.ScheduleDailyReminders` | src/hooks/use-notifications.tsx:16-56 | after clearing and the loop, the map is exactly `Scheduled`, with non-negative delays |
| `Reminders.ReminderTimers.HandleStorageChange` | src/hooks/use-notifications.tsx:84-88 | enabled with permission gives the scheduled map; otherwise the map is left empty |
| `Reminders.ReminderTimers.Fire` | src/hooks/use-notifications.tsx:51 | a firing timeout removes its own id and nothing else |

## Left out

- Parsing dates, time zones and daylight-saving shifts. Dates are day numbers, and "now" is a day plus milliseconds since midnight. `isSameDay`, `subDays` and the string comparison of `YYYY-MM-DD` are integer comparison and subtraction.
- The defensive `!entries` test at src/lib/utils.ts:15 for a missing entry list. Entry lists are always sequences here.
- Arming and cancelling browser timers (`setTimeout`, `clearTimeout`), showing a `Notification`, `localStorage`, `window` event listeners and `setNotificationPreference`. These are browser APIs. A timeout is represented by its delay, and `Fire` is only the map update the callback makes.
- The contents of the rank list. They live in a constants file that is not part of this model, so the list is a parameter.
- Object keys inherited from JavaScript's prototype (a category literally named `constructor` reads a function rather than `undefined`). Category counts are an ordinary map.
- The experience points granted by `handleUpdateEntry` (src/app/(main)/home/page.tsx:104-116). They are written to the database, which is outside the model.
- React state (`isOpen`, `journalText`), `useMemo`, rendering, icons, database and AI-service I/O.
- The streak checkers call `calculateStreak`. In the model they read the reference `StreakOf`, which `Streak.CalculateStreak` is proved to compute.
- `Ranks.RequirementsMet`: rank requirements are integers. They come from the rank constants file, which is not part of this model; a `NaN` or missing requirement is not modelled.
- `Types.Habit`: an infinite `duration` is not modelled apart. `Infinity` behaves like `None` (never reached) and `-Infinity` like any duration of at most 0.
- `Ranks.CurrentRank`: an empty rank list gives `None`, the model of the `undefined` that `RANKS[0]` then yields.

## Findings

| source | as written | input that shows it | evidently intended | confidence | as-written member | corrected member |
|---|---|---|---|---|---|---|
| src/lib/utils.ts:69 | `justIncreased` needs the SECOND entry in newest-first order to be a completed entry dated yesterday | entries yesterday-completed, today-completed and an extra entry today, on day 20; the extra entry may be completed or not, and `handleAddNewEntry` appends it uncompleted: the result is `{2, false}` because the second entry is today's extra entry | the flag reports that today's completion extended a streak from yesterday (latest completion today and count at least 2), however many entries today has | medium, not executed | `Streak.ExtraEntryHidesIncrease` | `Streak.JustIncreasedIntendedMeaning` |

`Streak.CalculateStreak` keeps the flag as written. `Streak.JustIncreasedIntended` is the corrected flag. `Streak.JustIncreasedAsWrittenIsNarrower` shows that the corrected flag holds whenever the written one does. No other operation of the core reads the flag.
