/**
 * The streak calculator (`calculateStreak` in src/lib/utils.ts).
 *
 * `StreakOf` is an independent definition of the streak, stated on the
 * entries themselves: the latest completion on or before today, and the
 * run of consecutive days before it whose first entry is completed.
 * `CalculateStreak` follows the source step by step (filter, stable sort,
 * find, a walk with `break`) and is proved to compute `StreakOf`.
 */
module Streak {
  import opened Types

  datatype StreakResult = StreakResult(count: nat, justIncreased: bool)

  // ---------------------------------------------------------------------
  // Entries of one date

  /** The entries dated `d`, in list order. */
  function OnDate(s: seq<Entry>, d: Day): (r: seq<Entry>)
    ensures |r| <= |s|
  {
    if s == [] then []
    else (if s[0].date == d then [s[0]] else []) + OnDate(s[1..], d)
  }

  lemma {:induction false} OnDateMembers(s: seq<Entry>, d: Day)
    ensures forall e :: e in OnDate(s, d) <==> e in s && e.date == d
  {
    if s != [] {
      OnDateMembers(s[1..], d);
      assert s == [s[0]] + s[1..];
    }
  }

  lemma {:induction false} OnDateAppend(a: seq<Entry>, b: seq<Entry>, d: Day)
    ensures OnDate(a + b, d) == OnDate(a, d) + OnDate(b, d)
  {
    if a == [] {
      assert a + b == b;
    } else {
      var head := if a[0].date == d then [a[0]] else [];
      assert (a + b)[0] == a[0] && (a + b)[1..] == a[1..] + b;
      assert OnDate(a + b, d) == head + OnDate(a[1..] + b, d);
      OnDateAppend(a[1..], b, d);
    }
  }

  lemma NoneOnDate(s: seq<Entry>, d: Day)
    requires forall k :: 0 <= k < |s| ==> s[k].date != d
    ensures OnDate(s, d) == []
  {
    OnDateMembers(s, d);
    if OnDate(s, d) != [] {
      assert OnDate(s, d)[0] in OnDate(s, d);
    }
  }

  /** The first entry dated `d`, if any: the one a walk over the list meets first. */
  function FirstOn(s: seq<Entry>, d: Day): Option<Entry>
  {
    var on := OnDate(s, d);
    if on == [] then None else Some(on[0])
  }

  /** Day `d` counts for a streak: its first entry exists and is completed. */
  predicate DayCounts(s: seq<Entry>, d: Day)
  {
    FirstOn(s, d).Some? && FirstOn(s, d).value.completed
  }

  lemma FirstOnAt(s: seq<Entry>, i: nat, d: Day)
    requires i < |s| && s[i].date == d
    requires forall k :: 0 <= k < i ==> s[k].date != d
    ensures FirstOn(s, d) == Some(s[i])
  {
    assert s == s[..i] + s[i..];
    OnDateAppend(s[..i], s[i..], d);
    NoneOnDate(s[..i], d);
    assert s[i..] == [s[i]] + s[i + 1..];
    OnDateAppend([s[i]], s[i + 1..], d);
  }

  // ---------------------------------------------------------------------
  // Preprocessing: drop future entries, stable sort newest first, find

  /** The entries dated on or before `today`, in list order. */
  function PastOrToday(s: seq<Entry>, today: Day): seq<Entry>
  {
    if s == [] then []
    else (if s[0].date <= today then [s[0]] else []) + PastOrToday(s[1..], today)
  }

  lemma {:induction false} PastOrTodayMembers(s: seq<Entry>, today: Day)
    ensures forall e :: e in PastOrToday(s, today) <==> e in s && e.date <= today
  {
    if s != [] {
      PastOrTodayMembers(s[1..], today);
      assert s == [s[0]] + s[1..];
    }
  }

  lemma {:induction false} PastOrTodayOnDate(s: seq<Entry>, today: Day, d: Day)
    requires d <= today
    ensures OnDate(PastOrToday(s, today), d) == OnDate(s, d)
  {
    if s != [] {
      var head := if s[0].date <= today then [s[0]] else [];
      OnDateAppend(head, PastOrToday(s[1..], today), d);
      PastOrTodayOnDate(s[1..], today, d);
      assert s == [s[0]] + s[1..];
      OnDateAppend([s[0]], s[1..], d);
    }
  }

  lemma {:induction false} PastOrTodayAppend(a: seq<Entry>, b: seq<Entry>, today: Day)
    ensures PastOrToday(a + b, today) == PastOrToday(a, today) + PastOrToday(b, today)
  {
    if a == [] {
      assert a + b == b;
    } else {
      var head := if a[0].date <= today then [a[0]] else [];
      assert (a + b)[0] == a[0] && (a + b)[1..] == a[1..] + b;
      assert PastOrToday(a + b, today) == head + PastOrToday(a[1..] + b, today);
      PastOrTodayAppend(a[1..], b, today);
    }
  }

  predicate SortedDesc(s: seq<Entry>)
  {
    forall i, j :: 0 <= i < j < |s| ==> s[i].date >= s[j].date
  }

  /** Puts `x` in front of the first entry that is not newer than it. */
  function Insert(x: Entry, s: seq<Entry>): seq<Entry>
  {
    if s == [] || s[0].date <= x.date then [x] + s
    else [s[0]] + Insert(x, s[1..])
  }

  /** Sorting by date, newest first (a stable insertion sort). */
  function SortByDateDesc(s: seq<Entry>): seq<Entry>
  {
    if s == [] then [] else Insert(s[0], SortByDateDesc(s[1..]))
  }

  lemma ConsSorted(y: Entry, r: seq<Entry>)
    requires SortedDesc(r) && (r == [] || r[0].date <= y.date)
    ensures SortedDesc([y] + r)
  {
    forall i, j | 0 <= i < j < |[y] + r|
      ensures ([y] + r)[i].date >= ([y] + r)[j].date
    {
      if i == 0 {
        assert ([y] + r)[j] == r[j - 1];
        assert r[0].date >= r[j - 1].date || j == 1;
      } else {
        assert ([y] + r)[i] == r[i - 1] && ([y] + r)[j] == r[j - 1];
      }
    }
  }

  lemma {:induction false} InsertSorted(x: Entry, s: seq<Entry>)
    requires SortedDesc(s)
    ensures SortedDesc(Insert(x, s))
    ensures multiset(Insert(x, s)) == multiset(s) + multiset{x}
    ensures Insert(x, s)[0] == x || (s != [] && Insert(x, s)[0] == s[0])
  {
    if s == [] || s[0].date <= x.date {
      ConsSorted(x, s);
    } else {
      var r := Insert(x, s[1..]);
      InsertSorted(x, s[1..]);
      assert Insert(x, s) == [s[0]] + r;
      assert s == [s[0]] + s[1..];
      assert r[0].date <= s[0].date;
      ConsSorted(s[0], r);
    }
  }

  /** The sort orders newest first and is a permutation. */
  lemma {:induction false} SortSorted(s: seq<Entry>)
    ensures SortedDesc(SortByDateDesc(s))
    ensures multiset(SortByDateDesc(s)) == multiset(s)
  {
    if s != [] {
      SortSorted(s[1..]);
      InsertSorted(s[0], SortByDateDesc(s[1..]));
      assert s == [s[0]] + s[1..];
    }
  }

  lemma OnDateSingle(y: Entry, d: Day)
    ensures OnDate([y], d) == if y.date == d then [y] else []
  {
    assert [y][1..] == [];
  }

  lemma {:induction false} InsertOnDate(x: Entry, s: seq<Entry>, d: Day)
    ensures OnDate(Insert(x, s), d) == OnDate([x], d) + OnDate(s, d)
  {
    if s == [] || s[0].date <= x.date {
      assert Insert(x, s) == [x] + s;
      OnDateAppend([x], s, d);
    } else {
      var rest := Insert(x, s[1..]);
      assert OnDate(Insert(x, s), d) == OnDate([s[0]], d) + OnDate(rest, d) by {
        assert Insert(x, s) == [s[0]] + rest;
        OnDateAppend([s[0]], rest, d);
      }
      assert OnDate(rest, d) == OnDate([x], d) + OnDate(s[1..], d) by {
        InsertOnDate(x, s[1..], d);
      }
      assert OnDate(s, d) == OnDate([s[0]], d) + OnDate(s[1..], d) by {
        assert s == [s[0]] + s[1..];
        OnDateAppend([s[0]], s[1..], d);
      }
      OnDateSingle(s[0], d);
      OnDateSingle(x, d);
    }
  }

  /** Stability: the sort leaves the entries of every date in their input order. */
  lemma {:induction false} SortKeepsDates(s: seq<Entry>, d: Day)
    ensures OnDate(SortByDateDesc(s), d) == OnDate(s, d)
  {
    if s != [] {
      InsertOnDate(s[0], SortByDateDesc(s[1..]), d);
      SortKeepsDates(s[1..], d);
      assert s == [s[0]] + s[1..];
      OnDateAppend([s[0]], s[1..], d);
    }
  }

  /** Index of the first completed entry (`find(e => e.completed)`). */
  function FindCompleted(s: seq<Entry>): (r: Option<nat>)
    ensures r.None? ==> forall k :: 0 <= k < |s| ==> !s[k].completed
    ensures r.Some? ==> r.value < |s| && s[r.value].completed
    ensures r.Some? ==> forall k :: 0 <= k < r.value ==> !s[k].completed
  {
    if s == [] then None
    else if s[0].completed then Some(0)
    else match FindCompleted(s[1..])
      case None => None
      case Some(k) => Some(k + 1)
  }

  // ---------------------------------------------------------------------
  // The reference definition

  /** The latest date, on or before `today`, carrying a completed entry. */
  function LatestCompletion(s: seq<Entry>, today: Day): (r: Option<Day>)
    ensures r.None? <==> forall e :: e in s ==> !(e.completed && e.date <= today)
    ensures r.Some? ==> r.value <= today && exists e :: e in s && e.completed && e.date == r.value
    ensures r.Some? ==> forall e :: e in s && e.completed && e.date <= today ==> e.date <= r.value
  {
    if s == [] then None
    else
      assert forall e :: e in s ==> e == s[0] || e in s[1..];
      var rest := LatestCompletion(s[1..], today);
      if s[0].completed && s[0].date <= today && (rest.None? || rest.value < s[0].date) then Some(s[0].date)
      else rest
  }

  /** A lower bound on every date in `s` (used only to bound the run). */
  function DateLowerBound(s: seq<Entry>): (m: Day)
    ensures forall e :: e in s ==> m <= e.date
  {
    if s == [] then 0
    else
      assert forall e :: e in s ==> e == s[0] || e in s[1..];
      var rest := DateLowerBound(s[1..]);
      if s[0].date < rest then s[0].date else rest
  }

  /** The number of consecutive days `d, d-1, d-2, …` that count. */
  function RunFrom(s: seq<Entry>, d: Day): nat
    decreases d - DateLowerBound(s)
  {
    if DayCounts(s, d) then
      OnDateMembers(s, d);
      assert OnDate(s, d)[0] in OnDate(s, d);
      1 + RunFrom(s, d - 1)
    else 0
  }

  /** The run is exactly the days that count, down to the first one that does not. */
  lemma {:induction false} RunFromMeaning(s: seq<Entry>, d: Day)
    ensures forall day :: d - RunFrom(s, d) < day <= d ==> DayCounts(s, day)
    ensures !DayCounts(s, d - RunFrom(s, d))
    decreases RunFrom(s, d)
  {
    if DayCounts(s, d) {
      RunFromMeaning(s, d - 1);
    }
  }

  /** The streak of `s` as of `today`. */
  function StreakOf(s: seq<Entry>, today: Day): (r: StreakResult)
    ensures (forall e :: e in s && e.completed && e.date <= today ==> e.date < today - 1) ==> r == StreakResult(0, false)
  {
    match LatestCompletion(s, today)
    case None => StreakResult(0, false)
    case Some(last) =>
      if last < today - 1 then StreakResult(0, false)
      else StreakResult(RunFrom(s, last), last == today && |OnDate(s, today)| == 1 && DayCounts(s, today - 1))
  }

  // ---------------------------------------------------------------------
  // The calculator, as the source computes it

  lemma SortedMembers(entries: seq<Entry>, today: Day)
    ensures forall e :: e in SortByDateDesc(PastOrToday(entries, today)) <==> e in entries && e.date <= today
  {
    var past := PastOrToday(entries, today);
    SortSorted(past);
    PastOrTodayMembers(entries, today);
    assert forall e :: e in SortByDateDesc(past) <==> e in multiset(past);
  }

  lemma SortedOnDate(entries: seq<Entry>, today: Day, d: Day)
    requires d <= today
    ensures OnDate(SortByDateDesc(PastOrToday(entries, today)), d) == OnDate(entries, d)
  {
    SortKeepsDates(PastOrToday(entries, today), d);
    PastOrTodayOnDate(entries, today, d);
  }

  /** Concludes the live case of `StreakOf` from its three ingredients. */
  lemma StreakOfLive(s: seq<Entry>, today: Day, last: Day, n: nat, increased: bool)
    requires LatestCompletion(s, today) == Some(last) && last >= today - 1
    requires n == RunFrom(s, last)
    requires increased == (last == today && |OnDate(s, today)| == 1 && DayCounts(s, today - 1))
    ensures StreakOf(s, today) == StreakResult(n, increased)
  {
  }

  /** The first completed entry of the sorted list is dated at the latest completion. */
  lemma LatestIsFirstCompleted(entries: seq<Entry>, today: Day, sorted: seq<Entry>)
    requires SortedDesc(sorted)
    requires forall e :: e in sorted <==> e in entries && e.date <= today
    ensures FindCompleted(sorted).None? ==> LatestCompletion(entries, today).None?
    ensures FindCompleted(sorted).Some? ==>
      LatestCompletion(entries, today) == Some(sorted[FindCompleted(sorted).value].date)
  {
    var found := FindCompleted(sorted);
    var last := LatestCompletion(entries, today);
    if found.Some? {
      var i := found.value;
      assert sorted[i] in sorted;
      assert last.Some? && sorted[i].date <= last.value;
      var e :| e in entries && e.completed && e.date == last.value;
      assert e in sorted;
      var k :| 0 <= k < |sorted| && sorted[k] == e;
      assert i <= k;
      assert sorted[i].date >= sorted[k].date;
    }
  }

  /** The source's `justIncreased` test on the sorted list, restated on the entries. */
  lemma JustIncreasedSorted(entries: seq<Entry>, today: Day, sorted: seq<Entry>, idx: nat)
    requires SortedDesc(sorted)
    requires forall e :: e in sorted ==> e.date <= today
    requires OnDate(sorted, today) == OnDate(entries, today)
    requires OnDate(sorted, today - 1) == OnDate(entries, today - 1)
    requires idx < |sorted| && sorted[idx].date == today
    ensures (|sorted| > 1 && sorted[1].date == today - 1 && sorted[1].completed)
        <==> (|OnDate(entries, today)| == 1 && DayCounts(entries, today - 1))
  {
    assert sorted[0] in sorted;
    assert sorted[0].date == today;
    if |sorted| > 1 && sorted[1].date == today - 1 && sorted[1].completed {
      OnlyHeadOnToday(sorted, today);
      FirstOnAt(sorted, 1, today - 1);
    }
    if |OnDate(sorted, today)| == 1 && DayCounts(sorted, today - 1) {
      SecondIsYesterday(sorted, today);
    }
  }

  lemma OnlyHeadOnToday(sorted: seq<Entry>, today: Day)
    requires SortedDesc(sorted) && |sorted| > 1
    requires sorted[0].date == today && sorted[1].date == today - 1
    ensures |OnDate(sorted, today)| == 1
  {
    assert sorted == [sorted[0]] + sorted[1..];
    OnDateAppend([sorted[0]], sorted[1..], today);
    NoneOnDate(sorted[1..], today);
    OnDateSingle(sorted[0], today);
  }

  lemma SecondIsYesterday(sorted: seq<Entry>, today: Day)
    requires SortedDesc(sorted) && |sorted| > 0 && sorted[0].date == today
    requires |OnDate(sorted, today)| == 1 && DayCounts(sorted, today - 1)
    ensures |sorted| > 1 && sorted[1].date == today - 1 && sorted[1].completed
  {
    var e := OnDate(sorted, today - 1)[0];
    assert e in OnDate(sorted, today - 1);
    OnDateMembers(sorted, today - 1);
    var j :| 0 <= j < |sorted| && sorted[j] == e;
    assert j >= 1;
    assert sorted[1].date >= sorted[j].date;
    FirstOnAt(sorted, 1, today - 1);
  }

  /**
   * Lines 25-27 of calculateStreak: the entries dated on or before today,
   * sorted newest first by a stable sort.
   */
  method PastEntriesNewestFirst(entries: seq<Entry>, today: Day) returns (sorted: seq<Entry>)
    ensures SortedDesc(sorted)
    ensures forall e :: e in sorted <==> e in entries && e.date <= today
    ensures forall d :: d <= today ==> OnDate(sorted, d) == OnDate(entries, d)
    ensures forall d :: d > today ==> OnDate(sorted, d) == []
  {
    sorted := SortByDateDesc(PastOrToday(entries, today));
    SortSorted(PastOrToday(entries, today));
    SortedMembers(entries, today);
    forall d | d <= today
      ensures OnDate(sorted, d) == OnDate(entries, d)
    {
      SortedOnDate(entries, today, d);
    }
    forall d | d > today
      ensures OnDate(sorted, d) == []
    {
      NoneOnDate(sorted, d);
    }
  }

  /** One matching entry of the walk: it decides the day, and no entry up to it is dated the day before. */
  lemma CountRunStep(sorted: seq<Entry>, i: nat, expected: Day, entries: seq<Entry>, today: Day)
    requires SortedDesc(sorted) && i < |sorted| && sorted[i].date == expected && expected <= today
    requires forall d :: d <= today ==> OnDate(sorted, d) == OnDate(entries, d)
    requires forall k :: 0 <= k < i ==> sorted[k].date != expected
    ensures RunFrom(entries, expected) == if sorted[i].completed then 1 + RunFrom(entries, expected - 1) else 0
    ensures forall k :: 0 <= k <= i ==> sorted[k].date != expected - 1
  {
    FirstOnAt(sorted, i, expected);
    assert OnDate(sorted, expected) == OnDate(entries, expected);
    assert DayCounts(entries, expected) == sorted[i].completed;
  }

  /**
   * Lines 50-66 of calculateStreak: walk the sorted entries counting the days
   * `lastDate, lastDate-1, …` until an uncompleted first entry stops the walk
   * or the list ends. Entries on other dates are passed over.
   */
  method CountRun(sorted: seq<Entry>, lastDate: Day, ghost entries: seq<Entry>, ghost today: Day)
    returns (streak: nat)
    requires SortedDesc(sorted) && lastDate <= today
    requires forall d :: d <= today ==> OnDate(sorted, d) == OnDate(entries, d)
    ensures streak == RunFrom(entries, lastDate)
  {
    streak := 0;
    var expected := lastDate;
    ghost var stopped := false;
    for i := 0 to |sorted|
      invariant expected == lastDate - streak
      invariant forall k :: 0 <= k < i ==> sorted[k].date != expected
      invariant streak + RunFrom(entries, expected) == RunFrom(entries, lastDate)
      invariant !stopped
    {
      if sorted[i].date == expected {
        CountRunStep(sorted, i, expected, entries, today);
        if sorted[i].completed {
          streak := streak + 1;
          expected := expected - 1;
        } else {
          stopped := true;
          break;
        }
      }
    }
    if !stopped {
      NoneOnDate(sorted, expected);
    }
  }

  /** `calculateStreak`, with the clock read replaced by `today`. */
  method CalculateStreak(entries: seq<Entry>, today: Day) returns (r: StreakResult)
    ensures r == StreakOf(entries, today)
  {
    if |entries| == 0 {
      return StreakResult(0, false);
    }
    var sorted := PastEntriesNewestFirst(entries, today);
    var found := FindCompleted(sorted);
    LatestIsFirstCompleted(entries, today, sorted);
    if found.None? {
      return StreakResult(0, false);
    }
    var lastCompleted := sorted[found.value];
    var isToday := lastCompleted.date == today;
    var isYesterday := lastCompleted.date == today - 1;
    if !isToday && !isYesterday {
      return StreakResult(0, false);
    }

    var streak := CountRun(sorted, lastCompleted.date, entries, today);

    var justIncreased := false;
    if isToday && lastCompleted.completed && |sorted| > 1 && sorted[1].date == today - 1 && sorted[1].completed {
      justIncreased := true;
    } else if isToday && lastCompleted.completed && streak == 1 {
      justIncreased := false;
    }
    if isToday {
      JustIncreasedSorted(entries, today, sorted, found.value);
    }
    StreakOfLive(entries, today, lastCompleted.date, streak, justIncreased);
    return StreakResult(streak, justIncreased);
  }

  // ---------------------------------------------------------------------
  // Properties of the streak

  /** Entries dated after today never affect the streak. */
  lemma StreakIgnoresFuture(a: seq<Entry>, b: seq<Entry>, today: Day)
    requires PastOrToday(a, today) == PastOrToday(b, today)
    ensures StreakOf(a, today) == StreakOf(b, today)
  {
    assert LatestCompletion(a, today) == LatestCompletion(b, today) by {
      PastOrTodayMembers(a, today);
      PastOrTodayMembers(b, today);
      LatestAgree(a, b, today);
    }
    assert forall d :: d <= today ==> OnDate(a, d) == OnDate(b, d) by {
      forall d | d <= today
        ensures OnDate(a, d) == OnDate(b, d)
      {
        PastOrTodayOnDate(a, today, d);
        PastOrTodayOnDate(b, today, d);
      }
    }
    var last := LatestCompletion(a, today);
    if last.Some? && last.value >= today - 1 {
      RunFromAgree(a, b, last.value, today);
      StreakAgree(a, b, today);
    }
  }

  /** The streak depends only on the latest completion, the run before it and the entries of today and yesterday. */
  lemma StreakAgree(a: seq<Entry>, b: seq<Entry>, today: Day)
    requires LatestCompletion(a, today) == LatestCompletion(b, today)
    requires LatestCompletion(a, today).Some?
    requires RunFrom(a, LatestCompletion(a, today).value) == RunFrom(b, LatestCompletion(a, today).value)
    requires OnDate(a, today) == OnDate(b, today) && OnDate(a, today - 1) == OnDate(b, today - 1)
    ensures StreakOf(a, today) == StreakOf(b, today)
  {
  }

  /** Every completed past entry of `a` is one of `b`: `b`'s latest completion is no earlier. */
  lemma LatestBelow(a: seq<Entry>, b: seq<Entry>, today: Day)
    requires forall e :: e in a && e.date <= today ==> e in b
    ensures LatestCompletion(a, today).Some? ==>
      LatestCompletion(b, today).Some? && LatestCompletion(a, today).value <= LatestCompletion(b, today).value
  {
    var la := LatestCompletion(a, today);
    if la.Some? {
      var ea :| ea in a && ea.completed && ea.date == la.value;
      assert ea in b;
    }
  }

  lemma LatestAgree(a: seq<Entry>, b: seq<Entry>, today: Day)
    requires forall e :: e in a && e.date <= today <==> e in b && e.date <= today
    ensures LatestCompletion(a, today) == LatestCompletion(b, today)
  {
    LatestBelow(a, b, today);
    LatestBelow(b, a, today);
  }

  lemma {:induction false} RunFromAgree(a: seq<Entry>, b: seq<Entry>, d: Day, today: Day)
    requires d <= today
    requires forall d' :: d' <= today ==> OnDate(a, d') == OnDate(b, d')
    ensures RunFrom(a, d) == RunFrom(b, d)
    decreases RunFrom(a, d)
  {
    assert OnDate(a, d) == OnDate(b, d);
    if DayCounts(a, d) {
      RunFromAgree(a, b, d - 1, today);
    }
  }

  lemma {:induction false} PastOrTodayNone(s: seq<Entry>, today: Day)
    requires forall e :: e in s ==> e.date > today
    ensures PastOrToday(s, today) == []
  {
    if s != [] {
      assert s[0] in s;
      assert forall e :: e in s[1..] ==> e in s;
      PastOrTodayNone(s[1..], today);
    }
  }

  /** Appending entries dated after today leaves the streak as it was. */
  lemma FutureEntriesIgnored(s: seq<Entry>, future: seq<Entry>, today: Day)
    requires forall e :: e in future ==> e.date > today
    ensures StreakOf(s + future, today) == StreakOf(s, today)
  {
    PastOrTodayAppend(s, future, today);
    PastOrTodayNone(future, today);
    assert PastOrToday(s + future, today) == PastOrToday(s, today);
    StreakIgnoresFuture(s + future, s, today);
  }

  /** A positive streak needs a completed entry dated today or yesterday. */
  lemma StreakNeedsRecentCompletion(s: seq<Entry>, today: Day)
    requires StreakOf(s, today).count > 0
    ensures exists e :: e in s && e.completed && today - 1 <= e.date <= today
  {
    var last := LatestCompletion(s, today);
    var e :| e in s && e.completed && e.date == last.value;
  }

  /** `justIncreased` is only ever reported on a streak of at least two days. */
  lemma JustIncreasedMeansTwoDays(s: seq<Entry>, today: Day)
    requires StreakOf(s, today).justIncreased
    ensures StreakOf(s, today).count >= 2
  {
    var e :| e in s && e.completed && e.date == today;
    OnDateMembers(s, today);
    assert e in OnDate(s, today);
    assert OnDate(s, today) == [OnDate(s, today)[0]];
    assert DayCounts(s, today);
    assert DayCounts(s, today - 1);
    assert RunFrom(s, today) == 1 + RunFrom(s, today - 1);
    assert RunFrom(s, today - 1) == 1 + RunFrom(s, today - 2);
  }

  /** The distinct dates, on or before `d`, that entries of `s` carry. */
  function DatesUpTo(s: seq<Entry>, d: Day): set<Day>
  {
    set e | e in s && e.date <= d :: e.date
  }

  lemma {:induction false} RunBounded(s: seq<Entry>, d: Day)
    ensures RunFrom(s, d) <= |DatesUpTo(s, d)|
    decreases RunFrom(s, d)
  {
    if DayCounts(s, d) {
      RunBounded(s, d - 1);
      OnDateMembers(s, d);
      var e := FirstOn(s, d).value;
      assert e in OnDate(s, d);
      assert d in DatesUpTo(s, d);
      assert DatesUpTo(s, d - 1) == DatesUpTo(s, d) - {d};
    }
  }

  /** Several entries on one date never count twice: the streak is at most the number of distinct past dates. */
  lemma StreakBoundedByDates(s: seq<Entry>, today: Day)
    ensures StreakOf(s, today).count <= |DatesUpTo(s, today)|
  {
    var last := LatestCompletion(s, today);
    if last.Some? && last.value >= today - 1 {
      RunBounded(s, last.value);
      var small, big := DatesUpTo(s, last.value), DatesUpTo(s, today);
      assert small <= big;
      assert big == small + (big - small);
      assert |big| == |small| + |big - small|;
    }
  }

  /** A run of `n` consecutive counting days ending today, preceded by a day that does not count, is a streak of `n`. */
  lemma ConsecutiveDaysEndingToday(s: seq<Entry>, today: Day, n: nat)
    requires n >= 1
    requires forall day :: today - n < day <= today ==> DayCounts(s, day)
    requires !DayCounts(s, today - n)
    ensures StreakOf(s, today).count == n
  {
    assert DayCounts(s, today);
    var e := FirstOn(s, today).value;
    OnDateMembers(s, today);
    assert e in OnDate(s, today);
    assert LatestCompletion(s, today) == Some(today);
    RunFromMeaning(s, today);
  }

  /** Four daily entries with yesterday and today completed and the day before not. */
  lemma TwoDayRunAfterMissedDay()
    ensures StreakOf([Entry(17, true, None, false), Entry(18, false, None, false),
                      Entry(19, true, None, false), Entry(20, true, None, false)], 20)
         == StreakResult(2, true)
  {
    var s := [Entry(17, true, None, false), Entry(18, false, None, false),
              Entry(19, true, None, false), Entry(20, true, None, false)];
    assert FirstOn(s, 20) == Some(s[3]) by { FirstOnAt(s, 3, 20); }
    assert FirstOn(s, 19) == Some(s[2]) by { FirstOnAt(s, 2, 19); }
    assert FirstOn(s, 18) == Some(s[1]) by { FirstOnAt(s, 1, 18); }
    assert OnDate(s, 20) == [s[3]] by { OnDateSingle(s[3], 20); assert s == s[..3] + [s[3]]; OnDateAppend(s[..3], [s[3]], 20); NoneOnDate(s[..3], 20); }
    assert LatestCompletion(s, 20) == Some(20) by { OnDateMembers(s, 20); }
    assert RunFrom(s, 18) == 0;
    assert RunFrom(s, 19) == 1;
    assert RunFrom(s, 20) == 2;
  }

  /** An uncompleted entry listed before a completed one of the same day stops the walk at once. */
  lemma UncompletedFirstEntryStopsStreak()
    ensures StreakOf([Entry(20, false, None, false), Entry(20, true, None, true)], 20)
         == StreakResult(0, false)
  {
    var s := [Entry(20, false, None, false), Entry(20, true, None, true)];
    assert FirstOn(s, 20) == Some(s[0]) by { FirstOnAt(s, 0, 20); }
    assert s[1] in s;
    assert OnDate(s, 20) == s by { OnDateMembers(s, 20); assert s == [s[0]] + [s[1]]; OnDateAppend([s[0]], [s[1]], 20); OnDateSingle(s[0], 20); OnDateSingle(s[1], 20); }
  }

  // ---------------------------------------------------------------------
  // The `justIncreased` flag and a second entry dated today

  /** The flag as its comment describes it: today's completion extended a streak that reached yesterday. */
  predicate JustIncreasedIntended(s: seq<Entry>, today: Day)
  {
    LatestCompletion(s, today) == Some(today) && DayCounts(s, today) && DayCounts(s, today - 1)
  }

  /** The intended flag holds exactly when the latest completion is today and the streak is at least two days. */
  lemma JustIncreasedIntendedMeaning(s: seq<Entry>, today: Day)
    ensures JustIncreasedIntended(s, today) <==>
      LatestCompletion(s, today) == Some(today) && StreakOf(s, today).count >= 2
  {
    if LatestCompletion(s, today) == Some(today) {
      assert StreakOf(s, today).count == RunFrom(s, today);
      RunFromTwo(s, today);
    }
  }

  lemma RunFromTwo(s: seq<Entry>, d: Day)
    ensures RunFrom(s, d) >= 2 <==> DayCounts(s, d) && DayCounts(s, d - 1)
  {
    if DayCounts(s, d) {
      assert RunFrom(s, d) == 1 + RunFrom(s, d - 1);
      if DayCounts(s, d - 1) {
        assert RunFrom(s, d - 1) == 1 + RunFrom(s, d - 2);
      } else {
        assert RunFrom(s, d - 1) == 0;
      }
    } else {
      assert RunFrom(s, d) == 0;
    }
  }

  /** Whenever the flag as written is set, the intended flag is set too. */
  lemma JustIncreasedAsWrittenIsNarrower(s: seq<Entry>, today: Day)
    requires StreakOf(s, today).justIncreased
    ensures JustIncreasedIntended(s, today)
  {
    JustIncreasedMeansTwoDays(s, today);
    JustIncreasedIntendedMeaning(s, today);
  }

  /**
   * Day 20: completed on day 19, completed on day 20, and an extra entry on
   * day 20, completed or not (`handleAddNewEntry` appends it uncompleted).
   */
  function ExtraEntryExample(extraDone: bool): seq<Entry>
  {
    [Entry(19, true, None, false), Entry(20, true, None, false), Entry(20, extraDone, None, true)]
  }

  lemma ExtraEntryExampleDays(extraDone: bool)
    ensures FirstOn(ExtraEntryExample(extraDone), 20) == Some(ExtraEntryExample(extraDone)[1])
    ensures FirstOn(ExtraEntryExample(extraDone), 19) == Some(ExtraEntryExample(extraDone)[0])
    ensures FirstOn(ExtraEntryExample(extraDone), 18) == None
  {
    var s := ExtraEntryExample(extraDone);
    FirstOnAt(s, 1, 20);
    FirstOnAt(s, 0, 19);
    NoneOnDate(s, 18);
  }

  lemma ExtraEntryExampleLatest(extraDone: bool)
    ensures LatestCompletion(ExtraEntryExample(extraDone), 20) == Some(20)
  {
    var s := ExtraEntryExample(extraDone);
    assert s[1] in s;
  }

  lemma ExtraEntryExampleToday(extraDone: bool)
    ensures |OnDate(ExtraEntryExample(extraDone), 20)| == 2
  {
    var s := ExtraEntryExample(extraDone);
    assert s == [s[0]] + [s[1]] + [s[2]];
    OnDateAppend([s[0]] + [s[1]], [s[2]], 20);
    OnDateAppend([s[0]], [s[1]], 20);
    OnDateSingle(s[0], 20);
    OnDateSingle(s[1], 20);
    OnDateSingle(s[2], 20);
  }

  lemma ExtraEntryExampleRun(extraDone: bool)
    ensures RunFrom(ExtraEntryExample(extraDone), 20) == 2
  {
    var s := ExtraEntryExample(extraDone);
    ExtraEntryExampleDays(extraDone);
    assert RunFrom(s, 18) == 0;
    assert RunFrom(s, 19) == 1;
  }

  /**
   * Yesterday completed, today completed, and an extra entry today, completed
   * or not: the streak is two days, but the second entry newest first is
   * today's extra entry, so the flag as written stays false.
   */
  lemma ExtraEntryHidesIncrease(extraDone: bool)
    ensures StreakOf([Entry(19, true, None, false), Entry(20, true, None, false), Entry(20, extraDone, None, true)], 20)
         == StreakResult(2, false)
    ensures JustIncreasedIntended([Entry(19, true, None, false), Entry(20, true, None, false), Entry(20, extraDone, None, true)], 20)
  {
    assert ExtraEntryExample(extraDone) == [Entry(19, true, None, false), Entry(20, true, None, false), Entry(20, extraDone, None, true)];
    ExtraEntryExampleDays(extraDone);
    ExtraEntryExampleLatest(extraDone);
    ExtraEntryExampleToday(extraDone);
    ExtraEntryExampleRun(extraDone);
  }
}
