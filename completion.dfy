/**
 * The completion aggregator (`calculateCompletedHabitsByCategory` in
 * src/lib/utils.ts).
 *
 * A habit's challenge is completed once it has at least `duration` main
 * (non-extra) entries, whether or not those entries are marked completed.
 * `Aggregate` is the reference value: per category the number of completed
 * habits (categories without one are absent) and the total. The JavaScript
 * result `{ ...counts, total }` is read through `Lookup`, which gives the
 * total for the key "total" even when a category carries that name.
 */
module Completion {
  import opened Types

  /** Number of main (non-extra) entries: `entries.filter(e => !e.isExtra).length`. */
  function MainCount(es: seq<Entry>): (n: nat)
    ensures n <= |es|
  {
    if es == [] then 0 else (if es[0].isExtra then 0 else 1) + MainCount(es[1..])
  }

  lemma {:induction false} MainCountAppend(a: seq<Entry>, b: seq<Entry>)
    ensures MainCount(a + b) == MainCount(a) + MainCount(b)
  {
    if a == [] {
      assert a + b == b;
    } else {
      assert (a + b)[0] == a[0] && (a + b)[1..] == a[1..] + b;
      MainCountAppend(a[1..], b);
    }
  }

  /**
   * `mainEntriesCount >= habit.duration`: a missing duration is never reached;
   * a completed habit has at least `duration` entries, and a duration of at
   * most 0 is reached by any log.
   */
  predicate IsCompleted(h: Habit)
    ensures IsCompleted(h) ==> h.duration.Some? && |h.entries| >= h.duration.value
    ensures h.duration.Some? && h.duration.value <= 0 ==> IsCompleted(h)
  {
    h.duration.Some? && MainCount(h.entries) >= h.duration.value
  }

  /** Completed habits of category `cat`, or of any category when `cat` is `None`. */
  predicate Matches(h: Habit, cat: Option<string>)
  {
    IsCompleted(h) && (cat.None? || h.category == cat.value)
  }

  /** How many habits of `hs` match: positive exactly when one does. */
  function CompletedWhere(hs: seq<Habit>, cat: Option<string>): (n: nat)
    ensures n <= |hs|
    ensures n > 0 <==> exists h :: h in hs && Matches(h, cat)
  {
    if hs == [] then 0
    else
      var init := hs[..|hs| - 1];
      assert forall h :: h in hs <==> h in init || h == hs[|hs| - 1];
      CompletedWhere(init, cat) + (if Matches(hs[|hs| - 1], cat) then 1 else 0)
  }

  function CompletedTotal(hs: seq<Habit>): nat
  {
    CompletedWhere(hs, None)
  }

  function CompletedIn(hs: seq<Habit>, c: string): nat
  {
    CompletedWhere(hs, Some(c))
  }

  function CategoriesOf(hs: seq<Habit>): set<string>
  {
    set h | h in hs :: h.category
  }

  /** Per-category counts and the total, kept apart. */
  datatype Tally = Tally(counts: map<string, nat>, total: nat)

  /** The reference aggregate of a habit list. */
  function Aggregate(hs: seq<Habit>): Tally
  {
    Tally(map c | c in CategoriesOf(hs) && CompletedIn(hs, c) > 0 :: CompletedIn(hs, c), CompletedTotal(hs))
  }

  /**
   * Reads key `k` of the object `{ ...counts, total }` as the callers do
   * (`obj[k] || 0`): `total` wins over a category of that name, and a
   * missing key reads as 0.
   */
  function Lookup(t: Tally, k: string): nat
  {
    if k == "total" then t.total
    else if k in t.counts then t.counts[k]
    else 0
  }

  // ---------------------------------------------------------------------
  // What the aggregate means

  /** A category is present exactly when some habit of it is completed, and then holds their number. */
  lemma AggregateMeaning(hs: seq<Habit>)
    ensures forall c :: c in Aggregate(hs).counts <==> exists h :: h in hs && IsCompleted(h) && h.category == c
    ensures forall c :: c in Aggregate(hs).counts ==> Aggregate(hs).counts[c] == CompletedIn(hs, c)
    ensures Aggregate(hs).total == CompletedTotal(hs) <= |hs|
  {
    forall c | exists h :: h in hs && IsCompleted(h) && h.category == c
      ensures c in Aggregate(hs).counts
    {
      var h :| h in hs && IsCompleted(h) && h.category == c;
      assert Matches(h, Some(c));
      assert c in CategoriesOf(hs);
    }
  }

  /** What the callers read: the category count for a category key (0 when absent), the total for "total". */
  lemma LookupAggregate(hs: seq<Habit>, k: string)
    ensures Lookup(Aggregate(hs), k) == if k == "total" then CompletedTotal(hs) else CompletedIn(hs, k)
  {
    if k != "total" && CompletedIn(hs, k) > 0 {
      var h :| h in hs && Matches(h, Some(k));
      assert k in CategoriesOf(hs);
    }
  }

  /** No category count exceeds the total. */
  lemma {:induction false} CategoryWithinTotal(hs: seq<Habit>, c: string)
    ensures CompletedIn(hs, c) <= CompletedTotal(hs)
  {
    if hs != [] {
      CategoryWithinTotal(hs[..|hs| - 1], c);
    }
  }

  /** Every value read from the aggregate is at most the total, and the total at most the number of habits. */
  lemma LookupWithinTotal(hs: seq<Habit>, k: string)
    ensures Lookup(Aggregate(hs), k) <= Aggregate(hs).total <= |hs|
  {
    LookupAggregate(hs, k);
    CategoryWithinTotal(hs, k);
  }

  // ---------------------------------------------------------------------
  // The aggregator, as the source computes it

  lemma CompletedWhereSnoc(hs: seq<Habit>, h: Habit, cat: Option<string>)
    ensures CompletedWhere(hs + [h], cat) == CompletedWhere(hs, cat) + (if Matches(h, cat) then 1 else 0)
  {
    assert (hs + [h])[..|hs|] == hs;
  }

  /** The value one more habit gives a single category. */
  lemma CountAtStep(hs: seq<Habit>, h: Habit, c: string)
    ensures c in Aggregate(hs + [h]).counts <==> c in Aggregate(hs).counts || (IsCompleted(h) && c == h.category)
    ensures c in Aggregate(hs + [h]).counts ==>
      Aggregate(hs + [h]).counts[c] == CompletedIn(hs, c) + (if IsCompleted(h) && h.category == c then 1 else 0)
    ensures c in Aggregate(hs).counts ==> Aggregate(hs).counts[c] == CompletedIn(hs, c)
  {
    CompletedWhereSnoc(hs, h, Some(c));
    assert h in hs + [h];
    assert forall g :: g in hs ==> g in hs + [h];
    if CompletedIn(hs, c) > 0 {
      var g :| g in hs && Matches(g, Some(c));
      assert c in CategoriesOf(hs);
    }
  }

  /** The body of the `forEach`: a completed habit adds one to its category and to the total. */
  function Tick(t: Tally, h: Habit): Tally
  {
    if IsCompleted(h) then
      Tally(t.counts[h.category := (if h.category in t.counts then t.counts[h.category] else 0) + 1], t.total + 1)
    else t
  }

  lemma CountsStep(hs: seq<Habit>, h: Habit)
    ensures Aggregate(hs + [h]).counts == Tick(Aggregate(hs), h).counts
  {
    var after, bumped := Aggregate(hs + [h]).counts, Tick(Aggregate(hs), h).counts;
    forall c
      ensures (c in after <==> c in bumped) && (c in after ==> after[c] == bumped[c])
    {
      CountAtStep(hs, h, c);
    }
  }

  /** Folding one more habit into the aggregate is one `Tick`. */
  lemma AggregateStep(hs: seq<Habit>, h: Habit)
    ensures Aggregate(hs + [h]) == Tick(Aggregate(hs), h)
  {
    CompletedWhereSnoc(hs, h, None);
    CountsStep(hs, h);
  }

  /** The habits folded with `Tick` from an empty tally, in list order. */
  function Fold(hs: seq<Habit>): Tally
  {
    if hs == [] then Tally(map[], 0) else Tick(Fold(hs[..|hs| - 1]), hs[|hs| - 1])
  }

  /** The source's fold computes the reference aggregate. */
  lemma {:induction false} FoldIsAggregate(hs: seq<Habit>)
    ensures Fold(hs) == Aggregate(hs)
  {
    if hs == [] {
      assert Aggregate(hs).counts == map[];
    } else {
      var init := hs[..|hs| - 1];
      FoldIsAggregate(init);
      assert hs == init + [hs[|hs| - 1]];
      AggregateStep(init, hs[|hs| - 1]);
    }
  }

  /** `calculateCompletedHabitsByCategory`: the loop over the habits updating `counts` and `total`. */
  method CalculateCompletedHabitsByCategory(habits: seq<Habit>) returns (t: Tally)
    ensures t == Aggregate(habits)
  {
    var counts: map<string, nat> := map[];
    var total: nat := 0;
    for i := 0 to |habits|
      invariant Tally(counts, total) == Fold(habits[..i])
    {
      var habit := habits[i];
      var mainEntriesCount := MainCount(habit.entries);
      if habit.duration.Some? && mainEntriesCount >= habit.duration.value {
        counts := counts[habit.category := (if habit.category in counts then counts[habit.category] else 0) + 1];
        total := total + 1;
      }
      assert habits[..i + 1][..i] == habits[..i];
    }
    assert habits[..|habits|] == habits;
    FoldIsAggregate(habits);
    return Tally(counts, total);
  }

  // ---------------------------------------------------------------------
  // Invariance

  lemma {:induction false} CompletedWhereAppend(a: seq<Habit>, b: seq<Habit>, cat: Option<string>)
    ensures CompletedWhere(a + b, cat) == CompletedWhere(a, cat) + CompletedWhere(b, cat)
    decreases |b|
  {
    if b == [] {
      assert a + b == a;
    } else {
      var init := b[..|b| - 1];
      var x := b[|b| - 1];
      assert a + b == (a + init) + [x];
      assert b == init + [x];
      CompletedWhereSnoc(a + init, x, cat);
      CompletedWhereSnoc(init, x, cat);
      CompletedWhereAppend(a, init, cat);
    }
  }

  /** The count does not depend on the order of the habits. */
  lemma {:induction false} CompletedWherePermutation(a: seq<Habit>, b: seq<Habit>, cat: Option<string>)
    requires multiset(a) == multiset(b)
    ensures CompletedWhere(a, cat) == CompletedWhere(b, cat)
    decreases |a|
  {
    if a == [] {
      assert |b| == |multiset(b)| == 0;
    } else {
      var x := a[|a| - 1];
      var init := a[..|a| - 1];
      assert a == init + [x];
      assert x in multiset(b);
      var k :| 0 <= k < |b| && b[k] == x;
      var rest := b[..k] + b[k + 1..];
      assert b == b[..k] + [x] + b[k + 1..];
      assert multiset(rest) == multiset(b) - multiset{x};
      assert multiset(init) == multiset(a) - multiset{x};
      CompletedWherePermutation(init, rest, cat);
      CompletedWhereSnoc(init, x, cat);
      CompletedWhereAppend(b[..k] + [x], b[k + 1..], cat);
      CompletedWhereSnoc(b[..k], x, cat);
      CompletedWhereAppend(b[..k], b[k + 1..], cat);
    }
  }

  /** Permuting the habit list leaves the aggregate unchanged. */
  lemma AggregatePermutation(a: seq<Habit>, b: seq<Habit>)
    requires multiset(a) == multiset(b)
    ensures Aggregate(a) == Aggregate(b)
  {
    CompletedWherePermutation(a, b, None);
    forall c
      ensures CompletedIn(a, c) == CompletedIn(b, c)
    {
      CompletedWherePermutation(a, b, Some(c));
    }
    assert forall h :: h in a <==> h in multiset(a);
    assert forall h :: h in b <==> h in multiset(b);
    assert CategoriesOf(a) == CategoriesOf(b);
  }

  /** The count depends on each habit only through its category and whether it is completed. */
  lemma {:induction false} CompletedWhereByStatus(a: seq<Habit>, b: seq<Habit>, cat: Option<string>)
    requires |a| == |b|
    requires forall i :: 0 <= i < |a| ==> a[i].category == b[i].category && IsCompleted(a[i]) == IsCompleted(b[i])
    ensures CompletedWhere(a, cat) == CompletedWhere(b, cat)
  {
    if a != [] {
      CompletedWhereByStatus(a[..|a| - 1], b[..|b| - 1], cat);
    }
  }

  lemma CategoriesByPosition(a: seq<Habit>, b: seq<Habit>)
    requires |a| == |b|
    requires forall i :: 0 <= i < |a| ==> a[i].category == b[i].category
    ensures CategoriesOf(a) == CategoriesOf(b)
  {
    forall c | c in CategoriesOf(a) ensures c in CategoriesOf(b) {
      var h :| h in a && h.category == c;
      var i :| 0 <= i < |a| && a[i] == h;
      assert b[i] in b;
    }
    forall c | c in CategoriesOf(b) ensures c in CategoriesOf(a) {
      var h :| h in b && h.category == c;
      var i :| 0 <= i < |b| && b[i] == h;
      assert a[i] in a;
    }
  }

  lemma AggregateByStatus(a: seq<Habit>, b: seq<Habit>)
    requires |a| == |b|
    requires forall i :: 0 <= i < |a| ==> a[i].category == b[i].category && IsCompleted(a[i]) == IsCompleted(b[i])
    ensures Aggregate(a) == Aggregate(b)
  {
    CompletedWhereByStatus(a, b, None);
    forall c
      ensures CompletedIn(a, c) == CompletedIn(b, c)
    {
      CompletedWhereByStatus(a, b, Some(c));
    }
    CategoriesByPosition(a, b);
  }

  /** Appending a habit never lowers a completion count. */
  lemma {:induction false} CompletedWhereGrows(hs: seq<Habit>, h: Habit, cat: Option<string>)
    ensures CompletedWhere(hs, cat) <= CompletedWhere(hs + [h], cat)
  {
    CompletedWhereSnoc(hs, h, cat);
  }

  /** Inserting an extra entry anywhere in one habit's log leaves the aggregate unchanged. */
  lemma ExtraEntryKeepsAggregate(hs: seq<Habit>, i: nat, before: seq<Entry>, after: seq<Entry>, x: Entry)
    requires i < |hs| && hs[i].entries == before + after && x.isExtra
    ensures Aggregate(hs[i := hs[i].(entries := before + [x] + after)]) == Aggregate(hs)
  {
    MainCountAppend(before + [x], after);
    MainCountAppend(before, [x]);
    MainCountAppend(before, after);
    assert MainCount([x]) == 0 by { assert [x][1..] == []; }
    AggregateByStatus(hs[i := hs[i].(entries := before + [x] + after)], hs);
  }
}
