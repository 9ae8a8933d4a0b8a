/**
 * The achievement engine (`checkAndUnlockAchievements` in src/lib/utils.ts).
 *
 * The catalog is walked in order; an achievement whose id is already
 * unlocked is skipped, any other whose checker holds is unlocked now. The
 * full list is the old list followed by the new ids, with duplicates
 * removed and first occurrences kept (a JavaScript `Set` keeps insertion
 * order).
 */
module Unlock {
  import opened Types
  import opened Achievements

  /** The ids of `catalog`, in order, that are not in `existing` and whose checker holds. */
  function NewlyUnlocked(catalog: seq<Achievement>, habits: seq<Habit>, history: Option<seq<ChatMessage>>,
                         existing: seq<string>, today: Day): (r: seq<string>)
    ensures forall id :: id in r <==>
      exists a :: a in catalog && a.id == id && id !in existing && Holds(a.checker, habits, history, today)
  {
    if catalog == [] then []
    else
      var init, a := catalog[..|catalog| - 1], catalog[|catalog| - 1];
      assert forall x :: x in catalog <==> x in init || x == a;
      NewlyUnlocked(init, habits, history, existing, today)
        + (if a.id !in existing && Holds(a.checker, habits, history, today) then [a.id] else [])
  }

  /** One more catalog entry adds its id exactly when it is not unlocked and its checker holds. */
  lemma NewlyUnlockedStep(catalog: seq<Achievement>, i: nat, habits: seq<Habit>, history: Option<seq<ChatMessage>>,
                          existing: seq<string>, today: Day)
    requires i < |catalog|
    ensures NewlyUnlocked(catalog[..i + 1], habits, history, existing, today)
         == NewlyUnlocked(catalog[..i], habits, history, existing, today)
            + (if catalog[i].id !in existing && Holds(catalog[i].checker, habits, history, today) then [catalog[i].id] else [])
  {
    assert catalog[..i + 1][..i] == catalog[..i];
  }

  /** `[...new Set(s)]`: `s` without repeats, each value where it first occurs. */
  function Dedup(s: seq<string>): (r: seq<string>)
    ensures NoDup(r)
    ensures forall x :: x in r <==> x in s
  {
    if s == [] then []
    else
      var init, x := s[..|s| - 1], s[|s| - 1];
      assert forall y :: y in s <==> y in init || y == x;
      var d := Dedup(init);
      if x in d then d else d + [x]
  }

  /** `checkAndUnlockAchievements` over the fixed catalog, with the day as a parameter. */
  method CheckAndUnlockAchievements(habits: seq<Habit>, history: Option<seq<ChatMessage>>,
                                    existing: seq<string>, today: Day)
    returns (newlyUnlocked: seq<string>, allUnlocked: seq<string>)
    ensures newlyUnlocked == NewlyUnlocked(CATALOG, habits, history, existing, today)
    ensures allUnlocked == Dedup(existing + newlyUnlocked)
  {
    newlyUnlocked := [];
    for i := 0 to |CATALOG|
      invariant newlyUnlocked == NewlyUnlocked(CATALOG[..i], habits, history, existing, today)
    {
      var achievement := CATALOG[i];
      NewlyUnlockedStep(CATALOG, i, habits, history, existing, today);
      if achievement.id !in existing {
        if Holds(achievement.checker, habits, history, today) {
          newlyUnlocked := newlyUnlocked + [achievement.id];
        }
      }
    }
    assert CATALOG[..|CATALOG|] == CATALOG;
    allUnlocked := Dedup(existing + newlyUnlocked);
  }

  // ---------------------------------------------------------------------
  // Properties of the engine

  /** Nothing already unlocked is unlocked again, and the old list stays in the new one. */
  lemma NewlyDisjointFromExisting(habits: seq<Habit>, history: Option<seq<ChatMessage>>, existing: seq<string>, today: Day)
    ensures forall id :: id in NewlyUnlocked(CATALOG, habits, history, existing, today) ==> id !in existing
    ensures forall id :: id in existing ==> id in Dedup(existing + NewlyUnlocked(CATALOG, habits, history, existing, today))
  {
  }

  lemma {:induction false} DedupOfNoDup(s: seq<string>)
    requires NoDup(s)
    ensures Dedup(s) == s
  {
    if s != [] {
      var init := s[..|s| - 1];
      DedupOfNoDup(init);
      assert s == init + [s[|s| - 1]];
    }
  }

  /** The de-duplicated old list is a prefix of the de-duplicated whole: first occurrences stay first. */
  lemma {:induction false} DedupPrefix(a: seq<string>, b: seq<string>)
    ensures |Dedup(a)| <= |Dedup(a + b)| && Dedup(a + b)[..|Dedup(a)|] == Dedup(a)
    decreases |b|
  {
    if b == [] {
      assert a + b == a;
    } else {
      var init := b[..|b| - 1];
      assert a + b == (a + init) + [b[|b| - 1]];
      assert (a + b)[..|a + b| - 1] == a + init;
      DedupPrefix(a, init);
    }
  }

  lemma {:induction false} NewlyNoDup(catalog: seq<Achievement>, habits: seq<Habit>, history: Option<seq<ChatMessage>>,
                                     existing: seq<string>, today: Day)
    requires DistinctIds(catalog)
    ensures NoDup(NewlyUnlocked(catalog, habits, history, existing, today))
  {
    if catalog != [] {
      var init := catalog[..|catalog| - 1];
      NewlyNoDup(init, habits, history, existing, today);
    }
  }

  /** With duplicate-free old ids, the full list is exactly the old ids followed by the new ones. */
  lemma AllIsExistingThenNewly(habits: seq<Habit>, history: Option<seq<ChatMessage>>, existing: seq<string>, today: Day)
    requires NoDup(existing)
    ensures Dedup(existing + NewlyUnlocked(CATALOG, habits, history, existing, today))
         == existing + NewlyUnlocked(CATALOG, habits, history, existing, today)
  {
    var newly := NewlyUnlocked(CATALOG, habits, history, existing, today);
    CatalogShape();
    NewlyNoDup(CATALOG, habits, history, existing, today);
    assert NoDup(existing + newly) by {
      forall i, j | 0 <= i < j < |existing + newly|
        ensures (existing + newly)[i] != (existing + newly)[j]
      {
        if j >= |existing| && i < |existing| {
          assert (existing + newly)[j] in newly;
          assert (existing + newly)[i] in existing;
        }
      }
    }
    DedupOfNoDup(existing + newly);
  }

  /** Ids already covered by `all` are never unlocked again. */
  lemma NothingLeftToUnlock(catalog: seq<Achievement>, habits: seq<Habit>, history: Option<seq<ChatMessage>>,
                            existing: seq<string>, all: seq<string>, today: Day)
    requires forall id :: id in existing ==> id in all
    requires forall id :: id in NewlyUnlocked(catalog, habits, history, existing, today) ==> id in all
    ensures NewlyUnlocked(catalog, habits, history, all, today) == []
  {
  }

  /** Running the engine again on its own result unlocks nothing and changes nothing. */
  lemma Idempotent(habits: seq<Habit>, history: Option<seq<ChatMessage>>, existing: seq<string>, today: Day)
    ensures var all := Dedup(existing + NewlyUnlocked(CATALOG, habits, history, existing, today));
      NewlyUnlocked(CATALOG, habits, history, all, today) == [] &&
      Dedup(all + NewlyUnlocked(CATALOG, habits, history, all, today)) == all
  {
    var newly := NewlyUnlocked(CATALOG, habits, history, existing, today);
    var all := Dedup(existing + newly);
    NothingLeftToUnlock(CATALOG, habits, history, existing, all, today);
    assert all + [] == all;
    DedupOfNoDup(all);
  }

  /** Only the id and the checker of an achievement matter: `isSecret`, the name and the description are inert. */
  lemma {:induction false} OnlyIdAndCheckerMatter(c1: seq<Achievement>, c2: seq<Achievement>, habits: seq<Habit>,
                                                  history: Option<seq<ChatMessage>>, existing: seq<string>, today: Day)
    requires |c1| == |c2|
    requires forall i :: 0 <= i < |c1| ==> c1[i].id == c2[i].id && c1[i].checker == c2[i].checker
    ensures NewlyUnlocked(c1, habits, history, existing, today) == NewlyUnlocked(c2, habits, history, existing, today)
  {
    if c1 != [] {
      OnlyIdAndCheckerMatter(c1[..|c1| - 1], c2[..|c2| - 1], habits, history, existing, today);
    }
  }
}
