/**
 * The rank resolver (the `currentRank` computation in
 * src/components/Sidebar.tsx).
 *
 * Ranks are scanned from the highest to the lowest; the first whose every
 * per-category minimum is met by the completion tally is the user's rank,
 * and the lowest rank is the fallback. The rank list itself lives in a
 * constants file outside this model and is a parameter; an empty list
 * gives no rank (`RANKS[0]` is `undefined`).
 */
module Ranks {
  import opened Types
  import opened Completion

  /** Every requirement `(category, n)` has `count(category) >= n`; a missing category counts 0. */
  predicate RequirementsMet(rank: Rank, t: Tally)
  {
    forall category :: category in rank.requirements ==> Lookup(t, category) >= rank.requirements[category]
  }

  /** The largest index below `n` whose rank is met, if any. */
  function HighestMet(ranks: seq<Rank>, t: Tally, n: nat): (r: Option<nat>)
    requires n <= |ranks|
    ensures r.Some? ==> r.value < n && RequirementsMet(ranks[r.value], t)
    ensures r.Some? ==> forall j :: r.value < j < n ==> !RequirementsMet(ranks[j], t)
    ensures r.None? ==> forall j :: 0 <= j < n ==> !RequirementsMet(ranks[j], t)
  {
    if n == 0 then None
    else if RequirementsMet(ranks[n - 1], t) then Some(n - 1)
    else HighestMet(ranks, t, n - 1)
  }

  /** The index of the resolved rank: the highest one met, else 0. */
  function RankIndex(ranks: seq<Rank>, t: Tally): nat
  {
    match HighestMet(ranks, t, |ranks|)
    case Some(i) => i
    case None => 0
  }

  /**
   * The resolved rank, `None` only for an empty rank list: the highest rank
   * whose requirements are all met, or the lowest rank when none is met.
   */
  function ResolvedRank(ranks: seq<Rank>, t: Tally): (r: Option<Rank>)
    ensures r.None? <==> ranks == []
    ensures r.Some? ==>
      exists i :: 0 <= i < |ranks| && r.value == ranks[i] &&
                  (forall j :: i < j < |ranks| ==> !RequirementsMet(ranks[j], t)) &&
                  (RequirementsMet(ranks[i], t) || (i == 0 && forall j :: 0 <= j < |ranks| ==> !RequirementsMet(ranks[j], t)))
  {
    if ranks == [] then None
    else
      RankIndexMeaning(ranks, t);
      Some(ranks[RankIndex(ranks, t)])
  }

  /** The count-down loop with its early return. */
  method CurrentRank(ranks: seq<Rank>, t: Tally) returns (rank: Option<Rank>)
    ensures rank == ResolvedRank(ranks, t)
  {
    var i := |ranks| - 1;
    while i >= 0
      invariant -1 <= i < |ranks|
      invariant HighestMet(ranks, t, |ranks|) == HighestMet(ranks, t, i + 1)
      decreases i
    {
      var candidate := ranks[i];
      if RequirementsMet(candidate, t) {
        return Some(candidate);
      }
      i := i - 1;
    }
    if |ranks| == 0 {
      return None;
    }
    return Some(ranks[0]);
  }

  // ---------------------------------------------------------------------
  // Properties of the resolved rank

  /** The resolved index is the largest one whose requirements are all met, or 0 when none is. */
  lemma RankIndexMeaning(ranks: seq<Rank>, t: Tally)
    requires |ranks| > 0
    ensures RankIndex(ranks, t) < |ranks|
    ensures forall j :: RankIndex(ranks, t) < j < |ranks| ==> !RequirementsMet(ranks[j], t)
    ensures RequirementsMet(ranks[RankIndex(ranks, t)], t) || (RankIndex(ranks, t) == 0 && forall j :: 0 <= j < |ranks| ==> !RequirementsMet(ranks[j], t))
  {
  }

  /** A rank with no requirements is always met, so the resolved rank is at least as high as it. */
  lemma EmptyRequirementsAlwaysMet(ranks: seq<Rank>, t: Tally, k: nat)
    requires k < |ranks| && ranks[k].requirements == map[]
    ensures RequirementsMet(ranks[k], t)
    ensures k <= RankIndex(ranks, t)
  {
  }

  /** Pointwise larger counts never lower the resolved rank. */
  lemma RankMonotone(ranks: seq<Rank>, t1: Tally, t2: Tally)
    requires forall k :: Lookup(t1, k) <= Lookup(t2, k)
    ensures RankIndex(ranks, t1) <= RankIndex(ranks, t2)
  {
    var h1 := HighestMet(ranks, t1, |ranks|);
    if h1.Some? {
      assert RequirementsMet(ranks[h1.value], t2);
    }
  }

  /** Adding a habit, completed or not, never lowers the rank. */
  lemma AddingHabitKeepsRank(ranks: seq<Rank>, hs: seq<Habit>, h: Habit)
    ensures RankIndex(ranks, Aggregate(hs)) <= RankIndex(ranks, Aggregate(hs + [h]))
  {
    forall k
      ensures Lookup(Aggregate(hs), k) <= Lookup(Aggregate(hs + [h]), k)
    {
      LookupAggregate(hs, k);
      LookupAggregate(hs + [h], k);
      CompletedWhereGrows(hs, h, None);
      CompletedWhereGrows(hs, h, Some(k));
    }
    RankMonotone(ranks, Aggregate(hs), Aggregate(hs + [h]));
  }
}
