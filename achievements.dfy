/**
 * The achievement catalog (`ACHIEVEMENTS` in src/lib/achievements.ts).
 *
 * Each checker of the catalog is one of a handful of shapes, written here
 * as the datatype `Checker` and given its meaning by `Holds`. The clock
 * read inside the streak computation is the parameter `today`; the chat
 * history may be missing, which the checkers read as an empty history.
 */
module Achievements {
  import opened Types
  import opened Streak
  import opened Completion

  datatype Checker =
    | AnyCompletedEntry                          // some habit has a completed entry
    | StreakAtLeast(days: nat)                   // some habit's streak reaches `days`
    | TotalAtLeast(habits: nat)                  // the completed-habit total reaches `habits`
    | CategoryAtLeast(category: string, habits: nat)
    | UserMessage                                // the user has written to the coach
    | SuggestedHabitAdded                        // a habit matches a coach suggestion

  /** An achievement without its icon; an absent `isSecret` is `false`. */
  datatype Achievement = Achievement(id: string, name: string, description: string, isSecret: bool, checker: Checker)

  /** `chatHistory || []`. */
  function History(history: Option<seq<ChatMessage>>): seq<ChatMessage>
  {
    if history.Some? then history.value else []
  }

  /** `flatMap(msg => msg.suggestions || [])`: every suggestion attached to any message, whatever its role. */
  function SuggestionsOf(ms: seq<ChatMessage>): (r: seq<Suggestion>)
    ensures forall s :: s in r <==> exists m :: m in ms && m.suggestions.Some? && s in m.suggestions.value
  {
    if ms == [] then []
    else
      assert forall m :: m in ms <==> m == ms[0] || m in ms[1..];
      (if ms[0].suggestions.Some? then ms[0].suggestions.value else []) + SuggestionsOf(ms[1..])
  }

  /** What a checker answers for the given habits, chat history and day. */
  predicate Holds(c: Checker, habits: seq<Habit>, history: Option<seq<ChatMessage>>, today: Day)
  {
    match c
    case AnyCompletedEntry =>
      exists h, e :: h in habits && e in h.entries && e.completed
    case StreakAtLeast(n) =>
      exists h :: h in habits && StreakOf(h.entries, today).count >= n
    case TotalAtLeast(n) =>
      Aggregate(habits).total >= n
    case CategoryAtLeast(cat, n) =>
      Lookup(Aggregate(habits), cat) >= n
    case UserMessage =>
      exists m :: m in History(history) && m.role == User
    case SuggestedHabitAdded =>
      exists h, s :: h in habits && s in SuggestionsOf(History(history)) && s.name == h.name && s.category == h.category
  }

  const CATALOG: seq<Achievement> := [
    Achievement("first_step", "Primer Paso",
      "Completa tu primer día de cualquier reto.", false, AnyCompletedEntry),
    Achievement("streak_3_days", "¡En Racha!",
      "Mantén una racha de 3 días en cualquier reto.", false, StreakAtLeast(3)),
    Achievement("streak_7_days", "Semana Perfecta",
      "Mantén una racha de 7 días en cualquier reto.", false, StreakAtLeast(7)),
    Achievement("streak_21_days", "Hábito Forjado",
      "Mantén una racha de 21 días. ¡Esto ya es un hábito!", false, StreakAtLeast(21)),
    Achievement("first_habit_completed", "Reto Superado",
      "Completa tu primer reto (alcanza la duración total).", false, TotalAtLeast(1)),
    Achievement("five_habits_completed", "Coleccionista de Hábitos",
      "Completa 5 retos en total.", false, TotalAtLeast(5)),
    Achievement("health_adept", "Cuerpo Activo",
      "Completa 2 retos en la categoría \"Salud\".", false, CategoryAtLeast("Salud", 2)),
    Achievement("personal_growth_adept", "Mente Curiosa",
      "Completa 2 retos en la categoría \"Crecimiento Personal\".", false, CategoryAtLeast("Crecimiento Personal", 2)),
    Achievement("wellness_adept", "Paz Interior",
      "Completa 2 retos en la categoría \"Bienestar\".", false, CategoryAtLeast("Bienestar", 2)),
    Achievement("ai_coach_consult", "Buscando Guía",
      "Pide tu primera sugerencia al Coach IA.", false, UserMessage),
    Achievement("ai_habit_added", "Plan en Marcha",
      "Añade un reto sugerido directamente por el Coach IA.", true, SuggestedHabitAdded)
  ]

  /** No value occurs twice. */
  predicate NoDup(s: seq<string>)
  {
    forall i, j :: 0 <= i < j < |s| ==> s[i] != s[j]
  }

  /** The ids of a catalog, in order. */
  function Ids(catalog: seq<Achievement>): (r: seq<string>)
    ensures |r| == |catalog| && forall i :: 0 <= i < |catalog| ==> r[i] == catalog[i].id
  {
    seq(|catalog|, i requires 0 <= i < |catalog| => catalog[i].id)
  }

  predicate DistinctIds(catalog: seq<Achievement>)
  {
    NoDup(Ids(catalog))
  }

  lemma CatalogIdsDistinct()
    ensures DistinctIds(CATALOG)
  {
    assert forall i, j :: 0 <= i < j < |CATALOG| ==> CATALOG[i].id != CATALOG[j].id;
  }

  /** Eleven achievements with pairwise distinct ids; only the last one is secret. */
  lemma CatalogShape()
    ensures |CATALOG| == 11
    ensures DistinctIds(CATALOG)
    ensures forall i :: 0 <= i < |CATALOG| ==> (CATALOG[i].isSecret <==> CATALOG[i].id == "ai_habit_added")
  {
    CatalogIdsDistinct();
  }

  // ---------------------------------------------------------------------
  // How the checkers relate

  /** A longer streak requirement implies a shorter one. */
  lemma StreakCheckersNest(habits: seq<Habit>, history: Option<seq<ChatMessage>>, today: Day, m: nat, n: nat)
    requires m <= n && Holds(StreakAtLeast(n), habits, history, today)
    ensures Holds(StreakAtLeast(m), habits, history, today)
  {
    var h :| h in habits && StreakOf(h.entries, today).count >= n;
  }

  /** Any positive streak needs a completed entry, so it implies `first_step`. */
  lemma StreakImpliesFirstStep(habits: seq<Habit>, history: Option<seq<ChatMessage>>, today: Day, n: nat)
    requires n >= 1 && Holds(StreakAtLeast(n), habits, history, today)
    ensures Holds(AnyCompletedEntry, habits, history, today)
  {
    var h :| h in habits && StreakOf(h.entries, today).count >= n;
    StreakNeedsRecentCompletion(h.entries, today);
    var e :| e in h.entries && e.completed && today - 1 <= e.date <= today;
  }

  /** `streak_21_days` ⇒ `streak_7_days` ⇒ `streak_3_days` ⇒ `first_step`. */
  lemma CatalogStreakChain(habits: seq<Habit>, history: Option<seq<ChatMessage>>, today: Day)
    ensures Holds(CATALOG[3].checker, habits, history, today) ==> Holds(CATALOG[2].checker, habits, history, today)
    ensures Holds(CATALOG[2].checker, habits, history, today) ==> Holds(CATALOG[1].checker, habits, history, today)
    ensures Holds(CATALOG[1].checker, habits, history, today) ==> Holds(CATALOG[0].checker, habits, history, today)
  {
    assert CATALOG[0].checker == AnyCompletedEntry && CATALOG[1].checker == StreakAtLeast(3);
    assert CATALOG[2].checker == StreakAtLeast(7) && CATALOG[3].checker == StreakAtLeast(21);
    if Holds(StreakAtLeast(21), habits, history, today) {
      StreakCheckersNest(habits, history, today, 7, 21);
    }
    if Holds(StreakAtLeast(7), habits, history, today) {
      StreakCheckersNest(habits, history, today, 3, 7);
    }
    if Holds(StreakAtLeast(3), habits, history, today) {
      StreakImpliesFirstStep(habits, history, today, 3);
    }
  }

  /** A category requirement implies the same number of completed challenges: a category never counts more than the total. */
  lemma CategoryImpliesCompletion(habits: seq<Habit>, history: Option<seq<ChatMessage>>, today: Day, cat: string, n: nat)
    requires Holds(CategoryAtLeast(cat, n), habits, history, today)
    ensures Holds(TotalAtLeast(n), habits, history, today)
  {
    LookupWithinTotal(habits, cat);
  }

  /** A total or category checker with a positive threshold implies a first completed challenge. */
  lemma CompletionCheckerImpliesFirst(c: Checker, habits: seq<Habit>, history: Option<seq<ChatMessage>>, today: Day)
    requires (c.TotalAtLeast? || c.CategoryAtLeast?) && c.habits >= 1
    ensures Holds(c, habits, history, today) ==> Holds(TotalAtLeast(1), habits, history, today)
  {
    if c.CategoryAtLeast? {
      LookupWithinTotal(habits, c.category);
    }
  }

  /** `five_habits_completed`, `health_adept`, `personal_growth_adept` and `wellness_adept` each imply `first_habit_completed`. */
  lemma CatalogCompletionChain(habits: seq<Habit>, history: Option<seq<ChatMessage>>, today: Day)
    ensures forall i :: 5 <= i <= 8 && Holds(CATALOG[i].checker, habits, history, today) ==>
      Holds(CATALOG[4].checker, habits, history, today)
  {
    var cs := [CATALOG[5].checker, CATALOG[6].checker, CATALOG[7].checker, CATALOG[8].checker];
    assert CATALOG[4].checker == TotalAtLeast(1);
    assert cs == [TotalAtLeast(5), CategoryAtLeast("Salud", 2),
                  CategoryAtLeast("Crecimiento Personal", 2), CategoryAtLeast("Bienestar", 2)];
    CompletionCheckerImpliesFirst(cs[0], habits, history, today);
    CompletionCheckerImpliesFirst(cs[1], habits, history, today);
    CompletionCheckerImpliesFirst(cs[2], habits, history, today);
    CompletionCheckerImpliesFirst(cs[3], habits, history, today);
  }

  /** A missing chat history behaves as an empty one for every checker. */
  lemma MissingHistoryIsEmpty(c: Checker, habits: seq<Habit>, today: Day)
    ensures Holds(c, habits, None, today) == Holds(c, habits, Some([]), today)
    ensures c.UserMessage? || c.SuggestedHabitAdded? ==> !Holds(c, habits, None, today)
  {
  }

  /**
   * `ai_habit_added` holds exactly when some habit has the name and category
   * of a suggestion attached to some message; the suggestion's description
   * and duration are not compared.
   */
  lemma SuggestedHabitMeaning(habits: seq<Habit>, history: Option<seq<ChatMessage>>, today: Day)
    ensures Holds(SuggestedHabitAdded, habits, history, today) <==>
      exists h, m, s :: h in habits && m in History(history) && m.suggestions.Some? && s in m.suggestions.value
        && s.name == h.name && s.category == h.category
  {
    var all := SuggestionsOf(History(history));
    if Holds(SuggestedHabitAdded, habits, history, today) {
      var h, s :| h in habits && s in all && s.name == h.name && s.category == h.category;
      var m :| m in History(history) && m.suggestions.Some? && s in m.suggestions.value;
    }
    if exists h, m, s :: h in habits && m in History(history) && m.suggestions.Some? && s in m.suggestions.value
        && s.name == h.name && s.category == h.category {
      var h, m, s :| h in habits && m in History(history) && m.suggestions.Some? && s in m.suggestions.value
        && s.name == h.name && s.category == h.category;
      assert s in all;
    }
  }
}
