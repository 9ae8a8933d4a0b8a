/** Data shapes of the habit tracker (src/lib/types.ts), without the icon fields. */
module Types {

  datatype Option<+T> = None | Some(value: T)

  /** A calendar date `YYYY-MM-DD` as a day number: consecutive dates are consecutive integers. */
  type Day = int

  /** One daily (or extra) progress record of a habit. An absent `isExtra` is `false`. */
  datatype Entry = Entry(date: Day, completed: bool, journal: Option<string>, isExtra: bool)

  /**
   * A challenge: a target number of main days (`duration`) and its entry log.
   * `duration` is a JavaScript number read from untyped stored data: `None`
   * stands for a missing or `NaN` value, which every `>=` test rejects; a
   * fractional value acts as its ceiling against the integer entry count, so
   * `Some(d)` holds that ceiling.
   */
  datatype Habit = Habit(
    id: string,
    name: string,
    category: string,
    description: string,
    duration: Option<int>,
    entries: seq<Entry>)

  /** A challenge proposed by the coach; not a habit until the user adds it. */
  datatype Suggestion = Suggestion(name: string, category: string, description: string, duration: int)

  datatype Role = User | Assistant

  datatype ChatMessage = ChatMessage(role: Role, content: string, suggestions: Option<seq<Suggestion>>)

  /** A rank tier: the minimum number of completed habits asked for per category. */
  datatype Rank = Rank(name: string, description: string, requirements: map<string, int>)
}
