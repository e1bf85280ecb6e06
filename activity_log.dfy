/** Shared vocabulary of the activity log that the calendar screen edits and
    the streaks screen reads. */
module ActivityLog {

  /** A calendar day, counted in whole days from a fixed epoch, so that the
      day after `d` is `d + 1`. */
  type Date = int

  /** An activity description, as typed by the user. */
  type Activity = string

  /** The app-wide log: each calendar day that has an entry maps to the
      ordered list of activities recorded on it. */
  type Items = map<Date, seq<Activity>>

  datatype Option<T> = None | Some(value: T)

  /** The days that count as active: those whose list is non-empty. A key
      whose list is empty is present in the map but is not an activity day. */
  ghost function ActivityDays(items: Items): set<Date>
  {
    set d | d in items && |items[d]| > 0
  }

  /** The set of elements of a sequence of days. */
  ghost function Elements(s: seq<Date>): set<Date>
  {
    set x | x in s
  }

  /** No day occurs twice in `s`. */
  ghost predicate IsDistinct(s: seq<Date>)
  {
    forall i, j :: 0 <= i < j < |s| ==> s[i] != s[j]
  }
}
