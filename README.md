# UniBuddy activity log and teaching streaks, in Dafny

UniBuddy is a React Native app. A teacher logs activities per calendar day on
the calendar screen, and the streaks screen derives two figures from that log:

- the **longest streak**: the longest block of consecutive calendar days that
  each have at least one activity;
- the **current streak**: the block of consecutive active days that ends on
  the latest active day. It counts only when that day is today or yesterday.

This project models the two pieces of logic behind those screens and proves
what they compute.

- `activity_log.dfy` (module `ActivityLog`) holds the shared vocabulary.
  - A calendar date is an integer day number (`type Date = int`), so "one
    calendar day after `a`" is `a + 1`.
  - The log `Items` is a `map<Date, seq<string>>`.
  - `ActivityDays` is the set of days whose list is non-empty.
- `streaks.dfy` (module `Streaks`) is the streak calculator `calculateStreaks`
  and the filter that feeds it.
  - The calculator is a method with the source's two loops: a forward `for`
    scan and a backward scan that stops at the first gap. It is proved equal
    to the specification function `Streaks`.
  - Lemmas characterise `Streaks`:
    - the longest streak is the longest run, and the longest block of
      consecutive days;
    - the current streak is the block of days ending today or yesterday;
    - the result is independent of input order;
    - the current streak never exceeds the longest streak;
    - it is zero when the latest day is too old;
    - worked examples.
  - `today` is a parameter.
- `calendar.dfy` (module `Calendar`) is the calendar screen.
  - The class `CalendarScreen` holds the log and the screen's state: the
    selected day, whether the dialog is open, and the typed text.
  - `HandleAddActivity` is the save button.
  - `GetMarkedDates` builds the markings that the calendar widget receives.
  - JavaScript's `String.prototype.trim` is modelled with the white space and
    line terminator characters of ECMA-262.
  - Lemmas tie a save to the streaks:
    - the saved day becomes active, and no other day changes status;
    - the longest streak never shrinks;
    - saving on today's date starts a current streak, when no activity is
      dated after today.

A behaviour of the code worth knowing, and proved as such: an activity dated
after today makes the latest active day a future day, so the current streak is
0 however many days before today are active (`CurrentStreakIsDayRunToToday`).
The model follows the code.

## Model

| member | source | states |
|---|---|---|
| Streaks.SortAscending | app/streaks.tsx:36-38 | the sorted days are in ascending order and are a permutation of the input |
| Streaks.Insert | app/streaks.tsx:36-38 | inserting a day into a sorted list keeps it sorted and adds exactly that day |
| Streaks.SortedPermutationUnique | app/streaks.tsx:36-38 | two ascending arrangements of the same days are equal, so the sort's result is determined by the days alone |
| Streaks.RunEndingAt | app/streaks.tsx:42-47 | the run counter at index i is the length of the maximal block of day-after-day entries ending at i: at least 1, at most i+1, and not extendable to the left |
| Streaks.LongestRunUpTo | app/streaks.tsx:42-51 | after n entries the best run is between 1 and n (0 for none) |
| Streaks.LongestRunUpToIsMaximum | app/streaks.tsx:48-50 | the forward scan's maximum is attained by some run ending in the scanned prefix and bounds all of them |
| Streaks.CalculateStreaks | app/streaks.tsx:31-71 | the calculator returns `Streaks(dates, today)`; empty input gives (0, 0); otherwise 1 <= longest <= number of dates; current <= longest |
| Streaks.ScanSortedDates | app/streaks.tsx:40-68 | the forward and backward scans over sorted days compute the longest run and the current run, with 1 <= longest <= length and current <= longest |
| Streaks.MaximalRunIsRunEndingAt | app/streaks.tsx:59-67 | a run ending at i that cannot be extended leftwards is the run the counter measures, so the backward scan agrees with the forward one |
| Streaks.RunAtMostRunEndingAt | app/streaks.tsx:42-47 | no run ending at an index is longer than the maximal run ending there |
| Streaks.CurrentRunAtMostLongestRun | app/streaks.tsx:42-67 | the current streak never exceeds the longest streak |
| Streaks.LongestRunIsMaximalRun | app/streaks.tsx:40-51 | for non-empty input the longest streak is the length of some run of day-after-day entries and bounds every such run; for empty input it is 0 |
| Streaks.SortedLastIsLatest | app/streaks.tsx:57 | after sorting, the last entry is the latest activity day |
| Streaks.LatestDayDecidesCurrentStreak | app/streaks.tsx:53-67 | if the latest day is neither today nor yesterday the current streak is 0; otherwise it is the maximal run ending at the latest day, at least 1 |
| Streaks.StreaksIgnoreInputOrder | app/streaks.tsx:36-38 | any two orderings of the same days give the same streaks |
| Streaks.RunCoversDays | app/streaks.tsx:43 | a run of day-after-day entries covers a block of consecutive calendar days |
| Streaks.DaysFormRun | app/streaks.tsx:43 | in a strictly ascending list, a block of consecutive calendar days appears as a run of entries |
| Streaks.LongestRunIsLongestDayRun | app/streaks.tsx:40-51 | for strictly ascending days the longest streak is the longest block of consecutive calendar days |
| Streaks.RunEndingAtLastIsDayRun | app/streaks.tsx:59-67 | for strictly ascending days the run ending at the last entry is exactly the block of consecutive days ending at the last day |
| Streaks.DistinctSortIsStrict | app/streaks.tsx:36-38 | sorting distinct days gives a strictly ascending list of the same days |
| Streaks.LongestStreakIsLongestDayRun | app/streaks.tsx:31-51 | for distinct days the longest streak is the longest block of consecutive calendar days among them |
| Streaks.CurrentRunIsDayRunToToday | app/streaks.tsx:53-68 | for strictly ascending days: with no future day the current streak is the block of consecutive days ending today (or yesterday if today is inactive); any future day makes it 0 |
| Streaks.CurrentStreakIsDayRunToToday | app/streaks.tsx:53-68 | the same for any list of distinct days, in any order |
| Streaks.LongestStreakNeverShrinks | app/streaks.tsx:40-51 | adding days never lowers the longest streak, whatever the day of computation |
| Streaks.DayRunEndingAtUnique | app/streaks.tsx:59-67 | the block of consecutive days ending at a given day has one length |
| Streaks.IsolatedDaysGiveStreaksOfOne | app/streaks.tsx:42-51 | when no two activity days are adjacent the longest streak is 1 and the current streak at most 1 |
| Streaks.RunEndingTodayIsCurrentStreak | app/streaks.tsx:59-67 | n consecutive days ending today, with a gap before them and none after, give a current streak of n and a longest streak of at least n |
| Streaks.GapBeforeTodayResetsCurrentStreak | app/streaks.tsx:53-59 | when every activity is at least two days old the current streak is 0, while any earlier block still bounds the longest streak from below |
| Streaks.ActivityDates | app/streaks.tsx:87 | the calculator receives exactly the keys whose list is present and non-empty, each once when the keys are distinct |
| Streaks.ActivityStreaks | app/streaks.tsx:86-89 | the streaks screen's figures: longest is the longest block of consecutive active days; current is the block ending today or yesterday, or 0 when a future day is active; current <= longest |
| Streaks.ThreeDaysEndingToday | app/streaks.tsx:31-71 | three consecutive days ending today give (3, 3) |
| Streaks.NoThreeDaysInARow | app/streaks.tsx:42-51 | the days {d, d+1, d+4, d+5} hold no block of three consecutive days |
| Streaks.TwoRunsOfTwo | app/streaks.tsx:31-71 | two blocks of two days, the later ending today, give (2, 2) |
| Streaks.SingleOldDay | app/streaks.tsx:31-71 | one day nine days ago gives (0, 1) |
| Calendar.TrimStart | app/calendar.tsx:69 | leading white space is removed: the result is a suffix, everything cut is white space, and it does not start with white space |
| Calendar.TrimEnd | app/calendar.tsx:69 | trailing white space is removed: the result is a prefix, everything cut is white space, and it does not end with white space |
| Calendar.Trim | app/calendar.tsx:69 | the trimmed text is a slice of the input surrounded only by white space, and neither starts nor ends with white space |
| Calendar.TrimEmptyIffBlank | app/calendar.tsx:69-72 | the trimmed text is empty exactly when every character is white space |
| Calendar.TrimIdempotent | app/calendar.tsx:69 | trimming twice is trimming once |
| Calendar.WithActivity | app/calendar.tsx:78-83 | the log after a save: the day's list gets the activity appended, or becomes the one-element list; the keys gain the day; every other day's list is unchanged |
| Calendar.AddAppendsAtEnd | app/calendar.tsx:79-83 | the day's list grows by exactly one, earlier entries keep their positions, and the new activity is last |
| Calendar.AddMakesDayActive | app/calendar.tsx:78-83 | after a save the active days are the old active days plus the saved day |
| Calendar.AddNeverShortensLongestStreak | app/calendar.tsx:78-84 | a save never lowers the longest streak of the log |
| Calendar.AddTodayStartsCurrentStreak | app/calendar.tsx:78-84 | after a save on today's date, with no activity dated after today, the calculator's current streak for the new log is at least 1 |
| Calendar.FutureDayHidesTodaysSave | app/calendar.tsx:78-84 | with an activity already logged for tomorrow, a save on today's date leaves the calculator's current streak at 0 |
| Calendar.CalendarScreen.constructor | app/calendar.tsx:64-66 | the screen starts with no selected day, the dialog closed and empty text |
| Calendar.CalendarScreen.SelectDay | app/calendar.tsx:112 | pressing a day selects it and changes nothing else |
| Calendar.CalendarScreen.OpenModal | app/calendar.tsx:139 | the add button opens the dialog and changes nothing else |
| Calendar.CalendarScreen.CloseModal | app/calendar.tsx:160-163 | cancel closes the dialog, keeping the typed text, and changes nothing else |
| Calendar.CalendarScreen.SetNewActivity | app/calendar.tsx:152-158 | typing replaces the dialog's text and changes nothing else |
| Calendar.CalendarScreen.HandleAddActivity | app/calendar.tsx:68-87 | blank text: the empty-activity alert, with nothing changed; no selected day: the select-a-day alert, dialog closed, log unchanged; otherwise the untrimmed text is saved on the selected day (`WithActivity`), the text is cleared and the dialog closes |
| Calendar.CalendarScreen.GetMarkedDates | app/calendar.tsx:89-100 | a day is in the markings exactly when it is active or selected; it is marked with a `primary` dot exactly when active; it is selected, in `primary`, exactly when it is the selected day, and keeps its dot |

## Left out

- Date strings and the date-fns calls (`parseISO`, `format`, `subDays`,
  `differenceInCalendarDays`): days are integers, so ISO parsing, time zones
  and malformed date strings are not modelled. Comparing formatted day
  strings becomes integer equality.
- The wall clock (`new Date()`) is the parameter `today`.
- The order in which `Object.keys` lists the log's days is the parameter
  `keys` of `ActivityDates` and `ActivityStreaks`. They require that
  parameter to list each key of the log exactly once, which `Object.keys`
  guarantees.
- Streaks.LongestStreakIsLongestDayRun: this and the other lemmas stated over
  calendar days assume distinct days, which the keys of the log always are.
  The calculator itself handles repeated days: `CalculateStreaks` is proved
  on any list, and a repeated day resets the run.
- Calendar.CalendarScreen.HandleAddActivity: the source copies the log
  shallowly and pushes onto the day's existing array. That array is shared
  with the previous state, so the old log object is changed too. The model
  keeps logs as values and states only the new log, so the aliasing is not
  modelled.
- `Alert.alert` is not shown. `HandleAddActivity` returns the alert's title
  and message instead.
- The theme colour is the parameter `primary` of `GetMarkedDates`. The
  `Colors` tables, styles, layout, navigation and the activity list for the
  selected day are presentation and are not modelled.
- The `useMemo` caching of the streaks (app/streaks.tsx:86-89) is not
  modelled. It recomputes only when the log changes, so a screen that stays
  open past midnight keeps the old current streak until the next edit. The
  model recomputes for whatever `today` it is given.
- A marking object's absent properties are `false` or `None` in
  `Calendar.Marking`.
- The selected day is `None` where the source holds the empty string. The
  calendar only ever reports non-empty day strings.
- The forum, settings, profile, login and appearance screens and the context
  providers are not part of this model. They are network I/O or form wiring.
