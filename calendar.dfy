/** The calendar screen: the user picks a day, types an activity into a modal
    dialog and saves it into the shared activity log; the calendar widget is
    fed a marking for every active day and for the picked day. */
module Calendar {
  import opened ActivityLog
  import Streaks

  /** A colour of the current theme, as the widget receives it. */
  type Color = string

  // ---------------------------------------------------------------------------
  // Trimming, as JavaScript's String.prototype.trim does it.

  /** The characters `trim` removes: the white space and line terminator
      characters of ECMAScript (the WhiteSpace and LineTerminator productions
      of ECMA-262). */
  predicate IsWhitespace(c: char)
  {
    c == ' ' || c == '\t' || c == '\n' || c == '\r' ||
    c == '\U{000B}' || c == '\U{000C}' || c == '\U{00A0}' || c == '\U{FEFF}' ||
    c == '\U{1680}' || ('\U{2000}' <= c <= '\U{200A}') ||
    c == '\U{2028}' || c == '\U{2029}' || c == '\U{202F}' || c == '\U{205F}' ||
    c == '\U{3000}'
  }

  /** `s` without its leading white space. */
  function TrimStart(s: string): (r: string)
    ensures |r| <= |s| && r == s[|s| - |r|..]
    ensures forall k :: 0 <= k < |s| - |r| ==> IsWhitespace(s[k])
    ensures |r| > 0 ==> !IsWhitespace(r[0])
  {
    if |s| > 0 && IsWhitespace(s[0]) then TrimStart(s[1..]) else s
  }

  /** `s` without its trailing white space. */
  function TrimEnd(s: string): (r: string)
    ensures |r| <= |s| && r == s[..|r|]
    ensures forall k :: |r| <= k < |s| ==> IsWhitespace(s[k])
    ensures |r| > 0 ==> !IsWhitespace(r[|r| - 1])
  {
    if |s| > 0 && IsWhitespace(s[|s| - 1]) then TrimEnd(s[..|s| - 1]) else s
  }

  /** `s` without leading or trailing white space: the longest slice of `s`
      that neither starts nor ends with white space, all of whose surroundings
      are white space. */
  function Trim(s: string): (r: string)
    ensures exists i, j ::
              && 0 <= i <= j <= |s| && r == s[i..j]
              && (forall k :: 0 <= k < i ==> IsWhitespace(s[k]))
              && (forall k :: j <= k < |s| ==> IsWhitespace(s[k]))
    ensures |r| > 0 ==> !IsWhitespace(r[0]) && !IsWhitespace(r[|r| - 1])
  {
    var t := TrimStart(s);
    var r := TrimEnd(t);
    assert r == s[|s| - |t|..|s| - |t| + |r|];
    r
  }

  /** Trimming leaves nothing exactly when every character is white space, so
      an activity is rejected exactly when it is blank. */
  lemma TrimEmptyIffBlank(s: string)
    ensures Trim(s) == [] <==> forall k :: 0 <= k < |s| ==> IsWhitespace(s[k])
  {
    var t := TrimStart(s);
    if Trim(s) == [] {
      assert |t| == 0;
    }
  }

  /** Trimming twice is trimming once. */
  lemma TrimIdempotent(s: string)
    ensures Trim(Trim(s)) == Trim(s)
  {
    var r := Trim(s);
    assert TrimStart(r) == r;
  }

  // ---------------------------------------------------------------------------
  // The log update.

  /** The log after recording `activity` on `day`: appended to the day's list
      when the day has one (even an empty one), otherwise as a new
      one-element list. */
  function WithActivity(items: Items, day: Date, activity: Activity): (r: Items)
    ensures r.Keys == items.Keys + {day}
    ensures day in items ==> r[day] == items[day] + [activity]
    ensures day !in items ==> r[day] == [activity]
    ensures forall d :: d in items && d != day ==> r[d] == items[d]
  {
    if day in items then items[day := items[day] + [activity]]
    else items[day := [activity]]
  }

  /** The new activity lands at the end of the day's list: the list grows by
      exactly one and the earlier entries keep their positions. */
  lemma AddAppendsAtEnd(items: Items, day: Date, activity: Activity)
    ensures var before := if day in items then items[day] else [];
      var after := WithActivity(items, day, activity)[day];
      |after| == |before| + 1 && after[..|before|] == before && after[|before|] == activity
  {
  }

  /** After a save the day is active, and no other day changes status. */
  lemma AddMakesDayActive(items: Items, day: Date, activity: Activity)
    ensures ActivityDays(WithActivity(items, day, activity)) == ActivityDays(items) + {day}
  {
    var r := WithActivity(items, day, activity);
    assert |r[day]| > 0;
  }

  /** Saving an activity never shortens the longest streak. */
  lemma AddNeverShortensLongestStreak(items: Items, day: Date, activity: Activity, before: nat, after: nat)
    requires Streaks.IsLongestDayRun(ActivityDays(items), before)
    requires Streaks.IsLongestDayRun(ActivityDays(WithActivity(items, day, activity)), after)
    ensures before <= after
  {
    AddMakesDayActive(items, day, activity);
    var first :| Streaks.DaysRun(ActivityDays(items), first, before);
    assert Streaks.DaysRun(ActivityDays(WithActivity(items, day, activity)), first, before);
  }

  /** Saving an activity on today's date gives the streaks screen a current
      streak of at least one day, provided no activity is dated after today
      (a later day would be the latest one and cancel the current streak).
      `keys` lists the keys of the new log, each once. */
  lemma AddTodayStartsCurrentStreak(items: Items, keys: seq<Date>, today: Date, activity: Activity)
    requires IsDistinct(keys)
    requires forall d :: d in keys <==> d in WithActivity(items, today, activity)
    requires forall d :: d in ActivityDays(WithActivity(items, today, activity)) ==> d <= today
    ensures Streaks.Streaks(Streaks.ActivityDates(WithActivity(items, today, activity), keys), today).currentStreak >= 1
  {
    var after := WithActivity(items, today, activity);
    var dates := Streaks.ActivityDates(after, keys);
    AddMakesDayActive(items, today, activity);
    assert today in dates;
    assert forall d :: d in dates ==> d in ActivityDays(after);
    Streaks.LatestDayDecidesCurrentStreak(dates, today, today);
  }

  /** Without that proviso the save does not start a streak: with an activity
      already logged for tomorrow, saving one today leaves the current streak
      at 0. */
  lemma FutureDayHidesTodaysSave(today: Date, activity: Activity)
    ensures var after := WithActivity(map[today + 1 := ["planned"]], today, activity);
      Streaks.Streaks(Streaks.ActivityDates(after, [today + 1, today]), today).currentStreak == 0
  {
    var after := WithActivity(map[today + 1 := ["planned"]], today, activity);
    var dates := Streaks.ActivityDates(after, [today + 1, today]);
    assert dates == [today + 1, today];
    Streaks.LatestDayDecidesCurrentStreak(dates, today, today + 1);
  }

  // ---------------------------------------------------------------------------
  // Markings handed to the calendar widget.

  /** The properties of one day's marking object; a property the object does
      not carry is `false` or `None`. */
  datatype Marking = Marking(marked: bool, dotColor: Option<Color>, selected: bool, selectedColor: Option<Color>)

  /** What a save attempt reports: success, or the alert it raises. */
  datatype AddOutcome = Added | Alert(title: string, message: string)

  /** The state of the calendar screen, with the shared log it edits. */
  class CalendarScreen {
    /** The shared activity log. */
    var items: Items
    /** The day last pressed in the calendar; `None` until one is pressed. */
    var selectedDay: Option<Date>
    /** Whether the add-activity dialog is shown. */
    var modalVisible: bool
    /** The text typed in the add-activity dialog. */
    var newActivity: string

    /** The screen as it first appears over the log `items`. */
    constructor(items: Items)
      ensures this.items == items
      ensures selectedDay == None && !modalVisible && newActivity == ""
    {
      this.items := items;
      selectedDay := None;
      modalVisible := false;
      newActivity := "";
    }

    /** Pressing a day in the calendar selects it. */
    method SelectDay(day: Date)
      modifies this
      ensures selectedDay == Some(day)
      ensures items == old(items) && modalVisible == old(modalVisible) && newActivity == old(newActivity)
    {
      selectedDay := Some(day);
    }

    /** The add button opens the dialog. */
    method OpenModal()
      modifies this
      ensures modalVisible
      ensures items == old(items) && selectedDay == old(selectedDay) && newActivity == old(newActivity)
    {
      modalVisible := true;
    }

    /** The cancel button (or the system back gesture) closes the dialog,
        keeping the typed text. */
    method CloseModal()
      modifies this
      ensures !modalVisible
      ensures items == old(items) && selectedDay == old(selectedDay) && newActivity == old(newActivity)
    {
      modalVisible := false;
    }

    /** Typing in the dialog replaces the text. */
    method SetNewActivity(text: string)
      modifies this
      ensures newActivity == text
      ensures items == old(items) && selectedDay == old(selectedDay) && modalVisible == old(modalVisible)
    {
      newActivity := text;
    }

    /** The save button. A blank text is refused and everything stays as it
        was; without a selected day the dialog closes and the log stays as it
        was; otherwise the text, untrimmed, is recorded on the selected day,
        the text box is cleared and the dialog closes. */
    method HandleAddActivity() returns (outcome: AddOutcome)
      modifies this
      ensures selectedDay == old(selectedDay)
      ensures Trim(old(newActivity)) == [] ==>
        outcome == Alert("Error", "Activity cannot be empty.") &&
        items == old(items) && modalVisible == old(modalVisible) && newActivity == old(newActivity)
      ensures Trim(old(newActivity)) != [] && old(selectedDay).None? ==>
        outcome == Alert("Error", "Please select a day to add an activity to.") &&
        items == old(items) && !modalVisible && newActivity == old(newActivity)
      ensures Trim(old(newActivity)) != [] && old(selectedDay).Some? ==>
        outcome == Added &&
        items == WithActivity(old(items), old(selectedDay).value, old(newActivity)) &&
        !modalVisible && newActivity == ""
    {
      if Trim(newActivity) == [] {
        return Alert("Error", "Activity cannot be empty.");
      }
      if selectedDay.None? {
        modalVisible := false;
        return Alert("Error", "Please select a day to add an activity to.");
      }
      var day := selectedDay.value;
      var newItems := items;
      if day in newItems {
        newItems := newItems[day := newItems[day] + [newActivity]];
      } else {
        newItems := newItems[day := [newActivity]];
      }
      items := newItems;
      newActivity := "";
      modalVisible := false;
      outcome := Added;
    }

    /** The markings for the calendar widget: every active day carries a dot
        in `primary`; the selected day, active or not, is also highlighted in
        `primary`; no other day appears. */
    method GetMarkedDates(primary: Color) returns (marked: map<Date, Marking>)
      ensures forall d :: d in marked <==> d in ActivityDays(items) || selectedDay == Some(d)
      ensures forall d :: d in marked ==>
        (marked[d].marked <==> d in ActivityDays(items)) &&
        marked[d].dotColor == (if d in ActivityDays(items) then Some(primary) else None)
      ensures forall d :: d in marked ==>
        (marked[d].selected <==> selectedDay == Some(d)) &&
        marked[d].selectedColor == (if selectedDay == Some(d) then Some(primary) else None)
    {
      marked := map[];
      var keys := items.Keys;
      while exists date :: date in keys
        invariant keys <= items.Keys
        invariant forall d :: d in marked <==> d in ActivityDays(items) && d !in keys
        invariant forall d :: d in marked ==> marked[d] == Marking(true, Some(primary), false, None)
        decreases keys
      {
        var date :| date in keys;
        if |items[date]| > 0 {
          marked := marked[date := Marking(true, Some(primary), false, None)];
        }
        keys := keys - {date};
      }
      if selectedDay.Some? {
        var day := selectedDay.value;
        var previous := if day in marked then marked[day] else Marking(false, None, false, None);
        marked := marked[day := previous.(selected := true, selectedColor := Some(primary))];
      }
    }
  }
}
