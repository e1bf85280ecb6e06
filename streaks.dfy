/** The streak calculator of the streaks screen: from the days that carry at
    least one activity it derives the current streak (the run of consecutive
    days ending today or yesterday) and the longest streak (the longest run of
    consecutive days anywhere in the history). */
module Streaks {
  import opened ActivityLog

  /** What the streaks screen displays. */
  datatype StreakResult = StreakResult(currentStreak: nat, longestStreak: nat)

  // ---------------------------------------------------------------------------
  // Sorting: the dates are sorted ascending by their time value before they
  // are scanned.

  ghost predicate IsSorted(s: seq<Date>)
  {
    forall i, j :: 0 <= i < j < |s| ==> s[i] <= s[j]
  }

  ghost predicate IsStrictlySorted(s: seq<Date>)
  {
    forall i, j :: 0 <= i < j < |s| ==> s[i] < s[j]
  }

  /** Inserts `x` into the sorted `s`, keeping it sorted. */
  function Insert(x: Date, s: seq<Date>): (r: seq<Date>)
    requires IsSorted(s)
    ensures IsSorted(r)
    ensures multiset(r) == multiset(s) + multiset{x}
  {
    if s == [] || x <= s[0] then
      ConsSorted(x, s);
      [x] + s
    else
      var t := Insert(x, s[1..]);
      SplitHead(s);
      BelowAll(s, t, x);
      ConsSorted(s[0], t);
      assert multiset([s[0]] + t) == multiset{s[0]} + multiset(t);
      [s[0]] + t
  }

  /** A non-empty sorted list is its first entry followed by the rest, which
      is again sorted. */
  lemma SplitHead(s: seq<Date>)
    requires IsSorted(s) && |s| > 0
    ensures IsSorted(s[1..])
    ensures multiset(s) == multiset{s[0]} + multiset(s[1..])
  {
    assert s == [s[0]] + s[1..];
  }

  /** Putting a day no later than its first entry in front of a sorted list
      keeps it sorted. */
  lemma ConsSorted(h: Date, t: seq<Date>)
    requires IsSorted(t)
    requires |t| > 0 ==> h <= t[0]
    ensures IsSorted([h] + t)
  {
  }

  /** The first entry of a sorted list is its least element. */
  lemma SortedHeadIsLeast(s: seq<Date>, x: Date)
    requires IsSorted(s) && x in multiset(s)
    ensures s[0] <= x
  {
    var k :| 0 <= k < |s| && s[k] == x;
    assert k == 0 || s[0] <= s[k];
  }

  /** The first entry of a sorted `s`, when no later than `x`, is no later
      than any entry of an arrangement of the rest of `s` plus `x`. */
  lemma BelowAll(s: seq<Date>, t: seq<Date>, x: Date)
    requires IsSorted(s) && |s| > 0 && s[0] <= x
    requires multiset(s) == multiset{s[0]} + multiset(s[1..])
    requires multiset(t) == multiset(s[1..]) + multiset{x}
    ensures forall k :: 0 <= k < |t| ==> s[0] <= t[k]
  {
    forall k | 0 <= k < |t|
      ensures s[0] <= t[k]
    {
      assert t[k] in multiset(t);
      if t[k] != x {
        assert t[k] in multiset(s);
        SortedHeadIsLeast(s, t[k]);
      }
    }
  }

  /** The ascending sort of the date list (the comparator `a - b` on time
      values orders days ascending). */
  function SortAscending(s: seq<Date>): (r: seq<Date>)
    ensures IsSorted(r)
    ensures multiset(r) == multiset(s)
  {
    if s == [] then []
    else
      assert s == [s[0]] + s[1..];
      Insert(s[0], SortAscending(s[1..]))
  }

  /** Two sorted arrangements of the same days start with the same day, and
      what follows is again two sorted arrangements of the same days. */
  lemma SortedHeadsAgree(a: seq<Date>, b: seq<Date>)
    requires IsSorted(a) && IsSorted(b) && |a| > 0
    requires multiset(a) == multiset(b)
    ensures |b| > 0 && a[0] == b[0]
    ensures IsSorted(a[1..]) && IsSorted(b[1..])
    ensures multiset(a[1..]) == multiset(b[1..])
  {
    assert a[0] in multiset(b);
    var k :| 0 <= k < |b| && b[k] == a[0];
    assert b[0] in multiset(a);
    SortedHeadIsLeast(a, b[0]);
    SortedHeadIsLeast(b, a[0]);
    SplitHead(a);
    SplitHead(b);
    assert multiset(a[1..]) == multiset(a) - multiset{a[0]};
    assert multiset(b[1..]) == multiset(b) - multiset{b[0]};
  }

  /** A sorted arrangement of a multiset of days is unique. */
  lemma {:induction false} SortedPermutationUnique(a: seq<Date>, b: seq<Date>)
    requires IsSorted(a) && IsSorted(b)
    requires multiset(a) == multiset(b)
    ensures a == b
    decreases |a|
  {
    assert |a| == |multiset(a)| == |multiset(b)| == |b|;
    if a != [] {
      SortedHeadsAgree(a, b);
      SortedPermutationUnique(a[1..], b[1..]);
      assert a == [a[0]] + a[1..] == [b[0]] + b[1..] == b;
    }
  }

  // ---------------------------------------------------------------------------
  // Runs of consecutive days in a sorted list, by index.

  /** Entry `k` is exactly one calendar day after entry `k - 1`. */
  ghost predicate NextDay(s: seq<Date>, k: int)
    requires 0 < k < |s|
  {
    s[k - 1] + 1 == s[k]
  }

  /** The entries `s[lo..hi]` are consecutive calendar days: each is exactly
      one day after the entry before it. */
  ghost predicate IsRun(s: seq<Date>, lo: int, hi: int)
  {
    0 <= lo < hi <= |s| && forall k :: lo < k < hi ==> NextDay(s, k)
  }

  /** The length of the maximal run that ends at index `i`: it counts back
      from `i` while each entry is one day after its predecessor. */
  ghost function RunEndingAt(s: seq<Date>, i: nat): (r: nat)
    requires i < |s|
    ensures 1 <= r <= i + 1
    ensures IsRun(s, i + 1 - r, i + 1)
    ensures r == i + 1 || !NextDay(s, i + 1 - r)
  {
    if i > 0 && NextDay(s, i) then RunEndingAt(s, i - 1) + 1 else 1
  }

  /** The best run ending at one of the first `n` indices: the value of
      `longestStreak` after the forward scan has visited `n` entries. */
  ghost function LongestRunUpTo(s: seq<Date>, n: nat): (r: nat)
    requires n <= |s|
    ensures r <= n
    ensures n > 0 ==> 1 <= r
  {
    if n == 0 then 0
    else
      var best := LongestRunUpTo(s, n - 1);
      var here := RunEndingAt(s, n - 1);
      if here > best then here else best
  }

  /** The forward scan's maximum is attained by a run ending at one of the
      scanned indices and bounds every such run. */
  lemma {:induction false} LongestRunUpToIsMaximum(s: seq<Date>, n: nat)
    requires n <= |s|
    ensures n > 0 ==> exists i :: 0 <= i < n && RunEndingAt(s, i) == LongestRunUpTo(s, n)
    ensures forall i :: 0 <= i < n ==> RunEndingAt(s, i) <= LongestRunUpTo(s, n)
  {
    if n > 0 {
      LongestRunUpToIsMaximum(s, n - 1);
      if RunEndingAt(s, n - 1) <= LongestRunUpTo(s, n - 1) {
        var i :| 0 <= i < n - 1 && RunEndingAt(s, i) == LongestRunUpTo(s, n - 1);
        assert RunEndingAt(s, i) == LongestRunUpTo(s, n);
      } else {
        assert RunEndingAt(s, n - 1) == LongestRunUpTo(s, n);
      }
    }
  }

  /** The longest streak of a sorted list of days. */
  ghost function LongestRun(s: seq<Date>): nat
  {
    LongestRunUpTo(s, |s|)
  }

  /** The current streak of a sorted list of days: zero unless the last day
      is today or yesterday, and otherwise the run ending at the last day. */
  ghost function CurrentRun(s: seq<Date>, today: Date): nat
  {
    if |s| == 0 then 0
    else if s[|s| - 1] == today || s[|s| - 1] == today - 1 then RunEndingAt(s, |s| - 1)
    else 0
  }

  /** Both streaks of an already sorted list of days. */
  ghost function SortedStreaks(s: seq<Date>, today: Date): StreakResult
  {
    StreakResult(CurrentRun(s, today), LongestRun(s))
  }

  /** What the calculator returns for `activityDates` on day `today`. */
  ghost function Streaks(activityDates: seq<Date>, today: Date): StreakResult
  {
    SortedStreaks(SortAscending(activityDates), today)
  }

  // ---------------------------------------------------------------------------
  // The calculator.

  /** The calculator: an empty list has no streaks; otherwise the days are
      sorted ascending and scanned. */
  method CalculateStreaks(activityDates: seq<Date>, today: Date) returns (result: StreakResult)
    ensures result == Streaks(activityDates, today)
    ensures |activityDates| == 0 ==> result == StreakResult(0, 0)
    ensures |activityDates| > 0 ==> 1 <= result.longestStreak <= |activityDates|
    ensures result.currentStreak <= result.longestStreak
  {
    if |activityDates| == 0 {
      return StreakResult(0, 0);
    }
    var sortedDates := SortAscending(activityDates);
    assert |sortedDates| == |multiset(sortedDates)| == |activityDates|;
    result := ScanSortedDates(sortedDates, today);
  }

  /** The two scans over the sorted days: a forward pass that keeps the
      length of the run ending at the current entry and the best seen so far,
      then, if the last day is today or yesterday, a backward pass that counts
      the run ending at the last day and stops at the first gap. */
  method ScanSortedDates(sortedDates: seq<Date>, today: Date) returns (result: StreakResult)
    requires |sortedDates| > 0
    ensures result == SortedStreaks(sortedDates, today)
    ensures 1 <= result.longestStreak <= |sortedDates|
    ensures result.currentStreak <= result.longestStreak
  {
    var n := |sortedDates|;
    var longestStreak: nat := 0;
    var currentRun: nat := 0;
    for i := 0 to n
      invariant longestStreak == LongestRunUpTo(sortedDates, i)
      invariant i > 0 ==> currentRun == RunEndingAt(sortedDates, i - 1)
    {
      if i > 0 && sortedDates[i] - sortedDates[i - 1] == 1 {
        assert NextDay(sortedDates, i);
        currentRun := currentRun + 1;
      } else {
        assert i == 0 || !NextDay(sortedDates, i);
        currentRun := 1;
      }
      assert currentRun == RunEndingAt(sortedDates, i);
      if currentRun > longestStreak {
        longestStreak := currentRun;
      }
    }

    var currentStreak: nat := 0;
    var lastActivity := sortedDates[n - 1];
    if lastActivity == today || lastActivity == today - 1 {
      currentStreak := 1;
      var i := n - 2;
      while i >= 0
        invariant -1 <= i <= n - 2
        invariant currentStreak == n - 1 - i
        invariant IsRun(sortedDates, i + 1, n)
      {
        if sortedDates[i + 1] - sortedDates[i] == 1 {
          ExtendRunLeft(sortedDates, i, n);
          currentStreak := currentStreak + 1;
        } else {
          break;
        }
        i := i - 1;
      }
      MaximalRunIsRunEndingAt(sortedDates, n - 1, currentStreak);
    }
    CurrentRunAtMostLongestRun(sortedDates, today);
    result := StreakResult(currentStreak, longestStreak);
  }

  /** A run can be extended by one entry on its left when that entry is the
      day before the run's first day. */
  lemma ExtendRunLeft(s: seq<Date>, lo: int, hi: int)
    requires IsRun(s, lo + 1, hi) && 0 <= lo
    requires s[lo + 1] - s[lo] == 1
    ensures IsRun(s, lo, hi)
  {
    assert NextDay(s, lo + 1);
  }

  /** The current streak is one of the runs the longest streak bounds. */
  lemma CurrentRunAtMostLongestRun(s: seq<Date>, today: Date)
    ensures CurrentRun(s, today) <= LongestRun(s)
  {
    LongestRunUpToIsMaximum(s, |s|);
  }

  /** A run ending at `i` that cannot be extended to the left is the one
      `RunEndingAt` measures. */
  lemma MaximalRunIsRunEndingAt(s: seq<Date>, i: nat, len: nat)
    requires i < |s| && 1 <= len <= i + 1
    requires IsRun(s, i + 1 - len, i + 1)
    requires len == i + 1 || !NextDay(s, i + 1 - len)
    ensures RunEndingAt(s, i) == len
  {
  }

  // ---------------------------------------------------------------------------
  // What the two numbers mean for the sorted list.

  /** No run ending at index `hi - 1` is longer than the maximal one. */
  lemma RunAtMostRunEndingAt(s: seq<Date>, lo: int, hi: int)
    requires IsRun(s, lo, hi)
    ensures hi - lo <= RunEndingAt(s, hi - 1)
  {
  }

  /** The longest streak is the length of a run of consecutive days in the
      sorted list, and no run is longer; it is 0 exactly for the empty list. */
  lemma LongestRunIsMaximalRun(s: seq<Date>)
    ensures |s| == 0 ==> LongestRun(s) == 0
    ensures |s| > 0 ==> exists lo, hi :: IsRun(s, lo, hi) && hi - lo == LongestRun(s)
    ensures forall lo, hi :: IsRun(s, lo, hi) ==> hi - lo <= LongestRun(s)
  {
    LongestRunUpToIsMaximum(s, |s|);
    if |s| > 0 {
      var i :| 0 <= i < |s| && RunEndingAt(s, i) == LongestRun(s);
      assert IsRun(s, i + 1 - LongestRun(s), i + 1);
    }
    forall lo, hi | IsRun(s, lo, hi)
      ensures hi - lo <= LongestRun(s)
    {
      RunAtMostRunEndingAt(s, lo, hi);
    }
  }

  /** The last entry of a sorted arrangement of `dates` is their latest day. */
  lemma SortedLastIsGreatest(s: seq<Date>, dates: seq<Date>, latest: Date)
    requires IsSorted(s) && multiset(s) == multiset(dates)
    requires latest in dates && forall d :: d in dates ==> d <= latest
    ensures |s| > 0 && s[|s| - 1] == latest
  {
    assert latest in multiset(s);
    var k :| 0 <= k < |s| && s[k] == latest;
    var last := s[|s| - 1];
    assert k == |s| - 1 || s[k] <= last;
    assert last in multiset(dates);
    assert last in dates;
  }

  /** After sorting, the last entry is the latest activity day. */
  lemma SortedLastIsLatest(dates: seq<Date>, latest: Date)
    requires latest in dates && forall d :: d in dates ==> d <= latest
    ensures var s := SortAscending(dates); |s| > 0 && s[|s| - 1] == latest
  {
    SortedLastIsGreatest(SortAscending(dates), dates, latest);
  }

  /** The latest activity day decides whether there is a current streak:
      none unless it is today or yesterday, and then the block of
      consecutive entries that ends at it, of at least one day. */
  lemma LatestDayDecidesCurrentStreak(dates: seq<Date>, today: Date, latest: Date)
    requires latest in dates && forall d :: d in dates ==> d <= latest
    ensures latest != today && latest != today - 1 ==> Streaks(dates, today).currentStreak == 0
    ensures latest == today || latest == today - 1 ==>
      var s := SortAscending(dates);
      Streaks(dates, today).currentStreak == RunEndingAt(s, |s| - 1) >= 1
  {
    SortedLastIsLatest(dates, latest);
  }

  /** The result does not depend on the order in which the days are given. */
  lemma StreaksIgnoreInputOrder(a: seq<Date>, b: seq<Date>, today: Date)
    requires multiset(a) == multiset(b)
    ensures Streaks(a, today) == Streaks(b, today)
  {
    SortedPermutationUnique(SortAscending(a), SortAscending(b));
  }

  // ---------------------------------------------------------------------------
  // The same two numbers in calendar terms, for a set of distinct days (the
  // keys of the activity log are distinct).

  /** Every day from `first` to `first + len - 1` is in `days`. */
  ghost predicate DaysRun(days: set<Date>, first: Date, len: nat)
  {
    forall d :: first <= d < first + len ==> d in days
  }

  /** `len` is the length of the longest block of consecutive calendar days
      contained in `days`. */
  ghost predicate IsLongestDayRun(days: set<Date>, len: nat)
  {
    (exists first :: DaysRun(days, first, len)) &&
    forall first, l: nat :: DaysRun(days, first, l) ==> l <= len
  }

  /** `len` is the number of consecutive days of `days` that end at `last`:
      the `len` days up to `last` are all in `days`, the one before is not. */
  ghost predicate IsDayRunEndingAt(days: set<Date>, last: Date, len: nat)
  {
    DaysRun(days, last - len + 1, len) && last - len !in days
  }

  /** Along a run, each entry is the first entry's day plus its offset. */
  lemma {:induction false} RunIsDayRange(s: seq<Date>, lo: int, hi: int)
    requires IsRun(s, lo, hi)
    ensures forall k :: lo <= k < hi ==> s[k] == s[lo] + (k - lo)
    decreases hi - lo
  {
    if hi - lo > 1 {
      assert IsRun(s, lo, hi - 1);
      RunIsDayRange(s, lo, hi - 1);
      assert NextDay(s, hi - 1);
    }
  }

  /** A run of entries covers a block of consecutive calendar days. */
  lemma RunCoversDays(s: seq<Date>, lo: int, hi: int)
    requires IsRun(s, lo, hi)
    ensures DaysRun(Elements(s), s[lo], hi - lo)
  {
    RunIsDayRange(s, lo, hi);
    forall d | s[lo] <= d < s[lo] + (hi - lo)
      ensures d in Elements(s)
    {
      assert s[lo + (d - s[lo])] == d;
    }
  }

  /** In a strictly ascending list, a block of consecutive calendar days
      occupies consecutive entries. */
  lemma {:induction false} DaysFormRun(s: seq<Date>, first: Date, len: nat)
    requires IsStrictlySorted(s) && len >= 1
    requires DaysRun(Elements(s), first, len)
    ensures exists lo :: 0 <= lo < |s| && s[lo] == first && IsRun(s, lo, lo + len)
    decreases len
  {
    if len == 1 {
      assert first in Elements(s);
      var lo :| 0 <= lo < |s| && s[lo] == first;
      assert IsRun(s, lo, lo + 1);
    } else {
      assert DaysRun(Elements(s), first, len - 1);
      DaysFormRun(s, first, len - 1);
      var lo :| 0 <= lo < |s| && s[lo] == first && IsRun(s, lo, lo + len - 1);
      RunIsDayRange(s, lo, lo + len - 1);
      var top := lo + len - 2;
      assert s[top] == first + len - 2;
      assert first + len - 1 in Elements(s);
      var m :| 0 <= m < |s| && s[m] == first + len - 1;
      assert top < m;
      assert s[top + 1] <= s[m];
      assert s[top] < s[top + 1];
      assert NextDay(s, top + 1);
      assert IsRun(s, lo, lo + len);
    }
  }

  /** For strictly ascending days, the longest streak is the longest block
      of consecutive calendar days. */
  lemma LongestRunIsLongestDayRun(s: seq<Date>)
    requires IsStrictlySorted(s)
    ensures IsLongestDayRun(Elements(s), LongestRun(s))
  {
    LongestRunIsMaximalRun(s);
    if |s| > 0 {
      var lo, hi :| IsRun(s, lo, hi) && hi - lo == LongestRun(s);
      RunCoversDays(s, lo, hi);
    } else {
      assert DaysRun(Elements(s), 0, 0);
    }
    forall first, l: nat | DaysRun(Elements(s), first, l)
      ensures l <= LongestRun(s)
    {
      if l >= 1 {
        DaysFormRun(s, first, l);
        var lo :| 0 <= lo < |s| && s[lo] == first && IsRun(s, lo, lo + l);
      }
    }
  }

  /** For strictly ascending days, the run ending at the last entry is the
      block of consecutive calendar days ending at the last day. */
  lemma RunEndingAtLastIsDayRun(s: seq<Date>)
    requires IsStrictlySorted(s) && |s| > 0
    ensures IsDayRunEndingAt(Elements(s), s[|s| - 1], RunEndingAt(s, |s| - 1))
  {
    var n := |s|;
    var c := RunEndingAt(s, n - 1);
    RunCoversDays(s, n - c, n);
    RunIsDayRange(s, n - c, n);
    var gap := s[n - 1] - c;
    forall m | 0 <= m < n
      ensures s[m] != gap
    {
      if m >= n - c {
        assert s[m] == s[n - c] + (m - (n - c));
      } else {
        assert !NextDay(s, n - c);
        assert m == n - c - 1 || s[m] < s[n - c - 1];
        assert s[n - c - 1] < s[n - c];
      }
    }
  }

  /** Counting twice: a day at two positions occurs at least twice. */
  lemma RepeatCountsTwice(s: seq<Date>, i: int, j: int)
    requires 0 <= i < j < |s| && s[i] == s[j]
    ensures multiset(s)[s[i]] >= 2
  {
    assert s == s[..j] + s[j..];
    assert s[..j][i] == s[i];
    assert s[j..][0] == s[i];
  }

  /** A list without repeats holds each day at most once. */
  lemma {:induction false} DistinctCountsAtMostOne(a: seq<Date>, x: Date)
    requires IsDistinct(a)
    ensures multiset(a)[x] <= 1
  {
    if a != [] {
      assert a == [a[0]] + a[1..];
      assert IsDistinct(a[1..]);
      DistinctCountsAtMostOne(a[1..], x);
      if x == a[0] {
        assert x !in a[1..];
      }
    }
  }

  /** Sorting distinct days gives a strictly ascending list of the same days. */
  lemma DistinctSortIsStrict(dates: seq<Date>)
    requires IsDistinct(dates)
    ensures IsStrictlySorted(SortAscending(dates))
    ensures Elements(SortAscending(dates)) == Elements(dates)
  {
    var s := SortAscending(dates);
    forall i, j | 0 <= i < j < |s|
      ensures s[i] < s[j]
    {
      DistinctCountsAtMostOne(dates, s[i]);
      if s[i] == s[j] {
        RepeatCountsTwice(s, i, j);
      }
    }
    forall x
      ensures x in Elements(s) <==> x in Elements(dates)
    {
      assert x in s <==> x in multiset(s);
      assert x in dates <==> x in multiset(dates);
    }
  }

  /** The longest streak of distinct activity days is the longest block of
      consecutive calendar days among them. */
  lemma LongestStreakIsLongestDayRun(dates: seq<Date>, today: Date)
    requires IsDistinct(dates)
    ensures IsLongestDayRun(Elements(dates), Streaks(dates, today).longestStreak)
  {
    DistinctSortIsStrict(dates);
    LongestRunIsLongestDayRun(SortAscending(dates));
  }

  /** For strictly ascending days, the current streak is the block of
      consecutive days ending today, or yesterday when today is absent, and
      it is 0 if any day lies after today. */
  lemma CurrentRunIsDayRunToToday(s: seq<Date>, today: Date)
    requires IsStrictlySorted(s)
    ensures (forall d :: d in s ==> d <= today) ==>
      IsDayRunEndingAt(Elements(s), if today in s then today else today - 1, CurrentRun(s, today))
    ensures (exists d :: d in s && d > today) ==> CurrentRun(s, today) == 0
  {
    if |s| > 0 {
      var n := |s|;
      var last := s[n - 1];
      forall d | d in s
        ensures d <= last
      {
        var k :| 0 <= k < n && s[k] == d;
        assert k == n - 1 || s[k] < s[n - 1];
      }
      if last == today || last == today - 1 {
        RunEndingAtLastIsDayRun(s);
      } else if last < today {
        assert today !in s && today - 1 !in s;
        assert IsDayRunEndingAt(Elements(s), today - 1, 0);
      } else {
        assert last in s;
      }
    }
  }

  /** The current streak of distinct activity days is the number of
      consecutive active days ending today, or ending yesterday when today has
      no activity; and it is 0 as soon as any activity is dated after today. */
  lemma CurrentStreakIsDayRunToToday(dates: seq<Date>, today: Date)
    requires IsDistinct(dates)
    ensures (forall d :: d in dates ==> d <= today) ==>
      IsDayRunEndingAt(Elements(dates), if today in dates then today else today - 1,
                       Streaks(dates, today).currentStreak)
    ensures (exists d :: d in dates && d > today) ==> Streaks(dates, today).currentStreak == 0
  {
    DistinctSortIsStrict(dates);
    var s := SortAscending(dates);
    assert forall d :: d in dates <==> d in s by {
      forall d ensures d in dates <==> d in s {
        assert d in Elements(dates) <==> d in Elements(s);
      }
    }
    CurrentRunIsDayRunToToday(s, today);
  }

  /** As history only grows, the longest streak never decreases, whatever
      the day on which it is computed. */
  lemma LongestStreakNeverShrinks(a: seq<Date>, b: seq<Date>, today: Date, later: Date)
    requires IsDistinct(a) && IsDistinct(b)
    requires Elements(a) <= Elements(b)
    ensures Streaks(a, today).longestStreak <= Streaks(b, later).longestStreak
  {
    LongestStreakIsLongestDayRun(a, today);
    LongestStreakIsLongestDayRun(b, later);
    var first :| DaysRun(Elements(a), first, Streaks(a, today).longestStreak);
    assert DaysRun(Elements(b), first, Streaks(a, today).longestStreak);
  }

  /** A block of consecutive days has only one length: the one that ends at
      `last` and cannot be extended to the left. */
  lemma DayRunEndingAtUnique(days: set<Date>, last: Date, len1: nat, len2: nat)
    requires IsDayRunEndingAt(days, last, len1) && IsDayRunEndingAt(days, last, len2)
    ensures len1 == len2
  {
  }

  /** When no two activity days are adjacent, the longest streak is 1 and
      the current streak is 0 or 1. */
  lemma IsolatedDaysGiveStreaksOfOne(dates: seq<Date>, today: Date)
    requires IsDistinct(dates) && |dates| > 0
    requires forall d :: d in dates ==> d + 1 !in dates
    ensures Streaks(dates, today).longestStreak == 1
    ensures Streaks(dates, today).currentStreak <= 1
  {
    var s := SortAscending(dates);
    assert |s| == |multiset(s)| == |dates|;
    CurrentRunAtMostLongestRun(s, today);
    LongestStreakIsLongestDayRun(dates, today);
    var longest := Streaks(dates, today).longestStreak;
    var first :| DaysRun(Elements(dates), first, longest);
    forall x
      ensures !DaysRun(Elements(dates), x, 2)
    {
      if x in dates {
        assert x + 1 !in Elements(dates);
      } else {
        assert x !in Elements(dates);
      }
    }
    assert longest >= 2 ==> DaysRun(Elements(dates), first, 2);
  }

  /** With every activity on or before today, a block of `n` consecutive
      active days ending today, with the day before it inactive, gives a
      current streak of `n` and a longest streak of at least `n`. */
  lemma RunEndingTodayIsCurrentStreak(dates: seq<Date>, today: Date, n: nat)
    requires IsDistinct(dates) && n >= 1
    requires forall d :: d in dates ==> d <= today
    requires DaysRun(Elements(dates), today - n + 1, n) && today - n !in dates
    ensures Streaks(dates, today).currentStreak == n
    ensures Streaks(dates, today).longestStreak >= n
  {
    assert today in Elements(dates);
    CurrentStreakIsDayRunToToday(dates, today);
    DayRunEndingAtUnique(Elements(dates), today, n, Streaks(dates, today).currentStreak);
    LongestStreakIsLongestDayRun(dates, today);
  }

  /** With every activity at least two days before today, the current
      streak is 0 while the longest streak still counts the history. */
  lemma GapBeforeTodayResetsCurrentStreak(dates: seq<Date>, today: Date, first: Date, n: nat)
    requires IsDistinct(dates)
    requires forall d :: d in dates ==> d <= today - 2
    requires DaysRun(Elements(dates), first, n)
    ensures Streaks(dates, today).currentStreak == 0
    ensures Streaks(dates, today).longestStreak >= n
  {
    CurrentStreakIsDayRunToToday(dates, today);
    assert today !in dates;
    assert today - 1 !in Elements(dates);
    LongestStreakIsLongestDayRun(dates, today);
  }

  // ---------------------------------------------------------------------------
  // The streaks screen: the figures are recomputed from the activity log.

  /** The days handed to the calculator: the entries of `keys` (the log's
      keys, in the order the runtime enumerates them) whose activity list is
      present and non-empty, in the same order. */
  function ActivityDates(items: Items, keys: seq<Date>): (dates: seq<Date>)
    ensures forall d :: d in dates <==> d in keys && d in items && |items[d]| > 0
    ensures |dates| <= |keys|
    ensures IsDistinct(keys) ==> IsDistinct(dates)
  {
    if |keys| == 0 then []
    else
      var rest := ActivityDates(items, keys[1..]);
      assert IsDistinct(keys) ==> keys[0] !in keys[1..];
      if keys[0] in items && |items[keys[0]]| > 0 then [keys[0]] + rest else rest
  }

  /** The figures the streaks screen shows for the log on day `today`: the
      longest block of consecutive active days, and the block of consecutive
      active days ending today (or yesterday, when today has no activity),
      which an activity dated after today cancels. */
  method ActivityStreaks(items: Items, keys: seq<Date>, today: Date) returns (result: StreakResult)
    requires IsDistinct(keys) && forall d :: d in keys <==> d in items
    ensures IsLongestDayRun(ActivityDays(items), result.longestStreak)
    ensures (forall d :: d in ActivityDays(items) ==> d <= today) ==>
      IsDayRunEndingAt(ActivityDays(items),
                       if today in ActivityDays(items) then today else today - 1,
                       result.currentStreak)
    ensures (exists d :: d in ActivityDays(items) && d > today) ==> result.currentStreak == 0
    ensures result.currentStreak <= result.longestStreak
  {
    var activityDates := ActivityDates(items, keys);
    result := CalculateStreaks(activityDates, today);
    LongestStreakIsLongestDayRun(activityDates, today);
    CurrentStreakIsDayRunToToday(activityDates, today);
    assert forall d :: d in activityDates <==> d in ActivityDays(items);
    assert Elements(activityDates) == ActivityDays(items);
  }

  // ---------------------------------------------------------------------------
  // Worked examples. Day numbers are counted from 1970-01-01, so that for
  // `d == 20283` the dates below are 2025-07-14 onwards.

  /** Three consecutive days computed on the last of them: three days both
      ways (2025-07-14, 2025-07-15, 2025-07-16 on 2025-07-16). */
  lemma ThreeDaysEndingToday(d: Date)
    ensures Streaks([d, d + 1, d + 2], d + 2) == StreakResult(3, 3)
  {
    var dates := [d, d + 1, d + 2];
    var days: set<Date> := {d, d + 1, d + 2};
    assert Elements(dates) == days;
    RunEndingTodayIsCurrentStreak(dates, d + 2, 3);
    LongestStreakIsLongestDayRun(dates, d + 2);
    var longest := Streaks(dates, d + 2).longestStreak;
    var first :| DaysRun(days, first, longest);
    assert longest > 3 ==> first in days && first + 3 in days;
  }

  /** The days of the next example hold no three consecutive days. */
  lemma NoThreeDaysInARow(d: Date, days: set<Date>)
    requires days == {d, d + 1, d + 4, d + 5}
    ensures forall x :: !DaysRun(days, x, 3)
  {
    forall x
      ensures !DaysRun(days, x, 3)
    {
      if x == d || x == d + 4 {
        assert x + 2 !in days;
      } else if x == d + 1 || x == d + 5 {
        assert x + 1 !in days;
      } else {
        assert x !in days;
      }
    }
  }

  /** Two runs of two days, the second ending on the day of computation:
      two days both ways (2025-07-10, 2025-07-11, 2025-07-14, 2025-07-15 on
      2025-07-15, with `d` the first of them). */
  lemma TwoRunsOfTwo(d: Date)
    ensures Streaks([d, d + 1, d + 4, d + 5], d + 5) == StreakResult(2, 2)
  {
    var dates := [d, d + 1, d + 4, d + 5];
    var days: set<Date> := {d, d + 1, d + 4, d + 5};
    assert Elements(dates) == days;
    RunEndingTodayIsCurrentStreak(dates, d + 5, 2);
    LongestStreakIsLongestDayRun(dates, d + 5);
    var longest := Streaks(dates, d + 5).longestStreak;
    NoThreeDaysInARow(d, days);
    var first :| DaysRun(days, first, longest);
    assert longest >= 3 ==> DaysRun(days, first, 3);
    assert longest == 2;
  }

  /** A single day nine days before the day of computation: no current
      streak, a longest streak of one (2025-07-01 on 2025-07-10). */
  lemma SingleOldDay(d: Date)
    ensures Streaks([d], d + 9) == StreakResult(0, 1)
  {
    IsolatedDaysGiveStreaksOfOne([d], d + 9);
    GapBeforeTodayResetsCurrentStreak([d], d + 9, d, 1);
  }
}
