/**
 * `calculateStudyStreak` of src/lib/utils.ts: the number of consecutive
 * calendar days, ending today, on each of which at least one study session
 * was recorded. The source sorts the caller's array of sessions newest
 * first, in place, and then walks it with a cursor on the day it expects
 * next.
 *
 * Timestamps are milliseconds since the epoch, as Date.getTime() gives
 * them; a day is the timestamp divided by the length of a day, rounded
 * down (midnight as setHours(0, 0, 0, 0) takes it, in a zone without
 * offset). The current time is a parameter instead of `new Date()`.
 */
module Streak {

  const MillisPerDay := 86400000

  /** A study session as the streak sees it: only its creation time. */
  datatype Session = Session(createdAt: int)

  /** The day number of a timestamp: midnight at or before it. */
  function DayOf(t: int): int {
    t / MillisPerDay
  }

  lemma DayOfMonotone(t1: int, t2: int)
    requires t1 <= t2
    ensures DayOf(t1) <= DayOf(t2)
  {
  }

  /** Newest first: creation times never increase along the sequence. */
  predicate NewestFirst(s: seq<Session>) {
    forall i, j :: 0 <= i < j < |s| ==> s[i].createdAt >= s[j].createdAt
  }

  /** The days on which at least one session took place. */
  function Days(s: seq<Session>): set<int> {
    set x | x in s :: DayOf(x.createdAt)
  }

  /** The days of `days` up to and including `day`. */
  function DaysUpTo(days: set<int>, day: int): set<int> {
    set d | d in days && d <= day
  }

  /** Dropping the last day of a window that holds it shrinks the window. */
  lemma WindowShrinks(days: set<int>, day: int)
    requires day in days
    ensures |DaysUpTo(days, day - 1)| < |DaysUpTo(days, day)|
  {
    assert DaysUpTo(days, day) == DaysUpTo(days, day - 1) + {day};
  }

  /**
   * The length of the run of consecutive days of `days` that ends at `day`.
   * It is bounded by the number of such days up to `day`.
   */
  function StreakEndingAt(days: set<int>, day: int): (k: nat)
    ensures k <= |DaysUpTo(days, day)|
    decreases |DaysUpTo(days, day)|
  {
    if day in days then
      WindowShrinks(days, day);
      1 + StreakEndingAt(days, day - 1)
    else 0
  }

  /** The streak of a set of sessions on the day `today`. */
  function StudyStreak(sessions: seq<Session>, today: int): nat {
    StreakEndingAt(Days(sessions), today)
  }

  /** A sequence has no more distinct days than it has sessions. */
  lemma {:induction false} DaysBound(s: seq<Session>)
    ensures |Days(s)| <= |s|
  {
    if s != [] {
      var init := s[..|s| - 1];
      assert s == init + [s[|s| - 1]];
      assert Days(s) == Days(init) + {DayOf(s[|s| - 1].createdAt)};
      DaysBound(init);
    }
  }

  /** The streak never exceeds the number of sessions. */
  lemma StreakBound(sessions: seq<Session>, today: int)
    ensures StudyStreak(sessions, today) <= |sessions|
  {
    var days := Days(sessions);
    DaysBound(sessions);
    assert days == DaysUpTo(days, today) + (days - DaysUpTo(days, today));
  }

  /** Every day of the run ending at `day` holds a session, and the day before it does not. */
  lemma {:induction false} StreakCovers(days: set<int>, day: int)
    ensures forall d :: day - StreakEndingAt(days, day) < d <= day ==> d in days
    ensures day - StreakEndingAt(days, day) !in days
    decreases |DaysUpTo(days, day)|
  {
    if day in days {
      WindowShrinks(days, day);
      StreakCovers(days, day - 1);
    }
  }

  /** A run of k covered days followed by an uncovered one is the streak. */
  lemma {:induction false} StreakUnique(days: set<int>, day: int, k: nat)
    requires forall d :: day - k < d <= day ==> d in days
    requires day - k !in days
    ensures StreakEndingAt(days, day) == k
    decreases k
  {
    if k > 0 {
      assert day in days;
      StreakUnique(days, day - 1, k - 1);
    }
  }

  /**
   * The streak is the largest k such that today, today - 1, ..., today - (k - 1)
   * each hold a session: exactly those days are covered and today - k is not.
   */
  lemma StreakCharacterization(sessions: seq<Session>, today: int, k: nat)
    ensures StudyStreak(sessions, today) == k <==>
      (forall d :: today - k < d <= today ==> d in Days(sessions)) && today - k !in Days(sessions)
  {
    var days := Days(sessions);
    StreakCovers(days, today);
    if (forall d :: today - k < d <= today ==> d in days) && today - k !in days {
      StreakUnique(days, today, k);
    }
  }

  /** The streak depends only on which days up to `day` hold a session. */
  lemma {:induction false} StreakLooksBackOnly(days1: set<int>, days2: set<int>, day: int)
    requires DaysUpTo(days1, day) == DaysUpTo(days2, day)
    ensures StreakEndingAt(days1, day) == StreakEndingAt(days2, day)
    decreases |DaysUpTo(days1, day)|
  {
    assert day in days1 <==> day in DaysUpTo(days1, day);
    assert day in days2 <==> day in DaysUpTo(days2, day);
    if day in days1 {
      WindowShrinks(days1, day);
      var previous := day - 1;
      assert DaysUpTo(days1, previous) == DaysUpTo(days2, previous) by {
        forall d | d in DaysUpTo(days1, previous) ensures d in DaysUpTo(days2, previous) {
          assert d in DaysUpTo(days1, day);
        }
        forall d | d in DaysUpTo(days2, previous) ensures d in DaysUpTo(days1, previous) {
          assert d in DaysUpTo(days2, day);
        }
      }
      StreakLooksBackOnly(days1, days2, previous);
    }
  }

  /** A session dated after today does not change the streak. */
  lemma FutureSessionIgnored(sessions: seq<Session>, x: Session, today: int)
    requires DayOf(x.createdAt) > today
    ensures StudyStreak(sessions + [x], today) == StudyStreak(sessions, today)
  {
    var s := sessions + [x];
    assert Days(s) == Days(sessions) + {DayOf(x.createdAt)};
    assert DaysUpTo(Days(s), today) == DaysUpTo(Days(sessions), today) by {
      forall d | d in DaysUpTo(Days(s), today) ensures d in DaysUpTo(Days(sessions), today) {
        assert d != DayOf(x.createdAt);
      }
    }
    StreakLooksBackOnly(Days(s), Days(sessions), today);
  }

  /** A further session on a day that already has one does not change the streak. */
  lemma SameDaySessionCountsOnce(sessions: seq<Session>, x: Session, today: int)
    requires DayOf(x.createdAt) in Days(sessions)
    ensures StudyStreak(sessions + [x], today) == StudyStreak(sessions, today)
  {
    var s := sessions + [x];
    assert forall y :: y in s <==> y in sessions || y == x;
    assert Days(s) == Days(sessions);
  }

  /** Reordering the sessions keeps their days. */
  lemma DaysOfPermutation(s1: seq<Session>, s2: seq<Session>)
    requires multiset(s1) == multiset(s2)
    ensures Days(s1) == Days(s2)
  {
    forall d | d in Days(s1) ensures d in Days(s2) {
      var x :| x in s1 && DayOf(x.createdAt) == d;
      assert x in multiset(s2);
    }
    forall d | d in Days(s2) ensures d in Days(s1) {
      var x :| x in s2 && DayOf(x.createdAt) == d;
      assert x in multiset(s1);
    }
  }

  /** Exchanges the session at j with its left neighbour. */
  method SwapWithPrevious(a: array<Session>, j: int)
    requires 0 < j < a.Length
    modifies a
    ensures a[j - 1] == old(a[j]) && a[j] == old(a[j - 1])
    ensures forall k :: 0 <= k < a.Length && k != j - 1 && k != j ==> a[k] == old(a[k])
    ensures multiset(a[..]) == multiset(old(a[..]))
  {
    a[j - 1], a[j] := a[j], a[j - 1];
  }

  /**
   * One step of the sort: moves the session at i left past every newer-first
   * violation, so that a newest-first prefix of length i grows by one.
   */
  method InsertNewest(a: array<Session>, i: int)
    requires 0 <= i < a.Length
    requires NewestFirst(a[..i])
    modifies a
    ensures NewestFirst(a[..i + 1])
    ensures multiset(a[..]) == multiset(old(a[..]))
  {
    var j := i;
    while j > 0 && a[j - 1].createdAt < a[j].createdAt
      invariant 0 <= j <= i
      invariant forall p, q :: 0 <= p < q <= i && p != j && q != j ==> a[p].createdAt >= a[q].createdAt
      invariant forall q :: j < q <= i ==> a[j].createdAt > a[q].createdAt
      invariant multiset(a[..]) == multiset(old(a[..]))
    {
      SwapWithPrevious(a, j);
      j := j - 1;
    }
  }

  /**
   * The array sort of the source, newest first: afterwards the array is
   * ordered by creation time, non-increasing, and holds the same sessions.
   */
  method SortNewestFirst(a: array<Session>)
    modifies a
    ensures NewestFirst(a[..])
    ensures multiset(a[..]) == multiset(old(a[..]))
  {
    var i := 0;
    while i < a.Length
      invariant 0 <= i <= a.Length
      invariant NewestFirst(a[..i])
      invariant multiset(a[..]) == multiset(old(a[..]))
    {
      InsertNewest(a, i);
      i := i + 1;
    }
    assert a[..i] == a[..];
  }

  /**
   * utils.ts calculateStudyStreak. Leaves the caller's array sorted newest
   * first (a permutation of what it held) and returns the streak ending on
   * the day of `now`.
   */
  method CalculateStudyStreak(sessions: array<Session>, now: int) returns (streak: nat)
    modifies sessions
    ensures streak == StudyStreak(old(sessions[..]), DayOf(now))
    ensures streak <= sessions.Length
    ensures multiset(sessions[..]) == multiset(old(sessions[..]))
    ensures NewestFirst(sessions[..])
  {
    ghost var days := Days(sessions[..]);
    var today := DayOf(now);
    StreakBound(sessions[..], today);
    if sessions.Length == 0 {
      assert days == {};
      return 0;
    }
    SortNewestFirst(sessions);
    DaysOfPermutation(old(sessions[..]), sessions[..]);
    streak := 0;
    var currentDay := today;
    for i := 0 to sessions.Length
      invariant currentDay == today - streak
      invariant forall d :: currentDay < d <= today ==> d in days
      invariant forall j :: 0 <= j < i ==> DayOf(sessions[j].createdAt) > currentDay
    {
      var sessionDay := DayOf(sessions[i].createdAt);
      if sessionDay == currentDay {
        assert sessions[..][i] == sessions[i];
        streak := streak + 1;
        currentDay := currentDay - 1;
      } else if sessionDay < currentDay {
        forall j | i < j < sessions.Length ensures DayOf(sessions[j].createdAt) < currentDay {
          assert sessions[..][i].createdAt >= sessions[..][j].createdAt;
          DayOfMonotone(sessions[j].createdAt, sessions[i].createdAt);
        }
        break;
      }
    }
    assert currentDay !in days;
    StreakUnique(days, today, streak);
  }
}
