/** The meaning of a streak, independent of how the analytics loop computes
    it. A streak is a stretch of the in-window dates, taken in the order the
    completions were recorded (not sorted), in which every date is exactly
    one day after the date recorded before it. A repeated date or a step
    backwards therefore ends a streak. */
module Streaks {

  function Max(a: int, b: int): int {
    if a < b then b else a
  }

  /** The dates of `days` that lie in the closed window `[lo, hi]`, in their
      original order. */
  function InWindow(days: seq<int>, lo: int, hi: int): (r: seq<int>)
    ensures |r| <= |days|
    ensures forall d :: d in r <==> d in days && lo <= d <= hi
  {
    if days == [] then []
    else
      var last := days[|days| - 1];
      assert days == days[..|days| - 1] + [last];
      InWindow(days[..|days| - 1], lo, hi) + (if lo <= last <= hi then [last] else [])
  }

  /** `s[i..j]` is a non-empty stretch in which every date is the day after
      its predecessor. */
  ghost predicate IsRun(s: seq<int>, i: int, j: int) {
    0 <= i < j <= |s| && forall k :: i < k < j ==> s[k] == s[k - 1] + 1
  }

  /** Length of the stretch of day-after-day steps that ends with the last
      recorded date (0 for no dates). */
  function CurrentRun(s: seq<int>): (r: nat)
    ensures r <= |s|
    ensures r == 0 <==> s == []
  {
    if |s| <= 1 then |s|
    else if s[|s| - 1] == s[|s| - 2] + 1 then CurrentRun(s[..|s| - 1]) + 1
    else 1
  }

  /** The longest current run over all prefixes of `s`. */
  function LongestRun(s: seq<int>): (r: nat)
    ensures r <= |s|
    ensures r == 0 <==> s == []
  {
    if s == [] then 0 else Max(LongestRun(s[..|s| - 1]), CurrentRun(s))
  }

  /** The longest streak among the recorded dates that fall in `[lo, hi]`. */
  function WindowStreak(days: seq<int>, lo: int, hi: int): nat {
    LongestRun(InWindow(days, lo, hi))
  }

  lemma PrefixRun(s: seq<int>, n: nat, i: int, j: int)
    requires n <= |s| && j <= n
    ensures IsRun(s[..n], i, j) <==> IsRun(s, i, j)
  {
  }

  /** The current run is a run ending at the last date, and no run ending
      there is longer. */
  lemma {:induction false} CurrentRunIsMaximalRun(s: seq<int>)
    requires s != []
    ensures IsRun(s, |s| - CurrentRun(s), |s|)
    ensures forall i :: 0 <= i < |s| && IsRun(s, i, |s|) ==> |s| - i <= CurrentRun(s)
  {
    var n := |s|;
    if n > 1 && s[n - 1] == s[n - 2] + 1 {
      var p := s[..n - 1];
      CurrentRunIsMaximalRun(p);
      forall i | 0 <= i < n && IsRun(s, i, n)
        ensures n - i <= CurrentRun(s)
      {
        if i < n - 1 {
          PrefixRun(s, n - 1, i, n - 1);
        }
      }
    }
  }

  /** LongestRun is the length of a longest run: some run has that length
      (when there is any date) and every run is at most that long. */
  lemma {:induction false} LongestRunIsLongest(s: seq<int>)
    ensures s != [] ==> exists i, j :: IsRun(s, i, j) && j - i == LongestRun(s)
    ensures forall i, j :: IsRun(s, i, j) ==> j - i <= LongestRun(s)
  {
    if s != [] {
      var n := |s|;
      var p := s[..n - 1];
      LongestRunIsLongest(p);
      CurrentRunIsMaximalRun(s);
      if LongestRun(s) == CurrentRun(s) {
        assert IsRun(s, n - CurrentRun(s), n);
      } else {
        var i, j :| IsRun(p, i, j) && j - i == LongestRun(p);
        PrefixRun(s, n - 1, i, j);
      }
      forall i, j | IsRun(s, i, j)
        ensures j - i <= LongestRun(s)
      {
        if j < n {
          PrefixRun(s, n - 1, i, j);
        }
      }
    }
  }

  /** Recording a date never shortens the longest run. */
  lemma LongestRunAppend(s: seq<int>, x: int)
    ensures LongestRun(s) <= LongestRun(s + [x]) <= LongestRun(s) + 1
  {
    assert (s + [x])[..|s|] == s;
    if s != [] {
      assert CurrentRun(s + [x]) <= CurrentRun(s) + 1;
    }
  }

  /** A dated sequence that is day-after-day throughout is one single run. */
  lemma {:induction false} ConsecutiveIsOneRun(s: seq<int>)
    requires forall k :: 0 < k < |s| ==> s[k] == s[k - 1] + 1
    ensures CurrentRun(s) == |s| && LongestRun(s) == |s|
  {
    if |s| > 1 {
      ConsecutiveIsOneRun(s[..|s| - 1]);
    }
  }

  /** The window filter keeps the recorded order: filtering two recordings
      one after the other gives the filtered first followed by the filtered
      second. */
  lemma {:induction false} InWindowConcat(a: seq<int>, b: seq<int>, lo: int, hi: int)
    ensures InWindow(a + b, lo, hi) == InWindow(a, lo, hi) + InWindow(b, lo, hi)
  {
    if b != [] {
      var n := |b|;
      assert (a + b)[..|a + b| - 1] == a + b[..n - 1];
      InWindowConcat(a, b[..n - 1], lo, hi);
    } else {
      assert a + b == a;
    }
  }

  /** Filtering a recording extended by one date extends the filtered dates
      by that date, if it is in the window. */
  lemma InWindowAppend(days: seq<int>, x: int, lo: int, hi: int)
    ensures InWindow(days + [x], lo, hi)
         == InWindow(days, lo, hi) + (if lo <= x <= hi then [x] else [])
  {
    InWindowConcat(days, [x], lo, hi);
    assert [x][..0] == [];
  }

  /** A recording whose dates all lie in the window passes the filter whole. */
  lemma {:induction false} InWindowKeepsAll(days: seq<int>, lo: int, hi: int)
    requires forall k :: 0 <= k < |days| ==> lo <= days[k] <= hi
    ensures InWindow(days, lo, hi) == days
  {
    if days != [] {
      InWindowKeepsAll(days[..|days| - 1], lo, hi);
    }
  }

  /** The streak is 0 exactly when no recorded date is in the window. */
  lemma WindowStreakZero(days: seq<int>, lo: int, hi: int)
    ensures WindowStreak(days, lo, hi) == 0 <==> forall d :: d in days ==> !(lo <= d <= hi)
  {
    if WindowStreak(days, lo, hi) != 0 {
      var d := InWindow(days, lo, hi)[0];
      assert d in InWindow(days, lo, hi);
    }
  }

  /** With some recorded date in the window, the streak is between 1 and the
      number of in-window recordings. */
  lemma WindowStreakBounds(days: seq<int>, lo: int, hi: int)
    requires exists d :: d in days && lo <= d <= hi
    ensures 1 <= WindowStreak(days, lo, hi) <= |InWindow(days, lo, hi)|
  {
    var d :| d in days && lo <= d <= hi;
    assert d in InWindow(days, lo, hi);
  }

  /** Recording one more date never lowers the streak and raises it by at
      most one. */
  lemma WindowStreakAppend(days: seq<int>, x: int, lo: int, hi: int)
    ensures WindowStreak(days, lo, hi) <= WindowStreak(days + [x], lo, hi) <= WindowStreak(days, lo, hi) + 1
  {
    InWindowAppend(days, x, lo, hi);
    if lo <= x <= hi {
      LongestRunAppend(InWindow(days, lo, hi), x);
    } else {
      assert InWindow(days + [x], lo, hi) == InWindow(days, lo, hi) + [];
      assert InWindow(days, lo, hi) + [] == InWindow(days, lo, hi);
    }
  }

  /** Dates 1, 2, 4, 5, 6, 8 of a month, recorded in that order, over the
      window 1..8 give a streak of 3 (the run 4, 5, 6). */
  lemma ExampleStreakOfThree(d: int)
    ensures WindowStreak([d, d + 1, d + 3, d + 4, d + 5, d + 7], d, d + 7) == 3
  {
    var s := [d, d + 1, d + 3, d + 4, d + 5, d + 7];
    InWindowKeepsAll(s, d, d + 7);
    assert s[..5] == [d, d + 1, d + 3, d + 4, d + 5];
    assert s[..4] == [d, d + 1, d + 3, d + 4];
    assert s[..3] == [d, d + 1, d + 3];
    assert s[..2] == [d, d + 1];
    assert s[..1] == [d];
    assert s[..2][..1] == s[..1] && s[..3][..2] == s[..2];
    assert s[..4][..3] == s[..3] && s[..5][..4] == s[..4] && s[..|s| - 1] == s[..5];
    assert CurrentRun(s[..2]) == 2 && LongestRun(s[..2]) == 2;
    assert CurrentRun(s[..3]) == 1 && LongestRun(s[..3]) == 2;
    assert CurrentRun(s[..4]) == 2 && LongestRun(s[..4]) == 2;
    assert CurrentRun(s[..5]) == 3 && LongestRun(s[..5]) == 3;
    assert CurrentRun(s) == 1;
  }

  /** Insertion order matters: the same two consecutive dates recorded
      backwards do not form a streak, and a date recorded twice breaks the
      run it sits in. */
  lemma OrderAndDuplicatesBreakRuns(d: int)
    ensures LongestRun([d, d + 1]) == 2
    ensures LongestRun([d + 1, d]) == 1
    ensures LongestRun([d, d + 1, d + 1, d + 2]) == 2
  {
    assert [d, d + 1][..1] == [d];
    assert [d + 1, d][..1] == [d + 1];
    var s := [d, d + 1, d + 1, d + 2];
    assert s[..3][..2][..1] == [d];
    assert CurrentRun(s[..3]) == 1;
  }
}
