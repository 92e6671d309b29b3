/** The streak analytics: the longest streak of one habit over a window of
    dates, and the longest streak among all habits of a user. */
module Analytics {
  import opened Time
  import opened Outcomes
  import opened Streaks
  import opened Habits

  /** The streak of a habit with completions `cs` over the window from the
      date of `start` to the date of `end`; time of day plays no part. */
  function Streak(cs: seq<Completion>, start: Moment, end: Moment): nat {
    WindowStreak(Dates(CompletionDates(cs)), DateOf(start), DateOf(end))
  }

  /** Walks the in-window dates in recording order, extending the current
      run when a date is the day after its predecessor and restarting it
      otherwise, and returns the longest run seen (0 for no dates). */
  method LongestStreak(habit: Habit, start: Moment, end: Moment) returns (r: nat)
    ensures r == Streak(habit.completions, start, end)
  {
    var dates := Dates(habit.GetCompletionDates());
    var periodStart, periodEnd := DateOf(start), DateOf(end);
    var inPeriod := InWindow(dates, periodStart, periodEnd);
    if |inPeriod| == 0 {
      return 0;
    }
    var streak, maxStreak := 1, 1;
    for i := 1 to |inPeriod|
      invariant streak == CurrentRun(inPeriod[..i])
      invariant maxStreak == LongestRun(inPeriod[..i])
    {
      assert inPeriod[..i + 1][..i] == inPeriod[..i];
      if inPeriod[i] - inPeriod[i - 1] == 1 {
        streak := streak + 1;
      } else {
        streak := 1;
      }
      maxStreak := Max(maxStreak, streak);
    }
    assert inPeriod[..|inPeriod|] == inPeriod;
    return maxStreak;
  }

  /** Recording a completion never lowers a habit's streak and raises it by
      at most one. */
  lemma StreakAfterCheckOff(cs: seq<Completion>, c: Completion, start: Moment, end: Moment)
    ensures Streak(cs, start, end) <= Streak(cs + [c], start, end) <= Streak(cs, start, end) + 1
  {
    assert CompletionDates(cs + [c]) == CompletionDates(cs) + [c.completionDate];
    DatesAppend(CompletionDates(cs), c.completionDate);
    WindowStreakAppend(Dates(CompletionDates(cs)), c.completionDate.date, DateOf(start), DateOf(end));
  }

  /** For a window from the first instant of one date to the last instant of
      another, a habit has a non-zero streak exactly when it was completed
      within the window. */
  lemma StreakPositiveIffCompleted(cs: seq<Completion>, start: DateTime, end: DateTime)
    requires start.time == 0 && end.time == MicrosPerDay - 1
    ensures Streak(cs, At(start), At(end)) > 0 <==> AnyWithin(cs, start, end)
  {
    var days := Dates(CompletionDates(cs));
    WindowStreakZero(days, start.date, end.date);
    if AnyWithin(cs, start, end) {
      var i :| 0 <= i < |cs| && Within(cs[i].completionDate, start, end);
      assert days[i] in days;
    } else {
      forall d | d in days
        ensures !(start.date <= d <= end.date)
      {
        var i :| 0 <= i < |days| && days[i] == d;
        WithinWholeDays(cs[i].completionDate, start, end);
      }
    }
  }

  /** Each habit's streak over the window paired with its task, in list
      order. */
  function Scores(hs: seq<Habit>, start: Moment, end: Moment): (r: seq<(nat, string)>)
    reads set h | h in hs
    ensures |r| == |hs|
    ensures forall i :: 0 <= i < |hs| ==> r[i] == (Streak(hs[i].completions, start, end), hs[i].task)
  {
    if hs == [] then []
    else
      var last := hs[|hs| - 1];
      Scores(hs[..|hs| - 1], start, end) + [(Streak(last.completions, start, end), last.task)]
  }

  /** The running maximum over the scores: a strictly greater streak takes
      the lead, so on a tie the earlier habit keeps it. */
  function Best(scores: seq<(nat, string)>): (nat, Option<string>) {
    if scores == [] then (0, None)
    else
      var lead := Best(scores[..|scores| - 1]);
      var last := scores[|scores| - 1];
      if last.0 > lead.0 then (last.0, Some(last.1)) else lead
  }

  /** `m` is the largest score and `t` the task of the first entry that
      attains it; there is no task exactly when no entry scores above 0. */
  ghost predicate FirstMaximum(scores: seq<(nat, string)>, m: nat, t: Option<string>) {
    && (forall i :: 0 <= i < |scores| ==> scores[i].0 <= m)
    && (t.None? <==> m == 0)
    && (t.Some? ==> exists i :: 0 <= i < |scores| && scores[i] == (m, t.value)
                                && forall j :: 0 <= j < i ==> scores[j].0 < m)
  }

  lemma {:induction false} BestIsFirstMaximum(scores: seq<(nat, string)>)
    ensures FirstMaximum(scores, Best(scores).0, Best(scores).1)
  {
    if scores != [] {
      var n := |scores|;
      var p := scores[..n - 1];
      BestIsFirstMaximum(p);
      var lead := Best(p);
      var last := scores[n - 1];
      assert forall i :: 0 <= i < n - 1 ==> scores[i] == p[i];
      if last.0 > lead.0 {
        assert Best(scores) == (last.0, Some(last.1));
        assert forall j :: 0 <= j < n - 1 ==> scores[j].0 < last.0;
      } else {
        assert Best(scores) == lead;
        if lead.1.Some? {
          var i :| 0 <= i < |p| && p[i] == (lead.0, lead.1.value)
                   && forall j :: 0 <= j < i ==> p[j].0 < lead.0;
          assert scores[i] == p[i];
        }
      }
    }
  }

  /** Returns the largest per-habit streak and the task of the first habit
      reaching it, or (0, None) when no habit has a completion in the
      window. */
  method LongestStreakOfAllHabits(user: User, start: Moment, end: Moment)
    returns (maxStreak: nat, task: Option<string>)
    ensures (maxStreak, task) == Best(Scores(user.habits, start, end))
    ensures FirstMaximum(Scores(user.habits, start, end), maxStreak, task)
  {
    maxStreak, task := 0, None;
    var habits := user.habits;
    ghost var scores := Scores(habits, start, end);
    for i := 0 to |habits|
      invariant (maxStreak, task) == Best(scores[..i])
    {
      var streak := LongestStreak(habits[i], start, end);
      assert scores[..i + 1][..i] == scores[..i];
      if streak > maxStreak {
        maxStreak := streak;
        task := Some(habits[i].task);
      }
    }
    assert scores[..|scores|] == scores;
    assert Scores(user.habits, start, end) == scores;
    BestIsFirstMaximum(scores);
  }

  /** Of three scores where the first is positive and no later score exceeds
      it, the first leads: a tie does not take the lead. */
  lemma FirstOfThreeLeads(x: nat, y: nat, z: nat, s: string, u: string, v: string)
    requires x > 0 && y <= x && z <= x
    ensures Best([(x, s), (y, u), (z, v)]) == (x, Some(s))
  {
    var scores: seq<(nat, string)> := [(x, s), (y, u), (z, v)];
    assert scores[..2][..1] == scores[..1] && scores[..1][..0] == [];
    assert Best(scores[..1]) == (x, Some(s));
    assert Best(scores[..2]) == (x, Some(s));
  }

  /** Three habits completed on 4, 3 and 2 consecutive days from the start
      of an 8-day window: the longest streak is 4, of the first habit. */
  lemma ExampleLongestOfAllHabits(d: int)
    ensures Best([(WindowStreak([d, d + 1, d + 2, d + 3], d, d + 7), "Habit 1"),
                  (WindowStreak([d, d + 1, d + 2], d, d + 7), "Habit 2"),
                  (WindowStreak([d, d + 1], d, d + 7), "Habit 3")])
         == (4, Some("Habit 1"))
  {
    var a, b, c := [d, d + 1, d + 2, d + 3], [d, d + 1, d + 2], [d, d + 1];
    assert WindowStreak(a, d, d + 7) == 4 by {
      InWindowKeepsAll(a, d, d + 7);
      ConsecutiveIsOneRun(a);
    }
    assert WindowStreak(b, d, d + 7) == 3 by {
      InWindowKeepsAll(b, d, d + 7);
      ConsecutiveIsOneRun(b);
    }
    assert WindowStreak(c, d, d + 7) == 2 by {
      InWindowKeepsAll(c, d, d + 7);
      ConsecutiveIsOneRun(c);
    }
    FirstOfThreeLeads(4, 3, 2, "Habit 1", "Habit 2", "Habit 3");
  }
}
