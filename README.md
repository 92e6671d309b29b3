# Habit tracker: streak analytics and habit/user model

This project models the core of a command-line habit tracker. A **habit** has
a task name, a periodicity tag, a creation date-time and a list of
**completions**, each a date-time, kept in the order they were recorded. A
**user** owns a list of habits. The **tracker** holds the list of users. The
**analytics** compute the longest streak of one habit over a window of dates,
and the longest streak among all habits of a user.

Modules:

- `Time` (`time.dfy`): calendar dates as integer day numbers, date-times as a
  date plus microseconds of the day, and window bounds given as a date or as a
  date-time (`Moment`). Taking the date of a date-time is a field read, and a
  difference of one day is a difference of 1.
- `Outcomes`, `Lists` (`lists.dfy`): `Option`, the Python exceptions the core
  raises (`ValueError`, `TypeError`), and the "remove first occurrence" edit
  behind Python's `list.remove`.
- `Habits` (`habits.dfy`): the `Habit`, `User` and `HabitTracker` classes.
  They have the source's fields and list-editing methods, the lookups as
  early-return loops, and the periodicity filter.
- `Streaks` (`streaks.dfy`): what a streak means. The window filter keeps
  recording order. `CurrentRun` and `LongestRun` are defined over prefixes.
  They are tied by lemmas to an independent definition: a run `IsRun(s, i, j)`
  is a stretch in which each date is the day after its predecessor.
- `Analytics` (`analytics.dfy`): `longest_streak` and
  `longest_streak_of_all_habits` as loops proved against `Streaks`, plus the
  source's running maximum `Best` and its meaning `FirstMaximum`.

Decisions:

- The streak walks the in-window dates **in recording order, not sorted**
  (habit_tracker.py:185-186 compare each kept date with the one recorded
  before it). A date recorded out of order, or recorded twice, breaks a run
  (`Streaks.OrderAndDuplicatesBreakRuns`).
- Duplicate task names are not refused by `User.AddHabit`, as in the code.
  `GetHabitByTask` then returns the first match.
- Periodicity is free text, as in the code: the command loop prompts for
  "daily or weekly" (habit_tracker.py:293), the predefined habits also use
  "monthly" (habit_tracker.py:217), and nothing checks the value.
- `is_completed_within_period` returns `false`, not `None`, when nothing
  matches. It compares the completions' date-times; the code as written
  does not (see Findings).
- A window whose start is after its end gives streak 0. No error is raised.

## Model

| member | source | states |
|---|---|---|
| `Time.Dates` | HabitTracker/habit_tracker.py:177 | one calendar date per completion date-time, same order, each the date of its date-time |
| `Time.WithinWholeDays` | HabitTracker/habit_tracker.py:178-180 | for bounds at the first and last instant of their dates, date-time window membership coincides with date window membership |
| `Lists.FirstIndex` | HabitTracker/habit_tracker.py:88 | the index `list.remove` deletes holds the element and no earlier index does |
| `Lists.RemoveFirst` | HabitTracker/habit_tracker.py:88 | removal shortens the list by one, removes exactly one copy of the element (multiset) and keeps the other elements in order around the first occurrence |
| `Streaks.InWindow` | HabitTracker/habit_tracker.py:180 | the kept dates are exactly the recorded dates in `[lo, hi]`, never more than were recorded |
| `Streaks.InWindowConcat` | HabitTracker/habit_tracker.py:180 | the filter keeps recording order: filtering a concatenation concatenates the filtered parts |
| `Streaks.InWindowAppend` | HabitTracker/habit_tracker.py:180 | a date recorded last appears last among the kept dates if it is in the window |
| `Streaks.InWindowKeepsAll` | HabitTracker/habit_tracker.py:180 | when every recorded date is in the window the filter returns the recording unchanged |
| `Streaks.LongestRun` | HabitTracker/habit_tracker.py:181-191 | the result is 0 exactly for no dates and never exceeds the number of dates |
| `Streaks.CurrentRunIsMaximalRun` | HabitTracker/habit_tracker.py:185-189 | the running `streak` counter is the length of the longest day-after-day stretch ending at the current date |
| `Streaks.LongestRunIsLongest` | HabitTracker/habit_tracker.py:183-191 | the result is the length of a longest stretch in which each date is its predecessor plus one day: one such stretch has that length and none is longer |
| `Streaks.ConsecutiveIsOneRun` | HabitTracker/habit_tracker.py:185-190 | dates recorded day after day throughout form a single streak of their full length |
| `Streaks.LongestRunAppend` | HabitTracker/habit_tracker.py:190 | one more date never lowers the maximum and raises it by at most one |
| `Streaks.WindowStreakZero` | HabitTracker/habit_tracker.py:180-182 | the streak is 0 exactly when no recorded date lies in the window |
| `Streaks.WindowStreakBounds` | HabitTracker/habit_tracker.py:183-191 | with a date in the window the streak is at least 1 and at most the number of in-window recordings |
| `Streaks.WindowStreakAppend` | HabitTracker/habit_tracker.py:176-191 | recording one more date never lowers the streak and raises it by at most one |
| `Streaks.ExampleStreakOfThree` | HabitTracker/test_habit_tracker.py:7-21 | dates 1, 2, 4, 5, 6, 8 of a month over the window 1..8 give streak 3 |
| `Streaks.OrderAndDuplicatesBreakRuns` | HabitTracker/habit_tracker.py:185-189 | two consecutive dates give 2 in order and 1 recorded backwards; a repeated date splits a run |
| `Habits.CompletedWithinAsWritten` | HabitTracker/habit_tracker.py:41-46 | the method as written returns a (falsy) value only for a habit with no completions and raises TypeError otherwise |
| `Habits.CompletedWithinAsWrittenRaises` | HabitTracker/habit_tracker.py:44 | a completion inside the window makes the method as written raise, although the intended answer is true |
| `Habits.Habit.constructor` | HabitTracker/habit_tracker.py:29-35 | a new habit holds the given task, periodicity, completions and creation date |
| `Habits.Habit.CheckOff` | HabitTracker/habit_tracker.py:37-39 | the completion list grows by the given completion at the end, earlier entries and other fields unchanged |
| `Habits.Habit.IsCompletedWithinPeriod` | HabitTracker/habit_tracker.py:41-46 | true exactly when some completion date-time lies in the closed window, false otherwise |
| `Habits.Habit.GetCompletionDates` | HabitTracker/habit_tracker.py:48-50 | one date-time per completion, in recording order |
| `Habits.WithPeriodicity` | HabitTracker/habit_tracker.py:100 | every kept habit is in the list with the periodicity, and every listed habit with the periodicity is kept |
| `Habits.WithPeriodicityAppend` | HabitTracker/habit_tracker.py:100 | the filter keeps list order: filtering a concatenation concatenates the filtered parts |
| `Habits.User.constructor` | HabitTracker/habit_tracker.py:76-80 | a new user has the given name and password and no habits |
| `Habits.User.AddHabit` | HabitTracker/habit_tracker.py:82-84 | the habit list grows by the habit at the end, name and password unchanged |
| `Habits.User.RemoveHabit` | HabitTracker/habit_tracker.py:86-88 | succeeds exactly when the habit is listed, then deleting its first occurrence; otherwise ValueError with the list unchanged |
| `Habits.User.CompleteTask` | HabitTracker/habit_tracker.py:90-92 | the habit's completions grow by the completion at the end; its task, periodicity and creation date are unchanged |
| `Habits.User.GetHabitsByPeriodicity` | HabitTracker/habit_tracker.py:98-100 | the result holds exactly this user's habits with the periodicity |
| `Habits.User.GetHabitByTask` | HabitTracker/habit_tracker.py:102-107 | None exactly when no habit has the task; otherwise the first habit in list order with that task |
| `Habits.HabitTracker.constructor` | HabitTracker/habit_tracker.py:128-133 | the tracker starts with the loaded users |
| `Habits.HabitTracker.AddUser` | HabitTracker/habit_tracker.py:135-138 | the user list grows by the user at the end |
| `Habits.HabitTracker.RemoveUser` | HabitTracker/habit_tracker.py:147-150 | succeeds exactly when the user is listed, then deleting its first occurrence; otherwise ValueError with the list unchanged |
| `Habits.HabitTracker.GetUser` | HabitTracker/habit_tracker.py:140-145 | None exactly when no user has the name; otherwise the first user in list order with that name |
| `Analytics.LongestStreak` | HabitTracker/habit_tracker.py:176-191 | the loop returns the longest day-after-day run among the habit's in-window dates, taken in recording order |
| `Analytics.StreakAfterCheckOff` | HabitTracker/habit_tracker.py:37-39 | checking a habit off never lowers its streak and raises it by at most one |
| `Analytics.StreakPositiveIffCompleted` | HabitTracker/habit_tracker.py:178-182 | for a window from the first to the last instant of whole days, the streak is non-zero exactly when the habit was completed within the window |
| `Analytics.Scores` | HabitTracker/habit_tracker.py:200-201 | one (streak, task) pair per habit, in list order |
| `Analytics.BestIsFirstMaximum` | HabitTracker/habit_tracker.py:198-205 | the running maximum is the largest streak with the task of the first habit attaining it (strict `>`), and no task exactly when it is 0 |
| `Analytics.LongestStreakOfAllHabits` | HabitTracker/habit_tracker.py:196-205 | the loop returns the source's running maximum over the habits' streaks, which is the largest streak paired with the first habit reaching it, or (0, None) |
| `Analytics.FirstOfThreeLeads` | HabitTracker/habit_tracker.py:202-204 | a positive first score keeps the lead against later scores that do not exceed it, ties included |
| `Analytics.ExampleLongestOfAllHabits` | HabitTracker/test_habit_tracker.py:24-52 | habits completed on 4, 3 and 2 consecutive days give (4, "Habit 1") |

## Findings

| source | as written | input that shows it | evidently intended | confidence | as-written member | corrected member |
|---|---|---|---|---|---|---|
| HabitTracker/habit_tracker.py:44 | `period_start <= completion_date <= period_end` orders the window bounds against the Completion objects in `self.completions` (the command loop and `from_dict` both store Completion objects), which define no ordering, so Python raises TypeError | a habit with one completion on 2023-01-02 checked over the window 2023-01-01 .. 2023-01-08 | compare each completion's `completion_date` and return true, or false when none matches | medium (not executed) | `Habits.CompletedWithinAsWritten`, `Habits.CompletedWithinAsWrittenRaises` | `Habits.Habit.IsCompletedWithinPeriod` |

## Left out

- The interactive `main()` loop, console input and output, and coloured output: user interface.
- JSON persistence (`save_users`, `load_users`) and the save calls in `add_user`, `remove_user` and `add_predefined_habits_to_user`: file I/O. The tracker's constructor takes the loaded users as a parameter.
- `to_dict` / `from_dict` ISO-8601 conversion: thin wrappers over the date-time library's formatting and parsing, which is not part of this model.
- `generate_random_completion_dates`, the predefined habit list and `add_predefined_habits_to_user`: they use randomness and the current time.
- The wall clock in the habit constructor: the creation date is a constructor parameter.
- `get_habits`: a getter that returns the list itself; the model reads the `habits` field directly.
- Calendar arithmetic: dates are integer day numbers, so month and year boundaries are outside the model.
- Python list aliasing of the `completions` argument: the habit constructor stores the caller's list object itself (habit_tracker.py:34), so appending through the caller's reference would change the habit too. The model holds the completion list as a value, so that sharing is not captured. Habits themselves are objects here, so a habit shared by two users (as the predefined habits are) changes for both when checked off.
- The `completions=None` default of the habit constructor, which gives a fresh empty list: callers pass `[]`.
- Comparing a plain date bound with a date-time completion (which Python refuses) in `is_completed_within_period`: that method takes date-time bounds only.
