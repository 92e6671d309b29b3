/** The habit/user data model: habits that record completions, users that
    own a list of habits, and the tracker that holds the list of users. */
module Habits {
  import opened Time
  import opened Outcomes
  import Lists

  /** One execution of a habit, identified only by its date-time. */
  datatype Completion = Completion(completionDate: DateTime)

  /** The date-time of every completion, in recording order. */
  function CompletionDates(cs: seq<Completion>): seq<DateTime> {
    seq(|cs|, i requires 0 <= i < |cs| => cs[i].completionDate)
  }

  /** Some completion lies in the closed window `[start, end]`. */
  predicate AnyWithin(cs: seq<Completion>, start: DateTime, end: DateTime) {
    exists i :: 0 <= i < |cs| && Within(cs[i].completionDate, start, end)
  }

  /** The completion check as the source writes it: it orders the window
      bounds against the Completion objects themselves instead of their
      date-times. Python defines no ordering between a date-time and a
      Completion, so the first comparison raises TypeError; with no
      completions the loop is skipped and the bare `return` yields None,
      which is falsy. */
  function CompletedWithinAsWritten(cs: seq<Completion>, start: DateTime, end: DateTime): (r: Result<bool>)
    ensures r.Ok? <==> cs == []
    ensures r.Ok? ==> !r.value
    ensures r.Err? ==> r.error == TypeError
  {
    if cs == [] then Ok(false) else Err(TypeError)
  }

  /** A habit completed once inside the window is reported as an error by
      the method as written, where the intended answer is true. */
  lemma CompletedWithinAsWrittenRaises(c: Completion, start: DateTime, end: DateTime)
    requires Within(c.completionDate, start, end)
    ensures CompletedWithinAsWritten([c], start, end) == Err(TypeError)
    ensures AnyWithin([c], start, end)
  {
    assert Within([c][0].completionDate, start, end);
  }

  class Habit {
    var task: string
    var periodicity: string
    var completions: seq<Completion>
    var creationDate: DateTime

    /** A habit with the given completions; the creation date, which the
        source reads from the wall clock, is a parameter. */
    constructor (task: string, periodicity: string, completions: seq<Completion>, creationDate: DateTime)
      ensures this.task == task && this.periodicity == periodicity
      ensures this.completions == completions && this.creationDate == creationDate
    {
      this.task := task;
      this.periodicity := periodicity;
      this.completions := completions;
      this.creationDate := creationDate;
    }

    /** Records a completion at the end: no de-duplication, no ordering. */
    method CheckOff(c: Completion)
      modifies this
      ensures completions == old(completions) + [c]
      ensures task == old(task) && periodicity == old(periodicity)
      ensures creationDate == old(creationDate)
    {
      completions := completions + [c];
    }

    /** Whether some completion lies in `[start, end]`, comparing the
        completions' date-times; false, not None, when there is none. */
    method IsCompletedWithinPeriod(start: DateTime, end: DateTime) returns (r: bool)
      ensures r <==> AnyWithin(completions, start, end)
    {
      for i := 0 to |completions|
        invariant forall k :: 0 <= k < i ==> !Within(completions[k].completionDate, start, end)
      {
        if Within(completions[i].completionDate, start, end) {
          return true;
        }
      }
      return false;
    }

    /** The date-time of every completion, in recording order. */
    function GetCompletionDates(): (r: seq<DateTime>)
      reads this
      ensures |r| == |completions|
      ensures forall i :: 0 <= i < |r| ==> r[i] == completions[i].completionDate
    {
      CompletionDates(completions)
    }
  }

  /** The habits of `hs` whose periodicity is `p`, in their list order. */
  function WithPeriodicity(hs: seq<Habit>, p: string): (r: seq<Habit>)
    reads set h | h in hs
    ensures |r| <= |hs|
    ensures forall i :: 0 <= i < |r| ==> r[i] in hs && r[i].periodicity == p
    ensures forall i :: 0 <= i < |hs| && hs[i].periodicity == p ==> hs[i] in r
  {
    if hs == [] then []
    else
      var last := hs[|hs| - 1];
      assert hs == hs[..|hs| - 1] + [last];
      WithPeriodicity(hs[..|hs| - 1], p) + (if last.periodicity == p then [last] else [])
  }

  /** The filter keeps list order: it distributes over concatenation. */
  lemma {:induction false} WithPeriodicityAppend(a: seq<Habit>, b: seq<Habit>, p: string)
    ensures WithPeriodicity(a + b, p) == WithPeriodicity(a, p) + WithPeriodicity(b, p)
  {
    if b != [] {
      var n := |b|;
      assert (a + b)[..|a + b| - 1] == a + b[..n - 1];
      WithPeriodicityAppend(a, b[..n - 1], p);
    } else {
      assert a + b == a;
    }
  }

  class User {
    var username: string
    var password: string
    var habits: seq<Habit>

    constructor (username: string, password: string)
      ensures this.username == username && this.password == password
      ensures habits == []
    {
      this.username := username;
      this.password := password;
      habits := [];
    }

    /** Appends a habit; a second habit with the same task is not refused. */
    method AddHabit(h: Habit)
      modifies this
      ensures habits == old(habits) + [h]
      ensures username == old(username) && password == old(password)
    {
      habits := habits + [h];
    }

    /** Deletes the first occurrence of `h` (by identity); when `h` is not
        in the list, fails with ValueError and changes nothing. */
    method RemoveHabit(h: Habit) returns (res: Outcome)
      modifies this
      ensures res.Pass? <==> h in old(habits)
      ensures res.Fail? ==> res.error == ValueError && habits == old(habits)
      ensures res.Pass? ==> habits == Lists.RemoveFirst(old(habits), h)
      ensures username == old(username) && password == old(password)
    {
      if h in habits {
        habits := Lists.RemoveFirst(habits, h);
        return Pass;
      }
      return Fail(ValueError);
    }

    /** Records a completion on `h` by delegating to its CheckOff. */
    method CompleteTask(h: Habit, c: Completion)
      modifies h
      ensures h.completions == old(h.completions) + [c]
      ensures h.task == old(h.task) && h.periodicity == old(h.periodicity)
      ensures h.creationDate == old(h.creationDate)
    {
      h.CheckOff(c);
    }

    /** This user's habits with periodicity `p`, in list order. */
    function GetHabitsByPeriodicity(p: string): (r: seq<Habit>)
      reads this, set h | h in habits
      ensures forall i :: 0 <= i < |r| ==> r[i] in habits && r[i].periodicity == p
      ensures forall i :: 0 <= i < |habits| && habits[i].periodicity == p ==> habits[i] in r
    {
      WithPeriodicity(habits, p)
    }

    /** The first habit in list order whose task is `task`, or None. */
    method GetHabitByTask(task: string) returns (r: Option<Habit>)
      ensures r.None? <==> forall i :: 0 <= i < |habits| ==> habits[i].task != task
      ensures r.Some? ==> exists i :: 0 <= i < |habits| && habits[i] == r.value
                                    && habits[i].task == task
                                    && forall j :: 0 <= j < i ==> habits[j].task != task
    {
      for i := 0 to |habits|
        invariant forall j :: 0 <= j < i ==> habits[j].task != task
      {
        if habits[i].task == task {
          return Some(habits[i]);
        }
      }
      return None;
    }
  }

  class HabitTracker {
    var users: seq<User>

    /** A tracker over the users loaded from storage; loading itself is
        outside the model, so the loaded list is a parameter. */
    constructor (loaded: seq<User>)
      ensures users == loaded
    {
      users := loaded;
    }

    /** Appends a user (saving the list is outside the model). */
    method AddUser(u: User)
      modifies this
      ensures users == old(users) + [u]
    {
      users := users + [u];
    }

    /** Deletes the first occurrence of `u`, or fails with ValueError and
        changes nothing (saving the list is outside the model). */
    method RemoveUser(u: User) returns (res: Outcome)
      modifies this
      ensures res.Pass? <==> u in old(users)
      ensures res.Fail? ==> res.error == ValueError && users == old(users)
      ensures res.Pass? ==> users == Lists.RemoveFirst(old(users), u)
    {
      if u in users {
        users := Lists.RemoveFirst(users, u);
        return Pass;
      }
      return Fail(ValueError);
    }

    /** The first user in list order whose username is `username`, or None. */
    method GetUser(username: string) returns (r: Option<User>)
      ensures r.None? <==> forall i :: 0 <= i < |users| ==> users[i].username != username
      ensures r.Some? ==> exists i :: 0 <= i < |users| && users[i] == r.value
                                    && users[i].username == username
                                    && forall j :: 0 <= j < i ==> users[j].username != username
    {
      for i := 0 to |users|
        invariant forall j :: 0 <= j < i ==> users[j].username != username
      {
        if users[i].username == username {
          return Some(users[i]);
        }
      }
      return None;
    }
  }
}
