/**
 The two pieces of header text App chooses by rule: the greeting for the hour
 of day and the status line for the current list.
 */
module Display {
  import opened Text
  import opened Habits
  import opened Metrics

  const Morning := "Good Morning"
  const Afternoon := "Good Afternoon"
  const Evening := "Good Evening"

  /** The status line once every goal of a non-empty list is met ("🎉 All goals met!"). */
  const AllGoalsMet := "\U{1F389} All goals met!"

  /** The greeting for an hour of the day, as `Date.getHours()` reports it. */
  function Greeting(hour: int): (g: string)
    ensures g == Morning <==> hour < 12
    ensures g == Afternoon <==> 12 <= hour < 18
    ensures g == Evening <==> 18 <= hour
  {
    if hour < 12 then Morning else if hour < 18 then Afternoon else Evening
  }

  /** `You have ${remaining} tasks to go`. */
  function TasksToGo(remaining: nat): (s: string)
    ensures |s| == 21 + |Decimal(remaining)|
    ensures s[..9] == "You have "
    ensures s[9..9 + |Decimal(remaining)|] == Decimal(remaining)
    ensures s[9 + |Decimal(remaining)|..] == " tasks to go"
  {
    "You have " + Decimal(remaining) + " tasks to go"
  }

  /**
   The status line: the all-goals-met message exactly when the list is
   non-empty and nothing remains, and otherwise the count still to do.
   */
  function Status(hs: seq<Habit>): (s: string)
    ensures s == AllGoalsMet <==> Total(hs) > 0 && Remaining(hs) == 0
    ensures s != AllGoalsMet ==> s == TasksToGo(Remaining(hs))
  {
    var met := Total(hs) > 0 && Remaining(hs) == 0;
    if met then AllGoalsMet else TasksToGo(Remaining(hs))
  }

  /** The status line reads all goals met exactly when the list is non-empty and every entry is done. */
  lemma StatusAllDone(hs: seq<Habit>)
    ensures Status(hs) == AllGoalsMet <==>
      Total(hs) > 0 && forall i :: 0 <= i < |hs| ==> hs[i].done
  {
    CompletedAllDone(hs);
  }

  /** Whatever the status line says, the count it states is the one still to do. */
  lemma StatusNamesRemaining(hs: seq<Habit>, remaining: nat)
    requires Status(hs) == TasksToGo(remaining)
    ensures remaining == Remaining(hs)
  {
    var n: nat := Remaining(hs);
    assert Status(hs) == TasksToGo(n);
    DecimalInjective(remaining, n);
  }
}
