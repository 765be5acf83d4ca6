/**
 Short sessions with the tracker, as a user would drive it, checked against
 the handlers' contracts alone.
 */
module Scenarios {
  import opened Wrappers
  import opened Text
  import opened Habits
  import opened Metrics
  import opened Display
  import opened Store

  /** Start empty, add "Drink water", then tick it off. */
  method DrinkWater(id: int) {
    var t := new HabitTracker(None, None);
    t.SetInput("Drink water");
    NotBlank("Drink water");
    t.AddHabit(id, 0);
    assert Total(t.habits) == 1 && Remaining(t.habits) == 1 && Progress(t.habits) == 0;
    t.Toggle(id);
    assert t.habits[0].done;
    assert Completed(t.habits) == 1 && Progress(t.habits) == 100;
    assert Status(t.habits) == AllGoalsMet;
  }

  /** Add "A" and "B", then delete "A": only "B" is left. */
  method AddTwoDeleteFirst(idA: int, idB: int)
    requires idA != idB
  {
    var t := new HabitTracker(None, None);
    t.SetInput("A");
    NotBlank("A");
    t.AddHabit(idA, 1);
    t.SetInput("B");
    NotBlank("B");
    t.AddHabit(idB, 2);
    DeletedAppend([t.habits[0]], [t.habits[1]], idA);
    DeletedSingle(t.habits[0], idA);
    DeletedSingle(t.habits[1], idA);
    assert t.habits == [t.habits[0]] + [t.habits[1]];
    t.Delete(idA);
    assert Total(t.habits) == 1 && t.habits[0].text == "B";
    assert AllNonBlank(t.habits);
  }

  /** Blank input is refused and left in the box for correction. */
  method BlankInput(id: int) {
    var t := new HabitTracker(None, None);
    t.SetInput(" \t");
    t.AddHabit(id, 3);
    assert Total(t.habits) == 0 && t.input == " \t";
  }

  /** Clearing asks first: declining keeps the list, confirming empties it. */
  method ClearAfterConfirm(saved: seq<Habit>)
    requires |saved| == 3
  {
    var t := new HabitTracker(Some(saved), None);
    t.ClearAll(false);
    assert Total(t.habits) == 3;
    t.ClearAll(true);
    assert Total(t.habits) == 0 && Status(t.habits) == TasksToGo(0);
  }

  /** Toggling twice and deleting twice, on any list. */
  method RepeatedClicks(saved: seq<Habit>, id: int) {
    var t := new HabitTracker(Some(saved), None);
    t.Toggle(id);
    t.Toggle(id);
    ToggledTwice(saved, id);
    assert t.habits == saved;
    t.Delete(id);
    var once := t.habits;
    t.Delete(id);
    DeletedTwice(saved, id);
    assert t.habits == once && Total(t.habits) <= Total(saved);
  }

  /** The theme flips back after two clicks and survives a reload. */
  method ThemeRoundTrip(stored: Option<string>) {
    var t := new HabitTracker(None, stored);
    var before := t.darkMode;
    t.ToggleDarkMode();
    t.ToggleDarkMode();
    assert t.darkMode == before;
    var reloaded := new HabitTracker(None, Some(StoredDarkMode(t.darkMode)));
    assert reloaded.darkMode == before;
  }
}
