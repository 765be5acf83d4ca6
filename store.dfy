/**
 App's state and its event handlers. `habits`, `input` and `darkMode` are the
 three pieces of component state; each handler replaces some of them. The
 clock, the random palette slot and the confirmation dialog are parameters.
 */
module Store {
  import opened Wrappers
  import opened Text
  import opened Habits

  /** The value stored under "dark-mode": `setItem` writes the boolean's string form. */
  function StoredDarkMode(darkMode: bool): (s: string)
    ensures LoadDarkMode(Some(s)) == darkMode
  {
    if darkMode then "true" else "false"
  }

  /**
   The dark-mode flag read back at start-up: `getItem("dark-mode") === "true"`,
   so an absent key, or any other text, means light mode.
   */
  function LoadDarkMode(stored: Option<string>): (darkMode: bool)
  {
    stored == Some("true")
  }

  class HabitTracker {
    var habits: seq<Habit>
    var input: string
    var darkMode: bool

    /**
     Start-up: the list parsed from storage (absent means empty), the stored
     dark-mode flag, and an empty input box.
     */
    constructor (saved: Option<seq<Habit>>, storedDarkMode: Option<string>)
      ensures habits == (if saved.Some? then saved.value else [])
      ensures input == ""
      ensures darkMode == LoadDarkMode(storedDarkMode)
    {
      habits := if saved.Some? then saved.value else [];
      input := "";
      darkMode := LoadDarkMode(storedDarkMode);
    }

    /** The input box's onChange: the typed text replaces `input`. */
    method SetInput(text: string)
      modifies this
      ensures input == text
      ensures habits == old(habits) && darkMode == old(darkMode)
    {
      input := text;
    }

    /**
     addHabit with the clock reading `id` and the palette slot `colorIndex`:
     nothing happens on blank input; otherwise one not-done entry holding the
     untrimmed input is appended and the input box is emptied. A fresh id keeps
     ids unique; the code itself does not check for one.
     */
    method AddHabit(id: int, colorIndex: PaletteIndex)
      modifies this
      ensures darkMode == old(darkMode)
      ensures IsBlank(old(input)) ==> habits == old(habits) && input == old(input)
      ensures !IsBlank(old(input)) ==>
        habits == old(habits) + [Habit(id, old(input), false, Palette[colorIndex])] && input == ""
      ensures UniqueIds(old(habits)) && id !in Ids(old(habits)) ==> UniqueIds(habits)
      ensures AllNonBlank(old(habits)) ==> AllNonBlank(habits)
    {
      if IsBlank(input) {
        return;
      }
      if UniqueIds(habits) && id !in Ids(habits) {
        AddedKeepsUnique(habits, input, id, colorIndex);
      }
      if AllNonBlank(habits) {
        AddedKeepsNonBlank(habits, input, id, colorIndex);
      }
      habits := Added(habits, input, id, colorIndex);
      input := "";
    }

    /** The row's toggle: `done` flips on every entry carrying `id`, nothing else changes. */
    method Toggle(id: int)
      modifies this
      ensures habits == Toggled(old(habits), id)
      ensures input == old(input) && darkMode == old(darkMode)
      ensures AllNonBlank(old(habits)) ==> AllNonBlank(habits)
    {
      if AllNonBlank(habits) {
        ToggledKeepsNonBlank(habits, id);
      }
      habits := Toggled(habits, id);
    }

    /** The row's delete: every entry carrying `id` is dropped, the rest keep their order. */
    method Delete(id: int)
      modifies this
      ensures habits == Deleted(old(habits), id)
      ensures input == old(input) && darkMode == old(darkMode)
      ensures AllNonBlank(old(habits)) ==> AllNonBlank(habits)
    {
      if AllNonBlank(habits) {
        DeletedKeepsNonBlank(habits, id);
      }
      habits := Deleted(habits, id);
    }

    /** "Clear All": the list is emptied only if the user confirmed. */
    method ClearAll(confirmed: bool)
      modifies this
      ensures habits == if confirmed then [] else old(habits)
      ensures input == old(input) && darkMode == old(darkMode)
      ensures (AllNonBlank(old(habits)) || confirmed) ==> AllNonBlank(habits)
    {
      if confirmed {
        habits := [];
      }
    }

    /** The theme button: `setDarkMode(!darkMode)`. */
    method ToggleDarkMode()
      modifies this
      ensures darkMode == !old(darkMode)
      ensures habits == old(habits) && input == old(input)
    {
      darkMode := !darkMode;
    }
  }
}
