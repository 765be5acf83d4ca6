# Habit tracker state store, modelled in Dafny

This project models the logic inside the `App` component of a single-page habit
tracker (`src/App.js`). The user types short goals, ticks them off, deletes
them, clears the list and switches between a light and a dark theme. The page
header shows a greeting for the time of day, a status line and a progress bar.

The modelled parts are:

- **`Habits`** (`habits.dfy`). A habit entry is `{ id, text, done, color }`.
  Three pure transforms act on the list:
  - `Added` is the spread-append in `addHabit`;
  - `Toggled` is the toggle handler's `map`;
  - `Deleted` is the delete handler's `filter`.
- **`Metrics`** (`metrics.dfy`). The counts `total`, `completed` and
  `remaining`. The `progress` percentage, rounded half up.
- **`Display`** (`display.dfy`). The greeting chosen by hour. The status line
  chosen by the list.
- **`Text`** (`text.dfy`). ECMAScript's `String.prototype.trim`, which decides
  whether an input is blank. The decimal form of a count, as the status line's
  template literal writes it.
- **`Store`** (`store.dfy`). The class `HabitTracker` with the component's three
  state variables `habits`, `input` and `darkMode`. Its methods are the event
  handlers, and each one replaces those fields as `setHabits`, `setInput` and
  `setDarkMode` do. The module also holds the string stored under
  `"dark-mode"` and how it is read back.
- **`Scenarios`** (`scenarios.dfy`). Short client sessions: add then tick off;
  add two then delete one; blank input; clear with and without confirmation;
  repeated clicks; theme round trip. They are checked against the handlers'
  contracts alone.

Inputs from the environment become parameters:
- the clock reading `Date.now()` is the new entry's `id`;
- `Math.floor(Math.random() * 5)` is a `PaletteIndex` in 0..4;
- `getHours()` is the `hour` given to `Greeting`;
- `window.confirm(...)` is the `confirmed` flag of `ClearAll`;
- the stored values are constructor arguments.

Four behaviours of the code are worth stating explicitly:

- **Ids are not unique.** The code takes the id from `Date.now()` and never
  checks for a clash, so two entries can share one. Toggle and delete act on
  every entry whose id matches. Uniqueness appears only as a hypothesis:
  `AddHabit` keeps it when given a fresh id, and toggle and delete always keep
  it (`ToggledKeepsIds`, `DeletedKeepsUnique`).
- **No entry's text is blank.** Add appends only when `input.trim()` is
  non-empty; toggle keeps every text; delete only drops entries; clear-all
  leaves nothing. So once the list holds no blank text, no handler brings one
  in (`AllNonBlank`, kept by `AddHabit`, `Toggle`, `Delete` and `ClearAll`).
  A list read from storage is not checked.
- **Stored text is untrimmed.** The code tests `input.trim()` but stores
  `input` itself, which is non-blank but may have white space around it.
- **Loading does not fall back on bad data.** `JSON.parse` is called with no
  `try`, so malformed stored data throws. The constructor receives the already
  parsed list, or `None` for an absent key or an empty stored string, both of
  which become `[]`.

## Model

| member | source | states |
|---|---|---|
| `Text.SkipForward` | src/App.js:113 | the scan stops at the first character outside the class, and every character it passed is in the class |
| `Text.SkipBackward` | src/App.js:113 | the backward scan stops after the last character outside the class, and every character it passed is in the class |
| `Text.Trim` | src/App.js:113 | `trim()` gives the slice of the input between a leading and a trailing run of white space; the slice neither begins nor ends with white space; it is empty exactly when the input is all white space |
| `Text.LeadingSpace` | src/App.js:113 | the leading white space of the input: every character before position n is white space, and the character at n, if any, is not |
| `Text.IsBlank` | src/App.js:113 | `!input.trim()` holds exactly when every character of the input is white space (the empty input included) |
| `Text.NotBlank` | src/App.js:113 | an input whose first character is not white space is not blank, so `addHabit` gets past the `!input.trim()` guard |
| `Text.Decimal` | src/App.js:152 | `${remaining}` is a non-empty string of decimal digits with no leading zero, and it is "0" only for 0 |
| `Text.DecimalRoundTrip` | src/App.js:152 | reading the numeral back gives the number |
| `Text.DecimalInjective` | src/App.js:152 | different counts give different numerals |
| `Habits.Added` | src/App.js:112-127 | blank input leaves the list unchanged; otherwise the old list is kept as a prefix and one entry is appended, with the given id, the untrimmed input, `done = false` and a palette colour |
| `Habits.Flip` | src/App.js:221 | the callback flips `done` exactly when the id matches and keeps id, text and colour |
| `Habits.Toggled` | src/App.js:218-224 | the toggled list has the same length and order; every entry whose id matches has `done` flipped; all other entries and fields are unchanged |
| `Habits.Deleted` | src/App.js:225-227 | an entry survives exactly when it was in the list and its id differs; the ids left are the old ids minus the deleted one; the list never grows |
| `Habits.ToggledTwice` | src/App.js:218-224 | toggling the same id twice restores the list |
| `Habits.ToggledAbsent` | src/App.js:218-224 | toggling an id no entry carries changes nothing |
| `Habits.ToggledKeepsIds` | src/App.js:218-224 | toggling keeps the set of ids, and keeps them unique if they were |
| `Habits.ToggledUnique` | src/App.js:218-224 | with unique ids, toggling the id at position k changes only entry k |
| `Habits.DeletedAppend` | src/App.js:226 | deleting distributes over concatenation, so the survivors keep their relative order |
| `Habits.DeletedSingle` | src/App.js:226 | a one-entry list loses its entry exactly when the id matches |
| `Habits.DeletedAbsent` | src/App.js:226 | deleting an id no entry carries changes nothing |
| `Habits.DeletedTwice` | src/App.js:225-227 | a second delete of the same id is a no-op |
| `Habits.DeletedUniqueLength` | src/App.js:225-227 | with unique ids, deleting a present id removes exactly one entry |
| `Habits.DeletedKeepsUnique` | src/App.js:225-227 | deleting keeps unique ids unique |
| `Habits.AddedKeepsUnique` | src/App.js:122-125 | adding with an id not yet in the list keeps ids unique |
| `Habits.AddedKeepsNonBlank` | src/App.js:112-127 | an add, on any input, keeps a list free of blank texts |
| `Habits.ToggledKeepsNonBlank` | src/App.js:218-224 | a toggle keeps a list free of blank texts |
| `Habits.DeletedKeepsNonBlank` | src/App.js:225-227 | a delete keeps a list free of blank texts |
| `Habits.AddedAllLength` | src/App.js:112-127 | after any run of adds, the list has grown by the number of non-blank inputs, and the old list is a prefix of the new one |
| `Metrics.Total` | src/App.js:107 | `habits.length` is 0 exactly when the list is empty |
| `Metrics.Completed` | src/App.js:108 | the done count never exceeds `total` |
| `Metrics.Remaining` | src/App.js:109 | `total - completed` is between 0 and the total |
| `Metrics.RoundedPercent` | src/App.js:110 | the result is 0 for an empty whole; otherwise it is the integer nearest to 100·part/whole, with a tie rounded up |
| `Metrics.Progress` | src/App.js:110 | `progress` lies in 0..100; it is 0 for an empty list and 100 when a non-empty list is all done |
| `Metrics.MetricsInvariant` | src/App.js:107-109 | `0 <= completed <= total`, `0 <= remaining <= total` and `completed + remaining == total` |
| `Metrics.CompletedAppend` | src/App.js:108 | the done count of a concatenation is the sum of the parts' counts |
| `Metrics.CompletedAllDone` | src/App.js:108 | the done count equals the total exactly when every entry is done |
| `Metrics.CompletedNoneDone` | src/App.js:108 | the done count is 0 exactly when no entry is done |
| `Metrics.CompletedUpdate` | src/App.js:108 | replacing one entry changes the done count by that entry's contribution |
| `Metrics.AddedMetrics` | src/App.js:107-127 | an add never changes `completed`, and it raises `remaining` by one exactly when the input is not blank |
| `Metrics.ToggledMetrics` | src/App.js:107-109 | with unique ids, toggling one entry moves it between the done and the remaining counts |
| `Metrics.DeletedMetrics` | src/App.js:107-109 | a delete never raises `total`, `completed` or `remaining` |
| `Metrics.PercentBounds` | src/App.js:110 | for a part no larger than its whole, the percentage is at most 100, and it is 100 when the part is the whole |
| `Metrics.PercentMonotone` | src/App.js:110 | for a fixed total, more done entries never lower the percentage |
| `Display.Greeting` | src/App.js:103-105 | "Good Morning" exactly when hour < 12, "Good Afternoon" exactly when 12 <= hour < 18, "Good Evening" exactly when hour >= 18 |
| `Display.TasksToGo` | src/App.js:152 | the template literal is "You have " (positions 0..8), then the decimal numeral of the count, then " tasks to go", and nothing more |
| `Display.Status` | src/App.js:150-152 | the status line is "🎉 All goals met!" exactly when total > 0 and remaining == 0; otherwise it is "You have {remaining} tasks to go" |
| `Display.StatusAllDone` | src/App.js:150-152 | the status line says all goals are met exactly when the list is non-empty and every entry is done |
| `Display.StatusNamesRemaining` | src/App.js:152 | the count in the status line is the remaining count |
| `Store.StoredDarkMode` | src/App.js:82-92 | the string `setItem` writes under "dark-mode" reads back through the start-up test `=== "true"` (`LoadDarkMode`, under which an absent key or any other text means light mode) as the same flag |
| `Store.HabitTracker.constructor` | src/App.js:77-85 | the list starts as the stored list, or empty when nothing is stored; the input starts empty; the theme starts as the stored flag |
| `Store.HabitTracker.SetInput` | src/App.js:197 | typing replaces `input` and nothing else |
| `Store.HabitTracker.AddHabit` | src/App.js:112-127 | blank input changes nothing; otherwise the new entry is appended, `input` becomes "", and the theme is untouched; a fresh id keeps ids unique; a list without blank texts stays so |
| `Store.HabitTracker.Toggle` | src/App.js:218-224 | `habits` becomes the toggled list; `input` and the theme are untouched; a list without blank texts stays so |
| `Store.HabitTracker.Delete` | src/App.js:225-227 | `habits` becomes the list without the id; `input` and the theme are untouched; a list without blank texts stays so |
| `Store.HabitTracker.ClearAll` | src/App.js:239-241 | the list is emptied when confirmed and left as it was otherwise; nothing else changes; afterwards no text is blank if none was or if the list was cleared |
| `Store.HabitTracker.ToggleDarkMode` | src/App.js:156 | the theme flag is negated (so two clicks restore it) and nothing else changes |

## Left out

- The `HabitItem` component, the JSX and the CSS class strings (src/App.js:3-74, 129-250) are presentation only. This includes the empty-list message and the "Clear All" button, which is shown only when `total > 0`. `ClearAll` itself accepts any list, as the handler does.
- The Enter-key binding (src/App.js:198) calls the same `addHabit` as the button, so it has no model of its own.
- `localStorage`, `JSON.parse` and `JSON.stringify` are browser I/O and library serialisation. The constructor takes the parsed list. Saving the list is not modelled. For the theme, only the stored string form is modelled.
- The `useEffect` persistence timing and React's re-rendering are framework plumbing. Each handler is one synchronous state change.
- The date line (`toLocaleDateString`) is library formatting.
- `Date.now()`, `Math.random()`, `getHours()` and `window.confirm` are environment calls. They become parameters.
- Metrics.RoundedPercent: the percentage is computed in exact integer arithmetic, as round-half-up of 100·completed/total. It is not IEEE double arithmetic, so the model makes no claim to agree with JavaScript where `(completed / total) * 100` lands within rounding error of a .5 boundary.
- Text.Trim: strings are sequences of Unicode scalar values, not UTF-16 code units. Lone surrogates cannot be expressed, but none of them is white space.
