# HabitGrowAnd stores in Dafny

A model of the two state stores of the HabitGrowAnd habit-tracking app.

- The **habit store** (`src/store/habitStore.ts`) holds an ordered list of habit records. `addHabit` appends a fresh record. `completeHabit(id)` applies the daily streak rule to every record with that id. A reviver turns the three persisted date fields back into dates when the state is loaded.
- The **UI store** (`src/store/uiStore.ts`) holds the colour theme (`light` or `dark`). It starts from the operating system's colour scheme and is flipped by `toggleTheme`.

Files:

- `options.dfy`: module `Options`, the `Option` type used for the source's nullable fields.
- `habit_store.dfy`: module `HabitStore`, covering time, records, the transitions as functions, the reviver, and class `Store`.
- `ui_store.dfy`: module `UiStore`, covering the theme, its toggle, and class `Store`.

Each store is a class with one field (`habits: seq<Habit>`, `theme: Theme`). Its methods replace that field, as Zustand's `set` does. The transitions themselves are pure functions on values. The methods are specified by those functions, and the lemmas state the properties of the functions.

Time is abstracted:

- An instant (a JavaScript `Date` read in local time) is a calendar day number plus the milliseconds since that day's local midnight.
- `setHours(0, 0, 0, 0)` is `StartOfDay`. `getTime()` is `day * 86400000 + time`.
- `diffDays` is written as the source computes it: the midnight-to-midnight millisecond difference, divided by a day and rounded the way `Math.round` rounds. `DiffDays` proves that this is exactly the difference of the day numbers.
- The clock is a parameter `now`. The generated id is a parameter `id`.

Two points where the model follows the store's code rather than what one might expect of it:

- `addHabit` takes the id as an input. The source generates it with `Date.now().toString()` (`src/store/habitStore.ts:32`), which does not guarantee unique ids, so no uniqueness is claimed. `completeHabit` updates every record that carries the id.
- The store accepts any name, the empty one included. `src/screens/CreateHabitScreen.tsx:44` rejects blank names before calling it.

## Model

| member | source | states |
|---|---|---|
| `HabitStore.EpochMillis` | src/store/habitStore.ts:52 | `getTime()` of an instant: dividing it by the day length gives back the day number, and the remainder gives back the time of day. |
| `HabitStore.StartOfDay` | src/store/habitStore.ts:42-43 | Midnight normalisation keeps the day and sets the time of day to 0. It moves back by less than one day. |
| `HabitStore.RoundDiv` | src/store/habitStore.ts:53 | `Math.round(n / d)` is the integer nearest to `n / d`, with halves rounded up. |
| `HabitStore.RoundDivExact` | src/store/habitStore.ts:53 | `Math.round` of an exact multiple of the day length divided by that length gives back the multiplier. |
| `HabitStore.DiffDays` | src/store/habitStore.ts:49-53 | The rounded midnight-to-midnight difference is the difference of the two calendar day numbers. |
| `HabitStore.NewHabit` | src/store/habitStore.ts:30-35 | The new record has the given id, streak 0 and no completion. Its name, frequency, start date and reminder give back the input unchanged. |
| `HabitStore.Appended` | src/store/habitStore.ts:26-37 | `addHabit` keeps the old list as a prefix, in order. It adds exactly one record at the end, with the given id, streak 0, no completion, and name, frequency, start date and reminder copied from the input. It keeps streaks non-negative. |
| `HabitStore.NextStreak` | src/store/habitStore.ts:45-63 | Streak rule: 1 when there is no prior completion. With a prior completion, the streak grows by one after a one-day gap, resets to 1 after a longer gap, and is unchanged for a gap of zero or less. |
| `HabitStore.NextStreakBounds` | src/store/habitStore.ts:46-62 | The rule keeps a non-negative streak non-negative. The new streak is the old one, the old one plus one, or 1. |
| `HabitStore.Completed` | src/store/habitStore.ts:41-65 | A matched record keeps its id, name, frequency, start date and reminder. `lastCompleted` becomes the current instant, and the streak becomes what the rule computes. |
| `HabitStore.CompleteAll` | src/store/habitStore.ts:38-69 | `completeHabit` keeps the list length and order. Records with another id are unchanged. Each record with this id keeps every field except streak and completion time, gets the full current instant as `lastCompleted`, and gets the streak the rule computes. |
| `HabitStore.CompleteWhenCompletedToday` | src/store/habitStore.ts:55-65 | A habit that reads as completed today (the same-day test of `src/components/HabitCard.tsx:20-25`) keeps its streak when it is completed again that day. Only `lastCompleted` moves. |
| `HabitStore.CompleteUnknownId` | src/store/habitStore.ts:40-41 | An id that matches no record leaves the whole list unchanged. |
| `HabitStore.CompletePreservesNonNegative` | src/store/habitStore.ts:38-69 | Completion keeps every streak in the list non-negative. |
| `HabitStore.CompleteTwiceSameDay` | src/store/habitStore.ts:55-65 | Completing twice on the same calendar day equals one completion at the later instant. The second call changes only `lastCompleted`. |
| `HabitStore.StreakIsTrailingRun` | src/store/habitStore.ts:38-65 | Start from a new habit and call `completeHabit` at instants whose days never decrease. The streak is then the number of consecutive calendar days on which the habit was completed, ending with the day of the latest completion. `lastCompleted` is that latest instant. |
| `HabitStore.StreakScenarios` | src/store/habitStore.ts:48-62 | Worked cases. A first completion gives 1. Yesterday's 3 becomes 4. A 3-day gap resets 5 to 1. A second completion today keeps 2 and only moves `lastCompleted`. |
| `HabitStore.Reviver` | src/store/habitStore.ts:74-87 | Non-string values are returned unchanged. A non-empty string under `lastCompleted`, `startDate` or `reminderTime` becomes the date it denotes. Every other string, including an empty one under those keys, is returned unchanged. |
| `HabitStore.Store.constructor` | src/store/habitStore.ts:25 | The store starts with an empty list. |
| `HabitStore.Store.AddHabit` | src/store/habitStore.ts:26-37 | The new list is `Appended` of the old one: the same prefix plus the fresh record. Non-negative streaks are preserved. |
| `HabitStore.Store.CompleteHabit` | src/store/habitStore.ts:38-69 | The new list is `CompleteAll` of the old one at `now`. Its length is kept and non-negative streaks are preserved. |
| `UiStore.InitialTheme` | src/store/uiStore.ts:14 | The initial theme is the OS-reported scheme when there is one, otherwise `light`. |
| `UiStore.Toggled` | src/store/uiStore.ts:17 | A toggle always yields the other of the two themes. |
| `UiStore.ToggleTwice` | src/store/uiStore.ts:15-18 | Toggling twice restores the original theme. |
| `UiStore.Store.constructor` | src/store/uiStore.ts:14 | The store starts at `InitialTheme` of the OS scheme. |
| `UiStore.Store.ToggleTheme` | src/store/uiStore.ts:15-18 | `theme` becomes `Toggled` of the old theme. It is the store's only field, so nothing else changes. |

## Left out

- Persistence is not modelled: Zustand `persist`, `createJSONStorage` and the AsyncStorage reads and writes (`src/store/habitStore.ts:23,71-73`, `src/store/uiStore.ts:12,20-22`) are asynchronous storage I/O. Only the reviver is modelled, as a pure function over a parsed JSON value.
- HabitStore.Reviver: does not model how `new Date(text)` parses the string. A revived date is represented by the text it was parsed from, so the serialise-then-revive round trip of date values is not stated.
- HabitStore.DiffDays: assumes every day is 86400000 ms long. Daylight-saving days, time zones and floating-point division, which `Math.round` exists to absorb, are not modelled.
- HabitStore.Store.CompleteHabit: the source reads the clock twice for every matched record, inside the `map` callback: once for "today" (line 42) and once for `lastCompleted` (line 65). With k matching records that makes 2k reads, and records processed across midnight can see different days. The model uses one instant `now` for all of them.
- HabitStore.Store.AddHabit: the id is an input, not `Date.now().toString()`. Object spread also copies extra properties a JavaScript caller might pass, and that is not modelled because the record type has exactly the declared fields.
- The `reminderTime` field is optional in the source. An absent value and `null` are both `None`.
- The screens (`src/screens/*.tsx`), `src/components/HabitCard.tsx` and `App.tsx` are UI, navigation, theming and notification scheduling. The one exception is HabitCard's same-day test (lines 20-25), which is kept as the predicate `CompletedToday`.
- `src/i18n/index.ts` is a translation table with no logic.
