# Weekly planner: a verified model of its core

The weekly planner is a single browser page (`main.js`). It shows one week at a
time, Monday to Friday as columns with a word goal, a words-written count and
notes, and Saturday and Sunday together in a weekend row with notes only. Each
day's data is kept in an IndexedDB object store under the day's `YYYY-MM-DD`
key. Every edit reads the day's record, replaces its own fields and writes the
record back. Buttons move the displayed week back or forward by seven days,
or back to the week holding today.

This project models that core in Dafny:

- `calendar.dfy` (module `Calendar`): dates as day numbers since 1970-01-01,
  the JavaScript weekday, `addDays` and `getMonday`.
- `gregorian.dfy` (module `Gregorian`): the proleptic Gregorian
  year/month/day of a day number (what `getFullYear`, `getMonth() + 1` and
  `getDate` report), its inverse, and the round trips between them.
- `decimal.dfy` (module `Decimal`): `Number.prototype.toString` on whole
  numbers below 10^21,
  `padStart` with `'0'`, and the `parseInt(x) || 0` normalisation of the word
  inputs.
- `date_key.dfy` (module `DateKey`): `formatDateKey`, a reader for its
  output, and the proof that distinct days get distinct keys.
- `records.dfy` (module `Records`): the store as a map from key to
  `{goal, written, text}`, and the two merge-on-write edits.
- `week.dfy` (module `Week`): what a rendered week shows: seven columns, five
  weekday children and one weekend row, each column holding its date, its key
  and the values loaded for it.
- `planner.dfy` (module `PlannerPage`): the page's state as a class. It holds
  whether the database is open, whether the object store exists, the store's
  contents, the displayed Monday and the rendered view. Its methods are
  `openDB`, `loadData`, `saveData`, the two input handlers, the
  `renderWeekDays` loop, the three navigation buttons and the document-ready
  start-up.
- `options.dfy` (module `Options`): the `Option` type a load returns, standing
  in for the `null` that `loadData` resolves with.

Promises are modelled as calls that complete before the handler returns. The
clock, the result of opening the database, and the store left by an earlier
visit are parameters of the model.

## Model

| member | source | states |
|---|---|---|
| Calendar.Weekday | main.js:103 | the day of the week is always 0 (Sunday) to 6 (Saturday); with day 0 a Thursday (DateKey.EpochIsThursday) it is getDay of the date the day number names |
| Calendar.GetMonday | main.js:101-106 | the result is a Monday, on or before the date and less than seven days before it |
| Calendar.GetMondayOfSunday | main.js:104 | a Sunday maps to the Monday six days earlier |
| Calendar.GetMondayOfMonday | main.js:103-105 | a Monday is its own Monday (the offset is zero) |
| Calendar.GetMondayIdempotent | main.js:101-106 | normalising twice gives the same Monday as normalising once |
| Calendar.GetMondayUnique | main.js:101-106 | the only Monday at most six days before the date is the one getMonday returns |
| Calendar.WeekSharesMonday | main.js:101-106 | every day of a Monday-started week normalises back to that Monday |
| Calendar.AddDaysInverse | main.js:109-113 | shifting forward n days and back n days returns to the start date |
| Calendar.AddDaysCompose | main.js:109-113 | two shifts add up to one shift by the sum |
| Calendar.AddWeeksKeepsWeekday | main.js:257-265 | shifting by whole weeks keeps the day of the week |
| Calendar.WeekdayOfWeekIndex | main.js:159-160 | day i of a Monday-started week is Monday to Saturday for i < 6 and Sunday for i = 6 |
| Gregorian.DaysInMonth | main.js:129-131 | month lengths are 28 to 31 days, and 29 exactly for February of a leap year |
| Gregorian.MonthOfYear | main.js:130 | the month found for a day of the year is the one whose start is at or before the day and whose successor starts after it |
| Gregorian.FindYearSpec | main.js:129 | the year found for a day of the era starts at or before the day and the next year starts after it |
| Gregorian.ToCivilValid | main.js:129-131 | every day number has a date that exists (month 1..12, day within the month's length) |
| Gregorian.FromToCivil | main.js:129-131 | converting a day number to its date and back gives the day number |
| Gregorian.ToFromCivil | main.js:129-131 | converting a valid date to its day number and back gives the date |
| Gregorian.ToCivilInjective | main.js:129-131 | distinct day numbers have distinct dates |
| Decimal.NatToString | main.js:130-131 | the numeral is non-empty and all digits, with no leading zero |
| Decimal.NatToStringRoundTrip | main.js:130-131 | the value of a number's numeral is the number |
| Decimal.PadStartShape | main.js:130-131 | padStart's result has the target width (or stays as is), ends with the input and is the fill before it |
| Decimal.PadStartTwoDigits | main.js:130-131 | a number below 100 padded to width 2 with '0' is its tens digit then its units digit |
| Decimal.LeadingDigits | main.js:227-228 | the digit run parseInt reads is a prefix of the input, all digits, and stops at a non-digit or at the end |
| Decimal.ParseIntOrZeroOfNumeral | main.js:227-228 | an input that starts with a number's numeral (optionally '-') followed by a non-digit normalises to that number, negatives included |
| Decimal.ParseIntOrZeroNoDigits | main.js:227-228 | an input with no digit, such as "" or "abc", normalises to 0 |
| Decimal.ParseIntOrZeroNonzero | main.js:227-228 | a nonzero result implies the input holds a nonzero digit |
| DateKey.DateKeyLayout | main.js:128-133 | a key is the year's numeral, '-', a two-digit month 01..12, '-' and a two-digit day 01..31 |
| DateKey.DateKeyRoundTrip | main.js:128-133 | reading a key back gives the date it was made from |
| DateKey.DateKeyInjective | main.js:128-133 | distinct days have distinct keys |
| DateKey.EpochIsThursday | main.js:103 | day 0 is 1970-01-01 and has weekday 4 (Thursday), tying day numbers and weekdays to calendar dates |
| DateKey.ExampleMonday | main.js:101-106 | 2024-04-15 is a valid date, day 19828, and a Monday |
| DateKey.ExampleSunday | main.js:101-106 | 2024-04-21 is a valid date, day 19834, and a Sunday |
| DateKey.ExampleMondayKey | main.js:128-133 | the key of day 19828 is "2024-04-15" |
| DateKey.ExampleSundayKey | main.js:128-133 | the key of day 19834 is "2024-04-21" |
| Records.EditCounts | main.js:221-230 | a word-count edit stores both normalised inputs, keeps the day's text and changes no other key |
| Records.EditText | main.js:243-249 | a notes edit stores the new text, keeps the day's goal and written and changes no other key |
| Records.GetAfterPut | main.js:56 | a put record is read back unchanged and every other key reads as before |
| Records.EditsCommute | main.js:214-252 | a word-count edit and a notes edit give the same store in either order |
| Records.EditCountsIdempotent | main.js:221-230 | repeating a word-count edit with the same inputs changes nothing |
| Records.ParseNumerals | main.js:227-228 | the inputs "500" and "120" normalise to 500 and 120 |
| Records.EditScenario | main.js:214-252 | typing 500 and 120 and then notes on a day with nothing saved leaves exactly that record |
| Records.WrittenEditScenario | main.js:221-230 | changing written to 120 on a day saved as 500/0/'' stores 500/120/'' |
| Records.GoalEditKeepsWritten | main.js:221-230 | a goal change re-saves the written input, which shows the stored count as rendered, so the stored written count and text are kept |
| Records.WrittenEditKeepsGoal | main.js:221-230 | a written change re-saves the goal input, which shows the stored goal as rendered, so the stored goal and text are kept |
| Records.EditWithoutNumbers | main.js:227-228 | empty or non-numeric inputs store zero counts and keep the text |
| Week.NotReadyShowsDefaults | main.js:174-184 | while the database or its store is missing, the weekdays show zero counts and every day shows empty notes |
| Week.Loaded | main.js:68-95 | a load gives nothing without the database or its store, otherwise the saved record or the default record |
| Week.GroupColumns | main.js:197-205 | the view is five weekday children then one weekend row of two, and holds the seven columns in order |
| Week.WeekColumnContents | main.js:159-185 | column i is day start + i, carries that day's key, shows the loaded goal, written and text, and has word inputs exactly when i < 5 |
| Week.WeekKeysDistinct | main.js:164 | no two columns of a week carry the same key |
| Week.WeekdaysOfWeek | main.js:170-205 | from a Monday, the columns with word inputs are Monday to Friday and the weekend row holds Saturday then Sunday |
| Week.CountsEditShown | main.js:214-233 | after a word-count edit of a weekday, re-rendering shows the normalised counts and the same notes there, and every other column unchanged |
| Week.TextEditShown | main.js:236-252 | after a notes edit of a day, re-rendering shows the new text and the same counts there, and every other column unchanged |
| Week.ExampleWeekStart | main.js:159-175 | the week of Monday 2024-04-15 starts with day 19828 keyed "2024-04-15", with word inputs |
| Week.ExampleWeekEnd | main.js:159-184 | that week ends with day 19834 keyed "2024-04-21", without word inputs |
| PlannerPage.WeekdayStep | main.js:197-198 | rendering Monday to Friday appends the day's column to the view |
| PlannerPage.SaturdayStep | main.js:199-201 | rendering Saturday starts the weekend row and leaves the view alone |
| PlannerPage.SundayStep | main.js:202-204 | rendering Sunday completes the weekend row and appends it, completing the week |
| PlannerPage.Planner.constructor | main.js:5 | at page load the displayed week is the Monday of today and the database is not open |
| PlannerPage.Planner.OpenDB | main.js:20-46 | a successful open sets the handle and an upgrade creates the store when missing, empty; a failed open changes nothing |
| PlannerPage.Planner.SaveData | main.js:49-65 | the record is put under the key when the database and store are there, and nothing changes otherwise |
| PlannerPage.Planner.LoadData | main.js:68-95 | nothing without the handle or the store, the saved record for a saved key, the zero record otherwise |
| PlannerPage.Planner.HandleInputChange | main.js:214-233 | with a key and a ready store, the store becomes the word-count edit of the old store; otherwise it is unchanged |
| PlannerPage.Planner.HandleTextareaInput | main.js:236-252 | with a key and a ready store, the store becomes the notes edit of the old store; otherwise it is unchanged |
| PlannerPage.Planner.RenderDay | main.js:160-195 | one pass of the loop builds day i's column from the load of its key |
| PlannerPage.Planner.PlaceDay | main.js:197-205 | each placement extends the view and the weekend row to what the first i + 1 days give |
| PlannerPage.Planner.RenderWeekDays | main.js:153-211 | the view becomes the week layout of the start date for the current store, and nothing else changes |
| PlannerPage.Planner.PrevWeek | main.js:257-260 | the displayed week moves back seven days, is still a Monday, and is re-rendered |
| PlannerPage.Planner.NextWeek | main.js:262-265 | the displayed week moves forward seven days, is still a Monday, and is re-rendered |
| PlannerPage.Planner.GoToToday | main.js:268-271 | the displayed week becomes the Monday of today and is re-rendered |
| PlannerPage.Planner.OnDocumentReady | main.js:275-280 | the database is opened (handle and store as OpenDB leaves them) and, when that succeeds, the current week is rendered from the store as it then is |

## Left out

- IndexedDB transactions, request callbacks and versioning are modelled only
  by their effect on the abstract store. The `onerror` paths of loads and
  saves (rejected promises, failed puts) are not modelled, and neither are
  logging and error codes.
- Promise ordering and the event loop are not modelled. Every load and save
  completes before the next step, so neither the read-modify-write race
  between rapid edits nor a slow load of an old week overwriting a newer
  render is captured.
- PlannerPage.Planner.OpenDB: an open that runs the upgrade and then fails
  leaves `db` set in the source. The model treats every failed open as
  leaving the handle unset.
- PlannerPage.Planner.HandleInputChange, HandleTextareaInput: when the load
  yields `null`, the source builds a partial record and calls `saveData`.
  That call does nothing without the handle, and throws without the store.
  The model skips the save, which has the same effect on the store.
- PlannerPage.Planner.SaveData: a save while the object store is missing
  throws from `db.transaction` in the source. The model treats it as saving
  nothing.
- Locale-dependent text is not modelled: the week title (`displayWeek`,
  main.js:138-151), day names and short dates (`getDayName`, `formatDate`),
  locale detection and the French labels. A column carries its day number
  instead.
- Day numbers are unbounded, but a JavaScript Date only covers ±100,000,000
  days around 1970-01-01 (years −271821 to 275760). Outside that range the
  source's getDay and getFullYear give NaN and every key is "NaN-NaN-NaN", so
  DateKey.DateKeyInjective and the calendar lemmas hold in the source only
  within that range.
- Decimal.NatToString writes every number in positional digits, as
  `Number.prototype.toString` does below 10^21. Exponent notation from 10^21
  on is not modelled. Years, months and days stay far below it, but a typed
  word count does not: a count of 10^21 or more renders as "1e+21" and is
  read back as 1. Records.GoalEditKeepsWritten and
  Records.WrittenEditKeepsGoal therefore hold in the source only for counts
  below 2^53, the bound the `parseInt` model already assumes.
- Dates are whole days. Time of day, time zones and daylight saving are not
  modelled. Today's date is a parameter.
- Week.WeekColumnContents, Week.TextEditShown: the source puts the stored
  notes into the `<textarea>` HTML without escaping (main.js:184), and jQuery
  parses that HTML (main.js:198, 201, 203). The parse drops a leading
  newline. It decodes character references, so "&lt;" shows as "<". And a
  "</textarea" in the notes closes the element, so the rest is read as
  markup. The next keystroke saves what is shown (main.js:239, 245-249), so
  the altered text is written back to the store. The model's column text is
  the stored text. The two lemmas hold in the source only for notes without
  a leading newline, '&' or "</textarea".
- DOM construction, HTML templates and jQuery event wiring are modelled only
  as the sequence of columns and the weekend row. The `data-date-key`
  attribute is the column's key, and the handlers receive the inputs' values
  as strings.
- Decimal.ParseIntOrZeroOfNumeral and the rest of the `parseInt` model do
  not model leading whitespace or radix-prefixed numerals, which a number
  input's value never holds. Reading stops at the first non-digit, so "1e3"
  and "12.5" are covered.
- Decimal.ParseIntOrZero uses unbounded integers. The source's loss of
  precision for numerals beyond 2^53 is not modelled.
- DayRecord holds exactly goal, written and text. Extra fields a stored
  object might carry, and which the spread in the handlers would keep, are
  not modelled.
