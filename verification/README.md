# To-do / calendar state core

A Dafny model of the state logic of a single-page to-do and calendar
application (`src/App.tsx`). The application keeps two parallel arrays: the
to-do list (`TodoItem[]`) and the calendar events (`CalendarEvent[]`). Four
pieces of logic change or show them:

- `handleAddTodo`: pressing Enter in the input box appends a to-do and an
  event that share one id taken from the clock, then clears the box;
- `handleDateClick`: clicking a calendar date asks for a title and appends a
  to-do and an event, but reads the clock once for each;
- `deleteTodo`: removes every to-do and event with the given id, from the
  list's delete button or from a confirmed click on a calendar event;
- `filteredTodos` / `filteredEvents`: the views under the current tag filter
  (`'all'` or a tag name).

React state updates are modelled as pure functions from the old arrays
(`App.State`) to the new ones. Everything the handlers take from the
environment is a parameter: the clock reading (`Date.now()`, a `nat`), the
answer of `prompt` (an `Options.Option<string>`), the answer of `confirm` (a
`bool`), the key name, the input text, the selected date and the selected
tag preset.

Modules:

- `Options` (`options.dfy`): the optional `prompt` answer.
- `Seqs` (`seqs.dfy`): `Keep` (JavaScript `filter`), `Map`, `CountIf` and the
  subsequence relation, with the lemma that `Keep` is the one subsequence
  made of exactly the matching elements.
- `Text` (`text.dfy`): JavaScript `trim` and `String(n)` for clock readings.
- `Types` (`types.dfy`): the records of `src/types.ts` and the three tag
  presets.
- `App` (`app.dfy`): the state, the handlers, deletion, the filters, the
  pairing invariant and the lemmas about them.
- `Session` (`session.dfy`): sequences of user gestures and the invariants
  they keep.

The central invariant is `App.Paired`: both arrays have the same length and
the event at each position mirrors the to-do there (same id, title = text,
start = date, background and border colour = tag colour, nested tag = tag).
Keyboard add, deletion and filtering keep it; the date-click handler as
written keeps it only when its two clock readings agree (see Findings).

## Model

| member | source | states |
|---|---|---|
| Seqs.Keep | src/App.tsx:98-105 | `filter` keeps a subsequence of its input holding every matching element and only matching ones, as many as match |
| Seqs.KeepIsUnique | src/App.tsx:98-105 | a subsequence of matching elements as long as the number of matches is the filter result, so the filter keeps all matches in their original order |
| Seqs.KeepIdempotent | src/App.tsx:98-105 | filtering twice by the same predicate is filtering once |
| Seqs.KeepCommutesWithMap | src/App.tsx:98-105 | filtering the projected events agrees with projecting the filtered to-dos when the two predicates agree on each to-do and its event |
| Text.Trim | src/App.tsx:42 | `trim` yields the empty string exactly when the input is blank (only JavaScript whitespace or line terminators) |
| Text.NatToDecimal | src/App.tsx:45 | `String(n)` of a clock reading is a non-empty digit string without a leading zero whose decimal value is `n` again |
| App.IdOf | src/App.tsx:45 | two clock readings give the same id exactly when they are equal |
| App.PairedIsProjection | src/App.tsx:56-91 | the arrays are paired exactly when the event list is the field-by-field projection of the to-do list that both handlers build (record shapes as in src/types.ts:1-17) |
| App.HandleAddTodo | src/App.tsx:41-69 | on `Enter` with non-blank text: one to-do and one event appended, earlier entries untouched, both with the id of the one clock reading, the untrimmed text, `completed` false, the tag's name and colour, the date, the event mirroring the to-do, and the input cleared; any other key or blank text changes nothing |
| App.HandleDateClick | src/App.tsx:72-95 | with a present, non-empty title (blank allowed, no trimming): one to-do and one event appended, to-do id from the first clock reading and event id from the second, other fields mirrored; a cancelled or empty title changes nothing |
| App.HandleDateClickOneRead | src/App.tsx:72-95 | the date-click handler with one shared clock reading: same acceptance, the appended to-do carries the reading's id and the given fields, the appended event mirrors it, and the arrays stay paired |
| App.KeyboardAddPreservesPairing | src/App.tsx:41-66 | keyboard add keeps the arrays paired |
| App.KeyboardAddUniqueIffFresh | src/App.tsx:45-47 | with unique ids before, an accepted keyboard add leaves ids unique exactly when the clock reading's id is not already used |
| App.DateClickUniqueIffFresh | src/App.tsx:76-77 | with unique ids before, an accepted date click leaves to-do ids unique exactly when the first clock reading's id is not already used |
| App.DateClickPairedIffSameClock | src/App.tsx:76-93 | an accepted date click on paired arrays leaves them paired exactly when the two clock readings are equal |
| App.DateClickOneReadAgrees | src/App.tsx:76-93 | the as-written date click with equal readings is the single-reading one |
| App.BlankTextOnlyAcceptedByDateClick | src/App.tsx:42-74 | every non-empty text made only of whitespace is refused by the keyboard path and appended by the date-click path |
| App.TwoReadsLeaveOrphanEvent | src/App.tsx:72-101 | readings 1000 and 1001 leave the arrays unpaired, and deleting the new to-do's id leaves its event on the calendar |
| App.DeleteTodo | src/App.tsx:98-101 | both results are subsequences of the inputs, hold no entry with the id, and are shorter by exactly the number of entries with the id |
| App.DeleteKeepsOtherEntries | src/App.tsx:98-101 | every to-do and every event whose id differs from the deleted one is still present |
| App.DeleteAbsentIsNoOp | src/App.tsx:98-101 | deleting an id that no to-do or event has leaves both arrays unchanged |
| App.DeleteIdempotent | src/App.tsx:98-101 | deleting the same id twice is deleting it once |
| App.DeleteIsTheOnlySuchSubsequence | src/App.tsx:99-100 | any subsequence of the to-dos, and any of the events, that avoids the id and drops only as many entries as carry it is the corresponding deletion result |
| App.DeletePreservesPairing | src/App.tsx:98-101 | deletion keeps the arrays paired |
| App.DeleteKeepsIdsUnique | src/App.tsx:99 | deletion keeps to-do ids unique |
| App.FilteredTodos | src/App.tsx:104 | under `'all'` the view is the whole list; otherwise it holds exactly the to-dos with that tag, as many as there are, as a subsequence |
| App.FilteredEvents | src/App.tsx:105 | the same for events, on the nested `extendedProps.tag` |
| App.FilteredViewsPaired | src/App.tsx:104-105 | paired arrays give paired views under any filter, so list and calendar show the same entries |
| App.UnknownFilterShowsNothing | src/App.tsx:104-105 | when every to-do and every event carries a preset tag, paired or not, a filter that is neither `'all'` nor a preset name gives two empty views, not an error |
| App.ReachableUnpairedPresetTagged | src/App.tsx:76-93 | readings 1000 and 1001 on a date click give arrays that are preset-tagged but not paired, the case the unknown-filter lemma covers without pairing |
| Session.Step | src/App.tsx:119-138 | a refused event click changes nothing; a confirmed event click or the list's delete button (src/components/Sidebar.tsx:61) leaves subsequences without the id, shorter by exactly the number of entries carrying it; a key press appends exactly when it is `Enter` with non-blank text, a to-do with the reading's id, the untrimmed text, `completed` false, the tag's name and colour and the date, plus a mirroring event; a date click appends exactly when the title is present and non-empty, the same to-do fields with the first reading's id and an event mirroring it except for its id, taken from the second reading |
| Session.StepPreservesPairing | src/App.tsx:41-137 | from paired arrays, a gesture leaves them paired exactly when its readings agree: always for key presses, event clicks and the delete button, and for an appending date click only when its two clock readings are equal |
| Session.RunPreservesPairing | src/App.tsx:41-137 | any sequence of gestures from paired arrays, whose appending date clicks read the clock the same twice, ends paired |
| Session.StepKeepsPresetTags | src/components/Sidebar.tsx:29-34 | a gesture whose tag is a preset keeps every to-do's and every event's tag a preset, whatever the clock readings |
| Session.RunKeepsPresetTags | src/components/Sidebar.tsx:29-34 | a session whose gestures use presets keeps every to-do's and every event's tag a preset |

## Left out

- Persistence: reading the two `localStorage` slots at start-up and writing
  them after every change (src/App.tsx:20-26, 34-37) is browser I/O and JSON
  serialisation. A session here starts from any state. When a slot is
  missing the code starts from an empty array; malformed JSON in a slot
  makes `JSON.parse` throw, and nothing falls back to an empty array.
- `Date.now()`, `new Date().toISOString()`, `prompt` and `confirm` are
  environment calls; their results are parameters. Clock readings are
  non-negative integers, and a negative reading (a clock set before 1970)
  is not modelled.
- Text.NatToDecimal: covers readings below 10^21 only, where JavaScript
  prints plain digits; beyond that it would use exponent notation, which no
  millisecond clock reaches.
- Text.Trim: states that the result is empty exactly for blank input and
  that it neither starts nor ends with whitespace, not that it is the exact
  middle slice of the input; only its emptiness is used by the handler.
- Strings are sequences of Unicode scalar values, not UTF-16 code units;
  `trim` and the comparisons do not depend on the difference here.
- The UI-local state setters (input text, date, selected tag, current
  filter) in src/components/Sidebar.tsx are plain assignments; they appear
  only as the parameters of the handlers and filters. Rendering, CSS and
  FullCalendar are out of scope.
- The initial values of the interface state (today's date, the first tag
  preset, the filter `'all'`; src/App.tsx:28-31) are not modelled: every
  handler and filter takes these values as parameters.
- The `completed` field is carried but nothing changes it, as in the code.
- `deleteTodo` removes every to-do and every event carrying the id, not
  only the first one; the model does the same.

## Findings

| source | as written | input that shows it | evidently intended | confidence | as-written member | corrected member |
|---|---|---|---|---|---|---|
| src/App.tsx:77-85 | the date-click handler calls `Date.now()` once for the to-do id and again for the event id | clock readings 1000 then 1001 (the calls straddle a millisecond): to-do id "1000", event id "1001"; deleting the to-do leaves the event on the calendar | one reading shared by both records, as the keyboard handler does | medium; not executed | App.HandleDateClick (App.DateClickPairedIffSameClock, App.TwoReadsLeaveOrphanEvent) | App.HandleDateClickOneRead |
