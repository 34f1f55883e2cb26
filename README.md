# DailyCore task list, month progress and stored-state revival in Dafny

This project models three small pieces of the DailyCore personal-productivity
app:

- **The daily-task list** (`Tasks`, tasks.dfy). `TasksProvider` holds a list of
  `DailyTask` records (id, title, icon, streak, completed). It changes the list
  in three ways. `addTask` appends a fresh task with id `task-<milliseconds>`,
  streak 0, not completed. `deleteTask` removes every task with the id.
  `toggleTaskCompletion` flips `completed` on every task with the id: the
  streak goes up by one on completion and down by one, floored at 0, on
  un-completion. The three updaters are functions on `seq<DailyTask>`. The
  provider is a class whose `tasks` field its methods replace. The model
  proves that, from an empty list, every completed task has a streak of at
  least one and no streak is negative. It follows that toggling an id twice
  restores the list.
- **The month-progress card** (`ProgressCard`, progress_card.dfy). The day of
  the month is clamped to a 30-day window. It gives a day count, a percentage
  for the bar, and the rounded percentage shown in the caption. The
  percentage is an exact `real`. The caption's `Math.round` is proved equal
  to `(10 * days + 1) div 3`. The component takes no props
  (src/components/app/progress-card.tsx:7). The dashboard imports this same
  component (src/app/(app)/page.tsx:6) and renders it once per goal
  (src/app/(app)/page.tsx:154-162), passing `goal`, `onUpdate`, `onDelete`
  and `className`. The component declares none of them, so a type checker
  rejects them and at run time they are ignored. Every goal's card
  therefore shows the same month progress, the one modelled here.
- **Reading persisted state** (`LocalStorage`, local_storage.dfy).
  `useLocalStorage` picks its initial state in one of two ways. It uses the
  initial value when there is no window, reading throws, the item is missing
  or empty, or parsing fails. Otherwise it uses the parsed value, after a JSON
  reviver has turned every string of timestamp shape into a date. The
  regular expression `^\d{4}-\d{2}-\d{2}T\d{2}:\d{2}:\d{2}.\d{3}Z$` is
  modelled term by term and proved to accept exactly the 24-unit strings of
  that shape. Its unescaped `.` accepts any unit but a line terminator.
  The test checks shape only, so out-of-range fields still match.

`JsText` (js_text.dfy) holds what the other modules share. JavaScript strings
are modelled as sequences of UTF-16 code units, because indexing, `length` and
regular expressions without the `u` flag all work on code units. It also
holds the decimal rendering of the millisecond timestamp inside task ids.

Inputs the app takes from the environment are parameters of the model:
- `Date.now()` becomes `now: nat`.
- `new Date().getDate()` becomes `today: DayOfMonth`.
- Whether `window` exists becomes `hasWindow`.
- The result of `localStorage.getItem` becomes a `StoredItem`.
- `JSON.parse` without the reviver becomes `parse: JsString -> Option<JsonValue>`, where `None` means it threw.

## Model

| member | source | states |
|---|---|---|
| `JsText.Decimal` | src/hooks/use-tasks.tsx:77 | the rendered timestamp is a non-empty string of ASCII digits that starts with `0` only when it is exactly `"0"`, for the number 0 (with `DecimalRoundTrip` this fixes the text of every number) |
| `JsText.DecimalRoundTrip` | src/hooks/use-tasks.tsx:77 | reading the decimal text of `n` back gives `n` |
| `JsText.DecimalInjective` | src/hooks/use-tasks.tsx:77 | two numbers render alike exactly when they are equal |
| `Tasks.TaskId` | src/hooks/use-tasks.tsx:77 | an id is `task-` followed by ASCII digits only (the rendered millisecond count) |
| `Tasks.TaskIdInjective` | src/hooks/use-tasks.tsx:77 | two task ids are equal exactly when the tasks were created in the same millisecond, so ids can collide only then |
| `Tasks.TaskIdNotRevived` | src/hooks/use-tasks.tsx:77 | a task id never matches the storage reviver's timestamp pattern, so a reloaded id stays a string (titles are not protected this way: see `Tasks.TimestampTitleRevived`) |
| `Tasks.TimestampTitleRevived` | src/hooks/use-local-storage.ts:21-26 | in a stored list, a member of the task object at position `k` whose value is a timestamp-shaped string, a title included, comes back from storage under the same key as a date built from that string, not as a string |
| `Tasks.Appended` | src/hooks/use-tasks.tsx:75-83 | adding makes the list one longer and keeps the old tasks as an unchanged prefix; the new last task has the given title and icon, id `task-<now>`, streak 0 and is not completed |
| `Tasks.WithoutId` | src/hooks/use-tasks.tsx:86-88 | deleting never lengthens the list |
| `Tasks.WithoutIdMembers` | src/hooks/use-tasks.tsx:87 | a task is in the result exactly when it was in the list and its id differs from the argument, so every task with the id is removed |
| `Tasks.WithoutIdAppend` | src/hooks/use-tasks.tsx:87 | deleting distributes over concatenation, so the remaining tasks keep their relative order |
| `Tasks.WithoutIdUnchanged` | src/hooks/use-tasks.tsx:87 | the list is left identical, and its length unchanged, exactly when no task has the id |
| `Tasks.WithoutIdIdempotent` | src/hooks/use-tasks.tsx:87 | deleting the same id twice is deleting it once |
| `Tasks.ToggledTask` | src/hooks/use-tasks.tsx:93-98 | toggling keeps id, title and icon, negates `completed`, adds one to the streak on completion and on un-completion lowers it by one but not below 0 |
| `Tasks.Max` | src/hooks/use-tasks.tsx:97 | `Math.max` gives the larger of its two arguments |
| `Tasks.ToggledById` | src/hooks/use-tasks.tsx:90-102 | toggling keeps length and order; each task with the id is toggled and every other task is unchanged; an unknown id leaves the list identical |
| `Tasks.ToggledTaskConsistent` | src/hooks/use-tasks.tsx:97 | toggling a task with a non-negative streak yields a non-negative streak, at least 1 when completed |
| `Tasks.ToggledTaskTwice` | src/hooks/use-tasks.tsx:94-98 | a task whose streak is non-negative and at least 1 when completed comes back unchanged after two toggles |
| `Tasks.ToggledTaskTwiceNeedsInvariant` | src/hooks/use-tasks.tsx:97 | a task stored as completed with streak 0 comes back from two toggles with streak 1, so the round trip needs the invariant |
| `Tasks.ToggledByIdTwice` | src/hooks/use-tasks.tsx:91-102 | on a list whose streaks are consistent, toggling the same id twice restores the list |
| `Tasks.WithoutIdAfterToggle` | src/hooks/use-tasks.tsx:86-102 | deleting an id after toggling it gives the same list as deleting it directly |
| `Tasks.Apply` | src/hooks/use-tasks.tsx:73-103 | one `setTasks` update: add makes the list one longer with the old list as prefix, delete never lengthens it, toggle keeps its length |
| `Tasks.ApplyKeepsStreaksConsistent` | src/hooks/use-tasks.tsx:75-102 | add, delete and toggle each keep every streak non-negative and every completed task's streak at least 1 |
| `Tasks.Replay` | src/hooks/use-tasks.tsx:73-103 | starting from the empty list, any sequence of adds, deletes and toggles keeps every streak non-negative and every completed task's streak at least 1 |
| `Tasks.ReplayToggleTwice` | src/hooks/use-tasks.tsx:90-102 | on any list reachable from the empty list, toggling an id twice restores the list |
| `Tasks.TasksProvider.constructor` | src/hooks/use-tasks.tsx:73 | the provider starts from the list the storage hook gives |
| `Tasks.TasksProvider.AddTask` | src/hooks/use-tasks.tsx:75-84 | the new list is the old one with the fresh task appended; the streak invariant is preserved |
| `Tasks.TasksProvider.DeleteTask` | src/hooks/use-tasks.tsx:86-88 | the new list is the old one without the tasks with the id; the streak invariant is preserved |
| `Tasks.TasksProvider.ToggleTaskCompletion` | src/hooks/use-tasks.tsx:90-103 | the new list is the old one with the tasks with the id toggled; the streak invariant is preserved |
| `ProgressCard.ElapsedDays` | src/components/app/progress-card.tsx:15-16 | the day count is the day of the month capped at 30: between 1 and 30, never above the day, and equal to it or to 30 |
| `ProgressCard.Round` | src/components/app/progress-card.tsx:36 | `Math.round` gives the integer `r` with `r <= x + 1/2 < r + 1` |
| `ProgressCard.RoundUnique` | src/components/app/progress-card.tsx:36 | that integer is unique |
| `ProgressCard.InitialShowsZero` | src/components/app/progress-card.tsx:8-9 | before the effect runs, days and progress are 0 and the caption shows 0% |
| `ProgressCard.ProgressBounds` | src/components/app/progress-card.tsx:10-18 | the bar's value lies in (0, 100], is 100 exactly from day 30 on, and days 30 and 31 give the same state |
| `ProgressCard.Percent` | src/components/app/progress-card.tsx:18 | `days / 30 * 100` equals `10 * days / 3` exactly |
| `ProgressCard.AfterEffect` | src/components/app/progress-card.tsx:14-19 | after the effect, `days` is the clamped day and `progress` is ten thirds of it |
| `ProgressCard.DisplayedPercent` | src/components/app/progress-card.tsx:36 | the caption shows the integer nearest `progress`, halves rounded up; its closed form is `ProgressCard.DisplayedPercentClosedForm` |
| `ProgressCard.DisplayedPercentClosedForm` | src/components/app/progress-card.tsx:18-36 | the caption's rounded percentage equals `(10 * days + 1) div 3` |
| `ProgressCard.DisplayedPercentBounds` | src/components/app/progress-card.tsx:36 | the caption reads between 3% and 100%, and 100% exactly from day 30 on |
| `ProgressCard.Monotone` | src/components/app/progress-card.tsx:15-36 | a later day never gives fewer days, less progress or a smaller caption percentage |
| `LocalStorage.Matches` | src/hooks/use-local-storage.ts:22 | an anchored pattern of fixed-count terms matches only strings as long as the pattern written out; its full meaning is `LocalStorage.MatchesPositionwise` |
| `LocalStorage.IsTimestampText` | src/hooks/use-local-storage.ts:22 | the regular expression's `.test`, with the pattern `TimestampPattern` written term by term, passes only 24-unit strings; `LocalStorage.TimestampPatternMeaning` gives the exact shape |
| `LocalStorage.MatchesGivesAtoms` | src/hooks/use-local-storage.ts:22 | every unit of a matching string satisfies the atom at its position of the expanded pattern |
| `LocalStorage.AtomsGiveMatch` | src/hooks/use-local-storage.ts:22 | a string as long as the expanded pattern whose units all satisfy their atoms matches |
| `LocalStorage.MatchesPositionwise` | src/hooks/use-local-storage.ts:22 | an anchored pattern of fixed-count terms matches a string exactly when the string has the expanded pattern's length and each unit satisfies the atom at its position |
| `LocalStorage.ExpandTimestampPattern` | src/hooks/use-local-storage.ts:22 | the timestamp pattern expands to 24 atoms: digits, `-` at 4 and 7, `T` at 10, `:` at 13 and 16, any unit at 19, `Z` at 23 |
| `LocalStorage.TimestampPatternMeaning` | src/hooks/use-local-storage.ts:22 | the regular expression accepts exactly the strings of length 24 with ASCII digits in positions 0-3, 5-6, 8-9, 11-12, 14-15, 17-18 and 20-22, `-` at 4 and 7, `T` at 10, `:` at 13 and 16, `Z` at 23 and no line terminator at 19 |
| `LocalStorage.DotAtPosition19` | src/hooks/use-local-storage.ts:22 | replacing unit 19 of a matching string keeps it matching exactly when the new unit is not LF, CR, U+2028 or U+2029 |
| `LocalStorage.OutOfRangeFieldsMatch` | src/hooks/use-local-storage.ts:22 | `2025-99-99T99:99:99.999Z` matches: the test checks shape, not calendar ranges |
| `LocalStorage.ReviveOne` | src/hooks/use-local-storage.ts:21-26 | the reviver changes a value exactly when it is a string of timestamp shape, and then makes it a date built from that string |
| `LocalStorage.Revive` | src/hooks/use-local-storage.ts:21-26 | `JSON.parse`'s walk with the reviver (children first, then the holder, the root included) leaves no timestamp-shaped string anywhere and keeps arrays and objects as arrays and objects of the same size (its full meaning is `ReviveCharacterised`) |
| `LocalStorage.ReviveMember` | src/hooks/use-local-storage.ts:21-26 | an object member keeps its key, and its revived value holds no timestamp-shaped string (what the value becomes is `ReviveCharacterised`) |
| `LocalStorage.Unrevive` | src/hooks/use-local-storage.ts:21-26 | the inverse of the reviver: every date turned back into the string it was built from, so no date is left |
| `LocalStorage.UnreviveMember` | src/hooks/use-local-storage.ts:21-26 | an object member keeps its key, and its unrevived value holds no date |
| `LocalStorage.UnreviveNoDates` | src/hooks/use-local-storage.ts:21-26 | undoing the reviver changes nothing in a value without dates, such as one `JSON.parse` produced |
| `LocalStorage.UnreviveRevive` | src/hooks/use-local-storage.ts:21-26 | the reviver only turns strings into dates of the same text: undoing it gives back the parsed value, every non-string and every other string in its place |
| `LocalStorage.ReviveDatesShaped` | src/hooks/use-local-storage.ts:21-26 | every date in the revived value was built from a timestamp-shaped string or was there already |
| `LocalStorage.ReviveCharacterised` | src/hooks/use-local-storage.ts:21-26 | on a parsed value, the reviver's result is exactly the value that undoes to it, has no timestamp-shaped string left and has no date of any other shape, in both directions |
| `LocalStorage.RevivedUnique` | src/hooks/use-local-storage.ts:21-26 | no other value than the reviver's result meets those three conditions |
| `LocalStorage.ReviveMeaning` | src/hooks/use-local-storage.ts:21-26 | revival leaves a value unchanged exactly when it held no timestamp-shaped string |
| `LocalStorage.ReviveIdempotent` | src/hooks/use-local-storage.ts:21-26 | reviving twice is reviving once |
| `LocalStorage.InitialState` | src/hooks/use-local-storage.ts:10-32 | the initial value is used without a window, when reading throws, when the item is missing or empty and when parsing fails; otherwise the result is the revived parsed value, with no timestamp-shaped string left |
| `LocalStorage.StoredValueReadBack` | src/hooks/use-local-storage.ts:16-26 | a non-empty item that parses to a value without timestamp-shaped strings is read back as exactly that value |

## Left out

- Writing the state back (src/hooks/use-local-storage.ts:35-45), `JSON.stringify` and `console.error`: these are browser I/O and logging. `JSON.parse` itself is the `parse` parameter, so which texts parse, and to what, is not modelled.
- `new Date(value)` inside the reviver is modelled as a `JDate` leaf that keeps its text. Whether the date is valid (`Invalid Date` for out-of-range fields) is not modelled.
- The React plumbing of src/hooks/use-tasks.tsx: the context, the provider's rendering (105-110) and the `useTasks` error outside a provider (112-118). The `taskIcons` table (30-51) maps names to icon components; only the names are modelled, as `TaskIcon`.
- `TasksProvider.constructor`: it does not model the provider loading its list from storage; it takes that list as an argument. So the invariant is proved for lists built from the empty list (`Replay`), not for lists read back from storage.
- Number semantics: streaks and timestamps are unbounded integers. A JavaScript number is exact only up to 2^53, and `String(n)` switches to exponent notation from 10^21. Both limits are far above what the app reaches.
- `progress` is an exact real, not an IEEE double. Ten thirds of a whole number is never closer than 1/6 to a half, so double rounding error cannot change `Math.round`'s result.
- The card's labels "1st July" and "30th July" (src/components/app/progress-card.tsx:11-12) are fixed text. The day count comes from the current day of whatever month it is. The model keeps this as written.
- The table column definitions (src/components/app/tasks/columns.tsx, src/components/app/patients/columns.tsx), navigation and page shells, and the Capacitor configuration: these are rendering and configuration with no logic of their own.
