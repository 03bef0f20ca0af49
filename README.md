# Personal time tracker: timer component and task-title sanitiser in Dafny

This project models the core of a browser multi-timer tracker (an Angular
application) and proves properties of that model.

- **The timer component (`TimerComponent`).** It holds an ordered list of timers, each with an id, a title, elapsed seconds, a running flag and a history log. Beside the list it keeps the interval handles of the running timers, keyed by id, and an id counter.
  - Its operations are start, stop, reset and delete of one timer, stop-all on destroy, and adding a task.
  - It also covers the one-second tick callback, loading from and saving to local storage, and the published total-time text.
- **The clock face and the total-time summary.** These are `formatTime`, `pad` and the formatting in `calculateTotalTime`.
- **The title sanitiser of the add-task dialog (`validateText`).**

Files and modules:

| file | module | contents |
|---|---|---|
| `options.dfy` | `Options` | `Option` |
| `decimal.dfy` | `Decimal` | decimal rendering of a natural number (`${n}`) and reading it back |
| `time_format.dfy` | `TimeFormat` | `pad`, `formatTime`, the total-time text |
| `timer_records.dfy` | `TimerRecords` | one timer as a value and its transitions; the list-level sum, filter, running ids and id counter; the JSON image |
| `timer_component.dfy` | `TimerComponents` | the class `TimerComponent` with the component's fields and methods, and the dialog's close handler |
| `task_title.dfy` | `TaskTitle` | `validateText` |

How the model represents the component:

- **Timers are addressed by position.** The template hands each method the timer object it rendered, and that object is the list element at some position `k`. Every in-place update of the object is modelled as an update of the `timers` sequence at `k`.
- **Interval handles are a set of ids (`intervalIds`).** A handle is opaque. The callback behind the handle for id `i` ticks the timer with id `i`; this is the method `Tick`.
- **Local storage is a field (`storage: Option<seq<TimerData>>`).** `None` stands for no stored list.
- **The published total is a string field.** It is `totalTimeSpend`.
- **A history slot is `Text(line)`, `Hole` or `Null`.** `stopTimer` writes its line at index `length + 1` (`src/app/timer/timer.component.ts:65`), which leaves a hole at index `length`.
  - `JSON.stringify` writes that hole as `null`.
  - `Array.prototype.filter` in `deleteInitialHistory` skips holes but keeps nulls.
  - The model keeps the code as written, so a hole and a reloaded null behave differently at the next start (`HoleVersusNull`).

Behaviour the model follows as the code has it:

- **A reloaded running timer has no handle.** A timer saved while running is reloaded with `isRunning == true` and no interval handle. Such a timer cannot be started again: `startTimer` does nothing on a running timer. `Synced()` (every running timer has its handle) therefore holds after construction exactly when no stored timer runs. `Valid()` keeps only the other direction: every handle belongs to a running timer. Such a timer gains no time until it is stopped and started again (`ReloadedRunningFrozen`). Adding a task reloads the page, so this happens to every timer that runs while a task is added.
- **Ids can be handed out again after a reload.** `loadTimers` sets the counter to the last stored id plus one, or leaves it at 0 for an empty list. Deleting the timer with the highest id and then reloading the page gives that id to the next new task (`ReloadAfterDeleteLast`, `IdReuseExample`, `DeleteLastAndReload`).
- **Reset and delete publish a stale total.** `resetTimer` and `deleteTimer` publish the total computed by their inner `stopTimer`, which is taken before the time is zeroed or the timer is removed.
- **Plurals.** The rule adds "s" only when a quantity exceeds one, so 7200 seconds give "2 hours 0 minute", with zero minutes singular.
- **The sanitiser's class is exactly ASCII punctuation.** The character class of `validateText` lists exactly the 32 ASCII punctuation characters (`SpecialIsAsciiPunctuation`). Letters, digits, spaces and every non-ASCII character pass through.

## Model

| member | source | states |
|---|---|---|
| `Decimal.Show` | src/app/timer/timer.component.ts:104 | the digits of `n`: one digit iff `n < 10`, and a leading `0` only for zero |
| `Decimal.ValueOfShow` | src/app/timer/timer.component.ts:104 | reading the digits of `${n}` back gives `n` |
| `Decimal.ValueLeadingZero` | src/app/timer/timer.component.ts:104 | a leading `0` keeps a digit string's value |
| `TimeFormat.Pad` | src/app/timer/timer.component.ts:103-105 | the result is digits reading back as `n`; exactly two characters below 100; starts with `0` iff `n < 10` |
| `TimeFormat.Decomposition` | src/app/timer/timer.component.ts:96-98 | `hrs * 3600 + mins * 60 + secs == s`, with `mins < 60` and `secs < 60` |
| `TimeFormat.FormatTime` | src/app/timer/timer.component.ts:95-100 | the face has 12 characters below 100 hours, starts with `0` iff under 10 hours, and reading it back (`ParseClock`, which takes minute and second fields below 60) gives the seconds |
| `TimeFormat.ClockRoundTrip` | src/app/timer/timer.component.ts:99 | a face joined from digit fields, minutes and seconds below 60, reads back as hours * 3600 + minutes * 60 + seconds |
| `TimeFormat.FormatTimeInjective` | src/app/timer/timer.component.ts:95-100 | distinct durations have distinct faces |
| `TimeFormat.FormatTimeExample` | src/app/timer/timer.component.ts:95-100 | 3725 seconds show as `01 : 02 : 05` |
| `TimeFormat.Summarize` | src/app/timer/timer.component.ts:153-169 | the branch and quantities `calculateTotalTime` picks; no time iff the total is <= 0 (the rest in `SummarizeMeaning`) |
| `TimeFormat.Unit` | src/app/timer/timer.component.ts:164-168 | a quantity, a space and its unit name, plural as `UnitPlural` states |
| `TimeFormat.Render` | src/app/timer/timer.component.ts:154-168 | the text of each branch: `0 hour`, hours and minutes, minutes and seconds, or seconds alone (its values in `TotalTimeNone` and the examples) |
| `TimeFormat.TotalTimeText` | src/app/timer/timer.component.ts:150-170 | the published text for a total, `0 hour` exactly for totals <= 0 (`TotalTimeNone`) |
| `TimeFormat.SummarizeMeaning` | src/app/timer/timer.component.ts:153-169 | nothing for a total <= 0; otherwise whole hours (>= 1) with minutes below 60, or minutes (>= 1) and seconds exactly, or seconds alone; the units are the coarsest non-empty one and the next |
| `TimeFormat.UnitPlural` | src/app/timer/timer.component.ts:164-168 | a quantity's unit ends in `s` iff the quantity exceeds one |
| `TimeFormat.TotalTimeNone` | src/app/timer/timer.component.ts:151-156 | the text is `0 hour` iff the total is <= 0 |
| `TimeFormat.TotalTimeSecondsExample` | src/app/timer/timer.component.ts:167-168 | 45 seconds give `45 seconds` |
| `TimeFormat.TotalTimeMinutesExample` | src/app/timer/timer.component.ts:165-166 | 90 seconds give `1 minute 30 seconds` |
| `TimeFormat.TotalTimeHoursExample` | src/app/timer/timer.component.ts:163-164 | 3661 seconds give `1 hour 1 minute`; the seconds are dropped |
| `TimeFormat.TotalTimeTwoHoursExample` | src/app/timer/timer.component.ts:163-164 | 7200 seconds give `2 hours 0 minute`: zero minutes stay singular |
| `TimerRecords.BeforeParen` | src/app/timer/timer.component.ts:65 | `split(' (')[0]` is a prefix of the line |
| `TimerRecords.BeforeParenFirst` | src/app/timer/timer.component.ts:65 | the cut is at the first ` (`: none before it, one at it unless the whole line is kept |
| `TimerRecords.BeforeParenOfSplit` | src/app/timer/timer.component.ts:65 | cutting `a (b` with no `(` in `a` gives `a` |
| `TimerRecords.ActiveEntry` | src/app/timer/timer.component.ts:48 | the start line, `Started the timer at <date> (Active)`; `StopEntryOfActive` states how a stop re-reads it |
| `TimerRecords.StopEntry` | src/app/timer/timer.component.ts:65 | the stop line re-reading the last line up to its first ` (` (`BeforeParenFirst`, `StopEntryOfActive`) |
| `TimerRecords.StopEntryOfActive` | src/app/timer/timer.component.ts:48-65 | the stop line built from a start line repeats `Started the timer at` and keeps the start time |
| `TimerRecords.DropSentinel` | src/app/timer/timer.component.ts:172-174 | the filtered history has no sentinel and no hole and is not longer |
| `TimerRecords.DropSentinelAppend` | src/app/timer/timer.component.ts:173 | the filter works slot by slot in order: filtering a joined history joins the filtered parts |
| `TimerRecords.DropSentinelSingle` | src/app/timer/timer.component.ts:173 | a single slot is kept iff it is neither a hole nor the sentinel |
| `TimerRecords.DropSentinelMembers` | src/app/timer/timer.component.ts:172-174 | a slot survives the filter iff it is in the history and is neither a hole nor the sentinel |
| `TimerRecords.DropSentinelKeeps` | src/app/timer/timer.component.ts:173 | a history without holes or sentinel passes the filter unchanged |
| `TimerRecords.NewRecord` | src/app/timer/timer.component.ts:110-116 | a new task record is well formed |
| `TimerRecords.StartRecord` | src/app/timer/timer.component.ts:44-48 | the started record: running, with id, title and time kept; `StartRunning` and `StartStopped` state the two branches |
| `TimerRecords.StopRecord` | src/app/timer/timer.component.ts:59-65 | the stopped record: not running, id, title and time kept, the old history a prefix of the new; `StopStopped` and `StopRunning` state the two branches |
| `TimerRecords.ResetRecord` | src/app/timer/timer.component.ts:74-75 | the reset record is well formed and keeps id and title; `ResetForgets` states the rest |
| `TimerRecords.TickRecord` | src/app/timer/timer.component.ts:52 | a tick keeps a record well formed; `TickOnlyTime` states that only the time grows, by one |
| `TimerRecords.StartRunning` | src/app/timer/timer.component.ts:44-45 | starting a running timer changes nothing |
| `TimerRecords.StartStopped` | src/app/timer/timer.component.ts:45-48 | starting a stopped timer runs it and keeps id, title and time; its history is the filtered old history followed by exactly one `(Active)` line, with no sentinel and no hole |
| `TimerRecords.StartIdempotent` | src/app/timer/timer.component.ts:44-56 | a second start changes nothing |
| `TimerRecords.StopStopped` | src/app/timer/timer.component.ts:60 | stopping a stopped timer changes nothing |
| `TimerRecords.StopRunning` | src/app/timer/timer.component.ts:60-65 | stopping a running timer clears the flag and keeps id, title, time and every earlier slot; the history grows by two: a hole at the old length, then the stop line re-reading the last line |
| `TimerRecords.ResetForgets` | src/app/timer/timer.component.ts:72-77 | after reset, in any prior state: time 0, not running, history the sentinel alone, id and title kept |
| `TimerRecords.TickOnlyTime` | src/app/timer/timer.component.ts:52 | a tick adds one second and changes no other field |
| `TimerRecords.WellFormedPreserved` | src/app/timer/timer.component.ts:44-77 | start, stop, reset and tick keep a record well formed: the sentinel alone or absent, and a running timer ends in a text line |
| `TimerRecords.Replay` | src/app/timer/timer.component.ts:44-69 | any sequence of starts, stops and seconds keeps a record well formed; a second ticks the record only while its interval is live, and a start registers one only on a stopped record |
| `TimerRecords.ReplayTime` | src/app/timer/timer.component.ts:44-69 | after any sequence of starts, stops and seconds, the time is the old time plus the seconds that passed while the interval was live |
| `TimerRecords.ScheduledWhileRunning` | src/app/timer/timer.component.ts:45-63 | while the interval is live exactly when the flag is set, the live seconds are the running seconds |
| `TimerRecords.ReplaySynced` | src/app/timer/timer.component.ts:44-69 | a record whose interval matches its flag gains exactly the seconds it spends running |
| `TimerRecords.StaleUntilStopped` | src/app/timer/timer.component.ts:45-54 | a running record without an interval counts no live seconds before a stop |
| `TimerRecords.ReloadedRunningFrozen` | src/app/timer/timer.component.ts:45-54 | a record reloaded while running (no interval) keeps its time under any starts and seconds until it is stopped |
| `TimerRecords.TotalSeconds` | src/app/timer/timer.component.ts:151 | the `reduce` over the times; `TotalSecondsUpdate` and `PersistTotal` state how it moves |
| `TimerRecords.TotalSecondsUpdate` | src/app/timer/timer.component.ts:151 | replacing one timer moves the sum by the difference of the two times |
| `TimerRecords.LoadableUpdate` | src/app/timer/timer.component.ts:44-77 | replacing a record by a well-formed one with the same id keeps ids increasing and records well formed |
| `TimerRecords.RunningIdsIn` | src/app/timer/timer.component.ts:51 | an id is among the running ids iff some running record carries it |
| `TimerRecords.RunningIdsMember` | src/app/timer/timer.component.ts:51-62 | with unique ids, a record's id is running iff that record runs |
| `TimerRecords.RunningIdsUpdate` | src/app/timer/timer.component.ts:51-62 | replacing a record moves only its own id in or out of the running ids |
| `TimerRecords.RunningIdsEmpty` | src/app/timer/timer.component.ts:89-91 | no id runs iff no record runs |
| `TimerRecords.WithoutId` | src/app/timer/timer.component.ts:82 | the filter never lengthens the list |
| `TimerRecords.WithoutIdMembers` | src/app/timer/timer.component.ts:82 | a record survives the filter iff it is in the list with another id |
| `TimerRecords.WithoutIdRemovesOne` | src/app/timer/timer.component.ts:82 | with increasing ids, the filter removes exactly the record at `k` and keeps the others in order |
| `TimerRecords.WithoutIdAbsent` | src/app/timer/timer.component.ts:82 | filtering an id below every id keeps the list whole |
| `TimerRecords.NextCounter` | src/app/timer/timer.component.ts:130-131 | with increasing ids, the restored counter is above every id |
| `TimerRecords.ReloadAfterDeleteLast` | src/app/timer/timer.component.ts:82-131 | after deleting the record with the highest (non-negative) id and reloading, the restored counter is no higher than that id |
| `TimerRecords.IdReuseExample` | src/app/timer/timer.component.ts:82-131 | ids 0, 1, 2: deleting 2 and reloading restores the counter 2 |
| `TimerRecords.AppendNew` | src/app/timer/timer.component.ts:110-116 | appending under a counter above the last id keeps ids increasing, takes an unused id, and changes neither the running ids nor the sum |
| `TimerRecords.UpdateInRegistry` | src/app/timer/timer.component.ts:44-77 | replacing a record by a well-formed one with the same id keeps the list loadable, moves the running ids by that id and the sum by the time difference, and keeps the last id |
| `TimerRecords.RemoveKeepsLoadable` | src/app/timer/timer.component.ts:82 | the list without one record keeps increasing ids and well-formed records |
| `TimerRecords.RemoveRunningIds` | src/app/timer/timer.component.ts:82 | removing a record removes exactly its id from the running ids |
| `TimerRecords.DeleteInRegistry` | src/app/timer/timer.component.ts:81-82 | filtering out the id at `k` gives the list without position `k`, still loadable, without that running id, with a last id no higher |
| `TimerRecords.PersistHistory` | src/app/timer/timer.component.ts:122 | the JSON image of a history has the same length and no hole; each hole becomes `Null` and every other slot is kept at its index; a history without holes is unchanged |
| `TimerRecords.Persist` | src/app/timer/timer.component.ts:122 | the JSON image has one record per timer, in order, each keeping its id, title, time and flag, with its history's image |
| `TimerRecords.PersistIdempotent` | src/app/timer/timer.component.ts:122-129 | saving a reloaded image again gives the same image |
| `TimerRecords.PersistKeeps` | src/app/timer/timer.component.ts:122-131 | the image of a loadable list is loadable, with the same sum and the same running state |
| `TimerRecords.PersistTotal` | src/app/timer/timer.component.ts:122-151 | the image has the same sum of times |
| `TimerRecords.HoleVersusNull` | src/app/timer/timer.component.ts:65-173 | the filter drops a hole in memory but keeps the null it becomes after a save and reload |
| `TimerComponents.ReplaceKeeps` | src/app/timer/timer.component.ts:44-77 | replacing one timer with matching handle changes keeps the component invariant and the handle coverage, and moves the sum by the time difference |
| `TimerComponents.DeleteKeeps` | src/app/timer/timer.component.ts:82 | dropping a timer without a handle keeps the invariant and the coverage |
| `TimerComponents.StoppedStep` | src/app/timer/timer.component.ts:89-91 | one more timer of the `forEach` is stopped and the rest are untouched |
| `TimerComponents.TimerComponent.RunningIffScheduled` | src/app/timer/timer.component.ts:51-62 | with every handle in place, a timer runs iff its id has a handle |
| `TimerComponents.TimerComponent.constructor` | src/app/timer/timer.component.ts:38-41 | load, then publish the total; no handles; the counter follows the last stored id; the invariant holds for a loadable stored list; handles cover the running timers iff none runs |
| `TimerComponents.TimerComponent.LoadTimers` | src/app/timer/timer.component.ts:125-135 | a stored list replaces the timers; a non-empty one sets the counter to its last id + 1 |
| `TimerComponents.TimerComponent.SaveTimers` | src/app/timer/timer.component.ts:121-123 | the storage holds the JSON image of the timers |
| `TimerComponents.TimerComponent.CalculateTotalTime` | src/app/timer/timer.component.ts:150-170 | the published text is the summary of the sum of all times |
| `TimerComponents.TimerComponent.DeleteInitialHistory` | src/app/timer/timer.component.ts:172-174 | in place on the timer at `k`: only its history changes, to the filtered history |
| `TimerComponents.TimerComponent.StartTimer` | src/app/timer/timer.component.ts:44-56 | the timer becomes the started record; a stopped timer's id gains a handle; a running one changes nothing; the invariant and coverage are kept |
| `TimerComponents.TimerComponent.Tick` | src/app/timer/timer.component.ts:51-54 | only that timer's time grows by one, the sum grows by one, and the list is saved |
| `TimerComponents.TimerComponent.StopTimer` | src/app/timer/timer.component.ts:59-69 | the timer becomes the stopped record and loses its handle; the list is saved iff it was running; the total is republished with an unchanged sum |
| `TimerComponents.TimerComponent.ResetTimer` | src/app/timer/timer.component.ts:72-77 | the timer becomes the reset record after its stop, without a handle, and the list is saved; the sum drops by its old time; the published total is the one before zeroing |
| `TimerComponents.TimerComponent.DeleteTimer` | src/app/timer/timer.component.ts:80-84 | the timers are the old list without position `k`, in order; that id loses its handle; the list is saved; the published total is the one before removal |
| `TimerComponents.TimerComponent.DropTimer` | src/app/timer/timer.component.ts:82-83 | the list without position `k`, saved, invariant and coverage kept |
| `TimerComponents.TimerComponent.SaveTimer` | src/app/timer/timer.component.ts:109-118 | one new record appended under the old counter, which no timer had; the counter grows by one; the sum is unchanged; the list is saved |
| `TimerComponents.TimerComponent.StopNext` | src/app/timer/timer.component.ts:89-91 | one turn of the `forEach`: the next timer is stopped, the stored image and the total follow |
| `TimerComponents.TimerComponent.Destroy` | src/app/timer/timer.component.ts:87-92 | every timer is the stopped version of itself and no handle remains; the list is saved iff some timer was running; the sum is unchanged |
| `TimerComponents.SaveAndReload` | src/app/timer/timer.component.ts:121-135 | after a save and a page reload there is a new component whose timers are the JSON image, with no handles, a counter one past the last id (or 0 for an empty list), and still loadable |
| `TimerComponents.StartAfterReload` | src/app/timer/timer.component.ts:44-56 | after a save and a page reload, starting a timer saved while running leaves the timers as reloaded and registers no interval |
| `TimerComponents.DeleteLastAndReload` | src/app/timer/timer.component.ts:80-135 | deleting the highest-id timer and reloading gives a new component with the image of the rest, no handles, and a counter no higher than the deleted id |
| `TimerComponents.DialogClosed` | src/app/timer/timer.component.ts:142-147 | a non-empty title is appended and the page reloads: a new component with the image of the longer list, no handles and the counter one higher; an empty result leaves the component, its timers, its counter and its storage as they were |
| `TaskTitle.Strip` | src/app/add-task-modal/add-task-modal.component.ts:29 | the first replacement never lengthens the text; the lemmas `Strip*` state what it deletes and keeps |
| `TaskTitle.Collapse` | src/app/add-task-modal/add-task-modal.component.ts:31 | the second replacement never lengthens the text and leaves it empty only if it was empty; the lemmas `Collapse*` state the rest |
| `TaskTitle.ValidateText` | src/app/add-task-modal/add-task-modal.component.ts:28-33 | the sanitised title is not longer than the input; the lemmas `Validate*` state what it keeps and removes |
| `TaskTitle.SpecialIsAsciiPunctuation` | src/app/add-task-modal/add-task-modal.component.ts:29 | the removed class is exactly the ASCII punctuation |
| `TaskTitle.SkipSpaces` | src/app/add-task-modal/add-task-modal.component.ts:31 | what is left after a run of spaces is not longer and does not start with a space |
| `TaskTitle.StripNoSpecial` | src/app/add-task-modal/add-task-modal.component.ts:29 | no special character survives the first replacement |
| `TaskTitle.StripKeeps` | src/app/add-task-modal/add-task-modal.component.ts:29 | text without special characters is unchanged by it |
| `TaskTitle.StripSubsequence` | src/app/add-task-modal/add-task-modal.component.ts:29 | the first replacement only deletes characters |
| `TaskTitle.StripEssential` | src/app/add-task-modal/add-task-modal.component.ts:29 | it keeps every character that is neither special nor a space, in order |
| `TaskTitle.CollapseHead` | src/app/add-task-modal/add-task-modal.component.ts:31 | collapsing keeps the first character |
| `TaskTitle.CollapseNoDoubleSpace` | src/app/add-task-modal/add-task-modal.component.ts:31 | no two spaces are adjacent after the second replacement |
| `TaskTitle.CollapseNonBlank` | src/app/add-task-modal/add-task-modal.component.ts:31 | the second replacement deletes spaces only |
| `TaskTitle.CollapseNoSpecial` | src/app/add-task-modal/add-task-modal.component.ts:31 | it adds no special character |
| `TaskTitle.CollapseKeeps` | src/app/add-task-modal/add-task-modal.component.ts:31 | text without two adjacent spaces is unchanged by it |
| `TaskTitle.CollapseSubsequence` | src/app/add-task-modal/add-task-modal.component.ts:31 | the second replacement only deletes characters |
| `TaskTitle.ValidateNoSpecial` | src/app/add-task-modal/add-task-modal.component.ts:28-33 | the sanitised title has no special character |
| `TaskTitle.ValidateNoDoubleSpace` | src/app/add-task-modal/add-task-modal.component.ts:28-33 | the sanitised title has no two adjacent spaces |
| `TaskTitle.ValidateKeepsEssential` | src/app/add-task-modal/add-task-modal.component.ts:28-33 | the sanitised title is the input with characters deleted, and keeps every character that is neither special nor a space, in order |
| `TaskTitle.SpaceRunsSkip` | src/app/add-task-modal/add-task-modal.component.ts:31 | a text starting with a space has one run of spaces more than what follows that run |
| `TaskTitle.CollapseSpaceRuns` | src/app/add-task-modal/add-task-modal.component.ts:31 | the second replacement keeps the number of runs of spaces: each run becomes exactly one space |
| `TaskTitle.ValidateSpaceRuns` | src/app/add-task-modal/add-task-modal.component.ts:28-33 | the title has one space per run of spaces left after stripping |
| `TaskTitle.ValidateIdempotent` | src/app/add-task-modal/add-task-modal.component.ts:28-33 | sanitising twice equals sanitising once |
| `TaskTitle.StripExample` | src/app/add-task-modal/add-task-modal.component.ts:29 | `a - b` becomes `a  b` |
| `TaskTitle.CollapseExample` | src/app/add-task-modal/add-task-modal.component.ts:31 | `a  b` becomes `a b` |
| `TaskTitle.ValidateExample` | src/app/add-task-modal/add-task-modal.component.ts:28-33 | stripping comes first, so `a - b` becomes `a b` |

## Left out

- **Timing.** `setInterval`/`clearInterval` and their one-second period are not modelled. A tick is the explicit method `Tick`, enabled while its id has a handle. How ticks interleave with other calls on the event loop is not modelled.
- **Browser I/O.**
  - `localStorage`, `JSON.stringify` and `JSON.parse` are reduced to the `storage` field and the `Persist` image. The storage key, the text format and the exception `JSON.parse` throws on corrupt text are not modelled.
  - The `typeof window` / `window.localStorage` check in `loadTimers` is folded into `storage == None`. So is the absence of the key, and so is the empty string, which `if (storedTimers)` treats as absent.
- **Dates.** `new Date().toLocaleString()` is an opaque `now` parameter of start and stop.
- **Object identity.** The model addresses a timer by its position in the list. It does not capture aliasing between the list element and the object the interval callback captured.
- **Interval handles.** The handle value is opaque. The table `intervalIds` is the set of its keys.
- **Ill-formed stored lists.** The component's methods require `Valid()`: ids increase along the list, and a running timer's last history slot is a text line. A stored list that breaks this is outside the model, for example one edited by hand. On such a list, stopping a running timer whose last slot is not text throws a `TypeError` in `split`.
- **The dialog.** `MatDialog`, `onSave`/`onCancel` and `window.location.reload` are reduced to `DialogClosed` and `SaveAndReload`. A reload is a save followed by a fresh construction from the stored image.
- **The total-time service.** `CommonPointService` is the string field `totalTimeSpend`. The unused `totalTime` field and the unused `totalTimeChanged` emitter have no counterpart.
- **The header and app components.** `HeaderComponent`, `AppComponent` and the templates are view glue.
- **Numbers.** JavaScript numbers are modelled as unbounded integers. Fractional or negative times and ids, and precision loss beyond 2^53, do not arise from the code's own operations and are not modelled.
- **Characters.** Titles are `seq<char>`, a sequence of Unicode scalar values rather than JavaScript's UTF-16 code units. Both expressions of `validateText` match ASCII characters only (the punctuation class and U+0020), so the difference does not change the result.
