# Habit completion state machine of the tracker's home screen

This project models, in Dafny, the decision logic of the habit tracker's home
screen (`HomePage.kt`): the loader that turns the documents of the user's habit
collection into `HabitModel` records, the per-card derivations (today's
`activeDays` index, completed-today, scheduled-today), the mark-done click that
produces the updated record, and what a card shows (flame, weekday strip,
button). Store access, authentication and Compose layout are outside it.

An instant is reduced to the two calendar fields the screen reads from
`java.util.Date`: the Sunday-based weekday (`getDay`, 0 = Sunday) and the day of
the month (`getDate`). The current instant is a parameter (`now`); the three
separate clock reads of a card are one value.

Modules:

- `Wrappers` (wrappers.dfy): `Option` and `Result`.
- `Calendar` (calendar.dfy): `Instant`, the weekday remap `TodayIndex` and its inverse.
- `Habits` (habits.dfy): `HabitModel`, raw `Document`s and the loader.
- `Completion` (completion.dfy): completed-today, scheduled-today, the click
  transition `OnClick`, and the class `HabitItem` holding the card's mutable
  `isCompletedToday` flag.
- `Display` (display.dfy): flame, description, strip, button and `RenderItem`,
  which composes a card or names the fault (null pointer, index out of bounds)
  that stops it.
- `Screen` (screen.dfy): the class `HomeScreen` with the `habits` list and the
  `isLoading` flag that each snapshot replaces.

Three behaviours of the code that the model keeps:

- Completed-today compares only the day of the month, not the calendar day, so
  a completion on the 15th reads as completed on the 15th of any later month.
- A document without `lastTimeCompleted` is loaded with the clock's reading at
  load time, so it reads as completed that day, not as never completed.
- The loader does not check that `activeDays` has seven entries; a shorter
  schedule loads and then makes the card fail with an index error.
- `HabitModel`'s own declaration is not part of this model; its fields are
  taken from their use in `HomePage.kt`.

## Model

| member | source | states |
|---|---|---|
| `Calendar.TodayIndex` | app/src/main/java/com/example/tracker/pages/HomePage.kt:115 | the remap sends Sunday to 6 and every other weekday `d` to `d - 1`, always within 0..6 |
| `Calendar.SundayAndMonday` | app/src/main/java/com/example/tracker/pages/HomePage.kt:115 | Sunday maps to index 6 and Monday to index 0 |
| `Calendar.TodayIndexRoundTrip` | app/src/main/java/com/example/tracker/pages/HomePage.kt:115 | the remap and the reference inverse `WeekdayAt` undo each other in both directions |
| `Calendar.TodayIndexInjective` | app/src/main/java/com/example/tracker/pages/HomePage.kt:115 | distinct weekdays get distinct indices |
| `Calendar.TodayIndexSurjective` | app/src/main/java/com/example/tracker/pages/HomePage.kt:115 | every index 0..6 is reached by some weekday |
| `Calendar.TodayLabelNamesWeekday` | app/src/main/java/com/example/tracker/pages/HomePage.kt:266 | the strip label at the remapped index is the name of the weekday `getDay` reported |
| `Habits.LoadDocument` | app/src/main/java/com/example/tracker/pages/HomePage.kt:68-84 | a document yields a record iff it has `habitID`, `habitName` and `habitDescription`; a yielded record always has a completion time |
| `Habits.LoadDocumentFields` | app/src/main/java/com/example/tracker/pages/HomePage.kt:69-83 | present fields are copied; missing `streak` becomes 0, missing `lastTimeCompleted` becomes `now`, missing `activeDays` becomes seven `false` |
| `Habits.LoadDocs` | app/src/main/java/com/example/tracker/pages/HomePage.kt:68-84 | never more records than documents, and every record has a completion time |
| `Habits.LoadHabits` | app/src/main/java/com/example/tracker/pages/HomePage.kt:68-84 | a null snapshot yields the empty list; every loaded record has a completion time |
| `Habits.LoadDocsAppend` | app/src/main/java/com/example/tracker/pages/HomePage.kt:68-84 | loading a concatenation is the concatenation of the loads: records keep the documents' order |
| `Habits.LoadDocsSingle` | app/src/main/java/com/example/tracker/pages/HomePage.kt:68-84 | one document yields exactly its own record when complete and nothing otherwise |
| `Habits.LoadDocsAllComplete` | app/src/main/java/com/example/tracker/pages/HomePage.kt:68-84 | when every document is complete, record `i` is the conversion of document `i` and the lengths agree |
| `Habits.LoadDocsNoneComplete` | app/src/main/java/com/example/tracker/pages/HomePage.kt:68-84 | when no document is complete, nothing is loaded |
| `Habits.LoadDocsSound` | app/src/main/java/com/example/tracker/pages/HomePage.kt:68-84 | every loaded record is the conversion of some complete input document |
| `Completion.CompletedTodayIgnoresWeekday` | app/src/main/java/com/example/tracker/pages/HomePage.kt:118-120 | completed-today depends only on the day of the month of `now` |
| `Completion.CompletedOnAnotherDaySameDate` | app/src/main/java/com/example/tracker/pages/HomePage.kt:118-120 | a Monday the 15th and a different day, a Wednesday the 15th, count as the same day |
| `Completion.NotCompletedOnOtherDate` | app/src/main/java/com/example/tracker/pages/HomePage.kt:118-120 | different days of the month never read as completed today |
| `Completion.MissingTimestampReadsCompleted` | app/src/main/java/com/example/tracker/pages/HomePage.kt:73-120 | a complete document with no stored completion time loads with the load-time instant, has a timestamp (the `!!` holds), and a card reads it as completed iff its day of the month is the load's |
| `Completion.LoadedRecordsHaveTimestamp` | app/src/main/java/com/example/tracker/pages/HomePage.kt:68-120 | no record from the loader makes the `!!` fail |
| `Completion.OnClick` | app/src/main/java/com/example/tracker/pages/HomePage.kt:306-312 | a record is produced iff not completed today and scheduled today; it carries `now` and differs from the old record only in streak and completion time |
| `Completion.ClickGuardedNoOp` | app/src/main/java/com/example/tracker/pages/HomePage.kt:306 | already completed or not scheduled: no record, no write |
| `Completion.ClickAccepted` | app/src/main/java/com/example/tracker/pages/HomePage.kt:306-312 | an accepted click gives `streak + 1` and `now`, keeping id, name, description and schedule |
| `Completion.StreakResetUnreachable` | app/src/main/java/com/example/tracker/pages/HomePage.kt:307-308 | whatever the flag, every record the click produces has `streak + 1`: the reset-to-zero branch is never taken |
| `Completion.SecondClickNoOp` | app/src/main/java/com/example/tracker/pages/HomePage.kt:306-326 | once a click was accepted and its acknowledgement negated the flag, the next click produces nothing |
| `Completion.ClickedRecordReadsCompleted` | app/src/main/java/com/example/tracker/pages/HomePage.kt:306-312 | the written record itself reads as completed today, so re-evaluating it rejects further clicks |
| `Completion.ReadOnWednesday` | app/src/main/java/com/example/tracker/pages/HomePage.kt:115-121 | a Mon/Wed/Fri habit with streak 2 on a Wednesday is due, a click gives streak 3 at `now`, and a second click is refused |
| `Completion.HabitItem.constructor` | app/src/main/java/com/example/tracker/pages/HomePage.kt:115-121 | for a record with a timestamp and at least seven schedule entries, composing a card fixes today's index, scheduled-today and the initial completed-today flag |
| `Completion.HabitItem.Click` | app/src/main/java/com/example/tracker/pages/HomePage.kt:304-319 | a click sends a record iff the user is signed in, the flag is clear and the habit is due; the record is the old one with `streak + 1` and `now` |
| `Completion.HabitItem.OnWriteSuccess` | app/src/main/java/com/example/tracker/pages/HomePage.kt:320-327 | the write's success listener negates the completed-today flag |
| `Completion.ClickTwice` | app/src/main/java/com/example/tracker/pages/HomePage.kt:304-337 | with the first write acknowledged before the second click, the first click sends a record exactly when due and the second sends nothing |
| `Completion.ClickTwiceBeforeAcknowledgement` | app/src/main/java/com/example/tracker/pages/HomePage.kt:304-337 | two clicks before the first acknowledgement both send the same record, and two successful writes leave the flag clear |
| `Display.FlameOf` | app/src/main/java/com/example/tracker/pages/HomePage.kt:153 | the flame is on iff completed today |
| `Display.ShownDescription` | app/src/main/java/com/example/tracker/pages/HomePage.kt:192-198 | the description is shown, unchanged, iff it is not blank |
| `Display.Strip` | app/src/main/java/com/example/tracker/pages/HomePage.kt:266-282 | seven cells labelled Mon..Sun; cell `i` is green iff `activeDays[i]` and bold iff `i` is today's index |
| `Display.ButtonOf` | app/src/main/java/com/example/tracker/pages/HomePage.kt:339-347 | ✘ on LightGray when not scheduled, ✔ on Green when scheduled and completed, "Mark Done?" on Gray exactly when the click guard holds |
| `Display.StripMarksOneDay` | app/src/main/java/com/example/tracker/pages/HomePage.kt:279-280 | exactly one cell of the strip is drawn as today, in the today colour |
| `Display.StripTodayNamesWeekday` | app/src/main/java/com/example/tracker/pages/HomePage.kt:266-280 | the cell drawn as today is labelled with the current weekday's name |
| `Display.RenderItem` | app/src/main/java/com/example/tracker/pages/HomePage.kt:115-282 | a card composes iff the record has a completion time and at least seven schedule entries; a null time fails with a null pointer |
| `Display.RenderItemAgrees` | app/src/main/java/com/example/tracker/pages/HomePage.kt:153-347 | a composed card shows the streak, the flame iff completed, the schedule with today marked once, and "Mark Done?" exactly when a click would produce a record |
| `Display.LoadedRecordRenders` | app/src/main/java/com/example/tracker/pages/HomePage.kt:74-121 | a loaded record composes iff its schedule has at least seven entries; the default schedule always composes |
| `Display.ShortScheduleFaults` | app/src/main/java/com/example/tracker/pages/HomePage.kt:74-121 | a one-entry `activeDays` passes the loader and the card fails with an index error on a Tuesday |
| `Screen.HomeScreen.constructor` | app/src/main/java/com/example/tracker/pages/HomePage.kt:38-39 | the screen starts with no habits and loading |
| `Screen.HomeScreen.OnSnapshot` | app/src/main/java/com/example/tracker/pages/HomePage.kt:67-86 | a snapshot replaces the habits with its loaded records and ends loading |
| `Screen.HomeScreen.OnListenerError` | app/src/main/java/com/example/tracker/pages/HomePage.kt:60-64 | a listener error ends loading and keeps the habits |

## Left out

- Store access: the snapshot subscription and the `set` write are foreign asynchronous I/O. The write is modelled as the record a click sends, and its success listener as a separate step on the card; the failure listener only shows a toast. The listener's error path is kept for its effect on the screen: loading ends and the habits stay.
- User lookup and the not-logged-in early return, toasts, log calls and the debug toast of today's index: platform side effects.
- Compose layout, recomposition, `LaunchedEffect`, the loading spinner and the lazy list: UI lifecycle, not logic.
- Calendar conversion of timestamps and time zones: an instant is only (weekday, day of month). One `now` stands for the three clock reads of a card; the loader's own clock read, taken per document when a snapshot arrives, is a separate parameter.
- Document fields of the wrong type: for `habitID`, `habitName`, `habitDescription`, `streak` and `lastTimeCompleted` the store library throws, which is not modelled (such a field is either present with the right type or absent). For `activeDays` the safe cast turns a non-list into null, which the model covers as an absent field. Non-boolean elements inside an `activeDays` list are not modelled.
- `Long.toInt()` truncation of the stored streak and overflow of `streak + 1`: integers are unbounded.
- The "Edit" button (its click does nothing) and the commented-out button and fetch code.
- `Color.kt`: colour constants only; colours appear here as names or ARGB values.
- `Display.ShownDescription`: blankness uses six ASCII whitespace characters, not Kotlin's full Unicode whitespace test.
