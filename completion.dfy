/**
 * The per-card derivations of HomePage.kt's `HabitItem` and the mark-done
 * transition: whether the habit counts as completed today, whether it is
 * scheduled today, and the record the button's click produces.
 */
module Completion {
  import opened Wrappers
  import opened Calendar
  import opened Habits

  /**
   * Completed today: the stored instant and `now` share their day of the
   * month. Only `getDate` is compared, so neither the weekday nor the month
   * takes part. A null `lastTimeCompleted` is dereferenced with `!!`.
   */
  predicate CompletedToday(habit: HabitModel, now: Instant)
    requires habit.lastTimeCompleted.Some?
  {
    habit.lastTimeCompleted.value.date == now.date
  }

  /** Scheduled today: the `activeDays` entry at today's index. */
  predicate IsForToday(habit: HabitModel, todayIndex: DayIndex)
    requires todayIndex < |habit.activeDays|
  {
    habit.activeDays[todayIndex]
  }

  /** The guard of the mark-done button. */
  predicate Accepts(isCompletedToday: bool, isForToday: bool) {
    !isCompletedToday && isForToday
  }

  /**
   * The button's `onClick`: when the guard holds, the record copied with the
   * new streak and `lastTimeCompleted = now`; otherwise no record at all.
   */
  function OnClick(habit: HabitModel, isCompletedToday: bool, isForToday: bool,
                   todayIndex: DayIndex, now: Instant): (r: Option<HabitModel>)
    requires todayIndex < |habit.activeDays|
    ensures r.Some? <==> Accepts(isCompletedToday, isForToday)
    ensures r.Some? ==> r.value.lastTimeCompleted == Some(now)
    ensures r.Some? ==> r.value.(streak := habit.streak, lastTimeCompleted := habit.lastTimeCompleted) == habit
  {
    if !isCompletedToday && isForToday then
      var updatedStreak := if habit.activeDays[todayIndex] then habit.streak + 1 else 0;
      Some(habit.(streak := updatedStreak, lastTimeCompleted := Some(now)))
    else
      None
  }

  /** Completed-today depends on the day of the month alone: the weekday of either instant is irrelevant. */
  lemma CompletedTodayIgnoresWeekday(habit: HabitModel, now: Instant, other: Instant)
    requires habit.lastTimeCompleted.Some?
    requires other.date == now.date
    ensures CompletedToday(habit, now) == CompletedToday(habit, other)
  {
  }

  /**
   * Two instants on different weekdays are different calendar days, yet a
   * completion on one reads as completed on the other when the days of the
   * month agree (a Monday the 15th and a Wednesday the 15th a month later).
   */
  lemma CompletedOnAnotherDaySameDate()
    ensures var monday15 := Instant(MONDAY, 15);
            var wednesday15 := Instant(3, 15);
            var h := HabitModel("h", "Read", "", 2, Some(monday15), NO_ACTIVE_DAYS);
            monday15 != wednesday15 && CompletedToday(h, wednesday15)
  {
  }

  /** Different days of the month never read as completed today. */
  lemma NotCompletedOnOtherDate(habit: HabitModel, now: Instant)
    requires habit.lastTimeCompleted.Some?
    requires habit.lastTimeCompleted.value.date != now.date
    ensures !CompletedToday(habit, now)
  {
  }

  /**
   * A complete document with no stored completion time is loaded with the
   * clock's reading at load time, so its record can be evaluated (the `!!`
   * does not fail), and a card composed later reads it as completed exactly
   * when the day of the month is still the load's.
   */
  lemma MissingTimestampReadsCompleted(doc: Document, loadedAt: Instant, now: Instant)
    requires HasRequiredFields(doc) && doc.lastTimeCompleted.None?
    ensures LoadDocument(doc, loadedAt).Some?
    ensures LoadDocument(doc, loadedAt).value.lastTimeCompleted.Some?
    ensures CompletedToday(LoadDocument(doc, loadedAt).value, now) <==> loadedAt.date == now.date
  {
    LoadDocumentFields(doc, loadedAt);
  }

  /** Every record the loader yields can be evaluated without the `!!` failing. */
  lemma LoadedRecordsHaveTimestamp(snapshot: Option<seq<Document>>, now: Instant, k: nat)
    requires k < |LoadHabits(snapshot, now)|
    ensures LoadHabits(snapshot, now)[k].lastTimeCompleted.Some?
  {
  }

  /** Already completed, or not scheduled today: the click produces nothing (no write). */
  lemma ClickGuardedNoOp(habit: HabitModel, isCompletedToday: bool, todayIndex: DayIndex, now: Instant)
    requires todayIndex < |habit.activeDays|
    requires isCompletedToday || !IsForToday(habit, todayIndex)
    ensures OnClick(habit, isCompletedToday, IsForToday(habit, todayIndex), todayIndex, now) == None
  {
  }

  /**
   * An accepted click increments the streak (the reset-to-zero branch is never
   * taken, because the guard already checked the same `activeDays` entry),
   * stamps `now`, and leaves id, name, description and schedule unchanged.
   */
  lemma ClickAccepted(habit: HabitModel, todayIndex: DayIndex, now: Instant)
    requires todayIndex < |habit.activeDays|
    requires IsForToday(habit, todayIndex)
    ensures var r := OnClick(habit, false, IsForToday(habit, todayIndex), todayIndex, now);
      && r.Some?
      && r.value.streak == habit.streak + 1
      && r.value.lastTimeCompleted == Some(now)
      && r.value.habitID == habit.habitID
      && r.value.habitName == habit.habitName
      && r.value.habitDescription == habit.habitDescription
      && r.value.activeDays == habit.activeDays
  {
  }

  /**
   * With `isForToday` read from the same `activeDays` entry, whatever the flag,
   * every record the click produces has the incremented streak: the
   * reset-to-zero branch is never taken.
   */
  lemma StreakResetUnreachable(habit: HabitModel, isCompletedToday: bool, todayIndex: DayIndex, now: Instant)
    requires todayIndex < |habit.activeDays|
    requires OnClick(habit, isCompletedToday, IsForToday(habit, todayIndex), todayIndex, now).Some?
    ensures OnClick(habit, isCompletedToday, IsForToday(habit, todayIndex), todayIndex, now).value.streak == habit.streak + 1
  {
  }

  /** After a successful click the flag is set, so a second click in the same state produces nothing. */
  lemma SecondClickNoOp(habit: HabitModel, isCompletedToday: bool, todayIndex: DayIndex, now: Instant)
    requires todayIndex < |habit.activeDays|
    requires OnClick(habit, isCompletedToday, IsForToday(habit, todayIndex), todayIndex, now).Some?
    ensures OnClick(habit, !isCompletedToday, IsForToday(habit, todayIndex), todayIndex, now) == None
  {
  }

  /**
   * The stored record after an accepted click also reads as completed today,
   * so re-evaluating it (as the next snapshot does) rejects further clicks too.
   */
  lemma ClickedRecordReadsCompleted(habit: HabitModel, todayIndex: DayIndex, now: Instant)
    requires todayIndex < |habit.activeDays|
    requires IsForToday(habit, todayIndex)
    ensures var r := OnClick(habit, false, true, todayIndex, now).value;
      && r.lastTimeCompleted.Some?
      && CompletedToday(r, now)
      && todayIndex < |r.activeDays|
      && OnClick(r, CompletedToday(r, now), IsForToday(r, todayIndex), todayIndex, now) == None
  {
    var r := OnClick(habit, false, true, todayIndex, now).value;
    assert r.lastTimeCompleted == Some(now);
  }

  /**
   * A habit "Read" scheduled Monday, Wednesday and Friday with a streak of 2,
   * last completed on Monday the 12th and evaluated on Wednesday the 14th:
   * scheduled, not yet completed; the click yields streak 3 completed now, and
   * the new record rejects a further click the same day.
   */
  lemma ReadOnWednesday()
    ensures var now := Instant(3, 14);
            var i := TodayIndex(now.day);
            var h := HabitModel("read", "Read", "", 2, Some(Instant(MONDAY, 12)),
                                [true, false, true, false, true, false, false]);
            && i == 2
            && IsForToday(h, i) && !CompletedToday(h, now)
            && OnClick(h, false, true, i, now) == Some(h.(streak := 3, lastTimeCompleted := Some(now)))
            && OnClick(h.(streak := 3, lastTimeCompleted := Some(now)), true, true, i, now) == None
  {
  }

  /**
   * One `HabitItem` card: the values it derives once from the record and `now`,
   * and the local `isCompletedToday` variable that the write's success
   * listener toggles.
   */
  class HabitItem {
    const habit: HabitModel
    const userId: Option<string>
    const now: Instant
    const todayIndex: DayIndex
    const isForToday: bool
    var isCompletedToday: bool

    /** The derived values stay consistent with the record, whose schedule the strip reads in full. */
    ghost predicate Valid() {
      todayIndex == TodayIndex(now.day) &&
      |habit.activeDays| >= 7 &&
      isForToday == IsForToday(habit, todayIndex)
    }

    /**
     * Composing the card. It fails with `!!` on a null timestamp and with an
     * index error in the strip loop on a schedule shorter than seven entries
     * (the loop runs before the button is composed), so the button exists only
     * when both requires hold; `RenderItem` models the failing cases.
     */
    constructor (habit: HabitModel, userId: Option<string>, now: Instant)
      requires habit.lastTimeCompleted.Some?
      requires |habit.activeDays| >= 7
      ensures Valid()
      ensures this.habit == habit && this.userId == userId && this.now == now
      ensures isCompletedToday == CompletedToday(habit, now)
    {
      this.habit := habit;
      this.userId := userId;
      this.now := now;
      var i := TodayIndex(now.day);
      this.todayIndex := i;
      this.isForToday := habit.activeDays[i];
      this.isCompletedToday := habit.lastTimeCompleted.value.date == now.date;
    }

    /**
     * A click on the mark-done button: the record `OnClick` produces is sent
     * to the store only for a signed-in user. The write is asynchronous, so a
     * click changes nothing on the card; the flag changes in `OnWriteSuccess`.
     */
    method Click() returns (sent: Option<HabitModel>)
      requires Valid()
      ensures sent.Some? <==> userId.Some? && !isCompletedToday && isForToday
      ensures sent.Some? ==> sent.value == habit.(streak := habit.streak + 1, lastTimeCompleted := Some(now))
    {
      var updated := OnClick(habit, isCompletedToday, isForToday, todayIndex, now);
      sent := if userId.Some? then updated else None;
    }

    /** The success listener of a write: the flag is negated, not set. */
    method OnWriteSuccess()
      modifies this
      ensures isCompletedToday == !old(isCompletedToday)
    {
      isCompletedToday := !isCompletedToday;
    }
  }

  /** Two clicks on one card with the first write acknowledged in between: the second sends nothing. */
  method ClickTwice(habit: HabitModel, user: string, now: Instant) returns (first: Option<HabitModel>, second: Option<HabitModel>)
    requires habit.lastTimeCompleted.Some?
    requires |habit.activeDays| >= 7
    ensures first.Some? <==> !CompletedToday(habit, now) && IsForToday(habit, TodayIndex(now.day))
    ensures second == None
  {
    var card := new HabitItem(habit, Some(user), now);
    first := card.Click();
    if first.Some? {
      card.OnWriteSuccess();
    }
    second := card.Click();
  }

  /**
   * Two clicks before the first write is acknowledged: both send the same
   * record, and when both writes succeed the two toggles leave the card
   * reading as not completed.
   */
  method ClickTwiceBeforeAcknowledgement(habit: HabitModel, user: string, now: Instant)
      returns (first: Option<HabitModel>, second: Option<HabitModel>, completedAfter: bool)
    requires habit.lastTimeCompleted.Some?
    requires |habit.activeDays| >= 7
    ensures first.Some? <==> !CompletedToday(habit, now) && IsForToday(habit, TodayIndex(now.day))
    ensures second == first
    ensures first.Some? ==> !completedAfter
  {
    var card := new HabitItem(habit, Some(user), now);
    first := card.Click();
    second := card.Click();
    if first.Some? {
      card.OnWriteSuccess();
      card.OnWriteSuccess();
    }
    completedAfter := card.isCompletedToday;
  }
}
