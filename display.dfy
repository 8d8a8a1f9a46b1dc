/**
 * What one `HabitItem` card shows: the streak with its flame, the name and
 * description, the seven-cell weekday strip and the mark-done button, or the
 * fault that stops the card from being composed.
 */
module Display {
  import opened Wrappers
  import opened Calendar
  import opened Habits
  import opened Completion

  datatype Colour = LightGray | Green | Gray | White | Argb(value: int)

  /** Background of a scheduled day in the strip. */
  const ACTIVE_DAY_COLOUR: Colour := Argb(0xFF4CAF50)
  /** Background of an unscheduled day in the strip. */
  const INACTIVE_DAY_COLOUR: Colour := LightGray
  /** Label colour of today's cell. */
  const TODAY_LABEL_COLOUR: Colour := Argb(0xFFD81B60)

  datatype FontWeight = Normal | ExtraBold

  datatype Flame = FlameOn | FlameOff

  /** One cell of the weekday strip. */
  datatype DayCell = DayCell(dayName: string, background: Colour, weight: FontWeight, labelColour: Colour)

  /** The mark-done button's label and container colour. */
  datatype Button = Button(text: string, colour: Colour)

  /** A composed card. `description` is absent when the text is blank. */
  datatype ItemView = ItemView(
    streak: int,
    name: string,
    description: Option<string>,
    flame: Flame,
    strip: seq<DayCell>,
    button: Button)

  /** Why composing a card fails: the `!!` on a null timestamp, or an index past the end of `activeDays`. */
  datatype Fault = NullPointer | IndexOutOfBounds(index: int)

  function FlameOf(isCompletedToday: bool): (f: Flame)
    ensures f == FlameOn <==> isCompletedToday
  {
    if isCompletedToday then FlameOn else FlameOff
  }

  predicate IsWhitespace(c: char) {
    c == ' ' || c == '\t' || c == '\n' || c == '\r' || c == '\U{000B}' || c == '\U{000C}'
  }

  /** Kotlin's `isBlank`: empty or whitespace only. */
  predicate IsBlank(s: string) {
    forall k :: 0 <= k < |s| ==> IsWhitespace(s[k])
  }

  function ShownDescription(text: string): (d: Option<string>)
    ensures d.Some? <==> !IsBlank(text)
    ensures d.Some? ==> d.value == text
  {
    if IsBlank(text) then None else Some(text)
  }

  /** Cell `i` of the strip. */
  function Cell(activeDays: seq<bool>, todayIndex: DayIndex, i: DayIndex): DayCell
    requires i < |activeDays|
  {
    DayCell(
      DAY_LABELS[i],
      if activeDays[i] then ACTIVE_DAY_COLOUR else INACTIVE_DAY_COLOUR,
      if i == todayIndex then ExtraBold else Normal,
      if i == todayIndex then TODAY_LABEL_COLOUR else White)
  }

  /** The strip, one cell per label of `DAY_LABELS`. */
  function Strip(activeDays: seq<bool>, todayIndex: DayIndex): (cells: seq<DayCell>)
    requires |activeDays| >= 7
    ensures |cells| == 7
    ensures forall i :: 0 <= i < 7 ==> cells[i].dayName == DAY_LABELS[i]
    ensures forall i :: 0 <= i < 7 ==> (cells[i].background == ACTIVE_DAY_COLOUR <==> activeDays[i])
    ensures forall i :: 0 <= i < 7 ==> (cells[i].weight == ExtraBold <==> i == todayIndex)
  {
    seq(7, i requires 0 <= i < 7 => Cell(activeDays, todayIndex, i))
  }

  /** The button: ✘ when not scheduled, ✔ when completed, otherwise the invitation to mark it done. */
  function ButtonOf(isForToday: bool, isCompletedToday: bool): (b: Button)
    ensures b.text == "Mark Done?" <==> Accepts(isCompletedToday, isForToday)
    ensures b.colour == LightGray <==> !isForToday
    ensures b.colour == Green <==> isForToday && isCompletedToday
    ensures !isForToday ==> b == Button("✘", LightGray)
    ensures isForToday && isCompletedToday ==> b == Button("✔", Green)
    ensures Accepts(isCompletedToday, isForToday) ==> b == Button("Mark Done?", Gray)
  {
    if !isForToday then Button("✘", LightGray)
    else if isCompletedToday then Button("✔", Green)
    else Button("Mark Done?", Gray)
  }

  /** The number of cells drawn as today's. */
  function CountMarked(cells: seq<DayCell>): (n: nat)
    ensures n <= |cells|
  {
    if cells == [] then 0
    else (if cells[0].weight == ExtraBold then 1 else 0) + CountMarked(cells[1..])
  }

  lemma {:induction false} CountMarkedNone(cells: seq<DayCell>)
    requires forall i :: 0 <= i < |cells| ==> cells[i].weight != ExtraBold
    ensures CountMarked(cells) == 0
  {
    if cells != [] {
      assert forall i :: 0 <= i < |cells[1..]| ==> cells[1..][i] == cells[i + 1];
      CountMarkedNone(cells[1..]);
    }
  }

  lemma {:induction false} CountMarkedOne(cells: seq<DayCell>, t: nat)
    requires t < |cells|
    requires forall i :: 0 <= i < |cells| ==> (cells[i].weight == ExtraBold <==> i == t)
    ensures CountMarked(cells) == 1
  {
    assert forall i :: 0 <= i < |cells[1..]| ==> cells[1..][i] == cells[i + 1];
    if t == 0 {
      CountMarkedNone(cells[1..]);
    } else {
      CountMarkedOne(cells[1..], t - 1);
    }
  }

  /** Exactly one cell of the strip, the one at today's index, is drawn as today. */
  lemma StripMarksOneDay(activeDays: seq<bool>, todayIndex: DayIndex)
    requires |activeDays| >= 7
    ensures CountMarked(Strip(activeDays, todayIndex)) == 1
    ensures Strip(activeDays, todayIndex)[todayIndex].labelColour == TODAY_LABEL_COLOUR
  {
    CountMarkedOne(Strip(activeDays, todayIndex), todayIndex);
  }

  /** The cell drawn as today is labelled with the weekday `getDay` reported. */
  lemma StripTodayNamesWeekday(activeDays: seq<bool>, now: Instant)
    requires |activeDays| >= 7
    ensures Strip(activeDays, TodayIndex(now.day))[TodayIndex(now.day)].dayName == WEEKDAY_NAMES[now.day]
  {
    TodayLabelNamesWeekday(now.day);
  }

  /**
   * Composing a card. The `!!` on line 120 fails first for a null timestamp;
   * then `activeDays[todayIndex]` fails for a schedule too short for today's
   * index; then the strip loop fails at the first missing entry.
   */
  function RenderItem(habit: HabitModel, now: Instant): (r: Result<ItemView, Fault>)
    ensures r.Success? <==> habit.lastTimeCompleted.Some? && |habit.activeDays| >= 7
    ensures habit.lastTimeCompleted.None? ==> r == Failure(NullPointer)
  {
    var todayIndex := TodayIndex(now.day);
    if habit.lastTimeCompleted.None? then Failure(NullPointer)
    else if |habit.activeDays| <= todayIndex then Failure(IndexOutOfBounds(todayIndex))
    else if |habit.activeDays| < 7 then Failure(IndexOutOfBounds(|habit.activeDays|))
    else
      var isCompletedToday := CompletedToday(habit, now);
      var isForToday := IsForToday(habit, todayIndex);
      Success(ItemView(
        habit.streak,
        habit.habitName,
        ShownDescription(habit.habitDescription),
        FlameOf(isCompletedToday),
        Strip(habit.activeDays, todayIndex),
        ButtonOf(isForToday, isCompletedToday)))
  }

  /**
   * A composed card agrees with the state machine: the flame is on iff the
   * habit counts as completed today, the strip shows the schedule with today
   * marked once, and the button invites a click exactly when the click would
   * produce an updated record.
   */
  lemma RenderItemAgrees(habit: HabitModel, now: Instant)
    requires habit.lastTimeCompleted.Some? && |habit.activeDays| >= 7
    ensures var r := RenderItem(habit, now);
            var i := TodayIndex(now.day);
      && r.Success?
      && r.value.streak == habit.streak
      && (r.value.flame == FlameOn <==> CompletedToday(habit, now))
      && |r.value.strip| == 7
      && (forall k :: 0 <= k < 7 ==> (r.value.strip[k].background == ACTIVE_DAY_COLOUR <==> habit.activeDays[k]))
      && CountMarked(r.value.strip) == 1
      && r.value.strip[i].weight == ExtraBold
      && (r.value.button.text == "Mark Done?"
          <==> OnClick(habit, CompletedToday(habit, now), IsForToday(habit, i), i, now).Some?)
  {
    StripMarksOneDay(habit.activeDays, TodayIndex(now.day));
  }

  /** A record from the loader composes exactly when its schedule has at least seven entries. */
  lemma LoadedRecordRenders(doc: Document, now: Instant)
    requires HasRequiredFields(doc)
    ensures RenderItem(LoadDocument(doc, now).value, now).Success?
            <==> |LoadDocument(doc, now).value.activeDays| >= 7
    ensures doc.activeDays.None? ==> RenderItem(LoadDocument(doc, now).value, now).Success?
  {
    LoadDocumentFields(doc, now);
  }

  /**
   * The unchecked cast lets a short schedule through the loader: a document
   * holding a one-entry `activeDays`, composed on a Tuesday, fails at the
   * `activeDays[todayIndex]` lookup.
   */
  lemma ShortScheduleFaults()
    ensures var doc := Document(Some("h"), Some("Run"), Some(""), None, None, Some([true]));
            var tuesday := Instant(2, 9);
            && LoadDocument(doc, tuesday).Some?
            && RenderItem(LoadDocument(doc, tuesday).value, tuesday) == Failure(IndexOutOfBounds(1))
  {
  }
}
