/**
 * The screen-level state of `HomePage`: the list of habits and the loading
 * flag, both replaced wholesale whenever the collection listener fires.
 */
module Screen {
  import opened Wrappers
  import opened Calendar
  import opened Habits

  class HomeScreen {
    var habits: seq<HabitModel>
    var isLoading: bool

    /** Before the first snapshot: no habits, still loading. */
    constructor ()
      ensures habits == [] && isLoading
    {
      habits := [];
      isLoading := true;
    }

    /** A snapshot arrives (possibly null): the habits become its loaded records, loading ends. */
    method OnSnapshot(snapshot: Option<seq<Document>>, now: Instant)
      modifies this
      ensures habits == LoadHabits(snapshot, now)
      ensures !isLoading
      ensures forall k :: 0 <= k < |habits| ==> habits[k].lastTimeCompleted.Some?
    {
      habits := LoadHabits(snapshot, now);
      isLoading := false;
    }

    /** The listener reports an error: loading ends and the habits are kept. */
    method OnListenerError()
      modifies this
      ensures habits == old(habits)
      ensures !isLoading
    {
      isLoading := false;
    }
  }
}
