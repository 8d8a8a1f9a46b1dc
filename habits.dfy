/**
 * Habit records and the loader that turns the documents of a store snapshot
 * into them (the `mapNotNull` over `snapshot.documents` in HomePage.kt).
 */
module Habits {
  import opened Wrappers
  import opened Calendar

  /** One habit as the screen holds it. */
  datatype HabitModel = HabitModel(
    habitID: string,
    habitName: string,
    habitDescription: string,
    streak: int,
    lastTimeCompleted: Option<Instant>,
    activeDays: seq<bool>)

  /**
   * One raw document of the user's habit collection; `None` stands for a field
   * that is absent or null; for `activeDays` also a value that is not a list,
   * which the safe cast turns into null. A list is taken whatever its length,
   * since the cast does not check it.
   */
  datatype Document = Document(
    habitID: Option<string>,
    habitName: Option<string>,
    habitDescription: Option<string>,
    streak: Option<int>,
    lastTimeCompleted: Option<Instant>,
    activeDays: Option<seq<bool>>)

  /** The default schedule: seven inactive days. */
  const NO_ACTIVE_DAYS: seq<bool> := [false, false, false, false, false, false, false]

  /** The three fields without which a document is dropped. */
  predicate HasRequiredFields(doc: Document) {
    doc.habitID.Some? && doc.habitName.Some? && doc.habitDescription.Some?
  }

  /** Converts one document, or drops it (`return@mapNotNull null`). */
  function LoadDocument(doc: Document, now: Instant): (r: Option<HabitModel>)
    ensures r.Some? <==> HasRequiredFields(doc)
    ensures r.Some? ==> r.value.lastTimeCompleted.Some?
  {
    if doc.habitID.None? || doc.habitName.None? || doc.habitDescription.None? then None
    else
      Some(HabitModel(
        habitID := doc.habitID.value,
        habitName := doc.habitName.value,
        habitDescription := doc.habitDescription.value,
        streak := if doc.streak.Some? then doc.streak.value else 0,
        lastTimeCompleted := Some(if doc.lastTimeCompleted.Some? then doc.lastTimeCompleted.value else now),
        activeDays := if doc.activeDays.Some? then doc.activeDays.value else NO_ACTIVE_DAYS))
  }

  /** The loader over a list of documents: converted in order, incomplete ones dropped. */
  function LoadDocs(docs: seq<Document>, now: Instant): (r: seq<HabitModel>)
    ensures |r| <= |docs|
    ensures forall k :: 0 <= k < |r| ==> r[k].lastTimeCompleted.Some?
  {
    if docs == [] then []
    else
      match LoadDocument(docs[0], now)
      case Some(h) => [h] + LoadDocs(docs[1..], now)
      case None => LoadDocs(docs[1..], now)
  }

  /** The loader over a possibly null snapshot (`?: emptyList()`). */
  function LoadHabits(snapshot: Option<seq<Document>>, now: Instant): (r: seq<HabitModel>)
    ensures snapshot.None? ==> r == []
    ensures forall k :: 0 <= k < |r| ==> r[k].lastTimeCompleted.Some?
  {
    match snapshot
    case None => []
    case Some(docs) => LoadDocs(docs, now)
  }

  /** Present fields are copied; missing optional fields get their defaults. */
  lemma LoadDocumentFields(doc: Document, now: Instant)
    requires HasRequiredFields(doc)
    ensures var h := LoadDocument(doc, now).value;
      && h.habitID == doc.habitID.value
      && h.habitName == doc.habitName.value
      && h.habitDescription == doc.habitDescription.value
      && (doc.streak.Some? ==> h.streak == doc.streak.value)
      && (doc.streak.None? ==> h.streak == 0)
      && (doc.lastTimeCompleted.Some? ==> h.lastTimeCompleted == doc.lastTimeCompleted)
      && (doc.lastTimeCompleted.None? ==> h.lastTimeCompleted == Some(now))
      && (doc.activeDays.Some? ==> h.activeDays == doc.activeDays.value)
      && (doc.activeDays.None? ==> h.activeDays == NO_ACTIVE_DAYS && |h.activeDays| == 7)
  {
  }

  /** Loading distributes over concatenation: documents are handled one by one, in order. */
  lemma {:induction false} LoadDocsAppend(a: seq<Document>, b: seq<Document>, now: Instant)
    ensures LoadDocs(a + b, now) == LoadDocs(a, now) + LoadDocs(b, now)
  {
    if a == [] {
      assert a + b == b;
    } else {
      assert (a + b)[0] == a[0];
      assert (a + b)[1..] == a[1..] + b;
      LoadDocsAppend(a[1..], b, now);
    }
  }

  /** A single document yields exactly its own record, or nothing when it is incomplete. */
  lemma LoadDocsSingle(doc: Document, now: Instant)
    ensures HasRequiredFields(doc) ==> LoadDocs([doc], now) == [LoadDocument(doc, now).value]
    ensures !HasRequiredFields(doc) ==> LoadDocs([doc], now) == []
  {
    assert [doc][1..] == [];
  }

  /** When every document is complete, each yields exactly one record at its own position. */
  lemma {:induction false} LoadDocsAllComplete(docs: seq<Document>, now: Instant)
    requires forall i :: 0 <= i < |docs| ==> HasRequiredFields(docs[i])
    ensures |LoadDocs(docs, now)| == |docs|
    ensures forall i :: 0 <= i < |docs| ==> LoadDocs(docs, now)[i] == LoadDocument(docs[i], now).value
  {
    if docs != [] {
      LoadDocsAllComplete(docs[1..], now);
      var r := LoadDocs(docs, now);
      var h := LoadDocument(docs[0], now).value;
      assert r == [h] + LoadDocs(docs[1..], now);
      forall i | 0 <= i < |docs|
        ensures r[i] == LoadDocument(docs[i], now).value
      {
        if i > 0 {
          assert r[i] == LoadDocs(docs[1..], now)[i - 1];
          assert docs[1..][i - 1] == docs[i];
        }
      }
    }
  }

  /** When no document has all required fields, nothing is loaded. */
  lemma {:induction false} LoadDocsNoneComplete(docs: seq<Document>, now: Instant)
    requires forall i :: 0 <= i < |docs| ==> !HasRequiredFields(docs[i])
    ensures LoadDocs(docs, now) == []
  {
    if docs != [] {
      assert forall i :: 0 <= i < |docs[1..]| ==> docs[1..][i] == docs[i + 1];
      LoadDocsNoneComplete(docs[1..], now);
    }
  }

  /** Every loaded record is the conversion of some complete document of the input. */
  lemma {:induction false} LoadDocsSound(docs: seq<Document>, now: Instant, k: nat)
    requires k < |LoadDocs(docs, now)|
    ensures exists i :: 0 <= i < |docs| && HasRequiredFields(docs[i])
                        && LoadDocument(docs[i], now) == Some(LoadDocs(docs, now)[k])
  {
    var r := LoadDocs(docs, now);
    match LoadDocument(docs[0], now)
    case Some(h) =>
      if k == 0 {
        assert LoadDocument(docs[0], now) == Some(r[0]);
      } else {
        LoadDocsSound(docs[1..], now, k - 1);
        var i :| 0 <= i < |docs[1..]| && HasRequiredFields(docs[1..][i])
                 && LoadDocument(docs[1..][i], now) == Some(LoadDocs(docs[1..], now)[k - 1]);
        assert docs[1..][i] == docs[i + 1];
      }
    case None =>
      LoadDocsSound(docs[1..], now, k);
      var i :| 0 <= i < |docs[1..]| && HasRequiredFields(docs[1..][i])
               && LoadDocument(docs[1..][i], now) == Some(LoadDocs(docs[1..], now)[k]);
      assert docs[1..][i] == docs[i + 1];
  }
}
