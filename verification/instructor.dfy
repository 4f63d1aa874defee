/** The ride operator's screen: it shows one attraction's queue and completes a ride by bracelet
    code, typed in any case. Admin status and the logged-in user come from the staff store. */
module Instructor {
  import opened Wrappers
  import Seqs
  import Text
  import QueueStore

  /** How `handleQuickComplete` ended: the two validation errors, "bracelet not found", or the ride
      of the entry with this stored code was completed. */
  datatype Outcome = EmptyCode | NoAttraction | NotFound | Completed(braceletCode: string)

  /** The zustand queue after the click and the text left in the code field. */
  datatype QuickResult = QuickResult(outcome: Outcome, queue: seq<QueueStore.QueueEntry>, input: string)

  /** The attraction the screen works on: the selected one for an admin, the user's own otherwise;
      "" means none. */
  function EffectiveAttraction(isAdmin: bool, selected: string, userAttraction: Option<string>): (a: string)
    ensures isAdmin ==> a == selected
    ensures !isAdmin && userAttraction.Some? ==> a == userAttraction.value
    ensures !isAdmin && userAttraction.None? ==> a == ""
  {
    if isAdmin then selected else userAttraction.GetOr("")
  }

  /** The form the typed code is compared in: trimmed, then upper-cased. */
  function Key(input: string): (k: string)
    ensures k == [] <==> Text.IsBlank(input)
  {
    Text.Upper(Text.Trim(input))
  }

  function MatchesKey(key: string): QueueStore.QueueEntry -> bool {
    (e: QueueStore.QueueEntry) => Text.Upper(e.braceletCode) == key
  }

  /** `handleQuickComplete` against the queue shown for attraction `a`. A blank code, then a missing
      attraction, are refused. Otherwise the first shown entry whose upper-cased code equals the key
      is completed through `removeFromQueue` with its stored code, and the field is cleared; with no
      such entry nothing changes. */
  function QuickComplete(q: seq<QueueStore.QueueEntry>, input: string, a: string, now: int): (r: QuickResult)
    ensures r.outcome == EmptyCode <==> Text.IsBlank(input)
    ensures r.outcome == NoAttraction <==> !Text.IsBlank(input) && a == ""
    ensures r.outcome == NotFound <==>
      && !Text.IsBlank(input) && a != ""
      && forall i :: 0 <= i < |QueueStore.GetAttractionQueue(q, a)| ==>
           Text.Upper(QueueStore.GetAttractionQueue(q, a)[i].braceletCode) != Key(input)
    ensures r.outcome.Completed? ==>
      && (exists e :: e in q && e.attractionId == a && e.braceletCode == r.outcome.braceletCode)
      && Text.Upper(r.outcome.braceletCode) == Key(input)
      && (exists e :: FirstShownMatch(q, Key(input), a, e) && e.braceletCode == r.outcome.braceletCode)
      && r.queue == QueueStore.RemoveFromQueue(q, r.outcome.braceletCode, now)
      && r.input == ""
    ensures !r.outcome.Completed? ==> r.queue == q && r.input == input
  {
    var key := Key(input);
    if key == [] then QuickResult(EmptyCode, q, input)
    else if a == "" then QuickResult(NoAttraction, q, input)
    else
      match FindShown(q, key, a)
      case None => QuickResult(NotFound, q, input)
      case Some(entry) =>
        CompletedIsFirst(q, key, a, entry);
        QuickResult(Completed(entry.braceletCode), QueueStore.RemoveFromQueue(q, entry.braceletCode, now), "")
  }

  lemma CompletedIsFirst(q: seq<QueueStore.QueueEntry>, key: string, a: string, entry: QueueStore.QueueEntry)
    requires FindShown(q, key, a) == Some(entry)
    ensures exists e :: FirstShownMatch(q, key, a, e) && e.braceletCode == entry.braceletCode
  {
    assert FirstShownMatch(q, key, a, entry);
  }

  /** The first entry of the shown queue of `a` whose upper-cased code is `key`. */
  function FindShown(q: seq<QueueStore.QueueEntry>, key: string, a: string): (r: Option<QueueStore.QueueEntry>)
    ensures r.None? <==> forall i :: 0 <= i < |QueueStore.GetAttractionQueue(q, a)| ==>
      Text.Upper(QueueStore.GetAttractionQueue(q, a)[i].braceletCode) != key
    ensures r.Some? ==> r.value in q && r.value.attractionId == a && Text.Upper(r.value.braceletCode) == key
    ensures r.Some? ==> FirstShownMatch(q, key, a, r.value)
  {
    var shown := QueueStore.GetAttractionQueue(q, a);
    var r := Seqs.Find(shown, MatchesKey(key));
    assert r.Some? ==> r.value in shown && MatchesKey(key)(r.value);
    FoundIsFirst(q, key, a);
    r
  }

  lemma FoundIsFirst(q: seq<QueueStore.QueueEntry>, key: string, a: string)
    ensures var r := Seqs.Find(QueueStore.GetAttractionQueue(q, a), MatchesKey(key));
      r.Some? ==> FirstShownMatch(q, key, a, r.value)
  {
    var shown := QueueStore.GetAttractionQueue(q, a);
    var r := Seqs.Find(shown, MatchesKey(key));
    if r.Some? {
      var k :| 0 <= k < |shown| && shown[k] == r.value && forall j :: 0 <= j < k ==> !MatchesKey(key)(shown[j]);
      assert FirstShownMatchAt(q, key, a, r.value, k);
    }
  }

  /** `e` is the `k`-th entry of `a`'s shown queue, and no earlier shown entry matches `key`. */
  predicate FirstShownMatchAt(q: seq<QueueStore.QueueEntry>, key: string, a: string, e: QueueStore.QueueEntry, k: int) {
    var shown := QueueStore.GetAttractionQueue(q, a);
    && 0 <= k < |shown| && shown[k] == e
    && forall j :: 0 <= j < k ==> Text.Upper(shown[j].braceletCode) != key
  }

  /** `e` is the first entry of `a`'s shown queue whose upper-cased code is `key`, as `queue.find`
      returns it. */
  ghost predicate FirstShownMatch(q: seq<QueueStore.QueueEntry>, key: string, a: string, e: QueueStore.QueueEntry) {
    exists k :: FirstShownMatchAt(q, key, a, e, k)
  }

  /** The case the code is typed in does not matter: typing it upper-cased gives the same result. */
  lemma CaseInsensitive(q: seq<QueueStore.QueueEntry>, input: string, a: string, now: int)
    ensures QuickComplete(q, Text.Upper(input), a, now).outcome == QuickComplete(q, input, a, now).outcome
    ensures QuickComplete(q, Text.Upper(input), a, now).queue == QuickComplete(q, input, a, now).queue
  {
    UpperKeepsKey(input);
    SameKeySameResult(q, Text.Upper(input), input, a, now);
  }

  lemma UpperKeepsKey(input: string)
    ensures Key(Text.Upper(input)) == Key(input)
  {
    Text.TrimUpperCommute(input);
    Text.UpperIdempotent(Text.Trim(input));
  }

  /** Only the key of the typed text decides what happens to the queue. */
  lemma SameKeySameResult(q: seq<QueueStore.QueueEntry>, s: string, t: string, a: string, now: int)
    requires Key(s) == Key(t)
    ensures QuickComplete(q, s, a, now).outcome == QuickComplete(q, t, a, now).outcome
    ensures QuickComplete(q, s, a, now).queue == QuickComplete(q, t, a, now).queue
  {
  }

  /** A completed ride takes its bracelet out of the queue altogether. */
  lemma CompletedLeavesQueue(q: seq<QueueStore.QueueEntry>, input: string, a: string, now: int)
    requires QuickComplete(q, input, a, now).outcome.Completed?
    ensures var r := QuickComplete(q, input, a, now);
      forall i :: 0 <= i < |r.queue| ==> r.queue[i].braceletCode != r.outcome.braceletCode
  {
  }
}
