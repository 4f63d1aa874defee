/** `useLocalQueue`: the queue engine the cashier and instructor screens use. Entries are never
    deleted: completing a bracelet marks its entry completed, and every view filters on `active`. */
module LocalQueue {
  import opened Wrappers
  import Seqs
  import Sorting
  import Text
  import Catalog
  import Settings
  import Protocol

  datatype Status = Active | Completed | Cancelled

  /** One stored entry; times are milliseconds since the epoch. */
  datatype LocalEntry = LocalEntry(
    id: string,
    attractionId: string,
    braceletCode: string,
    customerName: string,
    position: int,
    estimatedTime: int,
    createdAt: int,
    status: Status,
    completedBy: Option<string>,
    completedAt: Option<int>)

  /** The error `removeFromQueue` throws when no active entry carries the code. */
  datatype QueueError = TicketNotFound(braceletCode: string)

  function IsActive(e: LocalEntry): bool {
    e.status == Active
  }

  function ActiveOf(a: string): LocalEntry -> bool {
    (e: LocalEntry) => e.attractionId == a && e.status == Active
  }

  function OfAttraction(a: string): LocalEntry -> bool {
    (e: LocalEntry) => e.attractionId == a
  }

  function ActiveWithCode(code: string): LocalEntry -> bool {
    (e: LocalEntry) => e.braceletCode == code && e.status == Active
  }

  function LacksCode(code: string): LocalEntry -> bool {
    (e: LocalEntry) => e.braceletCode != code
  }

  function ByPosition(e: LocalEntry): int {
    e.position
  }

  /** The active entries of attraction `a`, in array order. */
  function ActiveFor(q: seq<LocalEntry>, a: string): seq<LocalEntry> {
    Seqs.Filter(q, ActiveOf(a))
  }

  /** The `queue` the hook exposes: the active entries only, in array order. */
  function ActiveQueue(q: seq<LocalEntry>): (r: seq<LocalEntry>)
    ensures forall i :: 0 <= i < |r| ==> r[i].status == Active && r[i] in q
    ensures forall i :: 0 <= i < |q| && q[i].status == Active ==> q[i] in r
  {
    Seqs.Filter(q, IsActive)
  }

  /** The minutes per visitor `addToQueue` uses: the stored setting if truthy, else 5.
      It never consults the catalog. */
  function AddDuration(settings: seq<Settings.AttractionSetting>, a: string): int {
    Settings.OrElse(Settings.StoredDuration(settings, a), 5)
  }

  /** `addToQueue(braceletCode, attractionId)`, with the stored settings, the generated id and the
      clock as parameters. The entry is appended at the next position among the attraction's active
      entries; every visitor ahead of it costs one duration. No attraction id is rejected. */
  function AddToQueue(q: seq<LocalEntry>, settings: seq<Settings.AttractionSetting>,
                      braceletCode: string, attractionId: string, freshId: string, now: int)
    : (r: seq<LocalEntry>)
    ensures |r| == |q| + 1 && r[..|q|] == q
    ensures var e := r[|q|];
      && e.id == freshId
      && e.attractionId == attractionId
      && e.braceletCode == Text.Upper(braceletCode)
      && e.customerName == e.braceletCode
      && e.position == |ActiveFor(q, attractionId)| + 1
      && e.estimatedTime == now + (e.position - 1) * AddDuration(settings, attractionId) * Catalog.MsPerMinute
      && e.createdAt == now
      && e.status == Active
      && e.completedBy.None? && e.completedAt.None?
  {
    var current := Seqs.Filter(q, IsActive);
    var attractionQueue := Seqs.Filter(current, OfAttraction(attractionId));
    Seqs.FilterFilter(q, IsActive, OfAttraction(attractionId), ActiveOf(attractionId));
    var nextPosition := |attractionQueue| + 1;
    var duration := AddDuration(settings, attractionId);
    var waitTime := if nextPosition == 1 then 0 else (nextPosition - 1) * duration;
    var code := Text.Upper(braceletCode);
    var entry := LocalEntry(freshId, attractionId, code, code, nextPosition,
                            now + waitTime * Catalog.MsPerMinute, now, Active, None, None);
    q + [entry]
  }

  /** `completedBy || null`: an absent or empty name is recorded as no one. */
  function Actor(completedBy: Option<string>): (r: Option<string>)
    ensures r.Some? <==> completedBy.Some? && completedBy.value != ""
    ensures r.Some? ==> r == completedBy
  {
    match completedBy
    case Some(name) => if name != "" then Some(name) else None
    case None => None
  }

  /** The completed form of an entry: only its status and completion fields change. */
  function Complete(e: LocalEntry, completedBy: Option<string>, now: int): LocalEntry {
    e.(status := Completed, completedAt := Some(now), completedBy := Actor(completedBy))
  }

  /** One element of the `queue.map` in `removeFromQueue`. */
  function CompleteIf(e: LocalEntry, code: string, completedBy: Option<string>, now: int): (r: LocalEntry)
    ensures ActiveWithCode(code)(e) ==> r == Complete(e, completedBy, now)
    ensures !ActiveWithCode(code)(e) ==> r == e
  {
    if e.braceletCode == code && e.status == Active then Complete(e, completedBy, now) else e
  }

  /** The `queue.map` of `removeFromQueue`: every active entry with the code is completed. */
  function CompleteCode(q: seq<LocalEntry>, code: string, completedBy: Option<string>, now: int)
    : (r: seq<LocalEntry>)
    ensures |r| == |q|
    ensures forall i :: 0 <= i < |q| ==>
      && r[i].id == q[i].id
      && r[i].attractionId == q[i].attractionId
      && r[i].braceletCode == q[i].braceletCode
      && r[i].position == q[i].position
      && r[i].estimatedTime == q[i].estimatedTime
      && r[i].customerName == q[i].customerName
      && r[i].createdAt == q[i].createdAt
      && (ActiveWithCode(code)(q[i]) ==>
            r[i].status == Completed && r[i].completedAt == Some(now) && r[i].completedBy == Actor(completedBy))
      && (!ActiveWithCode(code)(q[i]) ==> r[i] == q[i])
  {
    seq(|q|, i requires 0 <= i < |q| => CompleteIf(q[i], code, completedBy, now))
  }

  /** `removeFromQueue(braceletCode, completedBy)`: fails when no active entry carries exactly this
      code (the code is not upper-cased here); otherwise completes all of them. Nobody is renumbered. */
  function RemoveFromQueue(q: seq<LocalEntry>, braceletCode: string, completedBy: Option<string>, now: int)
    : (r: Result<seq<LocalEntry>, QueueError>)
    ensures r.Failure? <==> forall i :: 0 <= i < |q| ==> !ActiveWithCode(braceletCode)(q[i])
    ensures r.Failure? ==> r.error == TicketNotFound(braceletCode)
    ensures r.Success? ==> r.value == CompleteCode(q, braceletCode, completedBy, now)
  {
    match Seqs.Find(q, ActiveWithCode(braceletCode))
    case None => Failure(TicketNotFound(braceletCode))
    case Some(_) => Success(CompleteCode(q, braceletCode, completedBy, now))
  }

  /** `getAttractionQueue(a)`: the attraction's active entries ordered by position. */
  function GetAttractionQueue(q: seq<LocalEntry>, a: string): (r: seq<LocalEntry>)
    ensures Sorting.SortedBy(r, ByPosition)
    ensures multiset(r) == multiset(ActiveFor(q, a))
    ensures forall i :: 0 <= i < |r| ==> r[i] in q && r[i].attractionId == a && r[i].status == Active
  {
    var r := Sorting.SortBy(ActiveFor(q, a), ByPosition);
    assert forall i :: 0 <= i < |r| ==> r[i] in multiset(ActiveFor(q, a));
    r
  }

  /** The minutes per visitor the summary uses: the stored setting if truthy, else the catalog's. */
  function SummaryDuration(settings: seq<Settings.AttractionSetting>, attraction: Catalog.Attraction): int {
    Settings.OrElse(Settings.StoredDuration(settings, attraction.id), attraction.duration)
  }

  /** One row of `calculateQueueSummary`. */
  function SummaryOf(q: seq<LocalEntry>, settings: seq<Settings.AttractionSetting>,
                     attraction: Catalog.Attraction, now: int): Catalog.Summary {
    var queueLength := |ActiveFor(q, attraction.id)|;
    var wait := if queueLength > 0 then (queueLength - 1) * SummaryDuration(settings, attraction) else 0;
    Catalog.Summary(attraction.id, attraction.name, queueLength, wait, now + wait * Catalog.MsPerMinute)
  }

  /** `calculateQueueSummary`: one row per catalog attraction, in catalog order, counting its active
      entries; the wait is what the last of them waits, and the next free slot is that far from now. */
  function CalculateQueueSummary(q: seq<LocalEntry>, settings: seq<Settings.AttractionSetting>, now: int)
    : (r: seq<Catalog.Summary>)
    ensures |r| == |Catalog.Attractions|
    ensures forall i :: 0 <= i < |r| ==>
      && r[i].attractionId == Catalog.Attractions[i].id
      && r[i].attractionName == Catalog.Attractions[i].name
      && r[i].queueLength == |ActiveFor(q, Catalog.Attractions[i].id)|
      && r[i].nextAvailableTime == now + r[i].estimatedWaitTime * Catalog.MsPerMinute
      && (r[i].queueLength == 0 ==> r[i].estimatedWaitTime == 0)
    ensures forall i :: 0 <= i < |r| && r[i].queueLength > 0 ==>
      var stored := Settings.StoredDuration(settings, Catalog.Attractions[i].id);
      && (stored != 0 ==> r[i].estimatedWaitTime == (r[i].queueLength - 1) * stored)
      && (stored == 0 ==> r[i].estimatedWaitTime == (r[i].queueLength - 1) * Catalog.Attractions[i].duration)
  {
    seq(|Catalog.Attractions|, i requires 0 <= i < |Catalog.Attractions| =>
      SummaryOf(q, settings, Catalog.Attractions[i], now))
  }

  /** The `onmessage` handler: a `queue-sync` replaces the whole queue with its payload (or []);
      every other message, `init` included, leaves it alone. */
  function ApplyQueueSync<S>(q: seq<LocalEntry>, inbound: Protocol.Inbound<LocalEntry, S>): (r: seq<LocalEntry>)
    ensures inbound.Parsed? && inbound.msg.QueueSync? ==> r == Protocol.PayloadOrEmpty(inbound.msg.queue)
    ensures !(inbound.Parsed? && inbound.msg.QueueSync?) ==> r == q
  {
    match inbound
    case Parsed(QueueSync(data)) => Protocol.PayloadOrEmpty(data)
    case _ => q
  }
}

/** What the local queue engine guarantees across calls. */
module LocalQueueProofs {
  import opened Wrappers
  import Seqs
  import Sorting
  import Catalog
  import Settings
  import opened LocalQueue

  /** Adding to an attraction whose duration is stored (and truthy) lengthens its summary row by one,
      and the row's next free slot is exactly the estimated time the new entry was given. */
  lemma AddAgreesWithSummary(q: seq<LocalEntry>, settings: seq<Settings.AttractionSetting>,
                             braceletCode: string, i: int, freshId: string, now: int)
    requires 0 <= i < |Catalog.Attractions|
    requires Settings.StoredDuration(settings, Catalog.Attractions[i].id) != 0
    ensures var a := Catalog.Attractions[i].id;
      var r := AddToQueue(q, settings, braceletCode, a, freshId, now);
      var row := CalculateQueueSummary(r, settings, now)[i];
      && row.queueLength == |ActiveFor(q, a)| + 1
      && row.nextAvailableTime == r[|q|].estimatedTime
  {
    var a := Catalog.Attractions[i].id;
    var r := AddToQueue(q, settings, braceletCode, a, freshId, now);
    assert r == q + [r[|q|]];
    Seqs.FilterSnoc(q, r[|q|], ActiveOf(a));
    assert SummaryDuration(settings, Catalog.Attractions[i]) == AddDuration(settings, a);
    SummaryRow(r, settings, now, i);
  }

  lemma SummaryRow(q: seq<LocalEntry>, settings: seq<Settings.AttractionSetting>, now: int, i: int)
    requires 0 <= i < |Catalog.Attractions|
    ensures CalculateQueueSummary(q, settings, now)[i] == SummaryOf(q, settings, Catalog.Attractions[i], now)
  {
  }

  /** Without a stored setting the two disagree: an add to the 15-minute attraction "2" behind one
      visitor promises 5 minutes, while the summary of the same queue says 15. */
  lemma AddFallbackDisagreesWithSummary(now: int)
    ensures var r := AddToQueue([WaitingOnTwo(now)], [], "bbb", "2", "y", now);
      && r[1].estimatedTime == now + 5 * Catalog.MsPerMinute
      && CalculateQueueSummary(r, [], now)[1].nextAvailableTime == now + 15 * Catalog.MsPerMinute
  {
    FallbackEstimate(now);
    FallbackSummary(now);
  }

  /** One visitor already waiting for attraction "2". */
  function WaitingOnTwo(now: int): LocalEntry {
    LocalEntry("x", "2", "AAA", "AAA", 1, now, now, Active, None, None)
  }

  lemma FallbackEstimate(now: int)
    ensures AddToQueue([WaitingOnTwo(now)], [], "bbb", "2", "y", now)[1].estimatedTime
         == now + 5 * Catalog.MsPerMinute
  {
    SingleActive(WaitingOnTwo(now), "2");
    assert AddDuration([], "2") == 5;
  }

  lemma FallbackSummary(now: int)
    ensures CalculateQueueSummary(AddToQueue([WaitingOnTwo(now)], [], "bbb", "2", "y", now), [], now)[1]
              .nextAvailableTime == now + 15 * Catalog.MsPerMinute
  {
    var e := WaitingOnTwo(now);
    var r := AddToQueue([e], [], "bbb", "2", "y", now);
    assert r == [e] + [r[1]];
    SingleActive(e, "2");
    Seqs.FilterSnoc([e], r[1], ActiveOf("2"));
    FallbackRow(r, now);
  }

  lemma SingleActive(e: LocalEntry, a: string)
    requires e.attractionId == a && e.status == Active
    ensures ActiveFor([e], a) == [e]
  {
    Seqs.FilterSnoc([], e, ActiveOf(a));
    assert [] + [e] == [e];
  }

  /** With no stored settings, the summary row of attraction "2" with two active entries waits one
      catalog duration of 15 minutes. */
  lemma FallbackRow(r: seq<LocalEntry>, now: int)
    requires |ActiveFor(r, "2")| == 2
    ensures CalculateQueueSummary(r, [], now)[1].nextAvailableTime == now + 15 * Catalog.MsPerMinute
  {
    assert Catalog.Attractions[1].id == "2";
    assert SummaryDuration([], Catalog.Attractions[1]) == 15;
    assert CalculateQueueSummary(r, [], now)[1] == SummaryOf(r, [], Catalog.Attractions[1], now);
  }

  lemma CompleteCodeSnoc(q: seq<LocalEntry>, x: LocalEntry, code: string, completedBy: Option<string>, now: int)
    ensures CompleteCode(q + [x], code, completedBy, now)
         == CompleteCode(q, code, completedBy, now) + [CompleteIf(x, code, completedBy, now)]
  {
  }

  /** Completing a code takes exactly the entries carrying it out of every attraction's active list. */
  lemma {:induction false} CompleteHidesCode(q: seq<LocalEntry>, code: string, completedBy: Option<string>, now: int, a: string)
    ensures ActiveFor(CompleteCode(q, code, completedBy, now), a) == Seqs.Filter(ActiveFor(q, a), LacksCode(code))
    decreases |q|
  {
    if |q| > 0 {
      var init := q[..|q| - 1];
      assert q == init + [q[|q| - 1]];
      CompleteHidesCode(init, code, completedBy, now, a);
      CompleteHidesStep(init, q[|q| - 1], code, completedBy, now, a);
    }
  }

  /** The inductive step of `CompleteHidesCode`: one more entry at the end. */
  lemma CompleteHidesStep(init: seq<LocalEntry>, x: LocalEntry, code: string, completedBy: Option<string>,
                          now: int, a: string)
    requires ActiveFor(CompleteCode(init, code, completedBy, now), a) == Seqs.Filter(ActiveFor(init, a), LacksCode(code))
    ensures ActiveFor(CompleteCode(init + [x], code, completedBy, now), a)
         == Seqs.Filter(ActiveFor(init + [x], a), LacksCode(code))
  {
    CompleteCodeSnoc(init, x, code, completedBy, now);
    var y := CompleteIf(x, code, completedBy, now);
    Seqs.FilterSnoc(CompleteCode(init, code, completedBy, now), y, ActiveOf(a));
    Seqs.FilterSnoc(init, x, ActiveOf(a));
    Seqs.FilterAppend(ActiveFor(init, a), if ActiveOf(a)(x) then [x] else [], LacksCode(code));
    CompleteHidesOne(x, code, completedBy, now, a);
  }

  /** The one-entry case of `CompleteHidesCode`. */
  lemma CompleteHidesOne(x: LocalEntry, code: string, completedBy: Option<string>, now: int, a: string)
    ensures var y := CompleteIf(x, code, completedBy, now);
      (if ActiveOf(a)(y) then [y] else [])
      == Seqs.Filter(if ActiveOf(a)(x) then [x] else [], LacksCode(code))
  {
    if ActiveOf(a)(x) {
      Seqs.FilterSnoc([], x, LacksCode(code));
      assert [] + [x] == [x];
    }
  }

  /** A successful remove leaves the summary row of an attraction holding none of that code's
      active entries unchanged. */
  lemma RemoveKeepsOtherRows(q: seq<LocalEntry>, settings: seq<Settings.AttractionSetting>,
                             code: string, completedBy: Option<string>, now: int, t: int, i: int)
    requires RemoveFromQueue(q, code, completedBy, now).Success?
    requires 0 <= i < |Catalog.Attractions|
    requires forall k :: 0 <= k < |q| ==> !(ActiveWithCode(code)(q[k]) && q[k].attractionId == Catalog.Attractions[i].id)
    ensures CalculateQueueSummary(RemoveFromQueue(q, code, completedBy, now).value, settings, t)[i]
         == CalculateQueueSummary(q, settings, t)[i]
  {
    var a := Catalog.Attractions[i].id;
    var r := RemoveFromQueue(q, code, completedBy, now).value;
    assert r == CompleteCode(q, code, completedBy, now);
    CompleteHidesCode(q, code, completedBy, now, a);
    NothingToHide(q, code, a);
    SameActiveSameRow(q, r, settings, t, i);
  }

  /** Two queues with the same active entries for an attraction give it the same summary row. */
  lemma SameActiveSameRow(q: seq<LocalEntry>, r: seq<LocalEntry>, settings: seq<Settings.AttractionSetting>, t: int, i: int)
    requires 0 <= i < |Catalog.Attractions|
    requires ActiveFor(r, Catalog.Attractions[i].id) == ActiveFor(q, Catalog.Attractions[i].id)
    ensures CalculateQueueSummary(r, settings, t)[i] == CalculateQueueSummary(q, settings, t)[i]
  {
    SummaryRow(r, settings, t, i);
    SummaryRow(q, settings, t, i);
  }

  /** When no active entry of `a` carries the code, hiding the code changes nothing in `a`. */
  lemma NothingToHide(q: seq<LocalEntry>, code: string, a: string)
    requires forall k :: 0 <= k < |q| ==> !(ActiveWithCode(code)(q[k]) && q[k].attractionId == a)
    ensures Seqs.Filter(ActiveFor(q, a), LacksCode(code)) == ActiveFor(q, a)
  {
    var before := ActiveFor(q, a);
    forall k | 0 <= k < |before|
      ensures LacksCode(code)(before[k])
    {
      assert before[k] in q;
    }
    Seqs.FilterAll(before, LacksCode(code));
  }

  /** When exactly one active entry carries the code, a successful remove shortens that entry's
      attraction row by one. */
  lemma RemoveShortensRow(q: seq<LocalEntry>, settings: seq<Settings.AttractionSetting>,
                          code: string, completedBy: Option<string>, now: int, t: int, i: int, j: int)
    requires 0 <= i < |Catalog.Attractions|
    requires 0 <= j < |q| && ActiveWithCode(code)(q[j]) && q[j].attractionId == Catalog.Attractions[i].id
    requires forall k :: 0 <= k < |q| && k != j ==> !ActiveWithCode(code)(q[k])
    ensures RemoveFromQueue(q, code, completedBy, now).Success?
    ensures CalculateQueueSummary(RemoveFromQueue(q, code, completedBy, now).value, settings, t)[i].queueLength
         == CalculateQueueSummary(q, settings, t)[i].queueLength - 1
  {
    var a := Catalog.Attractions[i].id;
    CompleteHidesCode(q, code, completedBy, now, a);
    OnlyOneWithCode(q, code, j, a);
  }

  function ActiveWithout(a: string, code: string): LocalEntry -> bool {
    (e: LocalEntry) => e.attractionId == a && e.status == Active && e.braceletCode != code
  }

  lemma OnlyOneWithCode(q: seq<LocalEntry>, code: string, j: int, a: string)
    requires 0 <= j < |q| && ActiveWithCode(code)(q[j]) && q[j].attractionId == a
    requires forall k :: 0 <= k < |q| && k != j ==> !ActiveWithCode(code)(q[k])
    ensures |Seqs.Filter(ActiveFor(q, a), LacksCode(code))| == |ActiveFor(q, a)| - 1
  {
    Seqs.FilterFilter(q, ActiveOf(a), LacksCode(code), ActiveWithout(a, code));
    CountWithout(q, code, j, a);
  }

  lemma {:induction false} CountWithout(q: seq<LocalEntry>, code: string, j: int, a: string)
    requires 0 <= j < |q| && ActiveWithCode(code)(q[j]) && q[j].attractionId == a
    requires forall k :: 0 <= k < |q| && k != j ==> !ActiveWithCode(code)(q[k])
    ensures |Seqs.Filter(q, ActiveWithout(a, code))| == |ActiveFor(q, a)| - 1
    decreases |q|
  {
    var init := q[..|q| - 1];
    var x := q[|q| - 1];
    assert q == init + [x];
    Seqs.FilterSnoc(init, x, ActiveWithout(a, code));
    Seqs.FilterSnoc(init, x, ActiveOf(a));
    if j == |q| - 1 {
      Seqs.FilterCongruent(init, ActiveWithout(a, code), ActiveOf(a));
    } else {
      CountWithout(init, code, j, a);
    }
  }

  /** Positions are never renumbered: with three visitors queued for attraction "1", completing the
      second and then adding a fourth gives the newcomer position 3, which the third still holds. */
  lemma PositionsCanCollide(now: int)
    ensures var q := [LocalEntry("1", "1", "A", "A", 1, now, now, Active, None, None),
                      LocalEntry("2", "1", "B", "B", 2, now, now, Active, None, None),
                      LocalEntry("3", "1", "C", "C", 3, now, now, Active, None, None)];
      var removed := RemoveFromQueue(q, "B", None, now);
      && removed.Success?
      && var r := AddToQueue(removed.value, [], "D", "1", "4", now);
      && r[2].status == Active && r[3].status == Active
      && r[2].position == 3 && r[3].position == 3
  {
    var e1 := LocalEntry("1", "1", "A", "A", 1, now, now, Active, None, None);
    var e2 := LocalEntry("2", "1", "B", "B", 2, now, now, Active, None, None);
    var e3 := LocalEntry("3", "1", "C", "C", 3, now, now, Active, None, None);
    var q := [e1, e2, e3];
    assert ActiveWithCode("B")(q[1]);
    var done := RemoveFromQueue(q, "B", None, now).value;
    assert done[0] == e1 && done[2] == e3 && done[1].status == Completed;
    TwoActiveLeft(done, e1, e3);
    var r := AddToQueue(done, [], "D", "1", "4", now);
    assert r[2] == r[..3][2] == done[2];
  }

  lemma TwoActiveLeft(done: seq<LocalEntry>, e1: LocalEntry, e3: LocalEntry)
    requires |done| == 3 && done[0] == e1 && done[2] == e3 && done[1].status == Completed
    requires ActiveOf("1")(e1) && ActiveOf("1")(e3)
    ensures |ActiveFor(done, "1")| == 2
  {
    assert done == [e1] + [done[1]] + [e3];
    Seqs.FilterSnoc([], e1, ActiveOf("1"));
    assert [] + [e1] == [e1];
    Seqs.FilterSnoc([e1], done[1], ActiveOf("1"));
    Seqs.FilterSnoc([e1] + [done[1]], e3, ActiveOf("1"));
  }

  /** When the attraction's active entries already appear in position order, the sorted view is
      simply the array order. */
  lemma AttractionQueueInArrayOrder(q: seq<LocalEntry>, a: string)
    requires Sorting.SortedBy(ActiveFor(q, a), ByPosition)
    ensures GetAttractionQueue(q, a) == ActiveFor(q, a)
  {
    Sorting.SortedUnchanged(ActiveFor(q, a), ByPosition);
  }
}
