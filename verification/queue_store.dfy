/** The zustand queue engine: entries are appended at the next position of their
    attraction, and removing a bracelet renumbers the affected attraction only. */
module QueueStore {
  import opened Wrappers
  import Seqs
  import Sorting
  import Catalog

  /** One visitor in one attraction's queue; times are milliseconds since the epoch. */
  datatype QueueEntry = QueueEntry(
    id: string,
    attractionId: string,
    braceletCode: string,
    customerName: string,
    timeAdded: int,
    estimatedTime: int,
    position: int)

  /** What a caller supplies to `addToQueue`: the entry without id, times and position. */
  datatype NewEntry = NewEntry(attractionId: string, braceletCode: string, customerName: string)

  function OfAttraction(a: string): QueueEntry -> bool {
    (e: QueueEntry) => e.attractionId == a
  }

  function HasCode(code: string): QueueEntry -> bool {
    (e: QueueEntry) => e.braceletCode == code
  }

  function LacksCode(code: string): QueueEntry -> bool {
    (e: QueueEntry) => e.braceletCode != code
  }

  function SameId(id: string): QueueEntry -> bool {
    (e: QueueEntry) => e.id == id
  }

  function ByPosition(e: QueueEntry): int {
    e.position
  }

  /** `queue.filter(q => q.attractionId === a)`. */
  function ForAttraction(q: seq<QueueEntry>, a: string): seq<QueueEntry> {
    Seqs.Filter(q, OfAttraction(a))
  }

  /** `queue.filter(q => q.braceletCode !== code)`. */
  function Without(q: seq<QueueEntry>, code: string): seq<QueueEntry> {
    Seqs.Filter(q, LacksCode(code))
  }

  /** The estimated time of the entry at `position` when every earlier place costs `duration` minutes. */
  function EstimatedAt(start: int, position: int, duration: int): int {
    start + position * duration * Catalog.MsPerMinute
  }

  /** `addToQueue`: an unknown attraction is ignored; otherwise the entry goes to the end of the
      array with the next position of its attraction, and its estimated time counts its own ride too. */
  function AddToQueue(q: seq<QueueEntry>, entry: NewEntry, freshId: string, now: int): (r: seq<QueueEntry>)
    ensures !Catalog.IsKnown(entry.attractionId) ==> r == q
    ensures Catalog.IsKnown(entry.attractionId) ==>
      var pos := |ForAttraction(q, entry.attractionId)| + 1;
      && |r| == |q| + 1
      && r[..|q|] == q
      && r[|q|].id == freshId
      && r[|q|].attractionId == entry.attractionId
      && r[|q|].braceletCode == entry.braceletCode
      && r[|q|].customerName == entry.customerName
      && r[|q|].timeAdded == now
      && r[|q|].position == pos
      && r[|q|].estimatedTime == EstimatedAt(now, pos, Catalog.Get(entry.attractionId).duration)
  {
    match Catalog.Find(entry.attractionId)
    case None => q
    case Some(attraction) =>
      var position := |ForAttraction(q, entry.attractionId)| + 1;
      var added := QueueEntry(freshId, entry.attractionId, entry.braceletCode, entry.customerName,
                              now, EstimatedAt(now, position, attraction.duration), position);
      assert (q + [added])[..|q|] == q;
      q + [added]
  }

  /** `entry` with the position it has in `group` (by `findIndex` on its id) and the matching time. */
  function Renumbered(e: QueueEntry, group: seq<QueueEntry>, duration: int, now: int): QueueEntry {
    var position := Seqs.IndexWhere(group, SameId(e.id)) + 1;
    e.(position := position, estimatedTime := EstimatedAt(now, position, duration))
  }

  /** The `map` step of `removeFromQueue`: entries of attraction `a` are renumbered, the rest kept. */
  function Renumber(s: seq<QueueEntry>, a: string, group: seq<QueueEntry>, duration: int, now: int)
    : (r: seq<QueueEntry>)
    ensures |r| == |s|
    ensures forall i :: 0 <= i < |s| ==>
      r[i] == if s[i].attractionId == a then Renumbered(s[i], group, duration, now) else s[i]
  {
    seq(|s|, i requires 0 <= i < |s| =>
      if s[i].attractionId == a then Renumbered(s[i], group, duration, now) else s[i])
  }

  /** The entry `removeFromQueue` finds first for a bracelet code. */
  function FirstWithCode(q: seq<QueueEntry>, code: string): Option<QueueEntry> {
    Seqs.Find(q, HasCode(code))
  }

  /** `removeFromQueue`: an unknown code changes nothing; otherwise every entry with the code is
      dropped and the attraction of the first such entry is renumbered from 1 with times from `now`. */
  function RemoveFromQueue(q: seq<QueueEntry>, code: string, now: int): (r: seq<QueueEntry>)
    ensures FirstWithCode(q, code).None? ==> r == q
    ensures FirstWithCode(q, code).Some? ==> |r| == |Without(q, code)|
    ensures forall i :: 0 <= i < |r| ==> r[i].braceletCode != code
  {
    match FirstWithCode(q, code)
    case None => q
    case Some(target) =>
      var filtered := Without(q, code);
      var a := target.attractionId;
      match Catalog.Find(a)
      case None => filtered
      case Some(attraction) =>
        var r := Renumber(filtered, a, ForAttraction(filtered, a), attraction.duration, now);
        assert forall i :: 0 <= i < |r| ==> r[i].braceletCode == filtered[i].braceletCode;
        r
  }

  /** `getAttractionQueue`: the attraction's entries ordered by position. */
  function GetAttractionQueue(q: seq<QueueEntry>, a: string): (r: seq<QueueEntry>)
    ensures Sorting.SortedBy(r, ByPosition)
    ensures multiset(r) == multiset(ForAttraction(q, a))
    ensures forall i :: 0 <= i < |r| ==> r[i].attractionId == a && r[i] in q
  {
    var group := ForAttraction(q, a);
    var r := Sorting.SortBy(group, ByPosition);
    assert forall i :: 0 <= i < |r| ==> r[i] in multiset(group);
    r
  }

  /** One summary row: the number of entries and that many rides' worth of minutes. */
  function SummaryOf(q: seq<QueueEntry>, attraction: Catalog.Attraction, now: int): Catalog.Summary {
    var length := |ForAttraction(q, attraction.id)|;
    var wait := length * attraction.duration;
    Catalog.Summary(attraction.id, attraction.name, length, wait, now + wait * Catalog.MsPerMinute)
  }

  /** `getQueueSummary`: one row per catalog attraction, in catalog order. */
  function GetQueueSummary(q: seq<QueueEntry>, now: int): (r: seq<Catalog.Summary>)
    ensures |r| == |Catalog.Attractions|
    ensures forall i :: 0 <= i < |r| ==>
      var a := Catalog.Attractions[i];
      && r[i].attractionId == a.id
      && r[i].attractionName == a.name
      && r[i].queueLength == |ForAttraction(q, a.id)|
      && r[i].estimatedWaitTime == r[i].queueLength * a.duration
      && r[i].nextAvailableTime == now + r[i].estimatedWaitTime * Catalog.MsPerMinute
  {
    seq(|Catalog.Attractions|, i requires 0 <= i < |Catalog.Attractions| =>
      SummaryOf(q, Catalog.Attractions[i], now))
  }
}

/** Invariants of the zustand queue engine and how each operation keeps them. */
module QueueStoreProofs {
  import opened Wrappers
  import Seqs
  import Sorting
  import Catalog
  import opened QueueStore

  /** The entries of one attraction carry positions 1, 2, ... in array order. */
  ghost predicate Contiguous(s: seq<QueueEntry>) {
    forall k :: 0 <= k < |s| ==> s[k].position == k + 1
  }

  function IdOf(e: QueueEntry): string {
    e.id
  }

  function CodeOf(e: QueueEntry): string {
    e.braceletCode
  }

  ghost predicate DistinctIds(q: seq<QueueEntry>) {
    forall i, j :: 0 <= i < j < |q| ==> IdOf(q[i]) != IdOf(q[j])
  }

  ghost predicate DistinctCodes(q: seq<QueueEntry>) {
    forall i, j :: 0 <= i < j < |q| ==> CodeOf(q[i]) != CodeOf(q[j])
  }

  ghost predicate KnownAttractions(q: seq<QueueEntry>) {
    forall i :: 0 <= i < |q| ==> Catalog.IsKnown(q[i].attractionId)
  }

  /** The state the store is in after any sequence of adds with fresh ids and codes, and removes. */
  ghost predicate WellFormed(q: seq<QueueEntry>) {
    && DistinctIds(q)
    && DistinctCodes(q)
    && KnownAttractions(q)
    && forall a :: Contiguous(ForAttraction(q, a))
  }

  lemma ForAttractionSnoc(q: seq<QueueEntry>, x: QueueEntry, a: string)
    ensures ForAttraction(q + [x], a) == ForAttraction(q, a) + (if x.attractionId == a then [x] else [])
  {
    Seqs.FilterSnoc(q, x, OfAttraction(a));
  }

  /** A successful add appends one entry at position 1 + (entries of that attraction), leaving the rest. */
  lemma AddAppendsAtNextPosition(q: seq<QueueEntry>, entry: NewEntry, freshId: string, now: int)
    requires Catalog.IsKnown(entry.attractionId)
    ensures var r := AddToQueue(q, entry, freshId, now);
      && ForAttraction(r, entry.attractionId) == ForAttraction(q, entry.attractionId) + [r[|q|]]
      && (forall b :: b != entry.attractionId ==> ForAttraction(r, b) == ForAttraction(q, b))
      && r[|q|].position == |ForAttraction(r, entry.attractionId)|
  {
    var r := AddToQueue(q, entry, freshId, now);
    assert r == q + [r[|q|]];
    forall b {
      ForAttractionSnoc(q, r[|q|], b);
    }
  }

  /** Adding an entry with a fresh id and an unused bracelet code keeps the store well formed. */
  lemma AddPreservesWellFormed(q: seq<QueueEntry>, entry: NewEntry, freshId: string, now: int)
    requires WellFormed(q)
    requires forall i :: 0 <= i < |q| ==> q[i].id != freshId && q[i].braceletCode != entry.braceletCode
    ensures WellFormed(AddToQueue(q, entry, freshId, now))
  {
    if Catalog.IsKnown(entry.attractionId) {
      var r := AddToQueue(q, entry, freshId, now);
      AddKeepsKeys(q, entry, freshId, now);
      forall a
        ensures Contiguous(ForAttraction(r, a))
      {
        AddKeepsContiguous(q, entry, freshId, now, a);
      }
    }
  }

  lemma AddKeepsKeys(q: seq<QueueEntry>, entry: NewEntry, freshId: string, now: int)
    requires Catalog.IsKnown(entry.attractionId)
    requires DistinctIds(q) && DistinctCodes(q) && KnownAttractions(q)
    requires forall i :: 0 <= i < |q| ==> q[i].id != freshId && q[i].braceletCode != entry.braceletCode
    ensures var r := AddToQueue(q, entry, freshId, now);
      DistinctIds(r) && DistinctCodes(r) && KnownAttractions(r)
  {
    var r := AddToQueue(q, entry, freshId, now);
    forall i, j | 0 <= i < j < |r|
      ensures IdOf(r[i]) != IdOf(r[j]) && CodeOf(r[i]) != CodeOf(r[j])
    {
      assert r[i] == q[i];
      if j < |q| {
        assert r[j] == q[j];
      }
    }
    forall i | 0 <= i < |r|
      ensures Catalog.IsKnown(r[i].attractionId)
    {
      if i < |q| {
        assert r[i] == q[i];
      }
    }
  }

  lemma AddKeepsContiguous(q: seq<QueueEntry>, entry: NewEntry, freshId: string, now: int, a: string)
    requires Catalog.IsKnown(entry.attractionId)
    requires Contiguous(ForAttraction(q, a))
    ensures Contiguous(ForAttraction(AddToQueue(q, entry, freshId, now), a))
  {
    var r := AddToQueue(q, entry, freshId, now);
    var x := r[|q|];
    assert r == q + [x];
    ForAttractionSnoc(q, x, a);
    if x.attractionId == a {
      ContiguousSnoc(ForAttraction(q, a), x);
    }
  }

  lemma ContiguousSnoc(s: seq<QueueEntry>, x: QueueEntry)
    requires Contiguous(s) && x.position == |s| + 1
    ensures Contiguous(s + [x])
  {
    forall k | 0 <= k < |s| + 1
      ensures (s + [x])[k].position == k + 1
    {
      if k < |s| {
        assert (s + [x])[k] == s[k];
      }
    }
  }

  /** Renumbering every entry of a sequence against one group. */
  function RenumberAll(s: seq<QueueEntry>, group: seq<QueueEntry>, duration: int, now: int)
    : (r: seq<QueueEntry>)
    ensures |r| == |s|
    ensures forall k :: 0 <= k < |s| ==> r[k] == Renumbered(s[k], group, duration, now)
  {
    seq(|s|, k requires 0 <= k < |s| => Renumbered(s[k], group, duration, now))
  }

  /** Renumbering attraction `a` inside the whole queue renumbers exactly that attraction's entries
      and leaves every other attraction's entries as they were. */
  lemma RenumberByAttraction(s: seq<QueueEntry>, a: string, group: seq<QueueEntry>,
                             duration: int, now: int, b: string)
    ensures var r := Renumber(s, a, group, duration, now);
      && ForAttraction(r, a) == RenumberAll(ForAttraction(s, a), group, duration, now)
      && (b != a ==> ForAttraction(r, b) == ForAttraction(s, b))
  {
    RenumberTarget(s, a, group, duration, now);
    if b != a {
      RenumberOthers(s, a, group, duration, now, b);
    }
  }

  /** Renumbering distributes over appending one entry. */
  lemma RenumberSnoc(s: seq<QueueEntry>, x: QueueEntry, a: string, group: seq<QueueEntry>, duration: int, now: int)
    ensures Renumber(s + [x], a, group, duration, now)
         == Renumber(s, a, group, duration, now) + [if x.attractionId == a then Renumbered(x, group, duration, now) else x]
  {
  }

  lemma {:induction false} RenumberTarget(s: seq<QueueEntry>, a: string, group: seq<QueueEntry>, duration: int, now: int)
    ensures ForAttraction(Renumber(s, a, group, duration, now), a) == RenumberAll(ForAttraction(s, a), group, duration, now)
    decreases |s|
  {
    if |s| == 0 {
      assert ForAttraction(s, a) == [];
      assert ForAttraction(Renumber(s, a, group, duration, now), a) == [];
    } else {
      var s' := s[..|s| - 1];
      var x := s[|s| - 1];
      assert s == s' + [x];
      var y := if x.attractionId == a then Renumbered(x, group, duration, now) else x;
      var r' := Renumber(s', a, group, duration, now);
      RenumberSnoc(s', x, a, group, duration, now);
      RenumberTarget(s', a, group, duration, now);
      ForAttractionSnoc(s', x, a);
      ForAttractionSnoc(r', y, a);
      if x.attractionId == a {
        RenumberAllSnoc(ForAttraction(s', a), x, group, duration, now);
      }
    }
  }

  lemma RenumberAllSnoc(s: seq<QueueEntry>, x: QueueEntry, group: seq<QueueEntry>, duration: int, now: int)
    ensures RenumberAll(s + [x], group, duration, now)
         == RenumberAll(s, group, duration, now) + [Renumbered(x, group, duration, now)]
  {
  }

  lemma {:induction false} RenumberOthers(s: seq<QueueEntry>, a: string, group: seq<QueueEntry>,
                                          duration: int, now: int, b: string)
    requires b != a
    ensures ForAttraction(Renumber(s, a, group, duration, now), b) == ForAttraction(s, b)
    decreases |s|
  {
    if |s| == 0 {
      assert ForAttraction(s, b) == [];
      assert ForAttraction(Renumber(s, a, group, duration, now), b) == [];
    } else {
      var s' := s[..|s| - 1];
      var x := s[|s| - 1];
      assert s == s' + [x];
      var y := if x.attractionId == a then Renumbered(x, group, duration, now) else x;
      RenumberSnoc(s', x, a, group, duration, now);
      RenumberOthers(s', a, group, duration, now, b);
      ForAttractionSnoc(s', x, b);
      ForAttractionSnoc(Renumber(s', a, group, duration, now), y, b);
    }
  }

  /** With distinct ids, `findIndex` on an element's id finds that element. */
  lemma IndexOfDistinct(group: seq<QueueEntry>, k: int)
    requires DistinctIds(group) && 0 <= k < |group|
    ensures Seqs.IndexWhere(group, SameId(group[k].id)) == k
  {
    var j := Seqs.IndexWhere(group, SameId(group[k].id));
    assert j >= 0 && j <= k;
    assert IdOf(group[j]) == IdOf(group[k]);
  }

  lemma DistinctAfterFilter(q: seq<QueueEntry>, p: QueueEntry -> bool)
    requires DistinctIds(q)
    ensures DistinctIds(Seqs.Filter(q, p))
  {
    Seqs.FilterKeepsDistinct(q, p, IdOf);
  }

  /** After a successful remove the affected attraction's entries, in array order, are exactly the
      surviving ones renumbered 1..N with times counted from `now`. */
  lemma RemoveRenumbersAffected(q: seq<QueueEntry>, code: string, now: int)
    requires FirstWithCode(q, code).Some?
    requires DistinctIds(q)
    requires Catalog.IsKnown(FirstWithCode(q, code).value.attractionId)
    ensures var a := FirstWithCode(q, code).value.attractionId;
      var group := ForAttraction(RemoveFromQueue(q, code, now), a);
      var survivors := ForAttraction(Without(q, code), a);
      && |group| == |survivors|
      && forall k :: 0 <= k < |survivors| ==>
           group[k] == survivors[k].(position := k + 1,
                                     estimatedTime := EstimatedAt(now, k + 1, Catalog.Get(a).duration))
  {
    var a := FirstWithCode(q, code).value.attractionId;
    var filtered := Without(q, code);
    var duration := Catalog.Get(a).duration;
    var survivors := ForAttraction(filtered, a);
    assert RemoveFromQueue(q, code, now) == Renumber(filtered, a, survivors, duration, now);
    RenumberByAttraction(filtered, a, survivors, duration, now, a);
    DistinctAfterFilter(q, LacksCode(code));
    DistinctAfterFilter(filtered, OfAttraction(a));
    forall k | 0 <= k < |survivors| {
      IndexOfDistinct(survivors, k);
    }
  }

  /** When the target's attraction is not in the catalog, remove only filters the code out. */
  lemma RemoveWithoutCatalogEntry(q: seq<QueueEntry>, code: string, now: int)
    requires FirstWithCode(q, code).Some?
    requires !Catalog.IsKnown(FirstWithCode(q, code).value.attractionId)
    ensures RemoveFromQueue(q, code, now) == Without(q, code)
  {
  }

  /** A remove leaves the surviving entries of every other attraction untouched. */
  lemma RemoveKeepsOtherAttractions(q: seq<QueueEntry>, code: string, now: int, b: string)
    requires FirstWithCode(q, code).Some?
    requires b != FirstWithCode(q, code).value.attractionId
    ensures ForAttraction(RemoveFromQueue(q, code, now), b) == ForAttraction(Without(q, code), b)
  {
    var a := FirstWithCode(q, code).value.attractionId;
    var filtered := Without(q, code);
    if Catalog.IsKnown(a) {
      var duration := Catalog.Get(a).duration;
      var survivors := ForAttraction(filtered, a);
      assert RemoveFromQueue(q, code, now) == Renumber(filtered, a, survivors, duration, now);
      RenumberByAttraction(filtered, a, survivors, duration, now, b);
    }
  }

  /** Renumbering keeps ids, codes and attractions in place. */
  lemma RenumberKeepsKeys(s: seq<QueueEntry>, a: string, group: seq<QueueEntry>, duration: int, now: int)
    ensures var r := Renumber(s, a, group, duration, now);
      forall i :: 0 <= i < |s| ==>
        r[i].id == s[i].id && r[i].braceletCode == s[i].braceletCode && r[i].attractionId == s[i].attractionId
  {
  }

  /** Every entry of an attraction other than the target's lacks the removed code. */
  lemma OthersLackCode(q: seq<QueueEntry>, code: string, b: string)
    requires DistinctCodes(q) && FirstWithCode(q, code).Some?
    requires b != FirstWithCode(q, code).value.attractionId
    ensures ForAttraction(Without(q, code), b) == ForAttraction(q, b)
  {
    var target := FirstWithCode(q, code).value;
    var k :| 0 <= k < |q| && q[k] == target;
    var group := ForAttraction(q, b);
    forall i | 0 <= i < |group|
      ensures LacksCode(code)(group[i])
    {
      var j :| 0 <= j < |q| && q[j] == group[i];
      assert CodeOf(q[j]) != CodeOf(q[k]) || j == k;
    }
    Seqs.FilterCommute(q, LacksCode(code), OfAttraction(b));
    Seqs.FilterAll(group, LacksCode(code));
  }

  /** Removing keeps ids and codes distinct and attractions known. */
  lemma RemoveKeepsKeys(q: seq<QueueEntry>, code: string, now: int)
    requires DistinctIds(q) && DistinctCodes(q) && KnownAttractions(q)
    ensures var r := RemoveFromQueue(q, code, now);
      DistinctIds(r) && DistinctCodes(r) && KnownAttractions(r)
  {
    if FirstWithCode(q, code).Some? {
      var target := FirstWithCode(q, code).value;
      var k :| 0 <= k < |q| && q[k] == target;
      var a := target.attractionId;
      assert Catalog.IsKnown(q[k].attractionId);
      var filtered := Without(q, code);
      var group := ForAttraction(filtered, a);
      var duration := Catalog.Get(a).duration;
      assert RemoveFromQueue(q, code, now) == Renumber(filtered, a, group, duration, now);
      FilterKeepsKeys(q, LacksCode(code));
      RenumberKeepsKeys(filtered, a, group, duration, now);
      SameKeys(filtered, Renumber(filtered, a, group, duration, now));
    }
  }

  /** Filtering keeps ids and codes distinct and attractions known. */
  lemma FilterKeepsKeys(q: seq<QueueEntry>, p: QueueEntry -> bool)
    requires DistinctIds(q) && DistinctCodes(q) && KnownAttractions(q)
    ensures var r := Seqs.Filter(q, p);
      DistinctIds(r) && DistinctCodes(r) && KnownAttractions(r)
  {
    DistinctAfterFilter(q, p);
    assert forall i, j :: 0 <= i < j < |q| ==> CodeOf(q[i]) != CodeOf(q[j]);
    Seqs.FilterKeepsDistinct(q, p, CodeOf);
    var r := Seqs.Filter(q, p);
    forall i | 0 <= i < |r|
      ensures Catalog.IsKnown(r[i].attractionId)
    {
      var j :| 0 <= j < |q| && q[j] == r[i];
    }
  }

  /** Two sequences with the same ids, codes and attractions position by position share the three
      key invariants. */
  lemma SameKeys(s: seq<QueueEntry>, r: seq<QueueEntry>)
    requires |r| == |s|
    requires forall i :: 0 <= i < |s| ==>
      r[i].id == s[i].id && r[i].braceletCode == s[i].braceletCode && r[i].attractionId == s[i].attractionId
    requires DistinctIds(s) && DistinctCodes(s) && KnownAttractions(s)
    ensures DistinctIds(r) && DistinctCodes(r) && KnownAttractions(r)
  {
  }

  /** Removing a bracelet keeps the store well formed. */
  lemma RemovePreservesWellFormed(q: seq<QueueEntry>, code: string, now: int)
    requires WellFormed(q)
    ensures WellFormed(RemoveFromQueue(q, code, now))
  {
    RemoveKeepsKeys(q, code, now);
    if FirstWithCode(q, code).Some? {
      var a := FirstWithCode(q, code).value.attractionId;
      var r := RemoveFromQueue(q, code, now);
      assert Catalog.IsKnown(a);
      forall b
        ensures Contiguous(ForAttraction(r, b))
      {
        if b == a {
          RemoveRenumbersAffected(q, code, now);
        } else {
          RemoveKeepsOtherAttractions(q, code, now, b);
          OthersLackCode(q, code, b);
          assert Contiguous(ForAttraction(q, b));
        }
      }
    }
  }

  /** In a well-formed store the attraction queue is already in position order, so sorting keeps it. */
  lemma AttractionQueueIsArrayOrder(q: seq<QueueEntry>, a: string)
    requires WellFormed(q)
    ensures GetAttractionQueue(q, a) == ForAttraction(q, a)
    ensures forall k :: 0 <= k < |GetAttractionQueue(q, a)| ==> GetAttractionQueue(q, a)[k].position == k + 1
  {
    var group := ForAttraction(q, a);
    assert Contiguous(group);
    assert Sorting.SortedBy(group, ByPosition);
    Sorting.SortedUnchanged(group, ByPosition);
  }

  lemma SummaryRow(q: seq<QueueEntry>, now: int, i: int)
    requires 0 <= i < |Catalog.Attractions|
    ensures GetQueueSummary(q, now)[i] == SummaryOf(q, Catalog.Attractions[i], now)
  {
  }

  /** After a successful add, the attraction's summary row grows by one rider and one ride's minutes,
      and the new entry's estimated time is that row's next available time. */
  lemma {:induction false} SummaryAfterAdd(q: seq<QueueEntry>, entry: NewEntry, freshId: string, now: int, i: int)
    requires 0 <= i < |Catalog.Attractions| && Catalog.Attractions[i].id == entry.attractionId
    ensures var r := AddToQueue(q, entry, freshId, now);
      var before := GetQueueSummary(q, now)[i];
      var after := GetQueueSummary(r, now)[i];
      && after.queueLength == before.queueLength + 1
      && after.estimatedWaitTime == before.estimatedWaitTime + Catalog.Attractions[i].duration
      && r[|q|].estimatedTime == after.nextAvailableTime
  {
    var r := AddToQueue(q, entry, freshId, now);
    Catalog.FindCatalogEntry(i);
    AddAppendsAtNextPosition(q, entry, freshId, now);
    SummaryRow(q, now, i);
    SummaryRow(r, now, i);
    RowGrowth(|ForAttraction(q, entry.attractionId)|, Catalog.Attractions[i].duration, now);
  }

  /** One more rider adds one ride's minutes, and the last rider's time is the row's next time. */
  lemma RowGrowth(n: int, d: int, now: int)
    ensures (n + 1) * d == n * d + d
    ensures EstimatedAt(now, n + 1, d) == now + (n + 1) * d * Catalog.MsPerMinute
  {
  }

  /** A successful add leaves the summary rows of all other attractions unchanged. */
  lemma SummaryAfterAddOthers(q: seq<QueueEntry>, entry: NewEntry, freshId: string, now: int, i: int)
    requires Catalog.IsKnown(entry.attractionId)
    requires 0 <= i < |Catalog.Attractions| && Catalog.Attractions[i].id != entry.attractionId
    ensures GetQueueSummary(AddToQueue(q, entry, freshId, now), now)[i] == GetQueueSummary(q, now)[i]
  {
    AddAppendsAtNextPosition(q, entry, freshId, now);
  }

  /** In a well-formed store a successful remove shortens the target's attraction by exactly one
      and leaves every other summary row unchanged. */
  lemma SummaryAfterRemove(q: seq<QueueEntry>, code: string, now: int, i: int)
    requires WellFormed(q)
    requires FirstWithCode(q, code).Some?
    requires 0 <= i < |Catalog.Attractions|
    ensures var r := RemoveFromQueue(q, code, now);
      var before := GetQueueSummary(q, now)[i];
      var after := GetQueueSummary(r, now)[i];
      if Catalog.Attractions[i].id == FirstWithCode(q, code).value.attractionId then
        after.queueLength == before.queueLength - 1
      else
        after == before
  {
    var a := FirstWithCode(q, code).value.attractionId;
    var b := Catalog.Attractions[i].id;
    var r := RemoveFromQueue(q, code, now);
    SummaryRow(q, now, i);
    SummaryRow(r, now, i);
    if b == a {
      AffectedShrinks(q, code, now);
    } else {
      RemoveKeepsOtherAttractions(q, code, now, b);
      OthersLackCode(q, code, b);
    }
  }

  /** A successful remove in a well-formed store takes exactly one entry from the target's attraction. */
  lemma AffectedShrinks(q: seq<QueueEntry>, code: string, now: int)
    requires WellFormed(q)
    requires FirstWithCode(q, code).Some?
    ensures var a := FirstWithCode(q, code).value.attractionId;
      |ForAttraction(RemoveFromQueue(q, code, now), a)| == |ForAttraction(q, a)| - 1
  {
    var target := FirstWithCode(q, code).value;
    var k :| 0 <= k < |q| && q[k] == target;
    assert Catalog.IsKnown(q[k].attractionId);
    RemoveRenumbersAffected(q, code, now);
    GroupLosesTarget(q, code);
  }

  /** With distinct codes, dropping a present code takes exactly one entry from its attraction. */
  lemma GroupLosesTarget(q: seq<QueueEntry>, code: string)
    requires DistinctCodes(q)
    requires FirstWithCode(q, code).Some?
    ensures var a := FirstWithCode(q, code).value.attractionId;
      |ForAttraction(Without(q, code), a)| == |ForAttraction(q, a)| - 1
  {
    var target := FirstWithCode(q, code).value;
    var a := target.attractionId;
    var group := ForAttraction(q, a);
    var g :| 0 <= g < |group| && group[g] == target;
    CodesStayDistinct(q, a);
    OthersPass(group, g, code);
    Seqs.FilterDropsOne(group, LacksCode(code), g);
    Seqs.FilterCommute(q, LacksCode(code), OfAttraction(a));
  }

  lemma CodesStayDistinct(q: seq<QueueEntry>, a: string)
    requires DistinctCodes(q)
    ensures DistinctCodes(ForAttraction(q, a))
  {
    var group := ForAttraction(q, a);
    assert group == Seqs.Filter(q, OfAttraction(a));
    assert forall i, j :: 0 <= i < j < |q| ==> CodeOf(q[i]) != CodeOf(q[j]);
    Seqs.FilterKeepsDistinct(q, OfAttraction(a), CodeOf);
    assert forall i, j :: 0 <= i < j < |group| ==> CodeOf(group[i]) != CodeOf(group[j]);
  }

  /** In a group with distinct codes, every entry but the one holding the code lacks it. */
  lemma OthersPass(group: seq<QueueEntry>, g: int, code: string)
    requires DistinctCodes(group)
    requires 0 <= g < |group| && group[g].braceletCode == code
    ensures forall j :: 0 <= j < |group| && j != g ==> LacksCode(code)(group[j])
  {
    forall j | 0 <= j < |group| && j != g
      ensures LacksCode(code)(group[j])
    {
      if j < g {
        assert CodeOf(group[j]) != CodeOf(group[g]);
      } else {
        assert CodeOf(group[g]) != CodeOf(group[j]);
      }
    }
  }
}
