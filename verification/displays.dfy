/** The three read-only boards built from the per-attraction summary rows: the public board (rides
    sorted by wait), the cashier's board (rides in catalog order) and the visitor dashboard. Each
    turns a wait in minutes into a colour, a status text and a clock time for the next visitor. */
module Displays {
  import opened Wrappers
  import Seqs
  import Sorting
  import Catalog
  import Numerals
  import IntParsing
  import Text
  import QueueStore
  import LocalQueue
  import Settings

  /** The badge colours (`bg-green-500` … `bg-red-500`). */
  datatype Color = Green | Yellow | Orange | Red

  /** How alarming a colour is, from green to red. */
  function Rank(c: Color): nat {
    match c
    case Green => 0
    case Yellow => 1
    case Orange => 2
    case Red => 3
  }

  /** What the card says about getting in: a clock time, "go straight in", or nothing. */
  datatype Admission = EnterAt(time: int) | EnterNow | NoHint

  /** One rendered card: the row, its catalog attraction, the badge, the optional recommendation,
      the wait label and the admission hint. */
  datatype Card = Card(
    summary: Catalog.Summary,
    attraction: Catalog.Attraction,
    color: Color,
    status: string,
    advice: Option<string>,
    waitLabel: string,
    admission: Admission)

  // ---------------------------------------------------------------------------------------------
  // The four-bucket status shared by the public board and the cashier's board

  /** `getStatusColor`: 0 is green, up to 15 yellow, up to 30 orange, longer red. */
  function StatusColor(wait: int): Color {
    if wait == 0 then Green else if wait <= 15 then Yellow else if wait <= 30 then Orange else Red
  }

  /** `getStatusText`, over the same buckets. */
  function StatusText(wait: int): string {
    if wait == 0 then "Свободно"
    else if wait <= 15 then "Мало очереди"
    else if wait <= 30 then "Средняя очередь"
    else "Большая очередь"
  }

  /** `getRecommendation` of the public board, over the same buckets. */
  function Recommendation(wait: int): string {
    if wait == 0 then "\U{1F3AF} Идеальное время!"
    else if wait <= 15 then "\U{1F44D} Хорошее время"
    else if wait <= 30 then "\U{23F0} Подождать стоит"
    else "\U{274C} Долгое ожидание"
  }

  /** Colour, status text and recommendation never contradict each other: two waits get the same
      colour exactly when they get the same text, and exactly when they get the same advice. */
  lemma StatusAgrees(w1: int, w2: int)
    ensures StatusColor(w1) == StatusColor(w2) <==> StatusText(w1) == StatusText(w2)
    ensures StatusText(w1) == StatusText(w2) <==> Recommendation(w1) == Recommendation(w2)
  {
  }

  /** Among non-negative waits a longer wait never gets a calmer colour. */
  lemma StatusMonotone(w1: int, w2: int)
    requires 0 <= w1 <= w2
    ensures Rank(StatusColor(w1)) <= Rank(StatusColor(w2))
  {
  }

  // ---------------------------------------------------------------------------------------------
  // The wait label and the clock time, shared by all three boards

  /** "Сейчас" for no wait, otherwise the minutes as "<n> мин". */
  function WaitLabel(wait: int): string {
    if wait == 0 then "Сейчас" else Numerals.Decimal(wait) + " мин"
  }

  /** The label gives the wait back: `parseInt` of "<n> мин" is n, and "Сейчас" holds no number. */
  lemma WaitLabelReadsBack(wait: int)
    ensures IntParsing.ParseInt(WaitLabel(wait)) == if wait == 0 then None else Some(wait)
  {
    if wait == 0 {
      var shown := "Сейчас";
      assert !Text.IsSpace(shown[0]);
      assert Text.TrimStart(shown) == shown;
      assert IntParsing.DigitPrefix(shown, 10) == [];
    } else {
      IntParsing.ParseDecimalThen(wait, " мин");
    }
  }

  /** `new Date(Date.now() + wait * 60000)`, with the clock as a parameter. */
  function NextAvailable(now: int, wait: int): int {
    now + wait * Catalog.MsPerMinute
  }

  // ---------------------------------------------------------------------------------------------
  // Which rows a board shows

  /** The catalog attraction of a row exists and is active. */
  predicate Listed(s: Catalog.Summary) {
    Catalog.Find(s.attractionId).Some? && Catalog.Find(s.attractionId).value.isActive
  }

  function IsListed(): Catalog.Summary -> bool {
    (s: Catalog.Summary) => Listed(s)
  }

  function Wait(s: Catalog.Summary): int {
    s.estimatedWaitTime
  }

  /** The public board's rows: the listed ones, sorted by ascending wait. */
  function PublicRows(summaries: seq<Catalog.Summary>): (r: seq<Catalog.Summary>)
    ensures Sorting.SortedBy(r, Wait)
    ensures multiset(r) == multiset(Seqs.Filter(summaries, IsListed()))
    ensures forall x :: x in r <==> x in summaries && Listed(x)
  {
    var listed := Seqs.Filter(summaries, IsListed());
    Seqs.FilterMembers(summaries, IsListed());
    Sorting.SortByMembers(listed, Wait);
    Sorting.SortBy(listed, Wait)
  }

  /** The cashier's board's rows: the listed ones, in the order they arrive. */
  function CashierRows(summaries: seq<Catalog.Summary>): (r: seq<Catalog.Summary>)
    ensures |r| <= |summaries|
    ensures forall x :: x in r <==> x in summaries && Listed(x)
  {
    Seqs.FilterMembers(summaries, IsListed());
    Seqs.Filter(summaries, IsListed())
  }

  /** The cashier's board keeps the arrival order: rows that arrive ordered by any key are shown
      ordered by it. */
  lemma CashierKeepsOrder(summaries: seq<Catalog.Summary>, key: Catalog.Summary -> int)
    requires Sorting.SortedBy(summaries, key)
    ensures Sorting.SortedBy(CashierRows(summaries), key)
  {
    Sorting.FilterKeepsSorted(summaries, IsListed(), key);
  }

  /** When the rows already arrive by ascending wait, both boards list the same rides in the same
      order. */
  lemma SortedBoardsAgree(summaries: seq<Catalog.Summary>)
    requires Sorting.SortedBy(summaries, Wait)
    ensures PublicRows(summaries) == CashierRows(summaries)
  {
    Sorting.FilterKeepsSorted(summaries, IsListed(), Wait);
    Sorting.SortedUnchanged(Seqs.Filter(summaries, IsListed()), Wait);
  }

  /** Every catalog attraction is active, so the cashier's board shows the store's summary whole,
      in catalog order. */
  lemma CatalogRowsAllShown(q: seq<QueueStore.QueueEntry>, now: int)
    ensures CashierRows(QueueStore.GetQueueSummary(q, now)) == QueueStore.GetQueueSummary(q, now)
  {
    var rows := QueueStore.GetQueueSummary(q, now);
    forall i | 0 <= i < |rows|
      ensures IsListed()(rows[i])
    {
      Catalog.FindCatalogEntry(i);
    }
    Seqs.FilterAll(rows, IsListed());
  }

  // ---------------------------------------------------------------------------------------------
  // The public board

  /** One public card: badge, recommendation, label, and either the time a ticket bought now lets
      the visitor in or "go straight in" when there is no positive wait. */
  function PublicCard(s: Catalog.Summary, now: int): (c: Card)
    requires Listed(s)
    ensures c.summary == s && c.attraction.isActive && c.attraction.id == s.attractionId
    ensures c.admission.EnterAt? <==> s.estimatedWaitTime > 0
    ensures c.admission.EnterAt? ==> c.admission.time == NextAvailable(now, s.estimatedWaitTime)
    ensures c.admission.EnterNow? <==> s.estimatedWaitTime <= 0
  {
    var w := s.estimatedWaitTime;
    Card(s, Catalog.Find(s.attractionId).value, StatusColor(w), StatusText(w), Some(Recommendation(w)),
         WaitLabel(w), if w > 0 then EnterAt(NextAvailable(now, w)) else EnterNow)
  }

  /** A board works its time out again when it renders: a card drawn `d` ms after its row was built
      shows the row's `nextAvailableTime` moved on by `d`, for the zustand store's rows and the local
      hook's alike. */
  lemma CardTimeFollowsRender(q: seq<QueueStore.QueueEntry>, local: seq<LocalQueue.LocalEntry>,
                              settings: seq<Settings.AttractionSetting>, now: int, d: int, i: int)
    requires 0 <= i < |Catalog.Attractions|
    ensures var row := QueueStore.GetQueueSummary(q, now)[i];
      && Listed(row)
      && (row.estimatedWaitTime > 0 ==> PublicCard(row, now + d).admission == EnterAt(row.nextAvailableTime + d))
    ensures var row := LocalQueue.CalculateQueueSummary(local, settings, now)[i];
      && Listed(row)
      && (row.estimatedWaitTime > 0 ==> PublicCard(row, now + d).admission == EnterAt(row.nextAvailableTime + d))
  {
    StoreRowListed(q, now, d, i);
    LocalRowListed(local, settings, now, d, i);
  }

  /** Any listed row whose next time is its wait from `now`. */
  lemma CardTimeOfRow(row: Catalog.Summary, now: int, d: int)
    requires Listed(row) && row.nextAvailableTime == NextAvailable(now, row.estimatedWaitTime)
    ensures row.estimatedWaitTime > 0 ==> PublicCard(row, now + d).admission == EnterAt(row.nextAvailableTime + d)
  {
  }

  /** A row labelled with the i-th catalog attraction is listed. */
  lemma RowListed(row: Catalog.Summary, i: int)
    requires 0 <= i < |Catalog.Attractions| && row.attractionId == Catalog.Attractions[i].id
    ensures Listed(row)
  {
    Catalog.FindCatalogEntry(i);
  }

  lemma StoreRowListed(q: seq<QueueStore.QueueEntry>, now: int, d: int, i: int)
    requires 0 <= i < |Catalog.Attractions|
    ensures var row := QueueStore.GetQueueSummary(q, now)[i];
      && Listed(row)
      && (row.estimatedWaitTime > 0 ==> PublicCard(row, now + d).admission == EnterAt(row.nextAvailableTime + d))
  {
    var row := QueueStore.GetQueueSummary(q, now)[i];
    assert row.attractionId == Catalog.Attractions[i].id;
    assert row.nextAvailableTime == NextAvailable(now, row.estimatedWaitTime);
    RowListed(row, i);
    CardTimeOfRow(row, now, d);
  }

  lemma LocalRowListed(local: seq<LocalQueue.LocalEntry>, settings: seq<Settings.AttractionSetting>,
                       now: int, d: int, i: int)
    requires 0 <= i < |Catalog.Attractions|
    ensures var row := LocalQueue.CalculateQueueSummary(local, settings, now)[i];
      && Listed(row)
      && (row.estimatedWaitTime > 0 ==> PublicCard(row, now + d).admission == EnterAt(row.nextAvailableTime + d))
  {
    var row := LocalQueue.CalculateQueueSummary(local, settings, now)[i];
    assert row.attractionId == Catalog.Attractions[i].id;
    assert row.nextAvailableTime == NextAvailable(now, row.estimatedWaitTime);
    RowListed(row, i);
    CardTimeOfRow(row, now, d);
  }

  /** The public board: one card per listed row, shortest wait first. */
  function PublicBoard(summaries: seq<Catalog.Summary>, now: int): (r: seq<Card>)
    ensures |r| == |PublicRows(summaries)|
    ensures forall i :: 0 <= i < |r| ==>
      r[i].summary in summaries && r[i].attraction.isActive && r[i].attraction.id == r[i].summary.attractionId
    ensures forall i, j :: 0 <= i < j < |r| ==>
      r[i].summary.estimatedWaitTime <= r[j].summary.estimatedWaitTime
    ensures forall i :: 0 <= i < |r| ==>
      Listed(PublicRows(summaries)[i]) && r[i] == PublicCard(PublicRows(summaries)[i], now)
  {
    var rows := PublicRows(summaries);
    PublicRowsListed(summaries);
    PublicCards(rows, now)
  }

  lemma PublicRowsListed(summaries: seq<Catalog.Summary>)
    ensures var rows := PublicRows(summaries);
      forall i :: 0 <= i < |rows| ==> Listed(rows[i]) && rows[i] in summaries
  {
    var rows := PublicRows(summaries);
    forall i | 0 <= i < |rows|
      ensures Listed(rows[i]) && rows[i] in summaries
    {
      assert rows[i] in rows;
    }
  }

  /** The public cards of rows already in display order. */
  function PublicCards(rows: seq<Catalog.Summary>, now: int): (r: seq<Card>)
    requires forall i :: 0 <= i < |rows| ==> Listed(rows[i])
    ensures |r| == |rows|
    ensures forall i :: 0 <= i < |r| ==> r[i] == PublicCard(rows[i], now)
  {
    seq(|rows|, i requires 0 <= i < |rows| => PublicCard(rows[i], now))
  }

  // ---------------------------------------------------------------------------------------------
  // The cashier's board

  /** The "a new visitor can enter at" block. */
  predicate ShowsNextTime(wait: int) {
    wait > 0
  }

  /** The "go straight in" block. */
  predicate ShowsGoNow(wait: int) {
    wait == 0
  }

  /** The two blocks never show together; a non-negative wait shows exactly one, a negative wait
      neither. */
  lemma CashierBlocksExclusive(wait: int)
    ensures !(ShowsNextTime(wait) && ShowsGoNow(wait))
    ensures wait >= 0 <==> ShowsNextTime(wait) || ShowsGoNow(wait)
  {
  }

  /** One cashier card: no recommendation, and the admission hint chosen by the two blocks. */
  function CashierCard(s: Catalog.Summary, now: int): (c: Card)
    requires Listed(s)
    ensures c.summary == s && c.attraction.isActive && c.attraction.id == s.attractionId
    ensures c.admission.EnterAt? <==> ShowsNextTime(s.estimatedWaitTime)
    ensures c.admission.EnterAt? ==> c.admission.time == NextAvailable(now, s.estimatedWaitTime)
    ensures c.admission.EnterNow? <==> ShowsGoNow(s.estimatedWaitTime)
    ensures c.admission.NoHint? <==> s.estimatedWaitTime < 0
  {
    var w := s.estimatedWaitTime;
    var admission :=
      if ShowsNextTime(w) then EnterAt(NextAvailable(now, w))
      else if ShowsGoNow(w) then EnterNow
      else NoHint;
    Card(s, Catalog.Find(s.attractionId).value, StatusColor(w), StatusText(w), None, WaitLabel(w), admission)
  }

  /** The cashier's board: one card per listed row, in arrival order. */
  function CashierBoard(summaries: seq<Catalog.Summary>, now: int): (r: seq<Card>)
    ensures |r| == |CashierRows(summaries)|
    ensures forall i :: 0 <= i < |r| ==>
      && r[i].summary == CashierRows(summaries)[i]
      && r[i].attraction.isActive && r[i].attraction.id == r[i].summary.attractionId
    ensures forall i :: 0 <= i < |r| ==>
      Listed(CashierRows(summaries)[i]) && r[i] == CashierCard(CashierRows(summaries)[i], now)
  {
    var rows := CashierRows(summaries);
    CashierRowsListed(summaries);
    CashierCards(rows, now)
  }

  lemma CashierRowsListed(summaries: seq<Catalog.Summary>)
    ensures var rows := CashierRows(summaries);
      forall i :: 0 <= i < |rows| ==> Listed(rows[i])
  {
    var rows := CashierRows(summaries);
    forall i | 0 <= i < |rows|
      ensures Listed(rows[i])
    {
      assert rows[i] in rows;
    }
  }

  /** The cashier cards of rows in arrival order. */
  function CashierCards(rows: seq<Catalog.Summary>, now: int): (r: seq<Card>)
    requires forall i :: 0 <= i < |rows| ==> Listed(rows[i])
    ensures |r| == |rows|
    ensures forall i :: 0 <= i < |r| ==> r[i] == CashierCard(rows[i], now)
  {
    seq(|rows|, i requires 0 <= i < |rows| => CashierCard(rows[i], now))
  }

  // ---------------------------------------------------------------------------------------------
  // The visitor dashboard

  /** `getWaitTimeColor`: up to 15 green, up to 30 yellow, longer red. */
  function VisitorColor(wait: int): Color {
    if wait <= 15 then Green else if wait <= 30 then Yellow else Red
  }

  /** `getWaitTimeText`: five buckets, the first three of them inside the green colour. */
  function VisitorText(wait: int): string {
    if wait == 0 then "Нет очереди"
    else if wait <= 5 then "Очень быстро"
    else if wait <= 15 then "Быстро"
    else if wait <= 30 then "Умеренно"
    else "Долго"
  }

  /** The dashboard's text determines its colour: the three short-wait texts come with green,
      "Умеренно" with yellow and "Долго" with red. */
  lemma VisitorColorMatchesText(wait: int)
    ensures VisitorText(wait) in {"Нет очереди", "Очень быстро", "Быстро"} <==> VisitorColor(wait) == Green
    ensures VisitorText(wait) == "Умеренно" <==> VisitorColor(wait) == Yellow
    ensures VisitorText(wait) == "Долго" <==> VisitorColor(wait) == Red
  {
  }

  /** The dashboard is never more alarmed than the public board, and calls a wait red exactly when
      the public board does. */
  lemma VisitorNoHarsherThanStatus(wait: int)
    requires wait >= 0
    ensures Rank(VisitorColor(wait)) <= Rank(StatusColor(wait))
    ensures VisitorColor(wait) == Red <==> StatusColor(wait) == Red
  {
  }

  /** The catalog attraction of a row exists; the dashboard does not look at `isActive`. */
  function IsKnownRow(): Catalog.Summary -> bool {
    (s: Catalog.Summary) => Catalog.IsKnown(s.attractionId)
  }

  /** One dashboard card: the approximate-time line shows the row's own `nextAvailableTime`, and
      only when the wait is positive. */
  function VisitorCard(s: Catalog.Summary): (c: Card)
    requires Catalog.IsKnown(s.attractionId)
    ensures c.attraction.id == s.attractionId && c.attraction in Catalog.Attractions
    ensures c.admission.EnterAt? <==> s.estimatedWaitTime > 0
    ensures c.admission.EnterAt? ==> c.admission.time == s.nextAvailableTime
    ensures !c.admission.EnterAt? ==> c.admission == NoHint
  {
    var w := s.estimatedWaitTime;
    Card(s, Catalog.Get(s.attractionId), VisitorColor(w), VisitorText(w), None, WaitLabel(w),
         if w > 0 then EnterAt(s.nextAvailableTime) else NoHint)
  }

  /** The dashboard: one card per row whose attraction is in the catalog, in arrival order. */
  function VisitorBoard(summaries: seq<Catalog.Summary>): (r: seq<Card>)
    ensures |r| <= |summaries|
    ensures forall i :: 0 <= i < |r| ==>
      && r[i].summary in summaries
      && Catalog.IsKnown(r[i].summary.attractionId)
      && r[i] == VisitorCard(r[i].summary)
    ensures forall x :: x in summaries && Catalog.IsKnown(x.attractionId) ==>
      exists i :: 0 <= i < |r| && r[i].summary == x
  {
    var rows := Seqs.Filter(summaries, IsKnownRow());
    var r := seq(|rows|, i requires 0 <= i < |rows| => VisitorCard(rows[i]));
    forall x | x in summaries && Catalog.IsKnown(x.attractionId)
      ensures exists i :: 0 <= i < |r| && r[i].summary == x
    {
      var k :| 0 <= k < |summaries| && summaries[k] == x;
      assert IsKnownRow()(summaries[k]);
      var i :| 0 <= i < |rows| && rows[i] == x;
      assert r[i].summary == x;
    }
    r
  }

  /** `VisitorDashboard` reads `getQueueSummary()` from the zustand store. */
  function VisitorDashboard(q: seq<QueueStore.QueueEntry>, now: int): seq<Card> {
    VisitorBoard(QueueStore.GetQueueSummary(q, now))
  }

  lemma ProductPositive(length: int, duration: int)
    requires length >= 0 && duration > 0
    ensures length * duration > 0 <==> length > 0
  {
  }

  /** Over the store's own summary the dashboard shows every ride in catalog order, and a ride's
      time line appears exactly when somebody is queued for it, showing the time the next visitor
      would get in. */
  lemma VisitorSeesEveryRide(q: seq<QueueStore.QueueEntry>, now: int, i: int)
    requires 0 <= i < |Catalog.Attractions|
    ensures var board := VisitorDashboard(q, now);
      && |board| == |Catalog.Attractions|
      && board[i].attraction == Catalog.Attractions[i]
      && (board[i].admission.EnterAt? <==> |QueueStore.ForAttraction(q, Catalog.Attractions[i].id)| > 0)
      && (board[i].admission.EnterAt? ==>
            board[i].admission.time
            == NextAvailable(now, |QueueStore.ForAttraction(q, Catalog.Attractions[i].id)| * Catalog.Attractions[i].duration))
  {
    var rows := QueueStore.GetQueueSummary(q, now);
    forall k | 0 <= k < |rows|
      ensures IsKnownRow()(rows[k])
    {
      assert rows[k].attractionId == Catalog.Attractions[k].id;
    }
    Seqs.FilterAll(rows, IsKnownRow());
    Catalog.CatalogWellFormed();
    Catalog.FindCatalogEntry(i);
    var a := Catalog.Attractions[i];
    ProductPositive(|QueueStore.ForAttraction(q, a.id)|, a.duration);
  }
}
