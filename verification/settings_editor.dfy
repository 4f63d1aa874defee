/** The attraction-duration editor: typed values wait in a per-attraction pending map until they are
    saved or reverted, and a `saving` flag per attraction is raised while a save is in flight. */
module SettingsEditor {
  import opened Wrappers
  import IntParsing
  import Settings

  /** `localSettings` (pending values) and `isSaving`. */
  datatype Editor = Editor(pending: map<string, int>, saving: map<string, bool>)

  /** How the remote `updateDuration` call ended: resolved, or threw. */
  datatype CallOutcome = Resolved | Threw

  /** The one `updateDuration(attractionId, duration)` call a save makes. */
  datatype UpdateCall = UpdateCall(attractionId: string, duration: int)

  /** How the synchronous part of `handleSave` ends: it returns before doing anything, or it has made
      the call with the flag raised; `during` is the editor while the call is awaited. */
  datatype SaveStart = NotStarted | Started(call: UpdateCall, during: Editor)

  /** A whole `handleSave` with no edits while the call is awaited; it ends in `after`. */
  datatype SaveRun = Skipped | Saved(call: UpdateCall, during: Editor, after: Editor)

  /** Nothing pending, nothing saving. */
  function Initial(): Editor {
    Editor(map[], map[])
  }

  /** `parseInt(value) || 1`: `NaN` and 0 both become 1; any other value, negative included, is kept. */
  function PendingValue(value: string): (d: int)
    ensures d != 0
    ensures IntParsing.ParseInt(value).Some? && IntParsing.ParseInt(value).value != 0 ==>
              d == IntParsing.ParseInt(value).value
    ensures IntParsing.ParseInt(value).None? || IntParsing.ParseInt(value).value == 0 ==> d == 1
  {
    match IntParsing.ParseInt(value)
    case Some(n) => Settings.OrElse(n, 1)
    case None => 1
  }

  /** `handleDurationChange(a, value)`: the parsed value becomes `a`'s pending value. */
  function HandleDurationChange(ed: Editor, a: string, value: string): (r: Editor)
    ensures r.pending.Keys == ed.pending.Keys + {a}
    ensures r.pending[a] == PendingValue(value)
    ensures forall b :: b in ed.pending && b != a ==> r.pending[b] == ed.pending[b]
    ensures r.saving == ed.saving
  {
    ed.(pending := ed.pending[a := PendingValue(value)])
  }

  /** The revert button: `a`'s pending value is dropped. */
  function Revert(ed: Editor, a: string): (r: Editor)
    ensures r.pending.Keys == ed.pending.Keys - {a}
    ensures forall b :: b in r.pending ==> r.pending[b] == ed.pending[b]
    ensures r.saving == ed.saving
  {
    ed.(pending := ed.pending - {a})
  }

  /** The synchronous part of `handleSave(a)`: nothing happens unless a pending value of at least 1
      exists. Otherwise the flag goes up and `updateDuration` is called once with that value. The
      duration field stays editable while the call is awaited. */
  function BeginSave(ed: Editor, a: string): (r: SaveStart)
    ensures r.NotStarted? <==> a !in ed.pending || ed.pending[a] < 1
    ensures r.Started? ==>
      && r.call == UpdateCall(a, ed.pending[a])
      && r.during.pending == ed.pending
      && r.during.saving == ed.saving[a := true]
  {
    if a !in ed.pending || ed.pending[a] == 0 || ed.pending[a] < 1 then NotStarted
    else Started(UpdateCall(a, ed.pending[a]), ed.(saving := ed.saving[a := true]))
  }

  /** What runs once the awaited call ends, applied to the editor as it is at that moment: a resolved
      call drops `a`'s pending value, whatever was typed meanwhile, and the flag comes down on both
      outcomes. Other attractions' pending values are left as they are then. */
  function FinishSave(ed: Editor, a: string, outcome: CallOutcome): (r: Editor)
    ensures r.saving == ed.saving[a := false]
    ensures outcome == Resolved ==> r.pending == ed.pending - {a}
    ensures outcome == Threw ==> r.pending == ed.pending
  {
    var cleared := if outcome == Resolved then Revert(ed, a) else ed;
    cleared.(saving := cleared.saving[a := false])
  }

  /** `handleSave(a)` with nothing typed while the call is awaited: the begin step, then the finish
      step on the editor the begin step left. */
  function HandleSave(ed: Editor, a: string, outcome: CallOutcome): (r: SaveRun)
    ensures r.Skipped? <==> a !in ed.pending || ed.pending[a] < 1
    ensures r.Saved? ==>
      && r.call == UpdateCall(a, ed.pending[a])
      && r.during.pending == ed.pending
      && r.during.saving == ed.saving[a := true]
      && r.after.saving == ed.saving[a := false]
      && (outcome == Resolved ==> r.after.pending == ed.pending - {a})
      && (outcome == Threw ==> r.after.pending == ed.pending)
  {
    match BeginSave(ed, a)
    case NotStarted => Skipped
    case Started(call, during) => Saved(call, during, FinishSave(during, a, outcome))
  }

  /** A value typed for the saved attraction while the call is awaited is lost when the call resolves,
      although the call carried the older value; if the call throws, the newer value stays pending. */
  lemma TypedDuringSave(ed: Editor, a: string, value: string, outcome: CallOutcome)
    requires BeginSave(ed, a).Started?
    ensures var s := BeginSave(ed, a);
      var r := FinishSave(HandleDurationChange(s.during, a, value), a, outcome);
      && s.call.duration == ed.pending[a]
      && (outcome == Resolved ==> !HasUnsavedChanges(r, a))
      && (outcome == Threw ==> HasUnsavedChanges(r, a) && r.pending[a] == PendingValue(value))
      && !r.saving[a]
  {
  }

  /** A value typed for another attraction while the call is awaited survives its completion. */
  lemma OtherTypedDuringSave(ed: Editor, a: string, b: string, value: string, outcome: CallOutcome)
    requires b != a && BeginSave(ed, a).Started?
    ensures var r := FinishSave(HandleDurationChange(BeginSave(ed, a).during, b, value), a, outcome);
      HasUnsavedChanges(r, b) && r.pending[b] == PendingValue(value)
  {
  }

  /** `getCurrentDuration(a)`: the pending value first, then the stored setting, the catalog default
      and finally 5, each only when truthy. */
  function GetCurrentDuration(ed: Editor, settings: seq<Settings.AttractionSetting>, a: string): (d: int)
    ensures a in ed.pending ==> d == ed.pending[a]
    ensures a !in ed.pending ==> d == Settings.GetDuration(settings, a) && d != 0
  {
    if a in ed.pending then ed.pending[a] else Settings.GetDuration(settings, a)
  }

  /** `hasUnsavedChanges(a)`. */
  predicate HasUnsavedChanges(ed: Editor, a: string) {
    a in ed.pending
  }

  /** Typing a value shows it at once and marks the attraction as changed. */
  lemma EditShowsPending(ed: Editor, settings: seq<Settings.AttractionSetting>, a: string, value: string)
    ensures var r := HandleDurationChange(ed, a, value);
      HasUnsavedChanges(r, a) && GetCurrentDuration(r, settings, a) == PendingValue(value)
  {
  }

  /** A typed value that parses to at least 1 is always accepted by save. */
  lemma TypedValueSaves(ed: Editor, a: string, value: string, outcome: CallOutcome)
    requires IntParsing.ParseInt(value).Some? && IntParsing.ParseInt(value).value >= 1
    ensures var r := HandleSave(HandleDurationChange(ed, a, value), a, outcome);
      r.Saved? && r.call == UpdateCall(a, IntParsing.ParseInt(value).value)
  {
  }

  /** A negative typed value stays pending but can never be saved. */
  lemma NegativeNeverSaves(ed: Editor, a: string, value: string, outcome: CallOutcome)
    requires IntParsing.ParseInt(value).Some? && IntParsing.ParseInt(value).value < 0
    ensures HandleSave(HandleDurationChange(ed, a, value), a, outcome).Skipped?
  {
  }

  /** Round trip: once a save resolves and the settings take the new value, the editor shows the
      same duration it showed before saving, now read from the settings, and nothing is unsaved. */
  lemma SaveKeepsDisplayedValue(ed: Editor, settings: seq<Settings.AttractionSetting>, a: string)
    requires a in ed.pending && ed.pending[a] >= 1
    requires Settings.Find(settings, a).Some?
    ensures var r := HandleSave(ed, a, Resolved);
      && r.Saved?
      && !HasUnsavedChanges(r.after, a)
      && GetCurrentDuration(r.after, Settings.UpdateDuration(settings, r.call.attractionId, r.call.duration), a)
         == GetCurrentDuration(ed, settings, a)
  {
    Settings.GetAfterUpdate(settings, a, ed.pending[a]);
  }

  /** Saving or reverting one attraction leaves every other attraction's pending value alone. */
  lemma OthersUntouched(ed: Editor, a: string, b: string, outcome: CallOutcome)
    requires b != a
    ensures var r := HandleSave(ed, a, outcome);
      r.Saved? ==> (b in r.after.pending <==> b in ed.pending) && (b in ed.pending ==> r.after.pending[b] == ed.pending[b])
    ensures (b in Revert(ed, a).pending <==> b in ed.pending)
  {
  }
}
