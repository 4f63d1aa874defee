/** The per-attraction settings registry. The zustand store (attractionSettingsStore) and the
    localStorage hook (useLocalSettings) hold the same record and share these operations. */
module Settings {
  import opened Wrappers
  import Seqs
  import Catalog

  /** One attraction's overridable settings; `duration` is minutes per visitor. */
  datatype AttractionSetting = AttractionSetting(attractionId: string, duration: int, capacity: int, isActive: bool)

  /** JavaScript's `x || y` on numbers: `y` when `x` is 0 (falsy). */
  function OrElse(x: int, y: int): int {
    if x != 0 then x else y
  }

  function ForId(a: string): AttractionSetting -> bool {
    (s: AttractionSetting) => s.attractionId == a
  }

  /** `settings.find(s => s.attractionId === a)`. */
  function Find(settings: seq<AttractionSetting>, a: string): Option<AttractionSetting> {
    Seqs.Find(settings, ForId(a))
  }

  /** `setting?.duration`, with a missing setting read as 0 since both are falsy. */
  function StoredDuration(settings: seq<AttractionSetting>, a: string): int {
    match Find(settings, a)
    case Some(setting) => setting.duration
    case None => 0
  }

  /** `attractions.find(a => a.id === id)?.duration`, a missing attraction read as 0. */
  function CatalogDuration(a: string): int {
    match Catalog.Find(a)
    case Some(attraction) => attraction.duration
    case None => 0
  }

  function DefaultOf(attraction: Catalog.Attraction): AttractionSetting {
    AttractionSetting(attraction.id, attraction.duration, attraction.capacity, attraction.isActive)
  }

  /** `getDefaultSettings` / the defaults of `loadSettings`: one record per catalog attraction, in order. */
  function DefaultSettings(): (r: seq<AttractionSetting>)
    ensures |r| == |Catalog.Attractions|
    ensures forall i :: 0 <= i < |r| ==>
      var a := Catalog.Attractions[i];
      && r[i].attractionId == a.id
      && r[i].duration == a.duration
      && r[i].capacity == a.capacity
      && r[i].isActive == a.isActive
  {
    seq(|Catalog.Attractions|, i requires 0 <= i < |Catalog.Attractions| => DefaultOf(Catalog.Attractions[i]))
  }

  /** `updateDuration`: every record of attraction `a` takes duration `d`; nothing else changes. */
  function UpdateDuration(settings: seq<AttractionSetting>, a: string, d: int): (r: seq<AttractionSetting>)
    ensures |r| == |settings|
    ensures forall i :: 0 <= i < |r| ==>
      && r[i].attractionId == settings[i].attractionId
      && r[i].capacity == settings[i].capacity
      && r[i].isActive == settings[i].isActive
      && r[i].duration == (if settings[i].attractionId == a then d else settings[i].duration)
  {
    seq(|settings|, i requires 0 <= i < |settings| =>
      if settings[i].attractionId == a then settings[i].(duration := d) else settings[i])
  }

  /** `getDuration`: the stored duration if truthy, else the catalog default if truthy, else 5. */
  function GetDuration(settings: seq<AttractionSetting>, a: string): (r: int)
    ensures Find(settings, a).Some? && Find(settings, a).value.duration != 0 ==>
              r == Find(settings, a).value.duration
    ensures StoredDuration(settings, a) == 0 && Catalog.IsKnown(a) ==> r == Catalog.Get(a).duration
    ensures StoredDuration(settings, a) == 0 && !Catalog.IsKnown(a) ==> r == 5
    ensures r != 0
  {
    Catalog.CatalogWellFormed();
    OrElse(StoredDuration(settings, a), OrElse(CatalogDuration(a), 5))
  }

  /** Updating keeps which record is found first for any attraction. */
  lemma UpdateKeepsLookup(settings: seq<AttractionSetting>, a: string, d: int, b: string)
    ensures var r := UpdateDuration(settings, a, d);
      && Find(r, b).Some? == Find(settings, b).Some?
      && (Find(r, b).Some? ==>
            Find(r, b).value == if b == a then Find(settings, b).value.(duration := d) else Find(settings, b).value)
  {
    var r := UpdateDuration(settings, a, d);
    Seqs.IndexWhereCongruent(r, settings, ForId(b), ForId(b));
  }

  /** Round trip: after setting a non-zero duration on an attraction that has a record,
      `getDuration` reports exactly that duration. */
  lemma GetAfterUpdate(settings: seq<AttractionSetting>, a: string, d: int)
    requires Find(settings, a).Some? && d != 0
    ensures GetDuration(UpdateDuration(settings, a, d), a) == d
  {
    UpdateKeepsLookup(settings, a, d, a);
  }

  /** Updating one attraction never changes the duration reported for another. */
  lemma GetAfterUpdateOther(settings: seq<AttractionSetting>, a: string, d: int, b: string)
    requires b != a
    ensures GetDuration(UpdateDuration(settings, a, d), b) == GetDuration(settings, b)
  {
    UpdateKeepsLookup(settings, a, d, b);
  }

  /** Updating an attraction that has no record changes nothing. */
  lemma UpdateMissingIsNoOp(settings: seq<AttractionSetting>, a: string, d: int)
    requires Find(settings, a).None?
    ensures UpdateDuration(settings, a, d) == settings
  {
  }

  /** Applying the same update twice is the same as applying it once. */
  lemma UpdateIdempotent(settings: seq<AttractionSetting>, a: string, d: int)
    ensures UpdateDuration(UpdateDuration(settings, a, d), a, d) == UpdateDuration(settings, a, d)
  {
  }

  /** On the default settings every catalog attraction reports its catalog duration. */
  lemma DefaultDurations(i: int)
    requires 0 <= i < |Catalog.Attractions|
    ensures GetDuration(DefaultSettings(), Catalog.Attractions[i].id) == Catalog.Attractions[i].duration
  {
    Catalog.CatalogWellFormed();
    var r := DefaultSettings();
    var k := Seqs.IndexWhere(r, ForId(Catalog.Attractions[i].id));
    assert r[i].attractionId == Catalog.Attractions[i].id;
    assert k == i;
  }
}

/** `attractionSettingsStore`: the zustand settings store. */
module SettingsStore {
  import opened Wrappers
  import opened Settings

  /** `resetToDefaults`: whatever the settings were, they become the catalog defaults, so every
      catalog attraction reports its catalog duration again. */
  function ResetToDefaults(settings: seq<AttractionSetting>): (r: seq<AttractionSetting>)
    ensures r == DefaultSettings()
    ensures |r| == |Catalog.Attractions|
    ensures forall i :: 0 <= i < |Catalog.Attractions| ==>
      GetDuration(r, Catalog.Attractions[i].id) == Catalog.Attractions[i].duration
  {
    forall i | 0 <= i < |Catalog.Attractions| {
      DefaultDurations(i);
    }
    DefaultSettings()
  }

  /** `loadFromStorage`: a stored, parseable snapshot replaces the settings wholesale;
      a missing or unparseable item leaves them as they are. */
  function LoadFromStorage(settings: seq<AttractionSetting>, stored: Stored<seq<AttractionSetting>>)
    : (r: seq<AttractionSetting>)
    ensures stored.Parsed? ==> r == stored.value
    ensures !stored.Parsed? ==> r == settings
  {
    match stored
    case Parsed(snapshot) => snapshot
    case _ => settings
  }
}

/** `useLocalSettings`: the settings hook backed by localStorage and the sync server. */
module LocalSettings {
  import opened Wrappers
  import opened Settings
  import Protocol

  /** `loadSettings`: a stored snapshot is used as is; with nothing stored the catalog defaults are
      created; an unparseable item leaves the settings unchanged. */
  function LoadSettings(settings: seq<AttractionSetting>, stored: Stored<seq<AttractionSetting>>)
    : (r: seq<AttractionSetting>)
    ensures stored.Parsed? ==> r == stored.value
    ensures stored.Missing? ==> r == DefaultSettings()
    ensures stored.Unparseable? ==> r == settings
  {
    match stored
    case Missing => DefaultSettings()
    case Unparseable => settings
    case Parsed(snapshot) => snapshot
  }

  /** The `onmessage` handler: only `settings-sync` changes the settings, replacing them wholesale
      with its payload (or [] when the payload is missing). */
  function ApplySettingsSync<Q>(settings: seq<AttractionSetting>, inbound: Protocol.Inbound<Q, AttractionSetting>)
    : (r: seq<AttractionSetting>)
    ensures inbound.Parsed? && inbound.msg.SettingsSync? ==>
              r == Protocol.PayloadOrEmpty(inbound.msg.settings)
    ensures !(inbound.Parsed? && inbound.msg.SettingsSync?) ==> r == settings
  {
    match inbound
    case Parsed(SettingsSync(data)) => Protocol.PayloadOrEmpty(data)
    case _ => settings
  }
}
