/** The static attraction catalog and the record shapes shared by every component. */
module Catalog {
  import opened Wrappers
  import Seqs

  /** Milliseconds in a minute: every wait in minutes becomes a clock offset through it. */
  const MsPerMinute: int := 60000

  /** One ride. `duration` is the minutes one visitor occupies it. The catalog's
      `description` and `icon` fields are display-only and not modelled. */
  datatype Attraction = Attraction(id: string, name: string, duration: int, capacity: int, isActive: bool)

  /** The per-attraction digest every display renders; times are milliseconds since the epoch. */
  datatype Summary = Summary(
    attractionId: string,
    attractionName: string,
    queueLength: int,
    estimatedWaitTime: int,
    nextAvailableTime: int)

  /** The five rides of the park, in the order every summary lists them. */
  const Attractions: seq<Attraction> := [
    Attraction("1", "Американские горки \"Молния\"", 5, 24, true),
    Attraction("2", "Колесо обозрения", 15, 40, true),
    Attraction("3", "Карусель", 3, 20, true),
    Attraction("4", "Дом ужасов", 10, 8, true),
    Attraction("5", "Автодром", 8, 16, true)
  ]

  /** True when some catalog attraction has this id. */
  predicate IsKnown(id: string) {
    exists i :: 0 <= i < |Attractions| && Attractions[i].id == id
  }

  /** `attractions.find(a => a.id === id)`. */
  function Find(id: string): (r: Option<Attraction>)
    ensures r.Some? <==> IsKnown(id)
    ensures r.Some? ==> r.value.id == id && r.value in Attractions
  {
    Seqs.Find(Attractions, (a: Attraction) => a.id == id)
  }

  /** `Find(id)` when the id is known to be in the catalog. */
  function Get(id: string): (a: Attraction)
    requires IsKnown(id)
    ensures a.id == id && a in Attractions
  {
    Find(id).value
  }

  /** Catalog ids are pairwise distinct and every duration is positive, so lookups are unambiguous. */
  lemma CatalogWellFormed()
    ensures forall i, j :: 0 <= i < j < |Attractions| ==> Attractions[i].id != Attractions[j].id
    ensures forall i :: 0 <= i < |Attractions| ==> Attractions[i].duration > 0
  {
  }

  /** Looking up the id of the i-th attraction finds that attraction. */
  lemma FindCatalogEntry(i: int)
    requires 0 <= i < |Attractions|
    ensures Find(Attractions[i].id) == Some(Attractions[i])
  {
    CatalogWellFormed();
  }
}
