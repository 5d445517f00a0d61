/**
 * The Area resource service (`AreaQueryServiseImplements`) over an in-memory
 * table `map<int, Area>` standing in for `AreaRepository`. Each operation
 * checks the key first and throws, leaving the table as it was, when the
 * check goes the wrong way.
 */
module AreaService {
  import opened Format
  import opened Exceptions
  import opened Column
  import opened AreaEntity
  import Table

  type AreaTable = map<int, Area>

  /** Every row is stored under its own id, as the primary-key mapping keeps it. */
  predicate WellKeyed(t: AreaTable) {
    forall id :: id in t ==> t[id].id == id
  }

  /** The message of `getAreaById`'s `RuntimeException`. */
  function NotFoundMessage(id: int): string {
    "Query id = " + Decimal(id) + " not exsist in this data table."
  }

  /** The message of `addNewItem`'s `IllegalStateException`. */
  function ExistsMessage(id: int): string {
    "ID {" + Decimal(id) + "} has been exsist."
  }

  /** The message `deleteAreaById` and `updateAreaByID` throw for an absent id. */
  function MissingMessage(id: int): string {
    "area ID {" + Decimal(id) + "} doesn't exsist."
  }

  /** `getAreaById`: the stored row, or a `RuntimeException` naming the id. */
  function GetAreaById(t: AreaTable, id: int): (r: Result<Area>)
    ensures r.Returned? <==> id in t
    ensures r.Returned? ==> r.value == t[id]
    ensures r.Threw? ==> r.exception == RuntimeException(NotFoundMessage(id))
    ensures WellKeyed(t) && r.Returned? ==> r.value.id == id
  {
    if id in t then Returned(t[id]) else Threw(RuntimeException(NotFoundMessage(id)))
  }

  /** `addNewItem`: refuses an id already present; otherwise saves the row
      under its id and returns that id. */
  function AddNewItem(t: AreaTable, area: Area): (s: Step<int, int, Area>)
    ensures s.result.Returned? <==> area.id !in t
    ensures s.result.Threw? ==> s.table == t
    ensures s.result.Threw? ==> s.result.exception == IllegalStateException(ExistsMessage(area.id))
    ensures s.result.Returned? ==> s.result.value == area.id
    ensures s.result.Returned? ==> s.table.Keys == t.Keys + {area.id} && s.table[area.id] == area
    ensures s.result.Returned? ==> |s.table| == |t| + 1
    ensures forall k :: k in t ==> k in s.table && s.table[k] == t[k]
    ensures WellKeyed(t) ==> WellKeyed(s.table)
  {
    if area.id in t then
      Step(Threw(IllegalStateException(ExistsMessage(area.id))), t)
    else
      Step(Returned(area.id), t[area.id := area])
  }

  /** `deleteAreaById`: refuses an absent id; otherwise removes exactly that
      row and returns the id. */
  function DeleteAreaById(t: AreaTable, id: int): (s: Step<int, int, Area>)
    ensures s.result.Returned? <==> id in t
    ensures s.result.Threw? ==> s.table == t
    ensures s.result.Threw? ==> s.result.exception == IllegalStateException(MissingMessage(id))
    ensures s.result.Returned? ==> s.result.value == id
    ensures s.table.Keys == t.Keys - {id}
    ensures s.result.Returned? ==> |s.table| == |t| - 1
    ensures forall k :: k in s.table ==> s.table[k] == t[k]
    ensures WellKeyed(t) ==> WellKeyed(s.table)
  {
    if id !in t then
      Step(Threw(IllegalStateException(MissingMessage(id))), t)
    else
      Step(Returned(id), t - {id})
  }

  /** The merge law of an update: the id and the three integer codes come
      from the incoming row unconditionally; each string column takes the
      incoming value when it is non-empty and keeps the stored one otherwise. */
  function MergeArea(stored: Area, incoming: Area): Area {
    Area(
      incoming.id,
      incoming.provinceID,
      incoming.cityID,
      incoming.areaID,
      Overlay(stored.provinceName, incoming.provinceName),
      Overlay(stored.cityName, incoming.cityName),
      Overlay(stored.areaName, incoming.areaName),
      Overlay(stored.code, incoming.code),
      Overlay(stored.centerPos, incoming.centerPos))
  }

  /** The setter calls `updateAreaByID` makes on the loaded row, in source
      order: `setId` and the three integer setters unconditionally, then each
      string setter only when `stringColumnCheck` accepts the incoming value.
      Together they compute the merge law. */
  function ApplySetters(stored: Area, incoming: Area): (r: Area)
    ensures r == MergeArea(stored, incoming)
  {
    var a := stored.(id := incoming.id);
    var a := a.(provinceID := incoming.provinceID);
    var a := a.(cityID := incoming.cityID);
    var a := a.(areaID := incoming.areaID);
    var a := a.(provinceName := MergeColumn(a.provinceName, incoming.provinceName));
    var a := a.(cityName := MergeColumn(a.cityName, incoming.cityName));
    var a := a.(areaName := MergeColumn(a.areaName, incoming.areaName));
    var a := a.(code := MergeColumn(a.code, incoming.code));
    var a := a.(centerPos := MergeColumn(a.centerPos, incoming.centerPos));
    a
  }

  /** The same setter calls written through Area's getters and setters, as
      `updateAreaByID` makes them: each integer column copied from the
      incoming row, each string column copied only when `stringColumnCheck`
      accepts the incoming getter's value against the loaded row's. The
      accessor laws of `AreaEntity` thus carry over to the update. */
  lemma SettersThroughAccessors(stored: Area, incoming: Area)
    ensures
      var a := Set(stored, Id, Get(incoming, Id));
      var a := Set(a, ProvinceID, Get(incoming, ProvinceID));
      var a := Set(a, CityID, Get(incoming, CityID));
      var a := Set(a, AreaID, Get(incoming, AreaID));
      var a := if StringColumnCheck(Get(a, ProvinceName).s, Get(incoming, ProvinceName).s)
        then Set(a, ProvinceName, Get(incoming, ProvinceName)) else a;
      var a := if StringColumnCheck(Get(a, CityName).s, Get(incoming, CityName).s)
        then Set(a, CityName, Get(incoming, CityName)) else a;
      var a := if StringColumnCheck(Get(a, AreaName).s, Get(incoming, AreaName).s)
        then Set(a, AreaName, Get(incoming, AreaName)) else a;
      var a := if StringColumnCheck(Get(a, Code).s, Get(incoming, Code).s)
        then Set(a, Code, Get(incoming, Code)) else a;
      var a := if StringColumnCheck(Get(a, CenterPos).s, Get(incoming, CenterPos).s)
        then Set(a, CenterPos, Get(incoming, CenterPos)) else a;
      a == ApplySetters(stored, incoming)
  {
  }

  /** `updateAreaByID`: refuses an id that is not stored; otherwise merges
      the incoming row into the stored one, saves and returns the result. */
  function UpdateAreaById(t: AreaTable, incoming: Area): (s: Step<Area, int, Area>)
    ensures s.result.Returned? <==> incoming.id in t
    ensures s.result.Threw? ==> s.table == t
    ensures s.result.Threw? ==> s.result.exception == IllegalStateException(MissingMessage(incoming.id))
    ensures s.result.Returned? ==> s.result.value == MergeArea(t[incoming.id], incoming)
    ensures s.result.Returned? ==> s.result.value.id == incoming.id
    ensures s.table.Keys == t.Keys
    ensures s.result.Returned? ==> s.table[incoming.id] == s.result.value
    ensures forall k :: k in t && k != incoming.id ==> s.table[k] == t[k]
    ensures WellKeyed(t) ==> WellKeyed(s.table)
  {
    if incoming.id !in t then
      Step(Threw(IllegalStateException(MissingMessage(incoming.id))), t)
    else
      var merged := ApplySetters(t[incoming.id], incoming);
      Step(Returned(merged), t[merged.id := merged])
  }

  /** `getAllAreas`: exactly the stored rows, one per id. */
  method GetAllAreas(t: AreaTable) returns (rows: seq<Area>)
    ensures |rows| == |t|
    ensures forall i :: 0 <= i < |rows| ==> exists id :: id in t && t[id] == rows[i]
    ensures forall id :: id in t ==> t[id] in rows
    ensures WellKeyed(t) ==> forall i :: 0 <= i < |rows| ==> rows[i].id in t && t[rows[i].id] == rows[i]
    ensures WellKeyed(t) ==> forall i, j :: 0 <= i < j < |rows| ==> rows[i] != rows[j]
  {
    ghost var keys;
    rows, keys := Table.FindAll(t);
    if WellKeyed(t) {
      forall i, j | 0 <= i < j < |rows|
        ensures rows[i] != rows[j]
      {
        assert rows[i].id == keys[i] && rows[j].id == keys[j];
      }
    }
    forall i | 0 <= i < |rows|
      ensures exists id :: id in t && t[id] == rows[i]
    {
      var id := keys[i];
      assert id in t && t[id] == rows[i];
    }
  }

  /** Distinct ids give distinct not-found messages: the message names the id. */
  lemma NotFoundMessageNamesId(a: int, b: int)
    requires NotFoundMessage(a) == NotFoundMessage(b)
    ensures a == b
  {
    EmbeddedInjective("Query id = ", Decimal(a), Decimal(b), " not exsist in this data table.");
    DecimalInjective(a, b);
  }

  /** The same for the message of a refused insert. */
  lemma ExistsMessageNamesId(a: int, b: int)
    requires ExistsMessage(a) == ExistsMessage(b)
    ensures a == b
  {
    EmbeddedInjective("ID {", Decimal(a), Decimal(b), "} has been exsist.");
    DecimalInjective(a, b);
  }

  /** The same for the message of a refused delete or update. */
  lemma MissingMessageNamesId(a: int, b: int)
    requires MissingMessage(a) == MissingMessage(b)
    ensures a == b
  {
    EmbeddedInjective("area ID {", Decimal(a), Decimal(b), "} doesn't exsist.");
    DecimalInjective(a, b);
  }

  /** A row just inserted is read back unchanged. */
  lemma AddThenGet(t: AreaTable, area: Area)
    requires area.id !in t
    ensures GetAreaById(AddNewItem(t, area).table, area.id) == Returned(area)
  {
  }

  /** Inserting the same id twice: the second insert is refused. */
  lemma AddTwiceRefused(t: AreaTable, area: Area)
    ensures AddNewItem(AddNewItem(t, area).table, area).result.Threw?
  {
  }

  /** After a delete the id is no longer found. */
  lemma DeleteThenGet(t: AreaTable, id: int)
    ensures GetAreaById(DeleteAreaById(t, id).table, id).Threw?
  {
  }

  /** Deleting a freshly inserted row restores the table. */
  lemma AddThenDelete(t: AreaTable, area: Area)
    requires area.id !in t
    ensures DeleteAreaById(AddNewItem(t, area).table, area.id).table == t
  {
  }

  /** Merging the same incoming row twice is merging it once. */
  lemma MergeAreaIdempotent(stored: Area, incoming: Area)
    ensures MergeArea(MergeArea(stored, incoming), incoming) == MergeArea(stored, incoming)
  {
  }

  /** Applying the same update twice equals applying it once, in result and table. */
  lemma UpdateIdempotent(t: AreaTable, incoming: Area)
    ensures var once := UpdateAreaById(t, incoming);
            UpdateAreaById(once.table, incoming) == once
  {
  }

  /** The partial-update scenario: an empty incoming province name keeps the
      stored "A", a new city name "B" is applied. */
  lemma PartialUpdateScenario(stored: Area, incoming: Area)
    requires stored.id == 1 && stored.provinceName == "A"
    requires incoming.id == 1 && incoming.provinceName == "" && incoming.cityName == "B"
    ensures var s := UpdateAreaById(map[1 := stored], incoming);
            s.result.Returned? && s.result.value.provinceName == "A" && s.result.value.cityName == "B"
  {
  }
}
