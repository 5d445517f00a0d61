/**
 * The `Area` entity: one row of the `area` table, keyed by `id`, with three
 * integer hierarchy codes and five string columns. The JavaBean getters and
 * setters are modelled once, indexed by a `Field`, so their laws can be
 * stated for every column at once.
 */
module AreaEntity {

  datatype Area = Area(
    id: int,
    provinceID: int,
    cityID: int,
    areaID: int,
    provinceName: string,
    cityName: string,
    areaName: string,
    code: string,
    centerPos: string)

  /** The columns of `Area`, one per getter/setter pair. */
  datatype Field =
    | Id | ProvinceID | CityID | AreaID
    | ProvinceName | CityName | AreaName | Code | CenterPos
  {
    predicate IsInt() {
      Id? || ProvinceID? || CityID? || AreaID?
    }
  }

  /** A column value: Java `int` or `String`. */
  datatype Value = IntValue(i: int) | StringValue(s: string)

  /** `v` has the Java type of column `f`. */
  predicate Fits(f: Field, v: Value) {
    v.IntValue? <==> f.IsInt()
  }

  /** `getId()`, `getProvinceID()`, …, `getCenterPos()`. */
  function Get(a: Area, f: Field): (v: Value)
    ensures Fits(f, v)
  {
    match f
    case Id => IntValue(a.id)
    case ProvinceID => IntValue(a.provinceID)
    case CityID => IntValue(a.cityID)
    case AreaID => IntValue(a.areaID)
    case ProvinceName => StringValue(a.provinceName)
    case CityName => StringValue(a.cityName)
    case AreaName => StringValue(a.areaName)
    case Code => StringValue(a.code)
    case CenterPos => StringValue(a.centerPos)
  }

  /** `setId(v)`, `setProvinceID(v)`, …, `setCenterPos(v)`: the getter then
      returns `v` and every other column keeps its value. */
  function Set(a: Area, f: Field, v: Value): (r: Area)
    requires Fits(f, v)
    ensures Get(r, f) == v
    ensures forall g :: g != f ==> Get(r, g) == Get(a, g)
  {
    match f
    case Id => a.(id := v.i)
    case ProvinceID => a.(provinceID := v.i)
    case CityID => a.(cityID := v.i)
    case AreaID => a.(areaID := v.i)
    case ProvinceName => a.(provinceName := v.s)
    case CityName => a.(cityName := v.s)
    case AreaName => a.(areaName := v.s)
    case Code => a.(code := v.s)
    case CenterPos => a.(centerPos := v.s)
  }

  /** Two areas whose getters agree on every column are the same row value. */
  lemma {:induction false} Extensionality(a: Area, b: Area)
    requires forall f :: Get(a, f) == Get(b, f)
    ensures a == b
  {
    assert Get(a, Id) == Get(b, Id);
    assert Get(a, ProvinceID) == Get(b, ProvinceID);
    assert Get(a, CityID) == Get(b, CityID);
    assert Get(a, AreaID) == Get(b, AreaID);
    assert Get(a, ProvinceName) == Get(b, ProvinceName);
    assert Get(a, CityName) == Get(b, CityName);
    assert Get(a, AreaName) == Get(b, AreaName);
    assert Get(a, Code) == Get(b, Code);
    assert Get(a, CenterPos) == Get(b, CenterPos);
  }

  /** Setting a column to what its getter returns changes nothing; in
      particular `setId(getId())` leaves the row as it was. */
  lemma SetOwnValue(a: Area, f: Field)
    ensures Set(a, f, Get(a, f)) == a
  {
  }

  /** A second call of the same setter overrides the first. */
  lemma SetLastWins(a: Area, f: Field, v: Value, w: Value)
    requires Fits(f, v) && Fits(f, w)
    ensures Set(Set(a, f, v), f, w) == Set(a, f, w)
  {
  }

  /** Setters of different columns commute. */
  lemma SettersCommute(a: Area, f: Field, v: Value, g: Field, w: Value)
    requires f != g && Fits(f, v) && Fits(g, w)
    ensures Set(Set(a, f, v), g, w) == Set(Set(a, g, w), f, v)
  {
  }
}
