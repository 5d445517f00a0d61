/**
 * The Country resource service (`CountryQueryServiceImplements`) over an
 * in-memory table `map<string, Country>` standing in for `CountryRepository`.
 * Same shape as the Area service, keyed by the country code.
 */
module CountryService {
  import opened Exceptions
  import opened Column
  import opened CountryEntity
  import Table
  import Format

  type CountryTable = map<string, Country>

  /** Every row is stored under its own code. */
  predicate WellKeyed(t: CountryTable) {
    forall code :: code in t ==> t[code].code == code
  }

  /** The message of `getCountryByCode`'s `RuntimeException`. */
  function NotFoundMessage(code: string): string {
    "Countory code: {" + code + "} not exsist in this table."
  }

  /** The message of `addNewCountry`'s `IllegalStateException`. */
  function ExistsMessage(code: string): string {
    "Countory code: {" + code + "} has been exsist in this table."
  }

  /** The message `deleteCountryByCode` and `updateCountry` throw for an absent code. */
  function MissingMessage(code: string): string {
    "Country code: {" + code + "} not exsist in this table."
  }

  /** `getCountryByCode`: the stored row, or a `RuntimeException` naming the code. */
  function GetCountryByCode(t: CountryTable, code: string): (r: Result<Country>)
    ensures r.Returned? <==> code in t
    ensures r.Returned? ==> r.value == t[code]
    ensures r.Threw? ==> r.exception == RuntimeException(NotFoundMessage(code))
    ensures WellKeyed(t) && r.Returned? ==> r.value.code == code
  {
    if code in t then Returned(t[code]) else Threw(RuntimeException(NotFoundMessage(code)))
  }

  /** `addNewCountry`: refuses a code already present; otherwise saves the
      row under its code and returns the row itself. */
  function AddNewCountry(t: CountryTable, country: Country): (s: Step<Country, string, Country>)
    ensures s.result.Returned? <==> country.code !in t
    ensures s.result.Threw? ==> s.table == t
    ensures s.result.Threw? ==> s.result.exception == IllegalStateException(ExistsMessage(country.code))
    ensures s.result.Returned? ==> s.result.value == country
    ensures s.result.Returned? ==> s.table.Keys == t.Keys + {country.code} && s.table[country.code] == country
    ensures s.result.Returned? ==> |s.table| == |t| + 1
    ensures forall k :: k in t ==> k in s.table && s.table[k] == t[k]
    ensures WellKeyed(t) ==> WellKeyed(s.table)
  {
    if country.code in t then
      Step(Threw(IllegalStateException(ExistsMessage(country.code))), t)
    else
      Step(Returned(country), t[country.code := country])
  }

  /** `deleteCountryByCode`: refuses an absent code; otherwise removes that
      row and returns it as it was read before the delete. */
  function DeleteCountryByCode(t: CountryTable, code: string): (s: Step<Country, string, Country>)
    ensures s.result.Returned? <==> code in t
    ensures s.result.Threw? ==> s.table == t
    ensures s.result.Threw? ==> s.result.exception == IllegalStateException(MissingMessage(code))
    ensures s.result.Returned? ==> s.result.value == t[code]
    ensures s.table.Keys == t.Keys - {code}
    ensures s.result.Returned? ==> |s.table| == |t| - 1
    ensures forall k :: k in s.table ==> s.table[k] == t[k]
    ensures WellKeyed(t) ==> WellKeyed(s.table)
  {
    if code !in t then
      Step(Threw(IllegalStateException(MissingMessage(code))), t)
    else
      Step(Returned(t[code]), t - {code})
  }

  /** The merge law of an update: string columns, the code among them, take
      the incoming value when it is non-empty and keep the stored one
      otherwise; numeric columns take the incoming value unconditionally,
      null included. */
  function MergeCountry(stored: Country, incoming: Country): Country {
    Country(
      Overlay(stored.code, incoming.code),
      Overlay(stored.name, incoming.name),
      Overlay(stored.continent, incoming.continent),
      Overlay(stored.region, incoming.region),
      incoming.surfaceArea,
      incoming.indepYear,
      incoming.population,
      incoming.lifeExpectancy,
      incoming.gnp,
      incoming.gnpOld,
      Overlay(stored.localName, incoming.localName),
      Overlay(stored.governmentForm, incoming.governmentForm),
      Overlay(stored.headOfState, incoming.headOfState),
      incoming.capital,
      Overlay(stored.code2, incoming.code2))
  }

  /** The setter calls `updateCountry` makes on the loaded row, in source
      order: string columns set only when `stringColumnCheck` accepts the
      incoming value, numeric columns set unconditionally. */
  function ApplySetters(stored: Country, incoming: Country): (r: Country)
    ensures r == MergeCountry(stored, incoming)
  {
    var c := stored;
    var c := c.(code := MergeColumn(c.code, incoming.code));
    var c := c.(name := MergeColumn(c.name, incoming.name));
    var c := c.(continent := MergeColumn(c.continent, incoming.continent));
    var c := c.(region := MergeColumn(c.region, incoming.region));
    var c := c.(surfaceArea := incoming.surfaceArea);
    var c := c.(indepYear := incoming.indepYear);
    var c := c.(population := incoming.population);
    var c := c.(lifeExpectancy := incoming.lifeExpectancy);
    var c := c.(gnp := incoming.gnp);
    var c := c.(gnpOld := incoming.gnpOld);
    var c := c.(localName := MergeColumn(c.localName, incoming.localName));
    var c := c.(governmentForm := MergeColumn(c.governmentForm, incoming.governmentForm));
    var c := c.(headOfState := MergeColumn(c.headOfState, incoming.headOfState));
    var c := c.(capital := incoming.capital);
    var c := c.(code2 := MergeColumn(c.code2, incoming.code2));
    c
  }

  /** `updateCountry`: refuses a code that is not stored; otherwise merges
      the incoming row into the stored one, saves it under its code and
      returns it. In a well-keyed table the code never changes, because the
      row was found under the incoming code. */
  function UpdateCountry(t: CountryTable, incoming: Country): (s: Step<Country, string, Country>)
    ensures s.result.Returned? <==> incoming.code in t
    ensures s.result.Threw? ==> s.table == t
    ensures s.result.Threw? ==> s.result.exception == IllegalStateException(MissingMessage(incoming.code))
    ensures s.result.Returned? ==> s.result.value == MergeCountry(t[incoming.code], incoming)
    ensures s.result.Returned? ==> s.result.value.code in s.table && s.table[s.result.value.code] == s.result.value
    ensures WellKeyed(t) && s.result.Returned? ==>
      s.result.value.code == incoming.code == t[incoming.code].code
    ensures WellKeyed(t) ==> s.table.Keys == t.Keys
    ensures WellKeyed(t) ==> forall k :: k in t && k != incoming.code ==> s.table[k] == t[k]
    ensures WellKeyed(t) ==> WellKeyed(s.table)
  {
    if incoming.code !in t then
      Step(Threw(IllegalStateException(MissingMessage(incoming.code))), t)
    else
      var merged := ApplySetters(t[incoming.code], incoming);
      Step(Returned(merged), t[merged.code := merged])
  }

  /** `getAllCountries`: exactly the stored rows, one per code. */
  method GetAllCountries(t: CountryTable) returns (rows: seq<Country>)
    ensures |rows| == |t|
    ensures forall i :: 0 <= i < |rows| ==> exists code :: code in t && t[code] == rows[i]
    ensures forall code :: code in t ==> t[code] in rows
    ensures WellKeyed(t) ==> forall i :: 0 <= i < |rows| ==> rows[i].code in t && t[rows[i].code] == rows[i]
    ensures WellKeyed(t) ==> forall i, j :: 0 <= i < j < |rows| ==> rows[i] != rows[j]
  {
    ghost var keys;
    rows, keys := Table.FindAll(t);
    if WellKeyed(t) {
      forall i, j | 0 <= i < j < |rows|
        ensures rows[i] != rows[j]
      {
        assert rows[i].code == keys[i] && rows[j].code == keys[j];
      }
    }
    forall i | 0 <= i < |rows|
      ensures exists code :: code in t && t[code] == rows[i]
    {
      var code := keys[i];
      assert code in t && t[code] == rows[i];
    }
  }

  /** Distinct codes give distinct not-found messages. */
  lemma NotFoundMessageNamesCode(a: string, b: string)
    requires NotFoundMessage(a) == NotFoundMessage(b)
    ensures a == b
  {
    Format.EmbeddedInjective("Countory code: {", a, b, "} not exsist in this table.");
  }

  /** A row just inserted is read back unchanged. */
  lemma AddThenGet(t: CountryTable, country: Country)
    requires country.code !in t
    ensures GetCountryByCode(AddNewCountry(t, country).table, country.code) == Returned(country)
  {
  }

  /** Posting the same code twice: the second insert is refused, whatever
      became of the first. */
  lemma AddTwiceRefused(t: CountryTable, country: Country)
    ensures AddNewCountry(AddNewCountry(t, country).table, country).result.Threw?
  {
  }

  /** Deleting a freshly inserted row returns it and restores the table. */
  lemma AddThenDelete(t: CountryTable, country: Country)
    requires country.code !in t
    ensures var s := DeleteCountryByCode(AddNewCountry(t, country).table, country.code);
            s.result == Returned(country) && s.table == t
  {
  }

  /** Merging the same incoming row twice is merging it once. */
  lemma MergeCountryIdempotent(stored: Country, incoming: Country)
    ensures MergeCountry(MergeCountry(stored, incoming), incoming) == MergeCountry(stored, incoming)
  {
  }

  /** In a well-keyed table, applying the same update twice equals applying
      it once, in result and table. */
  lemma UpdateIdempotent(t: CountryTable, incoming: Country)
    requires WellKeyed(t)
    ensures var once := UpdateCountry(t, incoming);
            UpdateCountry(once.table, incoming) == once
  {
  }

  /** A null or zero numeric column in the incoming row replaces the stored
      value: there is no guard on numeric columns. */
  lemma NumericOverwriteUnguarded(t: CountryTable, incoming: Country)
    requires incoming.code in t
    requires incoming.population == Wrappers.Some(0) && incoming.gnp == Wrappers.None
    ensures var s := UpdateCountry(t, incoming);
            s.result.Returned? && s.result.value.population == Wrappers.Some(0) && s.result.value.gnp == Wrappers.None
  {
  }
}
