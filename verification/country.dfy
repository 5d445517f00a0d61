/**
 * The `Country` entity: one row of the `country` table, keyed by its
 * caller-supplied `code`. The columns are those the Country service reads
 * and writes through getters and setters. The numeric columns are only ever
 * copied, so their values are carried as they are: integral ones as
 * `Option<int>`, decimal ones as `Option<real>`, `None` standing for null.
 */
module CountryEntity {
  import opened Wrappers

  datatype Country = Country(
    code: string,
    name: string,
    continent: string,
    region: string,
    surfaceArea: Option<real>,
    indepYear: Option<int>,
    population: Option<int>,
    lifeExpectancy: Option<real>,
    gnp: Option<real>,
    gnpOld: Option<real>,
    localName: string,
    governmentForm: string,
    headOfState: string,
    capital: Option<int>,
    code2: string)
}
