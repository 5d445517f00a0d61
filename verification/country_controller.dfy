/**
 * The Country REST controller (`CountryController`): maps each Country
 * service outcome to a response envelope. Its envelope class is assumed to
 * have the same shape as the Area controller's. For a non-null country
 * code every service failure becomes a BAD_REQUEST failure envelope and no
 * exception escapes; a missing (null) code is outside the model.
 */
module CountryController {
  import opened Wrappers
  import opened Exceptions
  import opened Envelope
  import opened Handling
  import opened CountryEntity
  import CountryService

  /** The info message of a successful GET. */
  function QueryInfo(code: string): string {
    "Query country code = {" + code + "} data row success."
  }

  /** The info message of a successful POST. */
  function AddInfo(code: string): string {
    "Add new country row country code = {" + code + "}."
  }

  /** The info message of a successful PUT. */
  function UpdateInfo(code: string): string {
    "Update data row country code = {" + code + "}."
  }

  /** The info message of a successful DELETE. */
  function DeleteInfo(code: string): string {
    "Delete data row country code = {" + code + "}."
  }

  /** GET /country/{code}: the row, or a BAD_REQUEST failure with the
      not-found message. */
  function GetCountryByCode(t: CountryService.CountryTable, code: string): (r: Reply<Country>)
    ensures r.Handled? && WellFormed(r.response)
    ensures r.response.ifSuccess <==> code in t
    ensures code in t ==> r.response.data == Some(t[code]) && r.response.infoMessage == Some(QueryInfo(code))
    ensures code !in t ==> r.response.status == BadRequest
    ensures code !in t ==> r.response.errorMessage == Some(CountryService.NotFoundMessage(code))
  {
    match CountryService.GetCountryByCode(t, code)
    case Returned(country) => Handled(NewSuccessWithInfo(country, QueryInfo(code)))
    case Threw(e) => CatchRuntimeException(e)
  }

  /** POST /country: the inserted row itself, or a BAD_REQUEST failure when
      the code is already stored. */
  function AddNewCountry(t: CountryService.CountryTable, country: Country): (x: Exchange<Country, string, Country>)
    ensures x.reply.Handled? && WellFormed(x.reply.response)
    ensures x.reply.response.ifSuccess <==> country.code !in t
    ensures x.reply.response.ifSuccess ==>
      x.reply.response.data == Some(country) && x.reply.response.infoMessage == Some(AddInfo(country.code))
      && x.table == t[country.code := country]
    ensures !x.reply.response.ifSuccess ==>
      x.reply.response.status == BadRequest && x.table == t
      && x.reply.response.errorMessage == Some(CountryService.ExistsMessage(country.code))
  {
    var s := CountryService.AddNewCountry(t, country);
    match s.result
    case Returned(added) => Exchange(Handled(NewSuccessWithInfo(added, AddInfo(added.code))), s.table)
    case Threw(e) => Exchange(CatchIllegalState(e), s.table)
  }

  /** PUT /country: the merged row, or a BAD_REQUEST failure when the code
      is not stored. */
  function UpdateCountry(t: CountryService.CountryTable, country: Country): (x: Exchange<Country, string, Country>)
    ensures x.reply.Handled? && WellFormed(x.reply.response)
    ensures x.reply.response.ifSuccess <==> country.code in t
    ensures x.reply.response.ifSuccess ==>
      var merged := CountryService.MergeCountry(t[country.code], country);
      x.reply.response.data == Some(merged) && x.reply.response.infoMessage == Some(UpdateInfo(merged.code))
      && x.table == t[merged.code := merged]
    ensures !x.reply.response.ifSuccess ==>
      x.reply.response.status == BadRequest && x.table == t
      && x.reply.response.errorMessage == Some(CountryService.MissingMessage(country.code))
  {
    var s := CountryService.UpdateCountry(t, country);
    match s.result
    case Returned(updated) => Exchange(Handled(NewSuccessWithInfo(updated, UpdateInfo(updated.code))), s.table)
    case Threw(e) => Exchange(CatchIllegalState(e), s.table)
  }

  /** DELETE /country/{code}: the row as it was before the delete, or a
      BAD_REQUEST failure when the code is not stored. */
  function DeleteCountryByCode(t: CountryService.CountryTable, code: string): (x: Exchange<Country, string, Country>)
    ensures x.reply.Handled? && WellFormed(x.reply.response)
    ensures x.reply.response.ifSuccess <==> code in t
    ensures x.reply.response.ifSuccess ==>
      x.reply.response.data == Some(t[code]) && x.reply.response.infoMessage == Some(DeleteInfo(t[code].code))
      && x.table == t - {code}
    ensures !x.reply.response.ifSuccess ==>
      x.reply.response.status == BadRequest && x.table == t
      && x.reply.response.errorMessage == Some(CountryService.MissingMessage(code))
  {
    var s := CountryService.DeleteCountryByCode(t, code);
    match s.result
    case Returned(deleted) => Exchange(Handled(NewSuccessWithInfo(deleted, DeleteInfo(deleted.code))), s.table)
    case Threw(e) => Exchange(CatchIllegalState(e), s.table)
  }

  /** POST /country with the same code twice: the second reply has
      `ifSuccess = false` and status 400. */
  lemma PostTwiceRejected(t: CountryService.CountryTable, country: Country)
    ensures var second := AddNewCountry(AddNewCountry(t, country).table, country).reply.response;
            !second.ifSuccess && second.status.Code() == 400
  {
  }
}
