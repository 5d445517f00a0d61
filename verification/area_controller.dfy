/**
 * The Area REST controller (`AreaController`): maps each Area service
 * outcome to a response envelope. Every service failure becomes a
 * BAD_REQUEST failure envelope carrying the exception's message; no
 * exception escapes.
 */
module AreaController {
  import opened Wrappers
  import opened Format
  import opened Exceptions
  import opened Envelope
  import opened Handling
  import opened AreaEntity
  import AreaService

  /** The info message of a successful GET. */
  function QueryInfo(id: int): string {
    "Query id = {" + Decimal(id) + "} table data row success."
  }

  /** The info message of a successful POST. */
  function AddInfo(id: int): string {
    "Add new data row id = {" + Decimal(id) + "}"
  }

  /** The info message of a successful DELETE. */
  function DeleteInfo(id: int): string {
    "Delete data row id = {" + Decimal(id) + "}."
  }

  /** The info message of a successful PUT. */
  function UpdateInfo(id: int): string {
    "Update data row id = {" + Decimal(id) + "} success."
  }

  /** GET /area/{id}: the row and an info message naming the id, or a
      BAD_REQUEST failure with the not-found message. */
  function GetAreaById(t: AreaService.AreaTable, id: int): (r: Reply<Area>)
    ensures r.Handled? && WellFormed(r.response)
    ensures r.response.ifSuccess <==> id in t
    ensures id in t ==> r.response.data == Some(t[id]) && r.response.infoMessage == Some(QueryInfo(id))
    ensures id !in t ==> r.response.status == BadRequest
    ensures id !in t ==> r.response.errorMessage == Some(AreaService.NotFoundMessage(id))
  {
    match AreaService.GetAreaById(t, id)
    case Returned(area) => Handled(NewSuccessWithInfo(area, QueryInfo(id)))
    case Threw(e) => CatchRuntimeException(e)
  }

  /** POST /area: the id of the inserted row, or a BAD_REQUEST failure when
      the id is already stored. */
  function AddNewItem(t: AreaService.AreaTable, area: Area): (x: Exchange<int, int, Area>)
    ensures x.reply.Handled? && WellFormed(x.reply.response)
    ensures x.reply.response.ifSuccess <==> area.id !in t
    ensures x.reply.response.ifSuccess ==>
      x.reply.response.data == Some(area.id) && x.reply.response.infoMessage == Some(AddInfo(area.id))
      && x.table == t[area.id := area]
    ensures !x.reply.response.ifSuccess ==>
      x.reply.response.status == BadRequest && x.table == t
      && x.reply.response.errorMessage == Some(AreaService.ExistsMessage(area.id))
  {
    var s := AreaService.AddNewItem(t, area);
    match s.result
    case Returned(newId) => Exchange(Handled(NewSuccessWithInfo(newId, AddInfo(newId))), s.table)
    case Threw(e) => Exchange(CatchIllegalState(e), s.table)
  }

  /** DELETE /area/{id}: the deleted id, or a BAD_REQUEST failure when the
      id is not stored. */
  function DeleteAreaById(t: AreaService.AreaTable, id: int): (x: Exchange<int, int, Area>)
    ensures x.reply.Handled? && WellFormed(x.reply.response)
    ensures x.reply.response.ifSuccess <==> id in t
    ensures x.reply.response.ifSuccess ==>
      x.reply.response.data == Some(id) && x.reply.response.infoMessage == Some(DeleteInfo(id))
      && x.table == t - {id}
    ensures !x.reply.response.ifSuccess ==>
      x.reply.response.status == BadRequest && x.table == t
      && x.reply.response.errorMessage == Some(AreaService.MissingMessage(id))
  {
    var s := AreaService.DeleteAreaById(t, id);
    match s.result
    case Returned(deletedId) => Exchange(Handled(NewSuccessWithInfo(deletedId, DeleteInfo(deletedId))), s.table)
    case Threw(e) => Exchange(CatchIllegalState(e), s.table)
  }

  /** PUT /area: the id of the merged row, which is the incoming id, or a
      BAD_REQUEST failure when that id is not stored. */
  function UpdateArea(t: AreaService.AreaTable, area: Area): (x: Exchange<int, int, Area>)
    ensures x.reply.Handled? && WellFormed(x.reply.response)
    ensures x.reply.response.ifSuccess <==> area.id in t
    ensures x.reply.response.ifSuccess ==>
      x.reply.response.data == Some(area.id) && x.reply.response.infoMessage == Some(UpdateInfo(area.id))
      && x.table == t[area.id := AreaService.MergeArea(t[area.id], area)]
    ensures !x.reply.response.ifSuccess ==>
      x.reply.response.status == BadRequest && x.table == t
      && x.reply.response.errorMessage == Some(AreaService.MissingMessage(area.id))
  {
    var s := AreaService.UpdateAreaById(t, area);
    match s.result
    case Returned(updated) => Exchange(Handled(NewSuccessWithInfo(updated.id, UpdateInfo(updated.id))), s.table)
    case Threw(e) => Exchange(CatchIllegalState(e), s.table)
  }

  /** A `ResponseEntity<String>`: body, `Allow` header and status. */
  datatype EntityReply = EntityReply(body: string, allow: string, status: HttpStatus)

  /** The `Allow` header value of the OPTIONS reply, as the controller sets it. */
  const AllowHeader: string := "GET, POST, PUT, DELETE, OPTION"

  /** OPTIONS /: status OK, the fixed `Allow` header, and a body repeating
      the header value after "Allow ". */
  function GetAllowMethod(): (r: EntityReply)
    ensures r.status == Ok && r.status.Code() == 200
    ensures r.allow == AllowHeader
    ensures r.body == "Allow " + r.allow
  {
    EntityReply("Allow " + AllowHeader, AllowHeader, Ok)
  }

  /** Posting an id twice: the second reply is a BAD_REQUEST failure,
      whatever became of the first. */
  lemma PostTwiceRejected(t: AreaService.AreaTable, area: Area)
    ensures var second := AddNewItem(AddNewItem(t, area).table, area).reply.response;
            !second.ifSuccess && second.status == BadRequest
  {
  }

  /** Every failure of an Area endpoint is a BAD_REQUEST envelope. */
  lemma FailuresAreBadRequest(t: AreaService.AreaTable, id: int, area: Area)
    ensures !GetAreaById(t, id).response.ifSuccess ==> GetAreaById(t, id).response.status == BadRequest
    ensures !AddNewItem(t, area).reply.response.ifSuccess ==> AddNewItem(t, area).reply.response.status == BadRequest
    ensures !DeleteAreaById(t, id).reply.response.ifSuccess ==> DeleteAreaById(t, id).reply.response.status == BadRequest
    ensures !UpdateArea(t, area).reply.response.ifSuccess ==> UpdateArea(t, area).reply.response.status == BadRequest
  {
  }
}
