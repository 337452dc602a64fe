/**
 * The request handler (Controllers/api/InboxController.cs): each action makes
 * one call to the inbox service and maps what it returns to a response kind.
 */
module Api {
  import opened Models
  import opened InboxRules
  import opened Services

  /** What a response carries when it carries a body. */
  datatype Payload = Record(record: Inbox) | Records(records: seq<Inbox>)

  /** The response kinds the actions produce (the HTTP status codes are left out). */
  datatype Response =
    | Ok(body: Payload)
    | NotFound
    | BadRequest
    | CreatedAtRoute(routeName: string, routeId: int, value: Inbox)
    | NoContent

  /** The route name the created resource's location refers to. */
  const InboxRoute := "inbox"

  /** `Get()`: the list, whatever it holds, comes back as a success. */
  function ListResponse(all: seq<Inbox>): (resp: Response)
    ensures resp.Ok? && resp.body.Records? && resp.body.records == all
  {
    Ok(Records(all))
  }

  /** `Get(id)`: a found record is a success, a missing one is NotFound. */
  function FetchResponse(found: Option<Inbox>): (resp: Response)
    ensures resp.NotFound? <==> found.None?
    ensures resp.Ok? <==> found.Some?
    ensures found.Some? ==> resp == Ok(Record(found.value))
  {
    if found.Some? then Ok(Record(found.value)) else NotFound
  }

  /** `Post`: no record is a client error; a record gives its location and itself. */
  function CreateResponse(created: Option<Inbox>): (resp: Response)
    ensures resp.BadRequest? <==> created.None?
    ensures resp.CreatedAtRoute? <==> created.Some?
    ensures created.Some? ==>
      resp.routeName == InboxRoute && resp.routeId == created.value.id && resp.value == created.value
  {
    if created.None? then BadRequest
    else CreatedAtRoute(InboxRoute, created.value.id, created.value)
  }

  /** `Put`: no record (invalid input and missing row alike) is a client error. */
  function UpdateResponse(updated: Option<Inbox>): (resp: Response)
    ensures resp.BadRequest? <==> updated.None?
    ensures resp.Ok? <==> updated.Some?
    ensures updated.Some? ==> resp == Ok(Record(updated.value))
  {
    if updated.None? then BadRequest else Ok(Record(updated.value))
  }

  /** `Delete`: true is NoContent, false is NotFound. */
  function DeleteResponse(ok: bool): (resp: Response)
    ensures resp.NoContent? <==> ok
    ensures resp.NotFound? <==> !ok
  {
    if ok then NoContent else NotFound
  }

  /** The controller; its only state is the service it calls. */
  class InboxController {
    const service: InboxService

    constructor (service: InboxService)
      ensures this.service == service
    {
      this.service := service;
    }

    /** GET api/inbox */
    method Get() returns (resp: Response)
      requires service.Valid()
      ensures resp.Ok? && resp.body.Records?
      ensures |resp.body.records| == |service.rows|
      ensures forall k :: k in service.rows ==> service.rows[k] in resp.body.records
      ensures forall i :: 0 <= i < |resp.body.records| ==>
        var r := resp.body.records[i]; r.id in service.rows && service.rows[r.id] == r
    {
      var all := service.GetAll();
      resp := ListResponse(all);
    }

    /** GET api/inbox/{id} */
    method GetById(id: int) returns (resp: Response)
      requires service.Valid()
      ensures resp == FetchResponse(service.GetById(id))
      ensures resp.Ok? <==> id in service.rows
    {
      var inbox := service.GetById(id);
      resp := FetchResponse(inbox);
    }

    /** POST api/inbox */
    method Post(inbox: Inbox, now: Time) returns (resp: Response)
      requires service.Valid()
      modifies service
      ensures service.Valid()
      ensures var s := CreateStep(old(service.rows), old(service.nextId), inbox, now);
        resp == CreateResponse(s.result) && service.rows == s.rows && service.nextId == s.nextId
    {
      var newInbox := service.Create(inbox, now);
      resp := CreateResponse(newInbox);
    }

    /** PUT api/inbox/{id} */
    method Put(inbox: Inbox, now: Time) returns (resp: Response)
      requires service.Valid()
      modifies service
      ensures service.Valid()
      ensures var s := UpdateStep(old(service.rows), old(service.nextId), inbox, now);
        resp == UpdateResponse(s.result) && service.rows == s.rows && service.nextId == s.nextId
    {
      var updatedInbox := service.Update(inbox, now);
      resp := UpdateResponse(updatedInbox);
    }

    /** DELETE api/inbox/{id} */
    method Delete(id: int) returns (resp: Response)
      requires service.Valid()
      modifies service
      ensures service.Valid()
      ensures var s := DeleteStep(old(service.rows), old(service.nextId), id);
        resp == DeleteResponse(s.result) && service.rows == s.rows && service.nextId == s.nextId
    {
      var ok := service.Delete(id);
      resp := DeleteResponse(ok);
    }
  }

  // ------------------------------------------------ service and handler together

  /**
   * POST end to end: a blank item is a BadRequest that stores nothing; any
   * other item is CreatedAtRoute("inbox") at a fresh, non-zero id.
   */
  lemma PostOutcome(rows: map<int, Inbox>, nextId: int, candidate: Inbox, now: Time)
    requires StoreInvariant(rows, nextId)
    ensures var s := CreateStep(rows, nextId, candidate, now);
      var resp := CreateResponse(s.result);
      && (resp.BadRequest? <==> IsBlank(candidate.item))
      && (resp.BadRequest? ==> s.rows == rows)
      && (resp.CreatedAtRoute? ==>
            resp.routeName == InboxRoute && resp.routeId != 0 && resp.routeId !in rows &&
            resp.value.item == candidate.item && s.rows[resp.routeId] == resp.value)
  {
    if !IsBlank(candidate.item) {
      CreateAddsOneFreshRecord(rows, nextId, candidate, now);
    }
  }

  /** PUT end to end: the missing row and the invalid input give the same BadRequest. */
  lemma PutOutcome(rows: map<int, Inbox>, nextId: int, candidate: Inbox, now: Time)
    ensures var s := UpdateStep(rows, nextId, candidate, now);
      var resp := UpdateResponse(s.result);
      && (resp.BadRequest? <==> (candidate.id <= 0 || IsBlank(candidate.item) || candidate.id !in rows))
      && (resp.BadRequest? ==> s.rows == rows)
      && (resp.Ok? ==> resp.body.record.id == candidate.id && resp.body.record.item == candidate.item)
  {
    UpdateRejects(rows, nextId, candidate, now);
  }

  /** DELETE end to end: NoContent exactly for a stored id, after which a GET finds nothing. */
  lemma DeleteOutcome(rows: map<int, Inbox>, nextId: int, id: int)
    requires StoreInvariant(rows, nextId)
    ensures var s := DeleteStep(rows, nextId, id);
      && (DeleteResponse(s.result).NoContent? <==> id in rows)
      && id !in s.rows
  {
    DeleteRemovesExactlyOne(rows, nextId, id);
  }
}
