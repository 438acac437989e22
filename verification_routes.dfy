/** The verification service's POST /verify handler: a read-only question
    put to the replica table. */
module VerificationRoutes {
  import opened Wrappers
  import opened JsValues
  import opened ReplicaDb

  const NotFoundMessage: string := "Credential not found"

  /** The handler's outcomes: 400, 200 "not found", 200 with the attribution,
      and 500. */
  datatype VerifyResponse =
    | BadRequest
    | NotFound(message: string)
    | Verified(workerId: Json, timestamp: Option<Json>)
    | ServerError

  /** POST /verify over the table's rows. `localWorker` is this process's
      worker identity; `lookupFails` says whether `findCredential` rejects.
      Being a function of the rows, it cannot change the table. */
  function Verify(rows: seq<Row>, body: Option<Json>, localWorker: string, lookupFails: bool): (r: VerifyResponse)
    ensures r.BadRequest? <==> BodyUserid(body).None?
    ensures r.ServerError? <==> BodyUserid(body).Some? && lookupFails
    ensures r.NotFound? <==>
              && BodyUserid(body).Some? && !lookupFails
              && forall i :: 0 <= i < |rows| ==> rows[i].cred.userid != BodyUserid(body).value
    ensures r.NotFound? ==> r.message == NotFoundMessage
    ensures r.Verified? ==>
              exists i :: 0 <= i < |rows| && rows[i].cred.userid == BodyUserid(body).value
                && (forall j :: 0 <= j < i ==> rows[j].cred.userid != BodyUserid(body).value)
                && r.timestamp == rows[i].cred.timestamp
                && (Truthy(rows[i].cred.workerId) ==> Some(r.workerId) == rows[i].cred.workerId)
                && (!Truthy(rows[i].cred.workerId) ==> r.workerId == JStr(localWorker))
  {
    match BodyUserid(body)
    case None => BadRequest
    case Some(k) =>
      if lookupFails then ServerError
      else
        match FindCredential(rows, k)
        case None => NotFound(NotFoundMessage)
        case Some(row) =>
          Verified(if Truthy(row.cred.workerId) then row.cred.workerId.value else JStr(localWorker),
                   row.cred.timestamp)
  }
}
