/** The issuance service's POST /issue handler: look the userid up in the
    issuance store, answer with the original attribution if it is already
    issued, otherwise record a new issuance and publish it best-effort. */
module IssuanceRoutes {
  import opened Wrappers
  import opened JsValues
  import opened EventChannel

  /** A record of the issuance store, keyed by userid: the serialized request
      body, the issuing worker and the issue time. Records the store already
      holds may lack a worker or a timestamp. */
  datatype IssuedRecord = IssuedRecord(payload: Text, workerId: Option<Json>, timestamp: Option<Json>)

  /** The issuing side's state: the store and the messages published so far. */
  datatype IssuanceState = IssuanceState(store: map<Json, IssuedRecord>, outbox: seq<Message>)

  /** Which of the handler's collaborators reject on this call:
      `findCredential`, `insertCredential` and `producer.send`. */
  datatype Faults = Faults(findFails: bool, insertFails: bool, publishFails: bool)

  /** The handler's outcomes: 400, 200 already issued, 201 issued, 500. The
      two success responses carry the attribution as the JSON body has it. */
  datatype IssueResponse =
    | BadRequest
    | AlreadyIssued(userid: Json, workerId: Json, timestamp: Option<Json>)
    | Issued(userid: Json, workerId: Json, timestamp: Option<Json>)
    | ServerError

  datatype IssueStep = IssueStep(response: IssueResponse, state: IssuanceState)

  /** `existing && existing.workerId`: the store holds a record for `k` whose
      worker is truthy. A record without one counts as absent. */
  predicate Attributed(store: map<Json, IssuedRecord>, k: Json) {
    k in store && Truthy(store[k].workerId)
  }

  /** The document published for a new issuance. */
  function PublishedEvent(userid: Json, body: Json, workerId: string, ts: string): (e: Json)
    ensures Get(e, "userid") == Some(userid) && Get(e, "payload") == Some(body)
    ensures Get(e, "workerId") == Some(JStr(workerId)) && Get(e, "timestamp") == Some(JStr(ts))
  {
    JObj(map["userid" := userid, "payload" := body, "workerId" := JStr(workerId), "timestamp" := JStr(ts)])
  }

  /** The record inserted for a new issuance: the whole body serialized,
      the local worker and the fresh timestamp. */
  function NewRecord(body: Json, workerId: string, ts: string): IssuedRecord {
    IssuedRecord(Stringify(body), Some(JStr(workerId)), Some(JStr(ts)))
  }

  /** One POST /issue on state `s` by the worker `workerId` at time `ts`. */
  function IssueSpec(s: IssuanceState, workerId: string, body: Option<Json>, ts: string, faults: Faults): (r: IssueStep)
    ensures r.response.BadRequest? <==> BodyUserid(body).None?
    ensures r.response.ServerError? <==>
              && BodyUserid(body).Some?
              && (faults.findFails || (!Attributed(s.store, BodyUserid(body).value) && faults.insertFails))
    // only a new issuance changes anything
    ensures !r.response.Issued? ==> r.state == s
    // a duplicate reports the stored attribution, whatever the new body
    ensures r.response.AlreadyIssued? ==>
              var k := BodyUserid(body).value;
              && !faults.findFails && Attributed(s.store, k)
              && r.response.userid == k
              && Some(r.response.workerId) == s.store[k].workerId
              && r.response.timestamp == s.store[k].timestamp
    ensures r.response.Issued? <==>
              && BodyUserid(body).Some? && !faults.findFails
              && !Attributed(s.store, BodyUserid(body).value) && !faults.insertFails
    // a new issuance stores exactly one record and reports its attribution
    ensures r.response.Issued? ==>
              var k := BodyUserid(body).value;
              && r.response == Issued(k, JStr(workerId), Some(JStr(ts)))
              && r.state.store == s.store[k := NewRecord(body.value, workerId, ts)]
    // publishing follows a successful insert; its failure is swallowed
    ensures r.state.outbox ==
              s.outbox + if r.response.Issued? && !faults.publishFails
                         then [Message(Topic, Stringify(PublishedEvent(r.response.userid, body.value, workerId, ts)))]
                         else []
    // an attributed record is never replaced
    ensures forall k :: Attributed(s.store, k) ==> k in r.state.store && r.state.store[k] == s.store[k]
  {
    match BodyUserid(body)
    case None => IssueStep(BadRequest, s)
    case Some(k) =>
      if faults.findFails then IssueStep(ServerError, s)
      else if Attributed(s.store, k) then
        IssueStep(AlreadyIssued(k, s.store[k].workerId.value, s.store[k].timestamp), s)
      else if faults.insertFails then IssueStep(ServerError, s)
      else
        var store := s.store[k := NewRecord(body.value, workerId, ts)];
        var outbox := if faults.publishFails then s.outbox
                      else s.outbox + [Message(Topic, Stringify(PublishedEvent(k, body.value, workerId, ts)))];
        IssueStep(Issued(k, JStr(workerId), Some(JStr(ts))), IssuanceState(store, outbox))
  }

  /** One request of a sequence: the worker it reaches, its body, the time
      it is served and the faults it meets. */
  datatype Request = Request(workerId: string, body: Option<Json>, ts: string, faults: Faults)

  datatype Trace = Trace(responses: seq<IssueResponse>, state: IssuanceState)

  /** Requests served one after another against one shared store. */
  function IssueAll(s: IssuanceState, reqs: seq<Request>): (t: Trace)
    ensures |t.responses| == |reqs|
    decreases |reqs|
  {
    if reqs == [] then Trace([], s)
    else
      var step := IssueSpec(s, reqs[0].workerId, reqs[0].body, reqs[0].ts, reqs[0].faults);
      var rest := IssueAll(step.state, reqs[1..]);
      Trace([step.response] + rest.responses, rest.state)
  }

  /** Issuing the same userid twice, with any two bodies and from any two
      workers: the first issues, the second reports the first's attribution,
      and the second call changes nothing. */
  lemma IssueIsIdempotent(s: IssuanceState, w1: string, body1: Option<Json>, ts1: string, f1: Faults,
                          w2: string, body2: Option<Json>, ts2: string, f2: Faults)
    requires BodyUserid(body1).Some? && BodyUserid(body2) == BodyUserid(body1)
    requires !Attributed(s.store, BodyUserid(body1).value)
    requires !f1.findFails && !f1.insertFails && !f2.findFails && w1 != ""
    ensures var k := BodyUserid(body1).value;
            var r1 := IssueSpec(s, w1, body1, ts1, f1);
            var r2 := IssueSpec(r1.state, w2, body2, ts2, f2);
            && r1.response == Issued(k, JStr(w1), Some(JStr(ts1)))
            && r2.response == AlreadyIssued(k, r1.response.workerId, r1.response.timestamp)
            && r2.state == r1.state
            && r1.state.store.Keys == s.store.Keys + {k}
  {
  }

  /** Once a userid is attributed, every later request for it is answered
      with that attribution and leaves the state as it is. */
  lemma {:induction false} AttributedIsStable(s: IssuanceState, reqs: seq<Request>, k: Json)
    requires Attributed(s.store, k)
    requires forall i :: 0 <= i < |reqs| ==> BodyUserid(reqs[i].body) == Some(k) && !reqs[i].faults.findFails
    ensures IssueAll(s, reqs).state == s
    ensures forall i :: 0 <= i < |reqs| ==>
              IssueAll(s, reqs).responses[i] == AlreadyIssued(k, s.store[k].workerId.value, s.store[k].timestamp)
    decreases |reqs|
  {
    if reqs != [] {
      AttributedIsStable(s, reqs[1..], k);
      var rest := IssueAll(s, reqs[1..]);
      assert IssueAll(s, reqs).responses == [AlreadyIssued(k, s.store[k].workerId.value, s.store[k].timestamp)] + rest.responses;
    }
  }

  /** Requests for one never-issued userid served in sequence: exactly the
      first issues, and all later ones report its worker and timestamp. */
  lemma SequentialIssuesAttributeOnce(s: IssuanceState, reqs: seq<Request>, k: Json)
    requires reqs != [] && !Attributed(s.store, k)
    requires forall i :: 0 <= i < |reqs| ==> BodyUserid(reqs[i].body) == Some(k) && !reqs[i].faults.findFails
    requires !reqs[0].faults.insertFails && reqs[0].workerId != ""
    ensures IssueAll(s, reqs).responses[0] == Issued(k, JStr(reqs[0].workerId), Some(JStr(reqs[0].ts)))
    ensures forall i :: 1 <= i < |reqs| ==>
              IssueAll(s, reqs).responses[i] == AlreadyIssued(k, JStr(reqs[0].workerId), Some(JStr(reqs[0].ts)))
  {
    var first := IssueSpec(s, reqs[0].workerId, reqs[0].body, reqs[0].ts, reqs[0].faults);
    assert Attributed(first.state.store, k);
    AttributedIsStable(first.state, reqs[1..], k);
  }

  /** The issuance service of one worker: its identity, the issuance store
      it shares with the other workers, and the messages it has published. */
  class IssuanceService {
    const workerId: string
    var store: map<Json, IssuedRecord>
    var outbox: seq<Message>

    function State(): IssuanceState
      reads this
    {
      IssuanceState(store, outbox)
    }

    /** A worker whose identity is `WORKER_ID` or the host name, over the
        store as it stands. */
    constructor (workerId: string, store: map<Json, IssuedRecord>)
      ensures this.workerId == workerId && State() == IssuanceState(store, [])
    {
      this.workerId := workerId;
      this.store := store;
      this.outbox := [];
    }

    /** POST /issue: validate, find, insert, publish, in that order. */
    method Issue(body: Option<Json>, ts: string, faults: Faults) returns (response: IssueResponse)
      modifies this
      ensures IssueStep(response, State()) == IssueSpec(old(State()), workerId, body, ts, faults)
    {
      var userid := BodyUserid(body);
      if userid.None? {
        return BadRequest;
      }
      var k := userid.value;
      if faults.findFails {
        return ServerError;
      }
      var existing := if k in store then Some(store[k]) else None;
      if existing.Some? && Truthy(existing.value.workerId) {
        return AlreadyIssued(k, existing.value.workerId.value, existing.value.timestamp);
      }
      if faults.insertFails {
        return ServerError;
      }
      store := store[k := NewRecord(body.value, workerId, ts)];
      if !faults.publishFails {
        outbox := outbox + [Message(Topic, Stringify(PublishedEvent(k, body.value, workerId, ts)))];
      }
      response := Issued(k, JStr(workerId), Some(JStr(ts)));
    }
  }
}
