/** The two services together: an issuance published on the channel and
    consumed by the verification service is mirrored in its table and
    answered by POST /verify with the issuing worker and time. */
module Replication {
  import opened Wrappers
  import opened JsValues
  import opened EventChannel
  import opened ReplicaDb
  import opened VerificationRoutes
  import opened KafkaConsumer
  import opened IssuanceRoutes

  /** The last message a state has published. */
  function LastPublished(s: IssuanceState): Message
    requires s.outbox != []
  {
    s.outbox[|s.outbox| - 1]
  }

  /** The published event of a new issuance, once consumed, yields exactly
      one row whose userid, payload, worker and timestamp are those of the
      issuance record: replication copies, it does not re-derive. */
  lemma PublishedEventReplicates(s: IssuanceState, w: string, body: Option<Json>, ts: string, f: Faults)
    requires IssueSpec(s, w, body, ts, f).response.Issued? && !f.publishFails
    ensures var r := IssueSpec(s, w, body, ts, f);
            var k := r.response.userid;
            var rec := r.state.store[k];
            && r.state.outbox != []
            && LastPublished(r.state).topic == Topic
            && Replicated([Some(LastPublished(r.state).value)]) == [Credential(k, rec.payload, rec.workerId, rec.timestamp)]
  {
    var r := IssueSpec(s, w, body, ts, f);
    var k := r.response.userid;
    var event := PublishedEvent(k, body.value, w, ts);
    assert LastPublished(r.state).value == Stringify(event);
    assert EachMessage(Some(Stringify(event))) == Processed(EventArgs(event));
    assert [Some(LastPublished(r.state).value)][1..] == [];
  }

  /** Before the event is consumed a verification finds nothing; after it is
      consumed, verification of the same userid reports what the issuance
      response reported. */
  lemma VerifyAfterReplication(s: IssuanceState, w: string, body: Option<Json>, ts: string, f: Faults,
                               rows: seq<Row>, nextId: nat, query: Option<Json>, local: string)
    requires IssueSpec(s, w, body, ts, f).response.Issued? && !f.publishFails && w != ""
    requires BodyUserid(query) == BodyUserid(body)
    requires FindCredential(rows, BodyUserid(body).value).None?
    ensures var r := IssueSpec(s, w, body, ts, f);
            var after := rows + Numbered(nextId, Replicated([Some(LastPublished(r.state).value)]));
            && Verify(rows, query, local, false) == NotFound(NotFoundMessage)
            && Verify(after, query, local, false) == Verified(r.response.workerId, r.response.timestamp)
  {
    var r := IssueSpec(s, w, body, ts, f);
    var k := r.response.userid;
    PublishedEventReplicates(s, w, body, ts, f);
    var cred := Credential(k, r.state.store[k].payload, r.state.store[k].workerId, r.state.store[k].timestamp);
    var added := Numbered(nextId, [cred]);
    assert added == [Row(nextId, cred)];
    FindAfterAppend(rows, Row(nextId, cred), k);
  }

  /** Delivering the same published event a second time adds a second row
      but does not change any verification answer. */
  lemma RedeliveryKeepsVerify(s: IssuanceState, w: string, body: Option<Json>, ts: string, f: Faults,
                              rows: seq<Row>, nextId: nat, query: Option<Json>, local: string, lookupFails: bool)
    requires IssueSpec(s, w, body, ts, f).response.Issued? && !f.publishFails
    ensures var r := IssueSpec(s, w, body, ts, f);
            var v := Some(LastPublished(r.state).value);
            var once := rows + Numbered(nextId, Replicated([v]));
            var twice := rows + Numbered(nextId, Replicated([v, v]));
            && |twice| == |once| + 1
            && Verify(twice, query, local, lookupFails) == Verify(once, query, local, lookupFails)
  {
    var r := IssueSpec(s, w, body, ts, f);
    var v := Some(LastPublished(r.state).value);
    PublishedEventReplicates(s, w, body, ts, f);
    var cred := Replicated([v])[0];
    DuplicateDeliveryAppendsTwice(v);
    assert Contributes(v) == [cred];
    assert Numbered(nextId, Replicated([v])) == [Row(nextId, cred)];
    assert Numbered(nextId, Replicated([v, v])) == [Row(nextId, cred), Row(nextId + 1, cred)];
    var once := rows + [Row(nextId, cred)];
    assert rows + [Row(nextId, cred), Row(nextId + 1, cred)] == once + [Row(nextId + 1, cred)];
    FindAfterAppend(rows, Row(nextId, cred), cred.userid);
    forall k ensures FindCredential(once + [Row(nextId + 1, cred)], k) == FindCredential(once, k) {
      ReplayKeepsFind(once, Row(nextId + 1, cred), k);
    }
  }
}
