# Credential issuance and verification, modelled in Dafny

The system issues a credential once per `userid` and lets a second service
verify it. The issuance service answers POST `/issue`. It looks the `userid`
up in its own store. If the store already holds a record with a worker
attribution, it answers 200 with that original attribution. Otherwise it
inserts a record stamped with the local worker id and a fresh timestamp,
publishes a `credential.issued` event best-effort, and answers 201. The
verification service consumes those events into its own SQLite
`credentials` table, and answers POST `/verify` from that table alone.

The model has one module per source file, three small shared modules, and
`Replication`, which connects the two services:

- `Wrappers`: the Option type.
- `JsValues`: JSON values, JavaScript truthiness, property reads, an
  abstract `JSON.stringify`/`JSON.parse`, and the shared request check
  `!credential || !credential.userid`.
- `EventChannel`: the topic name and the message type.
- `ReplicaDb`: the verification `credentials` table. A class
  `CredentialTable` holds the rows and the AUTOINCREMENT counter. Its
  `Insert` method is a plain INSERT with NOT NULL checks. `FindCredential`
  is a function returning the first matching row.
- `VerificationRoutes`: POST `/verify`, a function of the rows.
- `KafkaConsumer`: the `eachMessage` decision as a function; methods that
  handle one message and a delivered sequence of messages on the table; and
  the connect/subscribe/run sequence of `startConsumer`.
- `IssuanceRoutes`: POST `/issue`. The function `IssueSpec` specifies one
  call. The class `IssuanceService` holds the store map and the outbox, and
  its `Issue` method does the steps in the handler's order.
- `Replication`: lemmas that connect the two services end to end.

Some things are inputs because they come from outside the model: the
worker identity (`WORKER_ID` or the host name), the timestamp
(`new Date().toISOString()`), and whether `findCredential`,
`insertCredential`, `producer.send` and each consumer client step reject.

Behaviour of the code that the model makes explicit:

- The replica write is a plain INSERT, and `userid` is not UNIQUE. A
  redelivered event therefore appends a second row (`KafkaConsumer.DuplicateDeliveryAppendsTwice`,
  `ReplicaDb.InsertTwice`). Because lookups return the first matching row,
  verification answers do not change (`Replication.RedeliveryKeepsVerify`).
- An unknown `userid` on `/verify` gives 200 with the message
  'Credential not found'; it is not an error. A found row reports its
  worker id, or the verifier's own worker id when the row has none.
- A `userid` is rejected when it is falsy (`undefined`, `null`, `false`,
  `0`, `""`), and so is a body that is falsy or not an object.
- `!message.value` skips only a `null` or `undefined` value. A Kafka value
  is a Buffer, and an empty Buffer is truthy, so an empty value reaches
  `JSON.parse` and throws. A value that parses to `null` also throws, a
  TypeError on `data.userid`.
- Any rejection of the issuance store's `insertCredential` becomes a 500
  (backend/issuance-service/src/routes.ts:47-50). No rejection, whatever its
  cause, is turned into an "already issued" answer.
- The worker id is `WORKER_ID || os.hostname()`
  (backend/issuance-service/src/routes.ts:8), so it is empty only when
  `WORKER_ID` is unset or empty and the host name is empty too. An empty
  worker id is falsy on `existing.workerId`, so the records it writes would
  not count as issued. The idempotence lemmas therefore require a non-empty
  worker id, which holds whenever the host has a name.

## Model

| member | source | states |
|---|---|---|
| `JsValues.BodyUserid` | backend/issuance-service/src/routes.ts:25 | rejected iff there is no body, the body is not an object, it has no `userid`, or the `userid` is null, false, 0 or ""; otherwise the accepted userid is the body's `userid` property |
| `JsValues.Stringify` | backend/issuance-service/src/routes.ts:33 | parsing the serialization of a document gives the document back |
| `JsValues.StringifyValue` | backend/verification-service/src/kafka-consumer.ts:17 | serializing `undefined` stays `undefined`; any other value serializes and parses back to itself |
| `ReplicaDb.Admit` | backend/verification-service/src/db.ts:16-24 | a row is admitted iff userid and payload are non-NULL; its columns are the bound arguments; a refusal names userid before payload |
| `ReplicaDb.FindCredential` | backend/verification-service/src/db.ts:28-35 | finds nothing iff no row has the userid; otherwise returns the first row, in insertion order, whose userid is the key |
| `ReplicaDb.FindAfterAppend` | backend/verification-service/src/db.ts:30 | after one appended row, a find returns the earlier match if there is one, else the new row if its userid matches, else nothing |
| `ReplicaDb.ReplayKeepsFind` | backend/verification-service/src/db.ts:30-46 | appending a row whose userid already has a row changes no lookup |
| `ReplicaDb.CredentialTable.constructor` | backend/verification-service/src/db.ts:15-25 | an empty table whose first id will be 1 |
| `ReplicaDb.CredentialTable.Insert` | backend/verification-service/src/db.ts:38-54 | on NOT NULL violation rejects naming the column and changes nothing; otherwise appends exactly one row with the bound values, keeps the existing rows, returns the new id, which exceeds every existing id |
| `ReplicaDb.InsertTwice` | backend/verification-service/src/db.ts:16-24 | inserting the same values twice appends two rows with distinct increasing ids: the insert is not an upsert |
| `VerificationRoutes.Verify` | backend/verification-service/src/routes.ts:9-21 | 400 iff the userid is rejected; 500 iff the lookup fails; 'Credential not found' iff no row has the userid; otherwise the first such row's timestamp and its worker id if truthy, else the local worker id |
| `KafkaConsumer.EachMessage` | backend/verification-service/src/kafka-consumer.ts:14-18 | skips iff the value is null/undefined; throws a JSON error iff the text does not parse; throws on a `null` document; otherwise issues an insert of the event's fields |
| `KafkaConsumer.Contributes` | backend/verification-service/src/kafka-consumer.ts:15-17 | a message adds at most one credential, exactly when its insert is issued and admitted, and that credential is the admitted row |
| `KafkaConsumer.ReplicatedAppend` | backend/verification-service/tests/kafka-consumer.test.ts:242-285 | what a sequence of deliveries adds is, in order, what its two halves add |
| `KafkaConsumer.ReplicatedCount` | backend/verification-service/tests/kafka-consumer.test.ts:287-326 | a delivery sequence adds exactly as many rows as it has positions whose message is processed and passes the NOT NULL checks |
| `KafkaConsumer.UnprocessedAddNothing` | backend/verification-service/tests/kafka-consumer.test.ts:157-190 | a sequence of skipped or throwing messages adds no row |
| `KafkaConsumer.DuplicateDeliveryAppendsTwice` | backend/verification-service/src/kafka-consumer.ts:17 | delivering an admitted event twice adds two identical credentials |
| `KafkaConsumer.HandleMessage` | backend/verification-service/src/kafka-consumer.ts:14-18 | returns the `EachMessage` decision; the table gains exactly the message's contribution, numbered from the counter, and nothing else changes |
| `KafkaConsumer.DeliverAll` | backend/verification-service/src/kafka-consumer.ts:13-19 | one outcome per message in delivery order; the table gains the rows of the valid messages, in delivery order, with consecutive ids |
| `KafkaConsumer.StartConsumer` | backend/verification-service/src/kafka-consumer.ts:7-23 | calls are a prefix of connect, subscribe to `credential.issued` from the beginning, run; a step runs iff all earlier ones succeeded; the failure line is logged iff some step fails; nothing is returned as an error |
| `IssuanceRoutes.PublishedEvent` | backend/issuance-service/src/routes.ts:39 | the event carries the userid, the whole body as payload, the local worker id and the timestamp |
| `IssuanceRoutes.IssueSpec` | backend/issuance-service/src/routes.ts:22-51 | 400 iff the userid is rejected; only a 201 changes state; 200 reports the stored attribution; 201 iff find succeeds, the record is not attributed and the insert succeeds; 500 otherwise; one record stored; one publish after the insert unless publishing fails; attributed records are never replaced |
| `IssuanceRoutes.IssueIsIdempotent` | backend/issuance-service/src/routes.ts:26-46 | two issues of one userid with any bodies give 201 then 200 with the first's worker and timestamp, and the second changes nothing |
| `IssuanceRoutes.AttributedIsStable` | backend/issuance-service/src/routes.ts:26-30 | once attributed, every later request for the userid gets that attribution and the state stays the same |
| `IssuanceRoutes.SequentialIssuesAttributeOnce` | backend/issuance-service/src/routes.ts:26-46 | of sequential requests for a never-issued userid, only the first issues and all later ones report its attribution |
| `IssuanceRoutes.IssuanceService.constructor` | backend/issuance-service/src/routes.ts:8 | a worker with the given identity over the given store, having published nothing |
| `IssuanceRoutes.IssuanceService.Issue` | backend/issuance-service/src/routes.ts:22-51 | the response and the new store and outbox are those `IssueSpec` gives for the old state |
| `Replication.PublishedEventReplicates` | backend/verification-service/src/kafka-consumer.ts:16-17 | the published event, once consumed, adds exactly one row carrying the issuance record's userid, payload, worker id and timestamp |
| `Replication.VerifyAfterReplication` | backend/verification-service/src/routes.ts:13-16 | before consumption verify answers 'Credential not found'; after it, verify reports the worker id and timestamp the issuance response reported |
| `Replication.RedeliveryKeepsVerify` | backend/verification-service/src/db.ts:30-46 | consuming the published event twice adds one more row but changes no verification answer |

## Left out

- HTTP wiring: Express routing, body parsing, health endpoints and the CORS whitelist are framework code. Responses are modelled by status and attribution fields only. The texts "Credential issued by …" and "Credential already issued by …" are not modelled.
- The kafkajs clients: broker configuration, the consumer group id and the background `producer.connect()` are network I/O. Publishing and each consumer step are modelled as a success or failure input.
- kafkajs redelivery of a message whose handler threw, and offset commits, belong to the client library. A redelivery appears only as one more element of the delivered sequence.
- ReplicaDb.Bind: only `undefined` and `null` are converted (to NULL). node-sqlite3 also binds booleans as 0/1 and objects and arrays through `toString()`; that is not modelled. Nor is the TEXT affinity that stores a number given for `workerId` or `timestamp` as text (so `0` is stored as the truthy `'0'`). The coercion applies to `userid` too, in both the INSERT and the SELECT, and the issuance service does publish such userids: any truthy `userid`, such as `true`, `{}` or `[1]`, is accepted and copied into the event unchanged. Distinct object, array or boolean userids can therefore share one replica key (`{"a":1}` and `{"b":2}` both become `'[object Object]'`, and `true` and `1` coincide), and `/verify` can then report another subject's attribution. The model compares userids as opaque JSON values, as with INTEGER affinity below.
- Replication.VerifyAfterReplication: in the source its conclusion holds only for userids whose bound SQL value no other subject's userid shares (strings and numbers, up to INTEGER affinity). For object, array or boolean userids an earlier row for a colliding userid wins the lookup (see the `ReplicaDb.Bind` line).
- SQL text, sqlite callbacks and Promise wrapping are not modelled. SQLite's INTEGER affinity, which coerces a numeric-looking `userid`, is not modelled either: userids are compared as opaque JSON values. The AUTOINCREMENT limit of 2^63-1 is also not modelled.
- The issuance service's `db.ts` is not part of this model. Its store is a map keyed by userid. An insert over a record without a worker id replaces that record.
- JSON serialization is abstract: a text is either the serialization of a document or not JSON at all. Property order, whitespace and `toJSON` are not modelled. `JSON.stringify` dropping `undefined`-valued properties is not modelled. Numbers are reals.
- Concurrency is not modelled: neither the race between two concurrent issues of the same new userid, nor the non-awaited insert in the consumer. Calls run in sequence. The consumer's insert completes before the next message. Its rejection never reaches the handler: it goes unhandled, which by default ends a current Node process.
- `console` logging is not modelled, except the two lines `startConsumer` logs.
- The frontend pages and the `index.ts` bootstrap files are UI and process startup.
