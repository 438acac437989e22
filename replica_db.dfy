/** The verification service's `credentials` table: an in-memory SQLite
    table with an AUTOINCREMENT id and no uniqueness constraint on userid. */
module ReplicaDb {
  import opened Wrappers
  import opened JsValues

  /** The column values of one row besides its id; SQL NULL is `None`.
      `userid` and `payload` are NOT NULL columns. */
  datatype Credential = Credential(userid: Json, payload: Text, workerId: Option<Json>, timestamp: Option<Json>)

  /** A stored row: the AUTOINCREMENT id and the column values. */
  datatype Row = Row(id: nat, cred: Credential)

  /** The arguments of `insertCredential` as the caller passes them;
      `None` is `undefined`. */
  datatype InsertArgs = InsertArgs(userid: Option<Json>, payload: Option<Text>, workerId: Option<Json>, timestamp: Option<Json>)

  /** What the INSERT makes of its arguments: a row to append, or the
      NOT NULL column it violates. */
  datatype Admission = Admitted(cred: Credential) | Refused(column: string)

  /** The settled result of `insertCredential`: the new row's id, or the
      rejection with the violated column. */
  datatype InsertResult = Inserted(id: nat) | NotNullFailed(column: string)

  /** Parameter binding: both `undefined` and `null` are bound as SQL NULL. */
  function Bind(v: Option<Json>): (r: Option<Json>)
    ensures r.None? <==> v.None? || v == Some(JNull)
    ensures r.Some? ==> r == v
  {
    if v == Some(JNull) then None else v
  }

  /** The NOT NULL check of the INSERT; columns are checked in declaration
      order, so a missing userid is reported before a missing payload. */
  function Admit(args: InsertArgs): (r: Admission)
    ensures r.Admitted? <==> Bind(args.userid).Some? && args.payload.Some?
    ensures r.Admitted? ==> r.cred.userid == args.userid.value && r.cred.payload == args.payload.value
    ensures r.Admitted? ==> r.cred.workerId == Bind(args.workerId) && r.cred.timestamp == Bind(args.timestamp)
    ensures r.Refused? ==> r.column == if Bind(args.userid).None? then "userid" else "payload"
  {
    match (Bind(args.userid), args.payload)
    case (None, _) => Refused("userid")
    case (_, None) => Refused("payload")
    case (Some(u), Some(p)) => Admitted(Credential(u, p, Bind(args.workerId), Bind(args.timestamp)))
  }

  /** The column values of the rows, in insertion order. */
  function Facts(rows: seq<Row>): (r: seq<Credential>)
    ensures |r| == |rows|
    ensures forall i :: 0 <= i < |rows| ==> r[i] == rows[i].cred
  {
    seq(|rows|, i requires 0 <= i < |rows| => rows[i].cred)
  }

  /** Rows for `creds`, with ids handed out consecutively from `start`. */
  function Numbered(start: nat, creds: seq<Credential>): (r: seq<Row>)
    ensures |r| == |creds| && Facts(r) == creds
    ensures forall i :: 0 <= i < |creds| ==> r[i].id == start + i
  {
    seq(|creds|, i requires 0 <= i < |creds| => Row(start + i, creds[i]))
  }

  lemma NumberedAppend(start: nat, xs: seq<Credential>, ys: seq<Credential>)
    ensures Numbered(start, xs + ys) == Numbered(start, xs) + Numbered(start + |xs|, ys)
  {
    var l, r := Numbered(start, xs + ys), Numbered(start, xs) + Numbered(start + |xs|, ys);
    assert |l| == |r|;
    forall i | 0 <= i < |l| ensures l[i] == r[i] {
      if i < |xs| {
        assert l[i] == Row(start + i, xs[i]);
      } else {
        assert l[i] == Row(start + |xs| + (i - |xs|), ys[i - |xs|]);
      }
    }
  }

  /** `findCredential`: `SELECT * ... WHERE userid = ?` through `db.get`,
      which yields the first matching row in insertion order, or nothing. */
  function FindCredential(rows: seq<Row>, k: Json): (r: Option<Row>)
    ensures r.None? <==> forall i :: 0 <= i < |rows| ==> rows[i].cred.userid != k
    ensures r.Some? ==> exists i :: 0 <= i < |rows| && rows[i] == r.value && r.value.cred.userid == k
                                   && forall j :: 0 <= j < i ==> rows[j].cred.userid != k
    decreases |rows|
  {
    if rows == [] then None
    else if rows[0].cred.userid == k then Some(rows[0])
    else
      var r := FindCredential(rows[1..], k);
      assert forall i :: 1 <= i < |rows| ==> rows[i] == rows[1..][i - 1];
      r
  }

  /** How a find sees one appended row: an earlier match still wins, and the
      new row is found only when it is the first row with its userid. */
  lemma {:induction false} FindAfterAppend(rows: seq<Row>, row: Row, k: Json)
    ensures FindCredential(rows + [row], k) ==
            if FindCredential(rows, k).Some? then FindCredential(rows, k)
            else if row.cred.userid == k then Some(row) else None
  {
    if rows == [] {
      assert [row][1..] == [];
    } else {
      assert (rows + [row])[1..] == rows[1..] + [row];
      if rows[0].cred.userid != k {
        FindAfterAppend(rows[1..], row, k);
      }
    }
  }

  /** Replaying an insert for a userid that already has a row leaves every
      lookup unchanged, although the table grows by a row. */
  lemma ReplayKeepsFind(rows: seq<Row>, row: Row, k: Json)
    requires FindCredential(rows, row.cred.userid).Some?
    ensures FindCredential(rows + [row], k) == FindCredential(rows, k)
  {
    FindAfterAppend(rows, row, k);
  }

  /** The table with its AUTOINCREMENT counter: `nextId` is the id the next
      insert gets (one past the largest id ever handed out). */
  class CredentialTable {
    var rows: seq<Row>
    var nextId: nat

    /** Ids are positive, below the counter and strictly increasing in
        insertion order. */
    ghost predicate Valid()
      reads this
    {
      && 1 <= nextId
      && (forall i :: 0 <= i < |rows| ==> 1 <= rows[i].id < nextId)
      && (forall i, j :: 0 <= i < j < |rows| ==> rows[i].id < rows[j].id)
    }

    /** `CREATE TABLE` in a fresh `:memory:` database. */
    constructor ()
      ensures Valid() && rows == [] && nextId == 1
    {
      rows := [];
      nextId := 1;
    }

    /** `insertCredential`: a plain INSERT. It appends exactly one row with
        the bound values and a fresh id, or rejects and changes nothing. */
    method Insert(args: InsertArgs) returns (res: InsertResult)
      requires Valid()
      modifies this
      ensures Valid()
      ensures match Admit(args)
              case Refused(column) =>
                res == NotNullFailed(column) && rows == old(rows) && nextId == old(nextId)
              case Admitted(cred) =>
                && res == Inserted(old(nextId))
                && rows == old(rows) + [Row(old(nextId), cred)]
                && nextId == old(nextId) + 1
      ensures res.Inserted? ==> forall i :: 0 <= i < |old(rows)| ==> old(rows)[i].id < res.id
    {
      var admission := Admit(args);
      match admission
      case Refused(column) =>
        res := NotNullFailed(column);
      case Admitted(cred) =>
        res := Inserted(nextId);
        rows := rows + [Row(nextId, cred)];
        nextId := nextId + 1;
    }
  }

  /** Inserting twice for the same userid gives two rows: the table has no
      UNIQUE constraint on userid. */
  method InsertTwice(table: CredentialTable, args: InsertArgs) returns (first: InsertResult, second: InsertResult)
    requires table.Valid() && Admit(args).Admitted?
    modifies table
    ensures table.Valid()
    ensures first.Inserted? && second.Inserted? && first.id < second.id
    ensures first.id == old(table.nextId) && second.id == old(table.nextId) + 1
    ensures table.nextId == old(table.nextId) + 2
    ensures table.rows == old(table.rows) + [Row(first.id, Admit(args).cred), Row(second.id, Admit(args).cred)]
  {
    first := table.Insert(args);
    second := table.Insert(args);
  }
}
