/** The SQL backends: two tables, one transaction per operation, reads that fail closed. */
module SqlStore {
  import opened Common
  import opened Records
  import opened Admission
  import opened Checksum
  import opened Lifecycle

  /** A row of capsule_store_capsules, without its key and timestamps. */
  datatype CapsuleRow = CapsuleRow(capsule: Bytes, envelope: Bytes, sum: string)

  /** A row of capsule_store_artifacts, without its timestamps. */
  datatype ArtifactRow = ArtifactRow(namespace: string, id: string, artifact: Artifact)

  datatype Tables = Tables(capsules: map<(string, string), CapsuleRow>, artifacts: seq<ArtifactRow>)

  // ---------------------------------------------------------------- statements

  /** SELECT of the artifact columns for one Capsule, before ORDER BY. */
  function Select(rows: seq<ArtifactRow>, namespace: string, id: string): seq<Artifact> {
    if rows == [] then []
    else
      var before := Select(rows[..|rows| - 1], namespace, id);
      var row := rows[|rows| - 1];
      if row.namespace == namespace && row.id == id then before + [row.artifact] else before
  }

  /** The CHECK constraint on a row inserted with no purged_at. */
  predicate Insertable(a: Artifact) {
    (a.state == Present && a.content.Some? && |a.sha| == 64) ||
    (a.state == NeverRetained && a.content.None? && a.sha == "")
  }

  /** INSERT of one artifact: the CHECK, the primary key and the foreign key can refuse it. */
  function InsertArtifact(t: Tables, namespace: string, id: string, a: Artifact): Result<Tables> {
    if !Insertable(a) || (namespace, id) !in t.capsules || a.name in Names(Select(t.artifacts, namespace, id))
    then Err(Failed)
    else Ok(t.(artifacts := t.artifacts + [ArtifactRow(namespace, id, a)]))
  }

  function InsertArtifacts(t: Tables, namespace: string, id: string, artifacts: seq<Artifact>): Result<Tables> {
    if artifacts == [] then Ok(t)
    else
      var before :- InsertArtifacts(t, namespace, id, artifacts[..|artifacts| - 1]);
      InsertArtifact(before, namespace, id, artifacts[|artifacts| - 1])
  }

  /** UPDATE ... SET content_bytes=NULL, retention_state='purged' WHERE retention_state='present'. */
  function PurgeRow(row: ArtifactRow, namespace: string, id: string): ArtifactRow {
    if row.namespace == namespace && row.id == id then row.(artifact := Tombstone(row.artifact)) else row
  }

  function PurgeRows(rows: seq<ArtifactRow>, namespace: string, id: string): (r: seq<ArtifactRow>)
    ensures |r| == |rows|
    ensures forall i | 0 <= i < |rows| :: r[i] == PurgeRow(rows[i], namespace, id)
  {
    seq(|rows|, i requires 0 <= i < |rows| => PurgeRow(rows[i], namespace, id))
  }

  // ---------------------------------------------------------------- the operations as functions of the tables

  function ReadRecord(p: Platform, trusted: seq<string>, namespace: string, t: Tables, id: string): Result<Record> {
    if !IsDigest(id) then Err(Invalid)
    else if (namespace, id) !in t.capsules then Err(NotFound)
    else
      var row := t.capsules[(namespace, id)];
      var record := Record(id, row.capsule, row.envelope, p.orderBy(Select(t.artifacts, namespace, id)));
      var actual :- StorageChecksum(p, record);
      if actual != row.sum then Err(Corrupt)
      else
        var _ :- Verify(p, record, trusted);
        Ok(record)
  }

  /** INSERT of the Capsule row under a new key. */
  function WithCapsule(t: Tables, namespace: string, q: Record, sum: string): Tables {
    t.(capsules := t.capsules[(namespace, q.capsuleId) := CapsuleRow(q.capsule, q.envelope, sum)])
  }

  /** PutTx of an admitted record: the tables it leaves, or the error that makes the caller roll back. */
  function PutAdmittedRows(p: Platform, trusted: seq<string>, namespace: string, t: Tables, q: Record,
                           sum: string): Result<Tables> {
    var key := (namespace, q.capsuleId);
    if key in t.capsules then
      var stored :- ReadRecord(p, trusted, namespace, t, q.capsuleId);
      var oldSum :- StorageChecksum(p, stored);
      if oldSum != sum then Err(Conflict)
      else if AnyPurged(stored.artifacts) then Err(OriginalsPurged)
      else Ok(t)
    else
      InsertArtifacts(WithCapsule(t, namespace, q, sum), namespace, q.capsuleId, q.artifacts)
  }

  function PutRows(p: Platform, trusted: seq<string>, namespace: string, t: Tables, r: Record): Result<Tables> {
    var q :- Admit(p, trusted, r);
    var sum :- StorageChecksum(p, q);
    PutAdmittedRows(p, trusted, namespace, t, q, sum)
  }

  function PurgeTables(namespace: string, t: Tables, id: string): Result<Tables> {
    if !IsDigest(id) then Err(Invalid)
    else if (namespace, id) !in t.capsules then Err(NotFound)
    else Ok(t.(artifacts := PurgeRows(t.artifacts, namespace, id)))
  }

  // ---------------------------------------------------------------- what goes wrong in a transaction

  /**
   * What the database does at a step of a transaction. The steps are its beginning, every statement,
   * every row fetched, the end of the rows, and the commit.
   */
  datatype Trouble = Fine | Deadlock | Broken

  function ErrorOf(t: Trouble): Option<Error> {
    match t
    case Fine => None
    case Deadlock => Some(Deadlocked)
    case Broken => Some(Failed)
  }

  /** The error of the first of these steps that goes wrong, if one does. */
  function Interrupted(trouble: nat -> Trouble, from: nat, count: nat): Option<Error>
    decreases count
  {
    if count == 0 then None
    else if trouble(from) != Fine then ErrorOf(trouble(from))
    else Interrupted(trouble, from + 1, count - 1)
  }

  predicate Calm(trouble: nat -> Trouble, from: nat, to: nat) {
    forall n: nat | from <= n < to :: trouble(n) == Fine
  }

  /** Nothing interrupts a transaction exactly when every step it takes is fine. */
  lemma {:induction false} CalmIff(trouble: nat -> Trouble, from: nat, count: nat)
    ensures Interrupted(trouble, from, count).None? <==> Calm(trouble, from, from + count)
    decreases count
  {
    if count > 0 {
      CalmIff(trouble, from + 1, count - 1);
      assert Calm(trouble, from, from + count) <==> trouble(from) == Fine && Calm(trouble, from + 1, from + count);
    }
  }

  lemma {:induction false} Struck(trouble: nat -> Trouble, from: nat, at: nat, count: nat)
    requires from <= at < from + count && Calm(trouble, from, at) && trouble(at) != Fine
    ensures Interrupted(trouble, from, count) == ErrorOf(trouble(at))
    decreases count
  {
    if from < at {
      Struck(trouble, from + 1, at, count - 1);
    }
  }

  /** After calm steps, one that goes wrong decides, and so does one that is fine and the last. */
  lemma LastStep(trouble: nat -> Trouble, from: nat, calm: nat, count: nat)
    requires calm < count && Calm(trouble, from, from + calm)
    ensures trouble(from + calm) != Fine ==> Interrupted(trouble, from, count) == ErrorOf(trouble(from + calm))
    ensures trouble(from + calm) == Fine && count == calm + 1 ==> Interrupted(trouble, from, count).None?
  {
    if trouble(from + calm) != Fine {
      Struck(trouble, from, from + calm, count);
    } else {
      CalmIff(trouble, from, count);
    }
  }

  /** Steps that follow calm ones decide. */
  lemma {:induction false} CalmFirst(trouble: nat -> Trouble, from: nat, calm: nat, count: nat)
    requires calm <= count && Calm(trouble, from, from + calm)
    ensures Interrupted(trouble, from, count) == Interrupted(trouble, from + calm, count - calm)
    decreases calm
  {
    if calm > 0 {
      CalmFirst(trouble, from + 1, calm - 1, count - 1);
    }
  }

  // ---------------------------------------------------------------- how many steps undisturbed operations take

  function ReadSteps(p: Platform, namespace: string, t: Tables, id: string): nat {
    if !IsDigest(id) then 0
    else if (namespace, id) !in t.capsules then 1
    else 3 + |p.orderBy(Select(t.artifacts, namespace, id))|
  }

  /** One per row, up to and including the first that is refused. */
  function InsertSteps(t: Tables, namespace: string, id: string, artifacts: seq<Artifact>): nat {
    if artifacts == [] then 0
    else
      var n := |artifacts| - 1;
      InsertSteps(t, namespace, id, artifacts[..n]) +
      if InsertArtifacts(t, namespace, id, artifacts[..n]).Ok? then 1 else 0
  }

  function PutAdmittedSteps(p: Platform, namespace: string, t: Tables, q: Record, sum: string): nat {
    1 + if (namespace, q.capsuleId) in t.capsules then ReadSteps(p, namespace, t, q.capsuleId)
        else InsertSteps(WithCapsule(t, namespace, q, sum), namespace, q.capsuleId, q.artifacts)
  }

  function PutSteps(p: Platform, trusted: seq<string>, namespace: string, t: Tables, r: Record): nat {
    match Admit(p, trusted, r)
    case Err(_) => 0
    case Ok(q) =>
      match StorageChecksum(p, q)
      case Err(_) => 0
      case Ok(sum) => PutAdmittedSteps(p, namespace, t, q, sum)
  }

  /** One whole transaction around a body of so many steps: it begins, and commits unless the body fails. */
  function Transaction<T>(trouble: nat -> Trouble, steps: nat, body: Result<T>): Result<T> {
    match Interrupted(trouble, 0, 1 + steps + if body.Ok? then 1 else 0)
    case Some(e) => Err(e)
    case None => body
  }

  /**
   * It commits exactly when its body succeeds and every step is fine, and then with the body's
   * result; a calm one keeps the body's error.
   */
  lemma TransactionExact<T>(trouble: nat -> Trouble, steps: nat, body: Result<T>)
    ensures Transaction(trouble, steps, body).Ok? <==> body.Ok? && Calm(trouble, 0, steps + 2)
    ensures Transaction(trouble, steps, body).Ok? ==> Transaction(trouble, steps, body) == body
    ensures body.Err? && Calm(trouble, 0, steps + 1) ==> Transaction(trouble, steps, body) == body
  {
    CalmIff(trouble, 0, steps + 1);
    CalmIff(trouble, 0, steps + 2);
  }

  /** The whole Put: the tables it commits, or its error. */
  function PutAttempt(p: Platform, trusted: seq<string>, namespace: string, t: Tables, r: Record,
                      trouble: nat -> Trouble): Result<Tables> {
    Transaction(trouble, PutSteps(p, trusted, namespace, t, r), PutRows(p, trusted, namespace, t, r))
  }

  function GetAttempt(p: Platform, trusted: seq<string>, namespace: string, t: Tables, id: string,
                      trouble: nat -> Trouble): Result<Record> {
    Transaction(trouble, ReadSteps(p, namespace, t, id), ReadRecord(p, trusted, namespace, t, id))
  }

  function PurgeAttempt(namespace: string, t: Tables, id: string, trouble: nat -> Trouble): Result<Tables> {
    if !IsDigest(id) then Err(Invalid)
    else Transaction(trouble, if (namespace, id) in t.capsules then 2 else 1, PurgeTables(namespace, t, id))
  }

  // ---------------------------------------------------------------- the store as the source writes it

  /** The committed tables, and how many transactions have been committed. */
  class Database {
    var tables: Tables
    var commits: nat

    constructor ()
      ensures tables == Tables(map[], []) && commits == 0
    {
      tables, commits := Tables(map[], []), 0;
    }
  }

  /** A transaction: its own view of the tables, published by Commit and dropped by Rollback. */
  class Tx {
    const db: Database
    const trouble: nat -> Trouble
    var work: Tables
    var steps: nat
    var finished: bool

    constructor (db: Database, trouble: nat -> Trouble)
      ensures this.db == db && this.trouble == trouble && work == db.tables && steps == 1 && !finished
    {
      this.db, this.trouble, steps, finished := db, trouble, 1, false;
      work := db.tables;
    }

    /** BeginTx, the first step. */
    static method Begin(db: Database, trouble: nat -> Trouble) returns (r: Result<Tx>)
      ensures trouble(0) != Fine ==> r.Err? && Some(r.error) == ErrorOf(trouble(0))
      ensures trouble(0) == Fine ==>
                r.Ok? && fresh(r.value) && r.value.db == db && r.value.trouble == trouble &&
                r.value.work == db.tables && r.value.steps == 1 && !r.value.finished
    {
      if trouble(0) != Fine {
        return Err(ErrorOf(trouble(0)).value);
      }
      var tx := new Tx(db, trouble);
      r := Ok(tx);
    }

    /** Any step but the first and the last. */
    method Step() returns (e: Option<Error>)
      modifies this`steps
      ensures steps == old(steps) + 1 && e == ErrorOf(trouble(old(steps)))
    {
      e := ErrorOf(trouble(steps));
      steps := steps + 1;
    }

    /** The last step. A failed commit leaves the tables as they were. */
    method Commit() returns (r: Result<Unit>)
      requires !finished
      modifies this`finished, db
      ensures finished
      ensures trouble(steps) != Fine ==>
                r.Err? && Some(r.error) == ErrorOf(trouble(steps)) && db.tables == old(db.tables) &&
                  db.commits == old(db.commits)
      ensures trouble(steps) == Fine ==> r == Ok(Unit) && db.tables == work && db.commits == old(db.commits) + 1
    {
      finished := true;
      if trouble(steps) != Fine {
        return Err(ErrorOf(trouble(steps)).value);
      }
      db.tables, db.commits := work, db.commits + 1;
      r := Ok(Unit);
    }

    /** Drops the work; rolling back a finished transaction does nothing. */
    method Rollback()
      modifies this
      ensures finished
    {
      finished := true;
    }
  }

  class Store {
    const p: Platform
    const db: Database
    const namespace: string
    const trusted: seq<string>

    constructor (p: Platform, db: Database, namespace: string, trusted: seq<string>)
      ensures this.p == p && this.db == db && this.namespace == namespace && this.trusted == trusted
    {
      this.p, this.db, this.namespace, this.trusted := p, db, namespace, trusted;
    }

    /** The first step that goes wrong decides; otherwise the record or its first error. */
    method Read(tx: Tx, id: string) returns (r: Result<Record>)
      modifies tx`steps
      ensures match Interrupted(tx.trouble, old(tx.steps), ReadSteps(p, namespace, tx.work, id))
              case Some(e) => r == Err(e)
              case None => r == ReadRecord(p, trusted, namespace, tx.work, id) &&
                           tx.steps == old(tx.steps) + ReadSteps(p, namespace, tx.work, id)
    {
      ghost var from, count := tx.steps, ReadSteps(p, namespace, tx.work, id);
      if !IsDigest(id) {
        return Err(Invalid);
      }
      var queried := tx.Step();
      if queried.Some? {
        Struck(tx.trouble, from, from, count);
        return Err(queried.value);
      }
      if (namespace, id) !in tx.work.capsules {
        CalmIff(tx.trouble, from, count);
        return Err(NotFound);
      }
      var row := tx.work.capsules[(namespace, id)];
      var rows := FetchRows(tx, id);
      CalmFirst(tx.trouble, from, 1, count);
      if rows.Err? {
        return Err(rows.error);
      }
      r := CheckRecord(Record(id, row.capsule, row.envelope, rows.value), row.sum);
    }

    /** SELECT of the artifact rows and the loop that fetches them. */
    method FetchRows(tx: Tx, id: string) returns (r: Result<seq<Artifact>>)
      modifies tx`steps
      ensures var rows := p.orderBy(Select(tx.work.artifacts, namespace, id));
              match Interrupted(tx.trouble, old(tx.steps), 2 + |rows|)
              case Some(e) => r == Err(e)
              case None => r == Ok(rows) && tx.steps == old(tx.steps) + 2 + |rows|
    {
      var rows := p.orderBy(Select(tx.work.artifacts, namespace, id));
      ghost var from := tx.steps;
      var queried := tx.Step();
      if queried.Some? {
        Struck(tx.trouble, from, from, 2 + |rows|);
        return Err(queried.value);
      }
      var artifacts: seq<Artifact> := [];
      for i := 0 to |rows|
        invariant artifacts == rows[..i]
        invariant tx.steps == from + 1 + i && Calm(tx.trouble, from, tx.steps)
      {
        var fetched := tx.Step();
        if fetched.Some? {
          Struck(tx.trouble, from, from + 1 + i, 2 + |rows|);
          return Err(fetched.value);
        }
        artifacts := artifacts + [rows[i]];
      }
      var ended := tx.Step();
      if ended.Some? {
        Struck(tx.trouble, from, from + 1 + |rows|, 2 + |rows|);
        return Err(ended.value);
      }
      CalmIff(tx.trouble, from, 2 + |rows|);
      assert rows[..|rows|] == rows;
      r := Ok(artifacts);
    }

    /** The checks that make a read fail closed. */
    method CheckRecord(record: Record, sum: string) returns (r: Result<Record>)
      ensures r == match StorageChecksum(p, record)
                   case Err(e) => Err(e)
                   case Ok(actual) =>
                     if actual != sum then Err(Corrupt)
                     else match Verify(p, record, trusted)
                       case Err(e) => Err(e)
                       case Ok(_) => Ok(record)
    {
      var actual := StorageChecksum(p, record);
      if actual.Err? {
        return Err(actual.error);
      }
      if actual.value != sum {
        return Err(Corrupt);
      }
      var checks := VerifyRecord(p, record, trusted);
      r := if checks.Err? then Err(checks.error) else Ok(record);
    }

    /** Joins the caller's transaction and never commits; on error the caller must roll back. */
    method PutTx(tx: Tx, record: Record) returns (r: Result<Unit>)
      modifies tx`work, tx`steps
      ensures var count := PutSteps(p, trusted, namespace, old(tx.work), record);
              match Interrupted(tx.trouble, old(tx.steps), count)
              case Some(e) => r == Err(e)
              case None =>
                match PutRows(p, trusted, namespace, old(tx.work), record)
                case Err(e) => r == Err(e)
                case Ok(t) => r == Ok(Unit) && tx.work == t && tx.steps == old(tx.steps) + count
    {
      var prepared := Prepare(p, record);
      if prepared.Err? {
        return Err(prepared.error);
      }
      var q := prepared.value;
      var checks := VerifyRecord(p, q, trusted);
      if checks.Err? {
        return Err(checks.error);
      }
      var sum := StorageChecksum(p, q);
      if sum.Err? {
        return Err(sum.error);
      }
      assert Admit(p, trusted, record) == Ok(q);
      r := PutAdmittedTx(tx, q, sum.value);
    }

    method PutAdmittedTx(tx: Tx, q: Record, sum: string) returns (r: Result<Unit>)
      modifies tx`work, tx`steps
      ensures var count := PutAdmittedSteps(p, namespace, old(tx.work), q, sum);
              match Interrupted(tx.trouble, old(tx.steps), count)
              case Some(e) => r == Err(e)
              case None =>
                match PutAdmittedRows(p, trusted, namespace, old(tx.work), q, sum)
                case Err(e) => r == Err(e)
                case Ok(t) => r == Ok(Unit) && tx.work == t && tx.steps == old(tx.steps) + count
    {
      ghost var from, count := tx.steps, PutAdmittedSteps(p, namespace, tx.work, q, sum);
      var key := (namespace, q.capsuleId);
      var inserted := tx.Step();
      if inserted.Some? {
        Struck(tx.trouble, from, from, count);
        return Err(inserted.value);
      }
      CalmFirst(tx.trouble, from, 1, count);
      if key in tx.work.capsules {
        r := PutExisting(tx, q, sum);
      } else {
        tx.work := WithCapsule(tx.work, namespace, q, sum);
        r := PutNew(tx, q);
      }
    }

    /** The rest of PutTx after the primary key has refused the Capsule row. */
    method PutExisting(tx: Tx, q: Record, sum: string) returns (r: Result<Unit>)
      requires (namespace, q.capsuleId) in tx.work.capsules
      modifies tx`steps
      ensures var count := ReadSteps(p, namespace, tx.work, q.capsuleId);
              match Interrupted(tx.trouble, old(tx.steps), count)
              case Some(e) => r == Err(e)
              case None =>
                match PutAdmittedRows(p, trusted, namespace, tx.work, q, sum)
                case Err(e) => r == Err(e)
                case Ok(t) => r == Ok(Unit) && tx.work == t && tx.steps == old(tx.steps) + count
    {
      var stored := Read(tx, q.capsuleId);
      if stored.Err? {
        return Err(stored.error);
      }
      var oldSum := StorageChecksum(p, stored.value);
      if oldSum.Err? {
        return Err(oldSum.error);
      }
      if oldSum.value != sum {
        return Err(Conflict);
      }
      var purged := FindPurged(stored.value.artifacts);
      r := if purged then Err(OriginalsPurged) else Ok(Unit);
    }

    /** The artifact rows of a new Capsule; an error leaves the rows before it in the transaction's view. */
    method PutNew(tx: Tx, q: Record) returns (r: Result<Unit>)
      modifies tx`work, tx`steps
      ensures var count := InsertSteps(old(tx.work), namespace, q.capsuleId, q.artifacts);
              match Interrupted(tx.trouble, old(tx.steps), count)
              case Some(e) => r == Err(e)
              case None =>
                match InsertArtifacts(old(tx.work), namespace, q.capsuleId, q.artifacts)
                case Err(e) => r == Err(e)
                case Ok(t) => r == Ok(Unit) && tx.work == t && tx.steps == old(tx.steps) + count
    {
      ghost var start, from := tx.work, tx.steps;
      ghost var count := InsertSteps(start, namespace, q.capsuleId, q.artifacts);
      for i := 0 to |q.artifacts|
        invariant InsertedSoFar(start, namespace, q.capsuleId, q.artifacts, i, tx.work)
        invariant tx.steps == from + i && Calm(tx.trouble, from, tx.steps)
      {
        NextRow(start, namespace, q.capsuleId, q.artifacts, i, tx.work);
        var inserted := InsertRow(tx, q.capsuleId, q.artifacts[i]);
        LastStep(tx.trouble, from, i, count);
        if inserted.Err? {
          return Err(inserted.error);
        }
      }
      AllRows(start, namespace, q.capsuleId, q.artifacts, tx.work);
      CalmIff(tx.trouble, from, count);
      r := Ok(Unit);
    }

    /** INSERT of one artifact row. */
    method InsertRow(tx: Tx, id: string, a: Artifact) returns (r: Result<Unit>)
      modifies tx`work, tx`steps
      ensures tx.steps == old(tx.steps) + 1
      ensures match ErrorOf(tx.trouble(old(tx.steps)))
              case Some(e) => r == Err(e)
              case None =>
                match InsertArtifact(old(tx.work), namespace, id, a)
                case Err(e) => r == Err(e)
                case Ok(t) => r == Ok(Unit) && tx.work == t
    {
      var struck := tx.Step();
      if struck.Some? {
        return Err(struck.value);
      }
      var inserted := InsertArtifact(tx.work, namespace, id, a);
      if inserted.Err? {
        return Err(inserted.error);
      }
      tx.work := inserted.value;
      r := Ok(Unit);
    }

    /** One transaction: either everything PutTx wrote is committed, or the tables are as they were. */
    method Put(record: Record, trouble: nat -> Trouble) returns (r: Result<Unit>)
      modifies db
      ensures match PutAttempt(p, trusted, namespace, old(db.tables), record, trouble)
              case Err(e) => r == Err(e) && db.tables == old(db.tables) && db.commits == old(db.commits)
              case Ok(t) => r == Ok(Unit) && db.tables == t && db.commits == old(db.commits) + 1
    {
      ghost var body := PutRows(p, trusted, namespace, db.tables, record);
      ghost var steps := PutSteps(p, trusted, namespace, db.tables, record);
      var begun := Tx.Begin(db, trouble);
      if begun.Err? {
        return Err(begun.error);
      }
      var tx := begun.value;
      r := PutTx(tx, record);
      AfterBody(trouble, steps, body);
      if r.Ok? {
        r := tx.Commit();
      }
      tx.Rollback();
    }

    method Get(id: string, trouble: nat -> Trouble) returns (r: Result<Record>)
      modifies db
      ensures db.tables == old(db.tables)
      ensures r == GetAttempt(p, trusted, namespace, db.tables, id, trouble)
    {
      var begun := Tx.Begin(db, trouble);
      if begun.Err? {
        return Err(begun.error);
      }
      var tx := begun.value;
      r := Read(tx, id);
      AfterBody(trouble, ReadSteps(p, namespace, db.tables, id), ReadRecord(p, trusted, namespace, db.tables, id));
      if r.Ok? {
        var committed := tx.Commit();
        if committed.Err? {
          r := Err(committed.error);
        }
      }
      tx.Rollback();
    }

    /** Erasure asks only that the Capsule exists in the namespace; it checks neither integrity nor signer. */
    method Purge(id: string, trouble: nat -> Trouble) returns (r: Result<Unit>)
      modifies db
      ensures match PurgeAttempt(namespace, old(db.tables), id, trouble)
              case Err(e) => r == Err(e) && db.tables == old(db.tables) && db.commits == old(db.commits)
              case Ok(t) => r == Ok(Unit) && db.tables == t && db.commits == old(db.commits) + 1
    {
      if !IsDigest(id) {
        return Err(Invalid);
      }
      var begun := Tx.Begin(db, trouble);
      if begun.Err? {
        return Err(begun.error);
      }
      var tx := begun.value;
      r := PurgeTx(tx, id);
      AfterBody(trouble, if (namespace, id) in db.tables.capsules then 2 else 1, PurgeTables(namespace, db.tables, id));
      if r.Ok? {
        r := tx.Commit();
      }
      tx.Rollback();
    }

    /** The two statements of Purge. */
    method PurgeTx(tx: Tx, id: string) returns (r: Result<Unit>)
      requires IsDigest(id)
      modifies tx`work, tx`steps
      ensures var count := if (namespace, id) in old(tx.work).capsules then 2 else 1;
              match Interrupted(tx.trouble, old(tx.steps), count)
              case Some(e) => r == Err(e)
              case None =>
                match PurgeTables(namespace, old(tx.work), id)
                case Err(e) => r == Err(e)
                case Ok(t) => r == Ok(Unit) && tx.work == t && tx.steps == old(tx.steps) + count
    {
      ghost var from, count := tx.steps, if (namespace, id) in tx.work.capsules then 2 else 1;
      var selected := tx.Step();
      if selected.Some? {
        Struck(tx.trouble, from, from, count);
        return Err(selected.value);
      }
      if (namespace, id) !in tx.work.capsules {
        CalmIff(tx.trouble, from, count);
        return Err(NotFound);
      }
      var updated := tx.Step();
      if updated.Some? {
        Struck(tx.trouble, from, from + 1, count);
        return Err(updated.value);
      }
      CalmIff(tx.trouble, from, count);
      tx.work := tx.work.(artifacts := PurgeRows(tx.work.artifacts, namespace, id));
      r := Ok(Unit);
    }
  }

  /** What a transaction that has begun comes to, once its body has been run. */
  lemma AfterBody<T>(trouble: nat -> Trouble, steps: nat, body: Result<T>)
    requires trouble(0) == Fine
    ensures Transaction(trouble, steps, body) ==
            match Interrupted(trouble, 1, steps)
            case Some(e) => Err(e)
            case None =>
              match body
              case Err(_) => body
              case Ok(_) =>
                match ErrorOf(trouble(1 + steps))
                case Some(e) => Err(e)
                case None => body
  {
    Appended(trouble, 1, steps);
  }

  lemma {:induction false} Appended(trouble: nat -> Trouble, from: nat, count: nat)
    ensures Interrupted(trouble, from, count + 1) ==
            match Interrupted(trouble, from, count)
            case Some(e) => Some(e)
            case None => ErrorOf(trouble(from + count))
    decreases count
  {
    if count > 0 {
      Appended(trouble, from + 1, count - 1);
    }
  }

  lemma Take(artifacts: seq<Artifact>, m: nat, n: nat)
    requires n <= m <= |artifacts|
    ensures artifacts[..m][..n] == artifacts[..n]
  {
  }

  /** As long as no row is refused, each takes one step. */
  lemma {:induction false} StepPerRow(t: Tables, namespace: string, id: string, artifacts: seq<Artifact>)
    requires InsertArtifacts(t, namespace, id, artifacts).Ok?
    ensures InsertSteps(t, namespace, id, artifacts) == |artifacts|
  {
    if artifacts != [] {
      StepPerRow(t, namespace, id, artifacts[..|artifacts| - 1]);
    }
  }

  /** The last of m rows: tried unless an earlier one was refused, and refused with it. */
  lemma LastRow(t: Tables, namespace: string, id: string, artifacts: seq<Artifact>, m: nat)
    requires 0 < m <= |artifacts|
    ensures InsertSteps(t, namespace, id, artifacts[..m]) ==
            InsertSteps(t, namespace, id, artifacts[..m - 1]) +
            if InsertArtifacts(t, namespace, id, artifacts[..m - 1]).Ok? then 1 else 0
    ensures InsertArtifacts(t, namespace, id, artifacts[..m - 1]).Err? ==>
            InsertArtifacts(t, namespace, id, artifacts[..m]).Err?
  {
    Take(artifacts, m, m - 1);
  }

  /**
   * If no row before row n is refused, row n is among the first m that are tried, and it is the
   * last one if it is refused.
   */
  lemma {:induction false} RowIsTried(t: Tables, namespace: string, id: string, artifacts: seq<Artifact>, n: nat,
                                      m: nat)
    requires n < m <= |artifacts| && InsertArtifacts(t, namespace, id, artifacts[..n]).Ok?
    ensures n < InsertSteps(t, namespace, id, artifacts[..m])
    ensures InsertArtifacts(t, namespace, id, artifacts[..n + 1]).Err? ==>
              InsertSteps(t, namespace, id, artifacts[..m]) == n + 1 &&
                InsertArtifacts(t, namespace, id, artifacts[..m]).Err?
    decreases m
  {
    LastRow(t, namespace, id, artifacts, m);
    if n + 1 < m {
      RowIsTried(t, namespace, id, artifacts, n, m - 1);
    } else {
      StepPerRow(t, namespace, id, artifacts[..n]);
    }
  }

  predicate InsertedSoFar(t: Tables, namespace: string, id: string, artifacts: seq<Artifact>, n: nat, work: Tables)
    requires n <= |artifacts|
  {
    InsertArtifacts(t, namespace, id, artifacts[..n]) == Ok(work)
  }

  /** What the insertion of row n means for the whole insertion. */
  lemma NextRow(t: Tables, namespace: string, id: string, artifacts: seq<Artifact>, n: nat, work: Tables)
    requires n < |artifacts| && InsertedSoFar(t, namespace, id, artifacts, n, work)
    ensures n < InsertSteps(t, namespace, id, artifacts)
    ensures match InsertArtifact(work, namespace, id, artifacts[n])
            case Err(e) => InsertArtifacts(t, namespace, id, artifacts) == Err(e) &&
              InsertSteps(t, namespace, id, artifacts) == n + 1
            case Ok(next) => InsertedSoFar(t, namespace, id, artifacts, n + 1, next)
  {
    assert artifacts[..|artifacts|] == artifacts;
    RowIsTried(t, namespace, id, artifacts, n, |artifacts|);
    Take(artifacts, n + 1, n);
    if InsertArtifacts(t, namespace, id, artifacts[..n + 1]).Err? {
      InsertPrefix(t, namespace, id, artifacts, n + 1);
    }
  }

  lemma AllRows(t: Tables, namespace: string, id: string, artifacts: seq<Artifact>, work: Tables)
    requires InsertedSoFar(t, namespace, id, artifacts, |artifacts|, work)
    ensures InsertArtifacts(t, namespace, id, artifacts) == Ok(work) &&
            InsertSteps(t, namespace, id, artifacts) == |artifacts|
  {
    assert artifacts[..|artifacts|] == artifacts;
    StepPerRow(t, namespace, id, artifacts);
  }

  /** The first refused row decides the outcome of the whole insertion. */
  lemma {:induction false} InsertPrefix(t: Tables, namespace: string, id: string, artifacts: seq<Artifact>, n: nat)
    requires n <= |artifacts| && InsertArtifacts(t, namespace, id, artifacts[..n]).Err?
    ensures InsertArtifacts(t, namespace, id, artifacts) == InsertArtifacts(t, namespace, id, artifacts[..n])
    decreases |artifacts|
  {
    if n < |artifacts| {
      var m := |artifacts| - 1;
      assert artifacts[..m][..n] == artifacts[..n];
      InsertPrefix(t, namespace, id, artifacts[..m], n);
    } else {
      assert artifacts[..n] == artifacts;
    }
  }
}
