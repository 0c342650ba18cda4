/** Runs in which operations may fail: they come to the run of the operations that did not. */
module Failures {
  import opened Common
  import opened Records
  import opened LineShape
  import opened Lifecycle
  import opened Rewriting
  import opened JsonlStore
  import opened SqlStore
  import JsonlRefinement
  import SqlRefinement
  import Equivalence

  /** An operation, and the error it is refused with if its surroundings fail it. */
  datatype Attempt = Attempt(op: Op, fails: Option<Error>)

  /** The operations that have their effect. */
  function Effective(attempts: seq<Attempt>): seq<Op> {
    if attempts == [] then []
    else (if attempts[0].fails.None? then [attempts[0].op] else []) + Effective(attempts[1..])
  }

  /** The answers to all attempts, from those to the effective operations. */
  function Answers(attempts: seq<Attempt>, answers: seq<Response>): (r: seq<Response>)
    requires |answers| == |Effective(attempts)|
    ensures |r| == |attempts|
  {
    if attempts == [] then []
    else
      match attempts[0].fails
      case Some(e) => [Refused(e)] + Answers(attempts[1..], answers)
      case None => [answers[0]] + Answers(attempts[1..], answers[1..])
  }

  // ---------------------------------------------------------------- the file

  function StepDiskAttempt(p: Platform, d: JsonlRefinement.Disk, a: Attempt): (JsonlRefinement.Disk, Response) {
    match a.fails
    case Some(e) => (d, Refused(e))
    case None => JsonlRefinement.StepDisk(p, d, a.op)
  }

  function RunDiskAttempts(p: Platform, d: JsonlRefinement.Disk, attempts: seq<Attempt>)
    : (r: (JsonlRefinement.Disk, seq<Response>))
    ensures |r.1| == |attempts|
    decreases attempts
  {
    if attempts == [] then (d, [])
    else
      var (next, answer) := StepDiskAttempt(p, d, attempts[0]);
      var (last, answers) := RunDiskAttempts(p, next, attempts[1..]);
      (last, [answer] + answers)
  }

  /** What the contracts of the JSONL store say of Put, Get and Purge under faults is such an attempt. */
  lemma StoreAttempt(p: Platform, d: JsonlRefinement.Disk, op: Op, after: Image, response: Response)
    returns (fails: Option<Error>)
    requires op.Put? || op.Get? || op.Purge?
    requires Attempted(match op
                       case Put(r) => PutImage(p, d.trusted, d.image, r)
                       case Get(id) => (d.image, GetImage(p, d.trusted, d.image, id))
                       case Purge(id) => PurgeImage(p, d.image, id)
                       case _ => (d.image, Done), d.image, after, response)
    ensures StepDiskAttempt(p, d, Attempt(op, fails)) == (d.(image := after), response)
  {
    var full := JsonlRefinement.StepDisk(p, d, op);
    fails := if (d.(image := after), response) == full then None else Some(response.error);
  }

  lemma {:induction false} DiskAttemptsRefine(p: Platform, d: JsonlRefinement.Disk, s: Vault, attempts: seq<Attempt>)
    requires Lawful(p) && JsonlRefinement.Represents(p, d, s)
    ensures var (last, answers) := RunDiskAttempts(p, d, attempts);
            var (expected, effective) := Run(p, true, s, Effective(attempts));
            JsonlRefinement.Represents(p, last, expected) && answers == Answers(attempts, effective)
    decreases attempts
  {
    if attempts != [] {
      var a, rest := attempts[0], attempts[1..];
      if a.fails.None? {
        JsonlRefinement.StepRefines(p, d, s, a.op);
        DiskAttemptsRefine(p, JsonlRefinement.StepDisk(p, d, a.op).0, Step(p, true, s, a.op).0, rest);
        RunCons(p, true, s, a.op, Effective(rest));
      } else {
        assert Effective(attempts) == Effective(rest);
        DiskAttemptsRefine(p, d, s, rest);
      }
    }
  }

  lemma RunCons(p: Platform, wire: bool, s: Vault, op: Op, ops: seq<Op>)
    ensures var (next, answer) := Step(p, wire, s, op);
            var (last, answers) := Run(p, wire, next, ops);
            Run(p, wire, s, [op] + ops) == (last, [answer] + answers) && ([answer] + answers)[1..] == answers
  {
    assert ([op] + ops)[1..] == ops;
  }

  /**
   * From an absent file, over every sequence of operations any of which may fail without effect: the
   * answers are the failures and, in between, those of the abstract store to the other operations; the
   * file is one line per record that store holds, and the index is exact.
   */
  lemma FailingRunsOfFile(p: Platform, keys: seq<string>, attempts: seq<Attempt>)
    requires Lawful(p)
    ensures var (d, answers) := RunDiskAttempts(p, JsonlRefinement.Disk(Image(None, map[]), keys), attempts);
            var (s, expected) := Run(p, true, Vault(false, [], keys), Effective(attempts));
            answers == Answers(attempts, expected) && JsonlRefinement.FileExact(p, d, s) &&
            JsonlRefinement.RangesExact(d, s.records)
  {
    var d := JsonlRefinement.Disk(Image(None, map[]), keys);
    DiskAttemptsRefine(p, d, Vault(false, [], keys), attempts);
    var s := Run(p, true, Vault(false, [], keys), Effective(attempts)).0;
    JsonlRefinement.RepresentedExactly(p, RunDiskAttempts(p, d, attempts).0, s);
  }

  // ---------------------------------------------------------------- the tables

  function StepSqlAttempt(p: Platform, s: SqlRefinement.Sql, a: Attempt): (SqlRefinement.Sql, Response) {
    match a.fails
    case Some(e) => (s, Refused(e))
    case None => SqlRefinement.StepSql(p, s, a.op)
  }

  function RunSqlAttempts(p: Platform, s: SqlRefinement.Sql, attempts: seq<Attempt>)
    : (r: (SqlRefinement.Sql, seq<Response>))
    ensures |r.1| == |attempts|
    decreases attempts
  {
    if attempts == [] then (s, [])
    else
      var (next, answer) := StepSqlAttempt(p, s, attempts[0]);
      var (last, answers) := RunSqlAttempts(p, next, attempts[1..]);
      (last, [answer] + answers)
  }

  /** The outcome of an operation whose transaction meets this trouble. */
  function StepSqlUnder(p: Platform, s: SqlRefinement.Sql, op: Op, trouble: nat -> Trouble)
    : (SqlRefinement.Sql, Response)
  {
    match op
    case Put(r) => (
      match PutAttempt(p, s.trusted, s.namespace, s.tables, r, trouble)
      case Err(e) => (s, Refused(e))
      case Ok(t) => (s.(tables := t), Done)
    )
    case Get(id) => (
      match GetAttempt(p, s.trusted, s.namespace, s.tables, id, trouble)
      case Err(e) => (s, Refused(e))
      case Ok(r) => (s, Returned(r))
    )
    case Purge(id) => (
      match PurgeAttempt(s.namespace, s.tables, id, trouble)
      case Err(e) => (s, Refused(e))
      case Ok(t) => (s.(tables := t), Done)
    )
    case _ => SqlRefinement.StepSql(p, s, op)
  }

  /** What the contracts of the SQL stores say under any trouble is such an attempt. */
  lemma TransactionAttempt(p: Platform, s: SqlRefinement.Sql, op: Op, trouble: nat -> Trouble)
    returns (fails: Option<Error>)
    ensures StepSqlAttempt(p, s, Attempt(op, fails)) == StepSqlUnder(p, s, op, trouble)
  {
    match op
    case Put(r) =>
      fails := Failure(trouble, PutSteps(p, s.trusted, s.namespace, s.tables, r),
                       PutRows(p, s.trusted, s.namespace, s.tables, r));
    case Get(id) =>
      fails := Failure(trouble, ReadSteps(p, s.namespace, s.tables, id),
                       ReadRecord(p, s.trusted, s.namespace, s.tables, id));
    case Purge(id) =>
      fails := None;
      if IsDigest(id) {
        fails := Failure(trouble, if (s.namespace, id) in s.tables.capsules then 2 else 1,
                         PurgeTables(s.namespace, s.tables, id));
      }
    case _ =>
      fails := None;
  }

  /** The trouble that keeps a transaction from being its body. */
  lemma Failure<T>(trouble: nat -> Trouble, steps: nat, body: Result<T>) returns (fails: Option<Error>)
    ensures Transaction(trouble, steps, body) == match fails case None => body case Some(e) => Err(e)
  {
    fails := Interrupted(trouble, 0, 1 + steps + if body.Ok? then 1 else 0);
  }

  lemma {:induction false} SqlAttemptsRefine(p: Platform, s: SqlRefinement.Sql, v: Vault, attempts: seq<Attempt>)
    requires Lawful(p) && SqlRefinement.Represents(p, s, v)
    requires SqlRefinement.InNamespace(Effective(attempts), s.namespace)
    ensures var (last, answers) := RunSqlAttempts(p, s, attempts);
            var (expected, effective) := Run(p, false, v, Effective(attempts));
            SqlRefinement.Represents(p, last, expected) &&
              SqlRefinement.SameAnswers(answers, Answers(attempts, effective))
    decreases attempts
  {
    if attempts != [] {
      var a, rest := attempts[0], attempts[1..];
      if a.fails.None? {
        assert Effective(attempts) == [a.op] + Effective(rest);
        NamespaceStays(p, s, a.op, Effective(rest));
        SqlRefinement.StepRefines(p, s, v, a.op);
        SqlAttemptsRefine(p, SqlRefinement.StepSql(p, s, a.op).0, Step(p, false, v, a.op).0, rest);
        RunCons(p, false, v, a.op, Effective(rest));
      } else {
        assert Effective(attempts) == Effective(rest);
        SqlAttemptsRefine(p, s, v, rest);
      }
    }
  }

  lemma NamespaceStays(p: Platform, s: SqlRefinement.Sql, op: Op, ops: seq<Op>)
    requires SqlRefinement.InNamespace([op] + ops, s.namespace)
    ensures op.Reopen? ==> op.namespace == s.namespace
    ensures SqlRefinement.StepSql(p, s, op).0.namespace == s.namespace && SqlRefinement.InNamespace(ops, s.namespace)
  {
    var all := [op] + ops;
    assert all[0] == op && forall i | 0 <= i < |ops| :: all[i + 1] == ops[i];
  }

  /**
   * From an empty namespace, the same: failed transactions leave no trace, and the others answer as
   * the abstract store does, up to artifact order.
   */
  lemma FailingRunsOfTables(p: Platform, t: Tables, namespace: string, keys: seq<string>, attempts: seq<Attempt>)
    requires Lawful(p) && Equivalence.EmptyNamespace(t, namespace)
    requires SqlRefinement.InNamespace(Effective(attempts), namespace)
    ensures var (s, answers) := RunSqlAttempts(p, SqlRefinement.Sql(t, namespace, keys), attempts);
            var (v, expected) := Run(p, false, Vault(true, [], keys), Effective(attempts));
            SqlRefinement.Represents(p, s, v) && SqlRefinement.SameAnswers(answers, Answers(attempts, expected))
  {
    SqlAttemptsRefine(p, SqlRefinement.Sql(t, namespace, keys), Vault(true, [], keys), attempts);
  }
}
