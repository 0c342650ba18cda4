/** Over every run the two tables implement the lifecycle, up to the order of artifacts. */
module SqlRefinement {
  import opened Common
  import opened Records
  import opened LineShape
  import opened Admission
  import opened Checksum
  import opened Lifecycle
  import opened SqlStore
  import opened SqlProperties

  datatype Sql = Sql(tables: Tables, namespace: string, trusted: seq<string>)

  /** One operation whose transaction commits; Init has been run and is not run again. */
  function StepSql(p: Platform, s: Sql, op: Op): (Sql, Response) {
    match op
    case Init => (s, Done)
    case Put(r) => (
      match PutRows(p, s.trusted, s.namespace, s.tables, r)
      case Err(e) => (s, Refused(e))
      case Ok(t) => (s.(tables := t), Done)
    )
    case Get(id) => (
      match ReadRecord(p, s.trusted, s.namespace, s.tables, id)
      case Err(e) => (s, Refused(e))
      case Ok(r) => (s, Returned(r))
    )
    case Purge(id) => (
      match PurgeTables(s.namespace, s.tables, id)
      case Err(e) => (s, Refused(e))
      case Ok(t) => (s.(tables := t), Done)
    )
    case Reopen(namespace, keys) =>
      if ValidConfiguration(namespace, keys) then (Sql(s.tables, namespace, keys), Done) else (s, Refused(Invalid))
  }

  function RunSql(p: Platform, s: Sql, ops: seq<Op>): (r: (Sql, seq<Response>))
    ensures |r.1| == |ops|
    decreases ops
  {
    if ops == [] then (s, [])
    else
      var (next, response) := StepSql(p, s, ops[0]);
      var (last, responses) := RunSql(p, next, ops[1..]);
      (last, [response] + responses)
  }

  predicate SameRecord(r: Record, q: Record) {
    r.capsuleId == q.capsuleId && r.capsule == q.capsule && r.envelope == q.envelope &&
    multiset(r.artifacts) == multiset(q.artifacts)
  }

  /** The same outcome, the same error class, and the same record up to the order of artifacts. */
  predicate SameAnswer(a: Response, b: Response) {
    a == b || (a.Returned? && b.Returned? && SameRecord(a.record, b.record))
  }

  predicate SameAnswers(a: seq<Response>, b: seq<Response>) {
    |a| == |b| && forall i | 0 <= i < |a| :: SameAnswer(a[i], b[i])
  }

  // ---------------------------------------------------------------- what the tables represent

  /** Some set of keys accepts the record. */
  ghost predicate Sound(p: Platform, r: Record) {
    exists keys :: Verify(p, r, keys).Ok?
  }

  predicate Row(p: Platform, t: Tables, namespace: string, r: Record) {
    (namespace, r.capsuleId) in t.capsules &&
    var row := t.capsules[(namespace, r.capsuleId)];
    row.capsule == r.capsule && row.envelope == r.envelope && Ok(row.sum) == StorageChecksum(p, r) &&
    Select(t.artifacts, namespace, r.capsuleId) == r.artifacts
  }

  /** Every record has its rows. */
  predicate Rows(p: Platform, t: Tables, namespace: string, records: seq<Record>) {
    forall i {:trigger Row(p, t, namespace, records[i])} | 0 <= i < |records| :: Row(p, t, namespace, records[i])
  }

  /** The namespace holds nothing else. */
  ghost predicate NoOthers(t: Tables, namespace: string, records: seq<Record>) {
    forall id :: IndexOf(records, id) == |records| ==>
      (namespace, id) !in t.capsules && Select(t.artifacts, namespace, id) == []
  }

  ghost predicate AllSound(p: Platform, records: seq<Record>) {
    forall i {:trigger Sound(p, records[i])} | 0 <= i < |records| :: Sound(p, records[i])
  }

  ghost predicate Represents(p: Platform, s: Sql, v: Vault) {
    v.ready && v.trusted == s.trusted && Valid(v) && AllSound(p, v.records) &&
    Rows(p, s.tables, s.namespace, v.records) && NoOthers(s.tables, s.namespace, v.records)
  }

  // ---------------------------------------------------------------- reading

  lemma VerifyPermuted(p: Platform, r: Record, artifacts: seq<Artifact>, trusted: seq<string>)
    requires Sound(p, r) && multiset(artifacts) == multiset(r.artifacts)
    ensures var q := r.(artifacts := artifacts);
            (Verify(p, q, trusted).Ok? <==> Verify(p, r, trusted).Ok?) &&
            (Verify(p, r, trusted).Err? ==> Verify(p, q, trusted) == Verify(p, r, trusted))
  {
    var q := r.(artifacts := artifacts);
    var keys :| Verify(p, r, keys).Ok?;
    VerifyExact(p, r, keys);
    assert Authenticate(p, q, trusted) == Authenticate(p, r, trusted);
    if Authenticate(p, r, trusted).Ok? {
      var capsule := Authenticate(p, r, trusted).value;
      assert capsule == Authenticate(p, r, keys).value;
      DistinctPermutation(r.artifacts, artifacts);
      SameElements(r.artifacts, artifacts);
      forall i | 0 <= i < |artifacts| ensures Acceptable(p, capsule, artifacts[i]) {
        assert artifacts[i] in r.artifacts;
      }
      VerifyExact(p, r, trusted);
      VerifyExact(p, q, trusted);
    }
  }

  /** A represented record is read as itself with its artifacts in name order, or refused as verification refuses it. */
  lemma ReadRow(p: Platform, trusted: seq<string>, namespace: string, t: Tables, r: Record)
    requires Lawful(p) && WellStored(r) && Row(p, t, namespace, r) && Sound(p, r)
    ensures var q := r.(artifacts := p.orderBy(r.artifacts));
            SameRecord(q, r) && StorageChecksum(p, q) == StorageChecksum(p, r) &&
            (AnyPurged(q.artifacts) <==> AnyPurged(r.artifacts)) &&
            match Verify(p, r, trusted)
            case Err(e) => ReadRecord(p, trusted, namespace, t, r.capsuleId) == Err(e)
            case Ok(_) => ReadRecord(p, trusted, namespace, t, r.capsuleId) == Ok(q)
  {
    var artifacts := p.orderBy(r.artifacts);
    PermutationKeepsChecksum(p, r, artifacts);
    VerifyPermuted(p, r, artifacts, trusted);
    SamePurged(r.artifacts, artifacts);
  }

  lemma SamePurged(s: seq<Artifact>, t: seq<Artifact>)
    requires multiset(s) == multiset(t)
    ensures AnyPurged(s) <==> AnyPurged(t)
  {
    SameElements(s, t);
    if i :| 0 <= i < |s| && s[i].state == Purged {
      assert s[i] in t;
    }
    if i :| 0 <= i < |t| && t[i].state == Purged {
      assert t[i] in s;
    }
  }

  // ---------------------------------------------------------------- writing

  lemma {:induction false} SelectSnoc(rows: seq<ArtifactRow>, row: ArtifactRow, namespace: string, id: string)
    ensures Select(rows + [row], namespace, id) ==
            if row.namespace == namespace && row.id == id then Select(rows, namespace, id) + [row.artifact]
            else Select(rows, namespace, id)
  {
    assert (rows + [row])[..|rows|] == rows;
  }

  function RowsOf(namespace: string, id: string, artifacts: seq<Artifact>): seq<ArtifactRow> {
    if artifacts == [] then []
    else RowsOf(namespace, id, artifacts[..|artifacts| - 1]) + [ArtifactRow(namespace, id, artifacts[|artifacts| - 1])]
  }

  lemma SelectAppended(rows: seq<ArtifactRow>, namespace: string, id: string, artifacts: seq<Artifact>, n: string,
                       i: string)
    ensures Select(rows + RowsOf(namespace, id, artifacts), n, i) ==
            if n == namespace && i == id then Select(rows, n, i) + artifacts else Select(rows, n, i)
  {
    if n == namespace && i == id {
      SelectOwn(rows, namespace, id, artifacts);
    } else {
      SelectOther(rows, namespace, id, artifacts, n, i);
    }
  }

  lemma {:induction false} SelectOwn(rows: seq<ArtifactRow>, namespace: string, id: string, artifacts: seq<Artifact>)
    ensures Select(rows + RowsOf(namespace, id, artifacts), namespace, id) == Select(rows, namespace, id) + artifacts
  {
    if artifacts == [] {
      assert rows + [] == rows;
    } else {
      var init, last := artifacts[..|artifacts| - 1], artifacts[|artifacts| - 1];
      SelectOwn(rows, namespace, id, init);
      SelectNext(rows, RowsOf(namespace, id, init), ArtifactRow(namespace, id, last), namespace, id);
      Reassociate(Select(rows, namespace, id), init, last);
      assert artifacts == init + [last];
    }
  }

  lemma {:induction false} SelectOther(rows: seq<ArtifactRow>, namespace: string, id: string, artifacts: seq<Artifact>,
                                       n: string, i: string)
    requires n != namespace || i != id
    ensures Select(rows + RowsOf(namespace, id, artifacts), n, i) == Select(rows, n, i)
  {
    if artifacts == [] {
      assert rows + [] == rows;
    } else {
      var init, last := artifacts[..|artifacts| - 1], artifacts[|artifacts| - 1];
      SelectOther(rows, namespace, id, init, n, i);
      SelectNext(rows, RowsOf(namespace, id, init), ArtifactRow(namespace, id, last), n, i);
    }
  }

  lemma SelectNext(rows: seq<ArtifactRow>, more: seq<ArtifactRow>, row: ArtifactRow, n: string, i: string)
    ensures Select(rows + (more + [row]), n, i) ==
            if row.namespace == n && row.id == i then Select(rows + more, n, i) + [row.artifact]
              else Select(rows + more, n, i)
  {
    Reassociate(rows, more, row);
    SelectSnoc(rows + more, row, n, i);
  }

  lemma Reassociate<T>(a: seq<T>, b: seq<T>, c: T)
    ensures a + (b + [c]) == a + b + [c]
  {
  }

  lemma InsertOne(t: Tables, namespace: string, id: string, a: Artifact, before: seq<Artifact>)
    requires (namespace, id) in t.capsules && Insertable(a)
    requires Select(t.artifacts, namespace, id) == before && a.name !in Names(before)
    ensures InsertArtifact(t, namespace, id, a) == Ok(t.(artifacts := t.artifacts + [ArtifactRow(namespace, id, a)]))
  {
  }

  /** Inserting insertable artifacts with distinct names succeeds and appends exactly their rows. */
  lemma {:induction false} InsertAll(t: Tables, namespace: string, id: string, artifacts: seq<Artifact>)
    requires (namespace, id) in t.capsules && Select(t.artifacts, namespace, id) == []
    requires DistinctNames(artifacts) && forall i | 0 <= i < |artifacts| :: Insertable(artifacts[i])
    ensures InsertArtifacts(t, namespace, id, artifacts) ==
            Ok(t.(artifacts := t.artifacts + RowsOf(namespace, id, artifacts)))
  {
    if artifacts == [] {
      assert t.artifacts + [] == t.artifacts;
    } else {
      var init, last := artifacts[..|artifacts| - 1], artifacts[|artifacts| - 1];
      assert artifacts == init + [last];
      DistinctSnoc(init, last);
      InsertAll(t, namespace, id, init);
      SelectAppended(t.artifacts, namespace, id, init, namespace, id);
      assert [] + init == init;
      Reassociate(t.artifacts, RowsOf(namespace, id, init), ArtifactRow(namespace, id, last));
      InsertOne(t.(artifacts := t.artifacts + RowsOf(namespace, id, init)), namespace, id, last, init);
    }
  }

  lemma {:induction false} SelectPurged(rows: seq<ArtifactRow>, namespace: string, id: string, n: string, i: string)
    ensures Select(PurgeRows(rows, namespace, id), n, i) ==
            if n == namespace && i == id then Tombstones(Select(rows, n, i)) else Select(rows, n, i)
  {
    if rows != [] {
      var m := |rows| - 1;
      SelectPurged(rows[..m], namespace, id, n, i);
      assert PurgeRows(rows, namespace, id)[..m] == PurgeRows(rows[..m], namespace, id);
      TombstonesSnoc(Select(rows[..m], n, i), rows[m].artifact);
    }
  }

  lemma TombstonesSnoc(artifacts: seq<Artifact>, a: Artifact)
    ensures Tombstones(artifacts + [a]) == Tombstones(artifacts) + [Tombstone(a)]
  {
  }

  lemma AdmittedInsertable(p: Platform, trusted: seq<string>, r: Record)
    requires Lawful(p) && Admit(p, trusted, r).Ok?
    ensures forall i | 0 <= i < |Admit(p, trusted, r).value.artifacts| ::
            Insertable(Admit(p, trusted, r).value.artifacts[i])
    ensures Sound(p, Admit(p, trusted, r).value)
  {
    AdmittedIsStored(p, trusted, r);
    AdmittedIsPrepared(p, trusted, r);
    var q := Admit(p, trusted, r).value;
    assert Verify(p, q, trusted).Ok?;
    forall i | 0 <= i < |q.artifacts| ensures Insertable(q.artifacts[i]) {
      assert StoredArtifact(q.artifacts[i]) && IsPrepared(p, q.artifacts[i]);
    }
  }

  lemma PurgeSound(p: Platform, r: Record)
    requires WellStored(r) && Sound(p, r)
    ensures Sound(p, Records.Purge(r))
  {
    var keys :| Verify(p, r, keys).Ok?;
    PurgeVerifies(p, r, keys);
    assert Verify(p, Records.Purge(r), keys).Ok?;
  }

  // ---------------------------------------------------------------- each operation

  lemma RetryRefines(p: Platform, trusted: seq<string>, namespace: string, t: Tables, r: Record, q: Record, sum: string)
    requires Lawful(p) && WellStored(r) && Row(p, t, namespace, r) && Sound(p, r)
    requires q.capsuleId == r.capsuleId && StorageChecksum(p, q) == Ok(sum)
    ensures match PutAdmittedRows(p, trusted, namespace, t, q, sum)
            case Err(e) => Retry(p, trusted, r, q) == Refused(e)
            case Ok(after) => Retry(p, trusted, r, q) == Done && after == t
  {
    ReadRow(p, trusted, namespace, t, r);
    var stored := r.(artifacts := p.orderBy(r.artifacts));
    if Verify(p, r, trusted).Ok? {
      RetryStored(p, trusted, namespace, t, stored, q, sum, t.capsules[(namespace, r.capsuleId)].sum);
    }
  }

  lemma RetryStored(p: Platform, trusted: seq<string>, namespace: string, t: Tables, stored: Record, q: Record,
                    sum: string, oldSum: string)
    requires (namespace, q.capsuleId) in t.capsules
    requires ReadRecord(p, trusted, namespace, t, q.capsuleId) == Ok(stored) && StorageChecksum(p, stored) == Ok(oldSum)
    ensures PutAdmittedRows(p, trusted, namespace, t, q, sum) ==
            if oldSum != sum then Err(Conflict) else if AnyPurged(stored.artifacts) then Err(OriginalsPurged) else Ok(t)
  {
  }

  lemma PutAdmittedRefines(p: Platform, s: Sql, v: Vault, q: Record, sum: string)
    requires Lawful(p) && Represents(p, s, v) && WellStored(q) && Sound(p, q) && StorageChecksum(p, q) == Ok(sum)
    requires forall i | 0 <= i < |q.artifacts| :: Insertable(q.artifacts[i])
    requires IndexOf(v.records, q.capsuleId) == |v.records| ==> Valid(v.(records := v.records + [q]))
    ensures var (next, answer) := PutAdmitted(p, false, v, q);
            match PutAdmittedRows(p, s.trusted, s.namespace, s.tables, q, sum)
            case Err(e) => answer == Refused(e) && next == v
            case Ok(t) => answer == Done && Represents(p, s.(tables := t), next)
  {
    var k := IndexOf(v.records, q.capsuleId);
    if k < |v.records| {
      assert Row(p, s.tables, s.namespace, v.records[k]) && Sound(p, v.records[k]);
      RetryRefines(p, s.trusted, s.namespace, s.tables, v.records[k], q, sum);
    } else {
      InsertRefines(p, s, v, q, sum);
    }
  }

  lemma IndexOfAppended(records: seq<Record>, q: Record, id: string)
    ensures IndexOf(records + [q], id) ==
            if IndexOf(records, id) < |records| then IndexOf(records, id)
            else if q.capsuleId == id then |records| else |records| + 1
  {
    var all := records + [q];
    var i := IndexOf(all, id);
    assert forall j | 0 <= j < |records| :: all[j] == records[j];
    assert all[|records|] == q;
  }

  lemma RowKept(p: Platform, t: Tables, after: Tables, namespace: string, r: Record)
    requires Row(p, t, namespace, r)
    requires (namespace, r.capsuleId) in after.capsules
    requires after.capsules[(namespace, r.capsuleId)] == t.capsules[(namespace, r.capsuleId)]
    requires Select(after.artifacts, namespace, r.capsuleId) == Select(t.artifacts, namespace, r.capsuleId)
    ensures Row(p, after, namespace, r)
  {
  }

  /** The tables after a successful insertion. */
  function Inserted(t: Tables, namespace: string, q: Record, sum: string): Tables {
    Tables(t.capsules[(namespace, q.capsuleId) := CapsuleRow(q.capsule, q.envelope, sum)],
           t.artifacts + RowsOf(namespace, q.capsuleId, q.artifacts))
  }

  lemma InsertedRows(p: Platform, t: Tables, namespace: string, records: seq<Record>, q: Record, sum: string)
    requires Rows(p, t, namespace, records) && NoOthers(t, namespace, records)
    requires StorageChecksum(p, q) == Ok(sum) && IndexOf(records, q.capsuleId) == |records|
    ensures Rows(p, Inserted(t, namespace, q, sum), namespace, records + [q])
  {
    var after := Inserted(t, namespace, q, sum);
    assert Rows(p, after, namespace, records) by {
      forall i | 0 <= i < |records| ensures Row(p, after, namespace, records[i]) {
        assert Row(p, t, namespace, records[i]);
        OldRow(p, t, namespace, q, sum, records[i]);
      }
    }
    NewRow(p, t, namespace, q, sum);
    RowsSnoc(p, after, namespace, records, q);
  }

  lemma RowsSnoc(p: Platform, t: Tables, namespace: string, records: seq<Record>, r: Record)
    requires Rows(p, t, namespace, records) && Row(p, t, namespace, r)
    ensures Rows(p, t, namespace, records + [r])
  {
    var all := records + [r];
    forall i {:trigger Row(p, t, namespace, all[i])} | 0 <= i < |all| ensures Row(p, t, namespace, all[i]) {
      if i < |records| {
        assert all[i] == records[i] && Row(p, t, namespace, records[i]);
      }
    }
  }

  lemma OldRow(p: Platform, t: Tables, namespace: string, q: Record, sum: string, r: Record)
    requires Row(p, t, namespace, r) && r.capsuleId != q.capsuleId
    ensures Row(p, Inserted(t, namespace, q, sum), namespace, r)
  {
    SelectAppended(t.artifacts, namespace, q.capsuleId, q.artifacts, namespace, r.capsuleId);
    RowKept(p, t, Inserted(t, namespace, q, sum), namespace, r);
  }

  lemma NewRow(p: Platform, t: Tables, namespace: string, q: Record, sum: string)
    requires StorageChecksum(p, q) == Ok(sum) && Select(t.artifacts, namespace, q.capsuleId) == []
    ensures Row(p, Inserted(t, namespace, q, sum), namespace, q)
  {
    SelectAppended(t.artifacts, namespace, q.capsuleId, q.artifacts, namespace, q.capsuleId);
    assert [] + q.artifacts == q.artifacts;
  }

  lemma InsertedNoOthers(t: Tables, namespace: string, records: seq<Record>, q: Record, sum: string)
    requires NoOthers(t, namespace, records)
    ensures NoOthers(Inserted(t, namespace, q, sum), namespace, records + [q])
  {
    var after, all := Inserted(t, namespace, q, sum), records + [q];
    forall id | IndexOf(all, id) == |all|
      ensures (namespace, id) !in after.capsules && Select(after.artifacts, namespace, id) == []
    {
      IndexOfAppended(records, q, id);
      SelectAppended(t.artifacts, namespace, q.capsuleId, q.artifacts, namespace, id);
    }
  }

  lemma InsertRefines(p: Platform, s: Sql, v: Vault, q: Record, sum: string)
    requires Lawful(p) && Represents(p, s, v) && WellStored(q) && Sound(p, q) && StorageChecksum(p, q) == Ok(sum)
    requires forall i | 0 <= i < |q.artifacts| :: Insertable(q.artifacts[i])
    requires IndexOf(v.records, q.capsuleId) == |v.records| && Valid(v.(records := v.records + [q]))
    ensures PutAdmittedRows(p, s.trusted, s.namespace, s.tables, q, sum) == Ok(Inserted(s.tables, s.namespace, q, sum))
    ensures Represents(p, s.(tables := Inserted(s.tables, s.namespace, q, sum)), v.(records := v.records + [q]))
  {
    InsertComputes(p, s.trusted, s.namespace, s.tables, q, sum);
    InsertedRows(p, s.tables, s.namespace, v.records, q, sum);
    InsertedNoOthers(s.tables, s.namespace, v.records, q, sum);
    SoundSnoc(p, v.records, q);
  }

  lemma SoundSnoc(p: Platform, records: seq<Record>, q: Record)
    requires AllSound(p, records) && Sound(p, q)
    ensures AllSound(p, records + [q])
  {
    var all := records + [q];
    forall i {:trigger Sound(p, all[i])} | 0 <= i < |all| ensures Sound(p, all[i]) {
      if i < |records| {
        assert all[i] == records[i] && Sound(p, records[i]);
      }
    }
  }

  lemma InsertComputes(p: Platform, trusted: seq<string>, namespace: string, t: Tables, q: Record, sum: string)
    requires WellStored(q) && forall i | 0 <= i < |q.artifacts| :: Insertable(q.artifacts[i])
    requires (namespace, q.capsuleId) !in t.capsules && Select(t.artifacts, namespace, q.capsuleId) == []
    ensures PutAdmittedRows(p, trusted, namespace, t, q, sum) == Ok(Inserted(t, namespace, q, sum))
  {
    InsertAll(WithCapsule(t, namespace, q, sum), namespace, q.capsuleId, q.artifacts);
  }

  lemma PurgedRows(p: Platform, t: Tables, namespace: string, records: seq<Record>, k: nat)
    requires Rows(p, t, namespace, records) && k < |records|
    requires forall i | 0 <= i < |records| && i != k :: records[i].capsuleId != records[k].capsuleId
    ensures Rows(p, t.(artifacts := PurgeRows(t.artifacts, namespace, records[k].capsuleId)), namespace,
                 records[k := Records.Purge(records[k])])
  {
    var id := records[k].capsuleId;
    var after, all := t.(artifacts := PurgeRows(t.artifacts, namespace, id)), records[k := Records.Purge(records[k])];
    PurgeKeepsChecksum(p, records[k]);
    forall i | 0 <= i < |all| ensures Row(p, after, namespace, all[i]) {
      assert Row(p, t, namespace, records[i]);
      SelectPurged(t.artifacts, namespace, id, namespace, records[i].capsuleId);
      if i != k {
        RowKept(p, t, after, namespace, records[i]);
      }
    }
  }

  lemma PurgedNoOthers(t: Tables, namespace: string, records: seq<Record>, k: nat, r: Record)
    requires NoOthers(t, namespace, records) && k < |records| && r.capsuleId == records[k].capsuleId
    ensures NoOthers(t.(artifacts := PurgeRows(t.artifacts, namespace, records[k].capsuleId)), namespace,
            records[k := r])
  {
    var id := records[k].capsuleId;
    var after, all := t.(artifacts := PurgeRows(t.artifacts, namespace, id)), records[k := r];
    forall other | IndexOf(all, other) == |all|
      ensures (namespace, other) !in after.capsules && Select(after.artifacts, namespace, other) == []
    {
      SameIndex(records, k, r, other);
      SelectPurged(t.artifacts, namespace, id, namespace, other);
    }
  }

  lemma KeyOf(p: Platform, t: Tables, namespace: string, records: seq<Record>, k: nat)
    requires Rows(p, t, namespace, records) && k < |records|
    ensures (namespace, records[k].capsuleId) in t.capsules
  {
    assert Row(p, t, namespace, records[k]);
  }

  lemma PurgeRefines(p: Platform, s: Sql, v: Vault, id: string)
    requires Lawful(p) && Represents(p, s, v) && IsDigest(id) && IndexOf(v.records, id) < |v.records|
    ensures var k := IndexOf(v.records, id);
            PurgeTables(s.namespace, s.tables, id).Ok? &&
            Represents(p, s.(tables := PurgeTables(s.namespace, s.tables, id).value),
                       v.(records := v.records[k := Records.Purge(v.records[k])]))
  {
    var k := IndexOf(v.records, id);
    KeyOf(p, s.tables, s.namespace, v.records, k);
    StepValid(p, false, v, Op.Purge(id));
    PurgedRows(p, s.tables, s.namespace, v.records, k);
    PurgedNoOthers(s.tables, s.namespace, v.records, k, Records.Purge(v.records[k]));
    PurgedSound(p, v.records, k);
  }

  lemma PurgedSound(p: Platform, records: seq<Record>, k: nat)
    requires AllSound(p, records) && k < |records| && WellStored(records[k])
    ensures AllSound(p, records[k := Records.Purge(records[k])])
  {
    PurgeSound(p, records[k]);
  }

  lemma SameIndex(records: seq<Record>, k: nat, r: Record, id: string)
    requires k < |records| && r.capsuleId == records[k].capsuleId
    ensures IndexOf(records[k := r], id) == IndexOf(records, id)
  {
    var i, j := IndexOf(records[k := r], id), IndexOf(records, id);
    assert forall m | 0 <= m < |records| :: records[k := r][m].capsuleId == records[m].capsuleId;
  }

  lemma PutRefines(p: Platform, s: Sql, v: Vault, r: Record)
    requires Lawful(p) && Represents(p, s, v)
    ensures SameAnswer(StepSql(p, s, Put(r)).1, Step(p, false, v, Put(r)).1)
    ensures Represents(p, StepSql(p, s, Put(r)).0, Step(p, false, v, Put(r)).0)
  {
    if Admit(p, s.trusted, r).Ok? {
      var q := Admit(p, s.trusted, r).value;
      AdmittedIsStored(p, s.trusted, r);
      AdmittedInsertable(p, s.trusted, r);
      StoredChecksum(p, q);
      StepValid(p, false, v, Put(r));
      PutAdmittedRefines(p, s, v, q, StorageChecksum(p, q).value);
    }
  }

  lemma GetRefines(p: Platform, s: Sql, v: Vault, id: string)
    requires Lawful(p) && Represents(p, s, v)
    ensures SameAnswer(StepSql(p, s, Get(id)).1, Step(p, false, v, Get(id)).1)
  {
    var k := IndexOf(v.records, id);
    if IsDigest(id) && k < |v.records| {
      assert Row(p, s.tables, s.namespace, v.records[k]);
      assert Sound(p, v.records[k]);
      ReadRow(p, s.trusted, s.namespace, s.tables, v.records[k]);
    }
  }

  lemma StepRefines(p: Platform, s: Sql, v: Vault, op: Op)
    requires Lawful(p) && Represents(p, s, v) && (op.Reopen? ==> op.namespace == s.namespace)
    ensures SameAnswer(StepSql(p, s, op).1, Step(p, false, v, op).1)
    ensures Represents(p, StepSql(p, s, op).0, Step(p, false, v, op).0)
    ensures StepSql(p, s, op).0.namespace == s.namespace
  {
    match op
    case Init =>
    case Put(r) => PutRefines(p, s, v, r);
    case Get(id) => GetRefines(p, s, v, id);
    case Purge(id) =>
      if IsDigest(id) && IndexOf(v.records, id) < |v.records| {
        PurgeRefines(p, s, v, id);
      }
    case Reopen(namespace, keys) =>
  }

  /** Every reopening in the run names the same namespace. */
  predicate InNamespace(ops: seq<Op>, namespace: string) {
    forall i | 0 <= i < |ops| && ops[i].Reopen? :: ops[i].namespace == namespace
  }

  /** Every run on the tables answers as the lifecycle does, up to artifact order. */
  lemma {:induction false} RunRefines(p: Platform, s: Sql, v: Vault, ops: seq<Op>)
    requires Lawful(p) && Represents(p, s, v) && InNamespace(ops, s.namespace)
    ensures SameAnswers(RunSql(p, s, ops).1, Run(p, false, v, ops).1)
    ensures Represents(p, RunSql(p, s, ops).0, Run(p, false, v, ops).0)
    decreases ops
  {
    if ops != [] {
      StepRefines(p, s, v, ops[0]);
      RunRefines(p, StepSql(p, s, ops[0]).0, Step(p, false, v, ops[0]).0, ops[1..]);
    }
  }
}
