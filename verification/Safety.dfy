/** What the runs of the lifecycle keep, said of the file and of the tables themselves. */
module Safety {
  import opened Common
  import opened Records
  import opened LineShape
  import opened Checksum
  import opened Lifecycle
  import opened LifecycleRuns
  import opened Rewriting
  import opened JsonlStore
  import opened SqlStore
  import JsonlRefinement
  import SqlRefinement
  import Equivalence

  /** The disk after a run from an absent file. */
  function DiskAfter(p: Platform, keys: seq<string>, ops: seq<Op>): JsonlRefinement.Disk {
    JsonlRefinement.RunDisk(p, JsonlRefinement.Disk(Image(None, map[]), keys), ops).0
  }

  /**
   * In the file: an ID that is indexed after some run from an absent file is indexed and readable
   * after any further one, with the same checksum, and its artifacts have at most become tombstones.
   */
  lemma FileNoResurrection(p: Platform, keys: seq<string>, first: seq<Op>, later: seq<Op>, id: string)
    requires Lawful(p) && id in DiskAfter(p, keys, first).image.index
    ensures var before := DiskAfter(p, keys, first);
            var after := JsonlRefinement.RunDisk(p, before, later).0;
            id in after.image.index &&
            ReadIndexed(p, before.image, id).Ok? && ReadIndexed(p, after.image, id).Ok? &&
            SameButPurged(p, ReadIndexed(p, before.image, id).value, ReadIndexed(p, after.image, id).value)
  {
    var start := JsonlRefinement.Disk(Image(None, map[]), keys);
    var s := Run(p, true, Vault(false, [], keys), first).0;
    JsonlRefinement.RunRefines(p, start, Vault(false, [], keys), first);
    FileKeeps(p, DiskAfter(p, keys, first), s, later, id);
  }

  /** The same record as far as anyone can tell, but for originals that have been purged. */
  predicate SameButPurged(p: Platform, before: Record, after: Record) {
    Evolved(before, after) && StorageChecksum(p, after) == StorageChecksum(p, before)
  }

  lemma FileKeeps(p: Platform, d: JsonlRefinement.Disk, s: Vault, ops: seq<Op>, id: string)
    requires Lawful(p) && JsonlRefinement.Represents(p, d, s) && id in d.image.index
    ensures var after := JsonlRefinement.RunDisk(p, d, ops).0;
            id in after.image.index &&
            ReadIndexed(p, d.image, id).Ok? && ReadIndexed(p, after.image, id).Ok? &&
            SameButPurged(p, ReadIndexed(p, d.image, id).value, ReadIndexed(p, after.image, id).value)
  {
    JsonlRefinement.RunRefines(p, d, s, ops);
    JsonlRefinement.ReadRepresented(p, d, s, id);
    var now, later := AfterRun(p, true, s, ops, IndexOf(s.records, id));
    JsonlRefinement.ReadRepresented(p, JsonlRefinement.RunDisk(p, d, ops).0, later, id);
    EvolvedKeepsChecksum(p, s.records[IndexOf(s.records, id)], now);
  }

  /** The tables after a run that started on an empty namespace. */
  function SqlAfter(p: Platform, t: Tables, namespace: string, keys: seq<string>, ops: seq<Op>): SqlRefinement.Sql {
    SqlRefinement.RunSql(p, SqlRefinement.Sql(t, namespace, keys), ops).0
  }

  /**
   * In the tables: a Capsule row that exists after some run from an empty namespace is the same row
   * after any further one, its stored checksum included, and its artifact rows are the same rows in
   * the same order, of which present ones may have become tombstones.
   */
  lemma TablesNoResurrection(p: Platform, t: Tables, namespace: string, keys: seq<string>, first: seq<Op>,
                             later: seq<Op>, id: string)
    requires Lawful(p) && Equivalence.EmptyNamespace(t, namespace)
    requires SqlRefinement.InNamespace(first, namespace) && SqlRefinement.InNamespace(later, namespace)
    requires (namespace, id) in SqlAfter(p, t, namespace, keys, first).tables.capsules
    ensures var before := SqlAfter(p, t, namespace, keys, first);
            var after := SqlRefinement.RunSql(p, before, later).0;
            SameRows(before.tables, after.tables, namespace, id)
  {
    var s := SqlRefinement.Sql(t, namespace, keys);
    SqlRefinement.RunRefines(p, s, Vault(true, [], keys), first);
    NamespaceKept(p, s, first);
    TablesKeep(p, SqlAfter(p, t, namespace, keys, first), Run(p, false, Vault(true, [], keys), first).0, later, id);
  }

  predicate SameRows(before: Tables, after: Tables, namespace: string, id: string) {
    var key := (namespace, id);
    key in before.capsules && key in after.capsules && after.capsules[key] == before.capsules[key] &&
    var rows, now := Select(before.artifacts, namespace, id), Select(after.artifacts, namespace, id);
    |now| == |rows| && forall i | 0 <= i < |rows| :: EvolvedArtifact(rows[i], now[i])
  }

  lemma {:induction false} NamespaceKept(p: Platform, s: SqlRefinement.Sql, ops: seq<Op>)
    requires SqlRefinement.InNamespace(ops, s.namespace)
    ensures SqlRefinement.RunSql(p, s, ops).0.namespace == s.namespace
    decreases ops
  {
    if ops != [] {
      NamespaceKept(p, SqlRefinement.StepSql(p, s, ops[0]).0, ops[1..]);
    }
  }

  lemma TablesKeep(p: Platform, s: SqlRefinement.Sql, v: Vault, ops: seq<Op>, id: string)
    requires Lawful(p) && SqlRefinement.Represents(p, s, v) && SqlRefinement.InNamespace(ops, s.namespace)
    requires (s.namespace, id) in s.tables.capsules
    ensures SameRows(s.tables, SqlRefinement.RunSql(p, s, ops).0.tables, s.namespace, id)
  {
    SqlRefinement.RunRefines(p, s, v, ops);
    NamespaceKept(p, s, ops);
    var k := IndexOf(v.records, id);
    assert k < |v.records|;
    assert SqlRefinement.Row(p, s.tables, s.namespace, v.records[k]);
    var now, later := AfterRun(p, false, v, ops, k);
    EvolvedKeepsChecksum(p, v.records[k], now);
    assert SqlRefinement.Row(p, SqlRefinement.RunSql(p, s, ops).0.tables, s.namespace, later.records[k]);
  }

  /**
   * The exact condition under which the two kinds of storage agree on the Get that follows the first
   * Put of an ID, in whatever state runs have left the file and the tables.
   */
  lemma EmptyContentOnBackends(p: Platform, first: seq<Op>, t: Tables, namespace: string, second: seq<Op>,
                               keys: seq<string>, r: Record)
    requires Lawful(p) && Equivalence.EmptyNamespace(t, namespace) && SqlRefinement.InNamespace(second, namespace)
    requires var d, s := DiskAfter(p, keys, first), SqlAfter(p, t, namespace, keys, second);
             d.image.file.Some? && Admit(p, d.trusted, r).Ok? && Admit(p, s.trusted, r).Ok? &&
             r.capsuleId !in d.image.index && (namespace, r.capsuleId) !in s.tables.capsules
    ensures var d, s := DiskAfter(p, keys, first), SqlAfter(p, t, namespace, keys, second);
            var fromFile := JsonlRefinement.StepDisk(p, JsonlRefinement.StepDisk(p, d, Put(r)).0, Get(r.capsuleId)).1;
            var fromTables := SqlRefinement.StepSql(p, SqlRefinement.StepSql(p, s, Put(r)).0, Get(r.capsuleId)).1;
            (SqlRefinement.SameAnswer(fromTables, fromFile) <==> Equivalence.NoEmptyContent(r.artifacts)) &&
            fromTables.Returned? && (fromFile.Refused? ==> fromFile == Refused(Invalid))
  {
    var d, s := DiskAfter(p, keys, first), SqlAfter(p, t, namespace, keys, second);
    var v := Run(p, true, Vault(false, [], keys), first).0;
    var w := Run(p, false, Vault(true, [], keys), second).0;
    JsonlRefinement.RunRefines(p, JsonlRefinement.Disk(Image(None, map[]), keys), Vault(false, [], keys), first);
    SqlRefinement.RunRefines(p, SqlRefinement.Sql(t, namespace, keys), Vault(true, [], keys), second);
    NamespaceKept(p, SqlRefinement.Sql(t, namespace, keys), second);
    EmptyContentDecides(p, d, v, s, w, r);
  }

  lemma EmptyContentDecides(p: Platform, d: JsonlRefinement.Disk, v: Vault, s: SqlRefinement.Sql, w: Vault, r: Record)
    requires Lawful(p) && JsonlRefinement.Represents(p, d, v) && v.ready && SqlRefinement.Represents(p, s, w)
    requires Admit(p, d.trusted, r).Ok? && Admit(p, s.trusted, r).Ok?
    requires r.capsuleId !in d.image.index && (s.namespace, r.capsuleId) !in s.tables.capsules
    ensures var fromFile := JsonlRefinement.StepDisk(p, JsonlRefinement.StepDisk(p, d, Put(r)).0, Get(r.capsuleId)).1;
            var fromTables := SqlRefinement.StepSql(p, SqlRefinement.StepSql(p, s, Put(r)).0, Get(r.capsuleId)).1;
            (SqlRefinement.SameAnswer(fromTables, fromFile) <==> Equivalence.NoEmptyContent(r.artifacts)) &&
            fromTables.Returned? && (fromFile.Refused? ==> fromFile == Refused(Invalid))
  {
    Equivalence.FileGetAfterPut(p, d, v, r);
    Equivalence.TablesGetAfterPut(p, s, w, r);
    UnderOtherKeys(p, d.trusted, r, s.trusted);
    var fromFile := JsonlRefinement.StepDisk(p, JsonlRefinement.StepDisk(p, d, Put(r)).0, Get(r.capsuleId)).1;
    var fromTables := SqlRefinement.StepSql(p, SqlRefinement.StepSql(p, s, Put(r)).0, Get(r.capsuleId)).1;
    SameOrRefused(fromFile, fromTables, Admit(p, d.trusted, r).value, Equivalence.NoEmptyContent(r.artifacts));
  }

  lemma SameOrRefused(fromFile: Response, fromTables: Response, q: Record, whole: bool)
    requires fromFile == (if whole then Returned(q) else Refused(Invalid)) &&
             SqlRefinement.SameAnswer(fromTables, Returned(q))
    ensures SqlRefinement.SameAnswer(fromTables, fromFile) <==> whole
    ensures fromTables.Returned? && (fromFile.Refused? ==> fromFile == Refused(Invalid))
  {
  }
}
