/** The JSONL and SQL backends answer alike over every run. */
module Equivalence {
  import opened Common
  import opened Records
  import opened LineCodec
  import opened LineShape
  import opened Admission
  import opened Lifecycle
  import opened Rewriting
  import opened SqlStore
  import opened SqlProperties
  import opened SqlRefinement
  import Json
  import JsonlRefinement
  import LifecycleRuns

  predicate NoEmptyContent(artifacts: seq<Artifact>) {
    forall i | 0 <= i < |artifacts| :: artifacts[i].content != Some("")
  }

  /** No record put in the run has an artifact with empty, non-nil content. */
  predicate NoEmptyPuts(ops: seq<Op>) {
    forall i | 0 <= i < |ops| && ops[i].Put? :: NoEmptyContent(ops[i].record.artifacts)
  }

  lemma AdmittedContent(p: Platform, trusted: seq<string>, r: Record)
    requires Lawful(p) && Admit(p, trusted, r).Ok?
    ensures var q := Admit(p, trusted, r).value;
            WellStored(q) && (NoEmptyContent(q.artifacts) <==> NoEmptyContent(r.artifacts))
  {
    var q := Admit(p, trusted, r).value;
    AdmittedIsStored(p, trusted, r);
    PreparedContents(p, r.artifacts);
    SameContents(q.artifacts, r.artifacts);
  }

  lemma PreparedContents(p: Platform, artifacts: seq<Artifact>)
    requires Lawful(p) && PrepareArtifacts(p, artifacts).Ok?
    ensures forall i | 0 <= i < |artifacts| :: PrepareArtifacts(p, artifacts).value[i].content == artifacts[i].content
  {
    PrepareArtifactsExact(p, artifacts);
  }

  lemma SameContents(s: seq<Artifact>, t: seq<Artifact>)
    requires |s| == |t| && forall i | 0 <= i < |s| :: s[i].content == t[i].content
    ensures NoEmptyContent(s) <==> NoEmptyContent(t)
  {
  }

  lemma NormalWhole(q: Record)
    requires WellStored(q)
    ensures NoEmptyContent(q.artifacts) ==> Normal(q) == q
  {
    forall i | 0 <= i < |q.artifacts| && q.artifacts[i].content != Some("")
      ensures NormalArtifact(q.artifacts[i]) == q.artifacts[i]
    {
      NormalStored(q.artifacts[i]);
    }
    if NoEmptyContent(q.artifacts) {
      assert NormalArtifacts(q.artifacts) == q.artifacts;
    }
  }

  lemma StepAgrees(p: Platform, s: Vault, op: Op)
    requires Lawful(p) && (op.Put? ==> NoEmptyContent(op.record.artifacts))
    ensures Step(p, true, s, op) == Step(p, false, s, op)
  {
    if op.Put? && Admit(p, s.trusted, op.record).Ok? {
      AdmittedContent(p, s.trusted, op.record);
      NormalWhole(Admit(p, s.trusted, op.record).value);
    }
  }

  /** Without empty content the wire form loses nothing, so both kinds of storage run the same lifecycle. */
  lemma {:induction false} RunAgrees(p: Platform, s: Vault, ops: seq<Op>)
    requires Lawful(p) && NoEmptyPuts(ops)
    ensures Run(p, true, s, ops) == Run(p, false, s, ops)
    decreases ops
  {
    if ops != [] {
      StepAgrees(p, s, ops[0]);
      RunAgrees(p, Step(p, true, s, ops[0]).0, ops[1..]);
    }
  }

  /** A namespace of the tables that holds nothing. */
  ghost predicate EmptyNamespace(t: Tables, namespace: string) {
    forall id :: (namespace, id) !in t.capsules && Select(t.artifacts, namespace, id) == []
  }

  /**
   * Started on an empty file and an empty namespace with the same keys, the two backends give the
   * same answers to every sequence of Init, Put, Get, Purge and reopening of that namespace, down to
   * the error class and up to the order of artifacts, provided no artifact put has empty content.
   */
  lemma BackendsAgree(p: Platform, t: Tables, namespace: string, keys: seq<string>, ops: seq<Op>)
    requires Lawful(p) && EmptyNamespace(t, namespace) && InNamespace(ops, namespace) && NoEmptyPuts(ops)
    ensures SameAnswers(RunSql(p, Sql(t, namespace, keys), ops).1,
                        JsonlRefinement.RunDisk(p, JsonlRefinement.Disk(Image(Some(""), map[]), keys), ops).1)
  {
    var start := Vault(true, [], keys);
    JsonlRefinement.RunRefines(p, JsonlRefinement.Disk(Image(Some(""), map[]), keys), start, ops);
    RunRefines(p, Sql(t, namespace, keys), start, ops);
    RunAgrees(p, start, ops);
  }

  lemma HolesAfterPut(p: Platform, capsule: map<string, Json.Value>, q: Record)
    requires WellStored(q) && forall i | 0 <= i < |q.artifacts| :: Acceptable(p, capsule, q.artifacts[i])
    ensures LifecycleRuns.HasHole(Normal(q).artifacts) <==> !NoEmptyContent(q.artifacts)
    ensures !LifecycleRuns.HasHole(q.artifacts)
  {
    forall i | 0 <= i < |q.artifacts|
      ensures LifecycleRuns.IsHole(NormalArtifact(q.artifacts[i])) <==> q.artifacts[i].content == Some("")
      ensures !LifecycleRuns.IsHole(q.artifacts[i])
    {
      NormalStored(q.artifacts[i]);
      AcceptedIsCanonical(p, capsule, q.artifacts[i]);
    }
    if !NoEmptyContent(q.artifacts) {
      var i :| 0 <= i < |q.artifacts| && q.artifacts[i].content == Some("");
      assert LifecycleRuns.IsHole(Normal(q).artifacts[i]);
    }
  }

  /**
   * The condition is exact: of an admitted new record, the two kinds of storage give the same answer
   * to the Get that follows its Put if and only if none of its artifacts has empty content; the wire
   * form answers Invalid otherwise.
   */
  lemma EmptyContentExact(p: Platform, s: Vault, r: Record)
    requires Lawful(p) && Valid(s) && s.ready
    requires Admit(p, s.trusted, r).Ok? && IndexOf(s.records, r.capsuleId) == |s.records|
    ensures var wire := Step(p, true, Step(p, true, s, Put(r)).0, Get(r.capsuleId)).1;
            var rows := Step(p, false, Step(p, false, s, Put(r)).0, Get(r.capsuleId)).1;
            rows == Returned(Admit(p, s.trusted, r).value) &&
            (wire == rows <==> NoEmptyContent(r.artifacts)) &&
            (!NoEmptyContent(r.artifacts) ==> wire == Refused(Invalid))
  {
    var q := Admit(p, s.trusted, r).value;
    AdmittedContent(p, s.trusted, r);
    NormalWhole(q);
    VerifyExact(p, q, s.trusted);
    HolesAfterPut(p, Authenticate(p, q, s.trusted).value, q);
    GetAfterPut(p, true, s, r);
    GetAfterPut(p, false, s, r);
  }

  lemma GetAfterPut(p: Platform, wire: bool, s: Vault, r: Record)
    requires Lawful(p) && Valid(s) && s.ready
    requires Admit(p, s.trusted, r).Ok? && IndexOf(s.records, r.capsuleId) == |s.records|
    ensures var kept := Kept(wire, Admit(p, s.trusted, r).value);
            Step(p, wire, Step(p, wire, s, Put(r)).0, Get(r.capsuleId)).1 ==
            if LifecycleRuns.HasHole(kept.artifacts) then Refused(Invalid) else Returned(kept)
  {
    LifecycleRuns.GetExact(p, wire, s, r, []);
  }

  /** On a file that represents some state: the Get that follows the first Put of an ID. */
  lemma FileGetAfterPut(p: Platform, d: JsonlRefinement.Disk, v: Vault, r: Record)
    requires Lawful(p) && JsonlRefinement.Represents(p, d, v) && v.ready
    requires Admit(p, d.trusted, r).Ok? && r.capsuleId !in d.image.index
    ensures var put := JsonlRefinement.StepDisk(p, d, Put(r));
            put.1 == Done &&
            JsonlRefinement.StepDisk(p, put.0, Get(r.capsuleId)).1 ==
            if NoEmptyContent(r.artifacts) then Returned(Admit(p, d.trusted, r).value) else Refused(Invalid)
  {
    JsonlRefinement.ReadRepresented(p, d, v, r.capsuleId);
    var q := LifecycleRuns.PutAppends(p, true, v, r);
    JsonlRefinement.StepRefines(p, d, v, Put(r));
    JsonlRefinement.StepRefines(p, JsonlRefinement.StepDisk(p, d, Put(r)).0, Step(p, true, v, Put(r)).0,
      Get(r.capsuleId));
    EmptyContentExact(p, v, r);
  }

  /** The table has a Capsule row for exactly the IDs that are stored. */
  lemma RowsFor(p: Platform, s: Sql, v: Vault, id: string)
    requires Represents(p, s, v)
    ensures (s.namespace, id) in s.tables.capsules <==> IndexOf(v.records, id) < |v.records|
  {
    var k := IndexOf(v.records, id);
    if k < |v.records| {
      assert Row(p, s.tables, s.namespace, v.records[k]);
    }
  }

  /** On tables that represent some state, the same, up to the order of artifacts. */
  lemma TablesGetAfterPut(p: Platform, s: Sql, v: Vault, r: Record)
    requires Lawful(p) && Represents(p, s, v)
    requires Admit(p, s.trusted, r).Ok? && (s.namespace, r.capsuleId) !in s.tables.capsules
    ensures var put := StepSql(p, s, Put(r));
            put.1 == Done && SameAnswer(StepSql(p, put.0, Get(r.capsuleId)).1, Returned(Admit(p, s.trusted, r).value))
  {
    RowsFor(p, s, v, r.capsuleId);
    var q := LifecycleRuns.PutAppends(p, false, v, r);
    SqlRefinement.StepRefines(p, s, v, Put(r));
    SqlRefinement.StepRefines(p, StepSql(p, s, Put(r)).0, Step(p, false, v, Put(r)).0, Get(r.capsuleId));
    EmptyContentExact(p, v, r);
  }
}
