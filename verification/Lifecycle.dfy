/** The contract every backend implements, as a state machine on the list of stored records. */
module Lifecycle {
  import opened Common
  import opened Records
  import opened LineCodec
  import opened LineShape
  import opened Admission
  import opened Checksum
  import Json
  import JsonText

  /** The scanner buffer of the JSONL backend: a line and its LF must fit. */
  const MAX_LINE := 16 * 1024 * 1024

  /** ready says that the storage has been provisioned by Init. */
  datatype Vault = Vault(ready: bool, records: seq<Record>, trusted: seq<string>)

  datatype Op =
    | Init
    | Put(record: Record)
    | Get(id: string)
    | Purge(id: string)
    | Reopen(namespace: string, keys: seq<string>)

  datatype Response = Done | Returned(record: Record) | Refused(error: Error)

  /** The position of a Capsule ID, or the number of records. */
  function IndexOf(records: seq<Record>, id: string): (i: nat)
    ensures i <= |records|
    ensures i < |records| ==> records[i].capsuleId == id
    ensures forall j | 0 <= j < i :: records[j].capsuleId != id
  {
    if records == [] then 0
    else if records[0].capsuleId == id then 0
    else 1 + IndexOf(records[1..], id)
  }

  /** Prepare, Verify and StorageChecksum in the order every Put calls them. */
  function Admit(p: Platform, trusted: seq<string>, r: Record): Result<Record> {
    var prepared :- Prepare(p, r);
    var _ :- Verify(p, prepared, trusted);
    var _ :- StorageChecksum(p, prepared);
    Ok(prepared)
  }

  /** What a backend keeps: a JSONL line (wire) loses empty content, a table row does not. */
  function Kept(wire: bool, r: Record): Record {
    if wire then Normal(r) else r
  }

  /** The outcome of putting an admitted record over an existing one of the same Capsule ID. */
  function Retry(p: Platform, trusted: seq<string>, existing: Record, admitted: Record): Response {
    match Verify(p, existing, trusted)
    case Err(e) => Refused(e)
    case Ok(_) =>
      match StorageChecksum(p, existing)
      case Err(e) => Refused(e)
      case Ok(sum) =>
        if Ok(sum) != StorageChecksum(p, admitted) then Refused(Conflict)
        else if AnyPurged(existing.artifacts) then Refused(OriginalsPurged)
        else Done
  }

  predicate ValidConfiguration(namespace: string, keys: seq<string>) {
    IsName(namespace) && keys != [] && forall i | 0 <= i < |keys| :: |keys[i]| == PUBLIC_KEY_SIZE
  }

  /** Put of an admitted record. */
  function PutAdmitted(p: Platform, wire: bool, s: Vault, admitted: Record): (Vault, Response) {
    var i := IndexOf(s.records, admitted.capsuleId);
    if i < |s.records| then (s, Retry(p, s.trusted, s.records[i], admitted))
    else if !s.ready then (s, Refused(Failed))
    else (s.(records := s.records + [Kept(wire, admitted)]), Done)
  }

  function Step(p: Platform, wire: bool, s: Vault, op: Op): (Vault, Response) {
    match op
    case Init => (s.(ready := true), Done)
    case Put(r) => (
      match Admit(p, s.trusted, r)
      case Err(e) => (s, Refused(e))
      case Ok(admitted) => PutAdmitted(p, wire, s, admitted)
    )
    case Get(id) =>
      if !IsDigest(id) then (s, Refused(Invalid))
      else
        var i := IndexOf(s.records, id);
        if i == |s.records| then (s, Refused(NotFound))
        else (
          match Verify(p, s.records[i], s.trusted)
          case Err(e) => (s, Refused(e))
          case Ok(_) => (s, Returned(s.records[i]))
        )
    case Purge(id) =>
      if !IsDigest(id) then (s, Refused(Invalid))
      else
        var i := IndexOf(s.records, id);
        if i == |s.records| then (s, Refused(NotFound))
        else (s.(records := s.records[i := Records.Purge(s.records[i])]), Done)
    case Reopen(namespace, keys) =>
      if ValidConfiguration(namespace, keys) then (s.(trusted := keys), Done) else (s, Refused(Invalid))
  }

  function Run(p: Platform, wire: bool, s: Vault, ops: seq<Op>): (r: (Vault, seq<Response>))
    ensures |r.1| == |ops|
    decreases ops
  {
    if ops == [] then (s, [])
    else
      var (next, response) := Step(p, wire, s, ops[0]);
      var (last, responses) := Run(p, wire, next, ops[1..]);
      (last, [response] + responses)
  }

  // ---------------------------------------------------------------- what is true of every stored record

  predicate StoredArtifact(a: Artifact) {
    IsName(a.name) && !a.binding.OtherField? && !a.state.OtherState? &&
    (a.content.Some? ==> a.state == Present) &&
    (if a.state == NeverRetained then a.sha == "" else IsDigest(a.sha))
  }

  predicate WellStored(r: Record) {
    IsDigest(r.capsuleId) && DistinctNames(r.artifacts) &&
    |r.artifacts| <= MAX_ARTIFACTS && RecordSize(r) <= MAX_RECORD &&
    forall i | 0 <= i < |r.artifacts| :: StoredArtifact(r.artifacts[i])
  }

  /** The invariant of the state machine. */
  predicate Valid(s: Vault) {
    (!s.ready ==> s.records == []) &&
    (forall i | 0 <= i < |s.records| :: WellStored(s.records[i])) &&
    (forall i, j | 0 <= i < j < |s.records| :: s.records[i].capsuleId != s.records[j].capsuleId)
  }

  lemma AcceptedIsStored(p: Platform, capsule: map<string, Json.Value>, a: Artifact)
    requires Lawful(p) && Acceptable(p, capsule, a) && IsPrepared(p, a)
    ensures StoredArtifact(a)
  {
    if a.binding != Unbound {
      assert DigestAt(capsule, a.binding).Ok?;
      assert IsDigestField(a.binding);
    }
  }

  lemma AdmittedIsStored(p: Platform, trusted: seq<string>, r: Record)
    requires Lawful(p) && Admit(p, trusted, r).Ok?
    ensures WellStored(Admit(p, trusted, r).value)
  {
    var q := Prepare(p, r).value;
    PrepareArtifactsExact(p, r.artifacts);
    SameSize(q.artifacts, r.artifacts);
    VerifyExact(p, q, trusted);
    var capsule := Authenticate(p, q, trusted).value;
    forall i | 0 <= i < |q.artifacts| ensures StoredArtifact(q.artifacts[i]) {
      AcceptedIsStored(p, capsule, q.artifacts[i]);
    }
  }

  lemma NormalStored(a: Artifact)
    requires StoredArtifact(a)
    ensures NormalArtifact(a) == if a.content == Some("") then a.(content := None) else a
    ensures IsCanonical(a) && StoredArtifact(NormalArtifact(a)) && ContentLength(NormalArtifact(a)) == ContentLength(a)
  {
    StateRoundTrip(a.state);
    BindingRoundTrip(a.binding);
  }

  lemma {:induction false} SmallerContent(s: seq<Artifact>, t: seq<Artifact>)
    requires |s| == |t| && forall i | 0 <= i < |s| :: ContentLength(s[i]) <= ContentLength(t[i])
    ensures ContentSize(s) <= ContentSize(t)
  {
    if s != [] {
      SmallerContent(s[1..], t[1..]);
    }
  }

  lemma NormalWellStored(r: Record)
    requires WellStored(r)
    ensures WellStored(Normal(r))
  {
    forall i | 0 <= i < |r.artifacts| ensures StoredArtifact(NormalArtifact(r.artifacts[i])) {
      NormalStored(r.artifacts[i]);
    }
    forall i | 0 <= i < |r.artifacts|
      ensures ContentLength(NormalArtifact(r.artifacts[i])) <= ContentLength(r.artifacts[i])
    {
      NormalStored(r.artifacts[i]);
    }
    SmallerContent(Normal(r).artifacts, r.artifacts);
  }

  lemma PurgeWellStored(r: Record)
    requires WellStored(r)
    ensures WellStored(Records.Purge(r))
  {
    SmallerContent(Records.Purge(r).artifacts, r.artifacts);
  }

  predicate IsTame(s: string) {
    IsAscii(s) && JsonText.IsPlain(s)
  }

  lemma TamePieces()
    ensures IsTame("model_attestation.") && IsTame("compute_attestation.")
    ensures IsTame("agent_input_digest") && IsTame("agent_output_digest")
  {
  }

  lemma TameConcat(a: string, b: string, c: string)
    requires IsTame(a) && IsTame(b) && IsTame(c)
    ensures IsTame(a + b + c)
  {
  }

  lemma BindingTextShape(b: Binding)
    requires !b.OtherField?
    ensures IsTame(BindingText(b)) && |BindingText(b)| <= 57
  {
    TamePieces();
    TameConcat("model_attestation.", "compute_attestation.", "agent_input_digest");
    TameConcat("model_attestation.", "compute_attestation.", "agent_output_digest");
  }

  lemma StateTextShape(s: State)
    requires !s.OtherState?
    ensures IsTame(StateText(s)) && |StateText(s)| <= 14
  {
  }

  lemma StoredArtifactShape(p: Platform, a: Artifact)
    requires Lawful(p) && StoredArtifact(a)
    ensures Small(a) && Utf8Artifact(p, a) && Utf8Artifact(p, Commitment(a))
  {
    BindingTextShape(a.binding);
    StateTextShape(a.state);
    StateTextShape(Present);
    assert IsAscii(a.name) && IsAscii(a.sha);
  }

  /** Every stored record marshals, to a line that fits the scanner buffer with its LF. */
  lemma StoredLine(p: Platform, r: Record)
    requires Lawful(p) && WellStored(r)
    ensures Marshal(p, r) == Ok(Line(r)) && |Line(r)| + 1 <= 16777216
  {
    forall i | 0 <= i < |r.artifacts| ensures Small(r.artifacts[i]) && Utf8Artifact(p, r.artifacts[i]) {
      StoredArtifactShape(p, r.artifacts[i]);
    }
    assert IsAscii(r.capsuleId);
    LineLength(r);
  }

  /** Every stored record has a checksum. */
  lemma StoredChecksum(p: Platform, r: Record)
    requires Lawful(p) && WellStored(r)
    ensures StorageChecksum(p, r).Ok?
  {
    var c := Commitments(r.artifacts);
    var q := Preimage(p, r);
    SameElements(q.artifacts, c);
    forall i | 0 <= i < |q.artifacts| ensures Utf8Artifact(p, q.artifacts[i]) {
      assert q.artifacts[i] in c;
      var j :| 0 <= j < |c| && c[j] == q.artifacts[i];
      StoredArtifactShape(p, r.artifacts[j]);
    }
    assert IsAscii(r.capsuleId);
  }

  /** No record that Put accepts can make a later New or Purge fail on line length. */
  lemma AdmittedLineFits(p: Platform, trusted: seq<string>, r: Record)
    requires Lawful(p) && Admit(p, trusted, r).Ok?
    ensures var q := Admit(p, trusted, r).value;
            |Line(q)| + 1 <= 16777216 && |Line(Records.Purge(q))| <= |Line(q)|
  {
    AdmittedIsStored(p, trusted, r);
    StoredLine(p, Admit(p, trusted, r).value);
    PurgedLineNoLonger(Admit(p, trusted, r).value);
  }

  lemma StepValid(p: Platform, wire: bool, s: Vault, op: Op)
    requires Lawful(p) && Valid(s)
    ensures Valid(Step(p, wire, s, op).0)
  {
    if op.Put? && Admit(p, s.trusted, op.record).Ok? {
      AdmittedIsStored(p, s.trusted, op.record);
      NormalWellStored(Admit(p, s.trusted, op.record).value);
    }
    if op.Purge? {
      var i := IndexOf(s.records, op.id);
      if i < |s.records| {
        PurgeWellStored(s.records[i]);
      }
    }
  }

  lemma {:induction false} RunValid(p: Platform, wire: bool, s: Vault, ops: seq<Op>)
    requires Lawful(p) && Valid(s)
    ensures Valid(Run(p, wire, s, ops).0)
    decreases ops
  {
    if ops != [] {
      StepValid(p, wire, s, ops[0]);
      RunValid(p, wire, Step(p, wire, s, ops[0]).0, ops[1..]);
    }
  }
}
