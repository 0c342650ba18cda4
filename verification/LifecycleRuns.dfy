/** Immutability, erasure and no resurrection over every run of the lifecycle. */
module LifecycleRuns {
  import opened Common
  import opened Records
  import opened LineCodec
  import opened LineShape
  import opened Admission
  import opened Checksum
  import opened Lifecycle
  import Json

  // ---------------------------------------------------------------- records only lose originals

  /** The only change an artifact can undergo: a present original becomes its tombstone. */
  predicate EvolvedArtifact(a: Artifact, b: Artifact) {
    b == a || b == Tombstone(a)
  }

  predicate Evolved(r: Record, s: Record) {
    s.capsuleId == r.capsuleId && s.capsule == r.capsule && s.envelope == r.envelope &&
    |s.artifacts| == |r.artifacts| &&
    forall i | 0 <= i < |r.artifacts| :: EvolvedArtifact(r.artifacts[i], s.artifacts[i])
  }

  predicate AllEvolved(rs: seq<Record>, ss: seq<Record>) {
    |rs| <= |ss| && forall i | 0 <= i < |rs| :: Evolved(rs[i], ss[i])
  }

  lemma EvolvedTransitive(r: Record, s: Record, t: Record)
    requires Evolved(r, s) && Evolved(s, t)
    ensures Evolved(r, t)
  {
    forall i | 0 <= i < |r.artifacts| ensures EvolvedArtifact(r.artifacts[i], t.artifacts[i]) {
      assert EvolvedArtifact(r.artifacts[i], s.artifacts[i]) && EvolvedArtifact(s.artifacts[i], t.artifacts[i]);
    }
  }

  lemma PutEvolves(p: Platform, wire: bool, s: Vault, q: Record)
    ensures AllEvolved(s.records, PutAdmitted(p, wire, s, q).0.records)
    ensures s.ready ==> PutAdmitted(p, wire, s, q).0.ready
  {
  }

  lemma PurgeEvolves(records: seq<Record>, k: nat)
    requires k < |records|
    ensures AllEvolved(records, records[k := Records.Purge(records[k])])
  {
  }

  lemma StepEvolves(p: Platform, wire: bool, s: Vault, op: Op)
    ensures AllEvolved(s.records, Step(p, wire, s, op).0.records)
    ensures s.ready ==> Step(p, wire, s, op).0.ready
  {
    match op
    case Put(r) =>
      if Admit(p, s.trusted, r).Ok? {
        PutEvolves(p, wire, s, Admit(p, s.trusted, r).value);
      }
    case Purge(id) =>
      if IndexOf(s.records, id) < |s.records| {
        PurgeEvolves(s.records, IndexOf(s.records, id));
      }
    case _ =>
  }

  /**
   * Over any run records are never removed, reordered or replaced: each one keeps its place and
   * only loses originals.
   */
  lemma {:induction false} RunEvolves(p: Platform, wire: bool, s: Vault, ops: seq<Op>)
    ensures AllEvolved(s.records, Run(p, wire, s, ops).0.records)
    ensures s.ready ==> Run(p, wire, s, ops).0.ready
    decreases ops
  {
    if ops != [] {
      var next := Step(p, wire, s, ops[0]).0;
      var last := Run(p, wire, next, ops[1..]).0;
      StepEvolves(p, wire, s, ops[0]);
      RunEvolves(p, wire, next, ops[1..]);
      forall i | 0 <= i < |s.records| ensures Evolved(s.records[i], last.records[i]) {
        EvolvedTransitive(s.records[i], next.records[i], last.records[i]);
      }
    }
  }

  lemma EvolvedKeepsChecksum(p: Platform, r: Record, s: Record)
    requires Evolved(r, s)
    ensures StorageChecksum(p, s) == StorageChecksum(p, r)
  {
    forall i | 0 <= i < |r.artifacts| ensures Commitment(s.artifacts[i]) == Commitment(r.artifacts[i]) {
      assert EvolvedArtifact(r.artifacts[i], s.artifacts[i]);
    }
    assert Commitments(s.artifacts) == Commitments(r.artifacts);
  }

  /**
   * Once stored, always committed: after any run a record still stands at its place with the same
   * checksum; what was purged or never retained is exactly as it was, and what was present is either
   * byte-equal or a tombstone of the same hash.
   */
  lemma NoResurrection(p: Platform, wire: bool, s: Vault, ops: seq<Op>, k: nat, i: nat)
    requires k < |s.records| && i < |s.records[k].artifacts|
    ensures var later := Run(p, wire, s, ops).0.records;
            k < |later| && later[k].capsuleId == s.records[k].capsuleId &&
            StorageChecksum(p, later[k]) == StorageChecksum(p, s.records[k]) &&
            i < |later[k].artifacts| &&
            var (a, b) := (s.records[k].artifacts[i], later[k].artifacts[i]);
            (a.state != Present ==> b == a) &&
            (a.state == Present ==> b == a || b == Artifact(a.name, a.binding, None, Purged, a.sha))
  {
    RunEvolves(p, wire, s, ops);
    var later := Run(p, wire, s, ops).0.records;
    assert Evolved(s.records[k], later[k]);
    EvolvedKeepsChecksum(p, s.records[k], later[k]);
    assert EvolvedArtifact(s.records[k].artifacts[i], later[k].artifacts[i]);
  }

  // ---------------------------------------------------------------- a stored record stays readable

  /** A present artifact whose empty content the wire form has dropped. */
  predicate IsHole(a: Artifact) {
    a.state == Present && a.content == None
  }

  predicate HasHole(artifacts: seq<Artifact>) {
    exists i | 0 <= i < |artifacts| :: IsHole(artifacts[i])
  }

  lemma EvolvedChecks(p: Platform, capsule: map<string, Json.Value>, a: Artifact, wire: bool, b: Artifact)
    requires Acceptable(p, capsule, a) && StoredArtifact(a)
    requires EvolvedArtifact(if wire then NormalArtifact(a) else a, b)
    ensures b.name == a.name
    ensures CheckArtifact(p, capsule, b).Ok? <==> !IsHole(b)
    ensures IsHole(b) ==> CheckArtifact(p, capsule, b) == Err(Invalid)
  {
    NormalStored(a);
    TombstoneChecks(p, capsule, a);
    var committed := if a.binding == Unbound then Ok("") else DigestAt(capsule, a.binding);
    assert CheckArtifact(p, capsule, b) == CheckState(p, capsule, b, committed.value);
  }

  lemma {:induction false} OnlyInvalid(p: Platform, capsule: map<string, Json.Value>, artifacts: seq<Artifact>)
    requires forall i | 0 <= i < |artifacts| ::
               CheckArtifact(p, capsule, artifacts[i]) in {Err(Invalid)} || CheckArtifact(p, capsule, artifacts[i]).Ok?
    ensures CheckArtifacts(p, capsule, artifacts).Err? ==> CheckArtifacts(p, capsule, artifacts) == Err(Invalid)
  {
    if artifacts != [] {
      OnlyInvalid(p, capsule, artifacts[..|artifacts| - 1]);
    }
  }

  lemma KeptChecksum(p: Platform, q: Record, wire: bool, now: Record)
    requires WellStored(q) && Evolved(Kept(wire, q), now)
    ensures StorageChecksum(p, now) == StorageChecksum(p, q)
  {
    var kept := Kept(wire, q);
    EvolvedKeepsChecksum(p, kept, now);
    forall i | 0 <= i < |q.artifacts| ensures Commitment(kept.artifacts[i]) == Commitment(q.artifacts[i]) {
      NormalStored(q.artifacts[i]);
    }
    assert Commitments(kept.artifacts) == Commitments(q.artifacts);
  }

  /**
   * A record that verified when it was admitted verifies forever after under the same keys, except
   * for a hole until that is purged.
   */
  lemma StillVerifies(p: Platform, trusted: seq<string>, q: Record, wire: bool, now: Record)
    requires WellStored(q) && Verify(p, q, trusted).Ok?
    requires Evolved(Kept(wire, q), now)
    ensures Verify(p, now, trusted).Ok? <==> !HasHole(now.artifacts)
    ensures HasHole(now.artifacts) ==> Verify(p, now, trusted) == Err(Invalid)
    ensures StorageChecksum(p, now) == StorageChecksum(p, q)
  {
    VerifyExact(p, q, trusted);
    var capsule := Authenticate(p, q, trusted).value;
    assert Authenticate(p, now, trusted) == Ok(capsule);
    ArtifactsLater(p, capsule, q, wire, now);
    KeptChecksum(p, q, wire, now);
  }

  /** The artifacts of an admitted record check later unless there is a hole, which is all they can be refused for. */
  lemma ArtifactsLater(p: Platform, capsule: map<string, Json.Value>, q: Record, wire: bool, now: Record)
    requires WellStored(q) && Evolved(Kept(wire, q), now)
    requires forall i | 0 <= i < |q.artifacts| :: Acceptable(p, capsule, q.artifacts[i])
    ensures CheckArtifacts(p, capsule, now.artifacts).Ok? <==> !HasHole(now.artifacts)
    ensures HasHole(now.artifacts) ==> CheckArtifacts(p, capsule, now.artifacts) == Err(Invalid)
  {
    forall i | 0 <= i < |q.artifacts|
      ensures now.artifacts[i].name == q.artifacts[i].name
      ensures CheckArtifact(p, capsule, now.artifacts[i]).Ok? <==> !IsHole(now.artifacts[i])
      ensures IsHole(now.artifacts[i]) ==> CheckArtifact(p, capsule, now.artifacts[i]) == Err(Invalid)
    {
      assert EvolvedArtifact(Kept(wire, q).artifacts[i], now.artifacts[i]);
      EvolvedChecks(p, capsule, q.artifacts[i], wire, now.artifacts[i]);
    }
    OnlyInvalid(p, capsule, now.artifacts);
    CheckArtifactsExact(p, capsule, now.artifacts);
  }

  // ---------------------------------------------------------------- what a later Get, Put and Purge answer

  /** Everything one Put fixes for the rest of the run. */
  lemma AfterPut(p: Platform, wire: bool, s: Vault, r: Record, ops: seq<Op>)
    returns (k: nat, q: Record, now: Record, later: Vault)
    requires Lawful(p) && Valid(s) && s.ready
    requires Admit(p, s.trusted, r).Ok? && IndexOf(s.records, r.capsuleId) == |s.records|
    ensures k == |s.records| && q == Admit(p, s.trusted, r).value && q.capsuleId == r.capsuleId
    ensures Step(p, wire, s, Put(r)).1 == Done
    ensures later == Run(p, wire, Step(p, wire, s, Put(r)).0, ops).0
    ensures Valid(later) && later.ready && k < |later.records| && now == later.records[k]
    ensures IndexOf(later.records, r.capsuleId) == k
    ensures WellStored(q) && Evolved(Kept(wire, q), now)
  {
    k := |s.records|;
    q := PutAppends(p, wire, s, r);
    now, later := AfterRun(p, wire, s.(records := s.records + [Kept(wire, q)]), ops, k);
  }

  /** The first Put of an ID appends its record. */
  lemma PutAppends(p: Platform, wire: bool, s: Vault, r: Record) returns (q: Record)
    requires Lawful(p) && Valid(s) && s.ready
    requires Admit(p, s.trusted, r).Ok? && IndexOf(s.records, r.capsuleId) == |s.records|
    ensures q == Admit(p, s.trusted, r).value && q.capsuleId == r.capsuleId && WellStored(q)
    ensures Step(p, wire, s, Put(r)) == (s.(records := s.records + [Kept(wire, q)]), Done)
    ensures Valid(s.(records := s.records + [Kept(wire, q)]))
  {
    q := Admit(p, s.trusted, r).value;
    AdmittedIsStored(p, s.trusted, r);
    StepValid(p, wire, s, Put(r));
    PutAgain(p, wire, s, r, q);
  }

  /** Through any run a stored record keeps its position and its ID. */
  lemma AfterRun(p: Platform, wire: bool, s: Vault, ops: seq<Op>, k: nat) returns (now: Record, later: Vault)
    requires Lawful(p) && Valid(s) && s.ready && k < |s.records|
    ensures later == Run(p, wire, s, ops).0
    ensures Valid(later) && later.ready && k < |later.records| && now == later.records[k]
    ensures IndexOf(later.records, s.records[k].capsuleId) == k
    ensures Evolved(s.records[k], now)
  {
    later := Run(p, wire, s, ops).0;
    RunValid(p, wire, s, ops);
    RunEvolves(p, wire, s, ops);
    now := later.records[k];
    assert Evolved(s.records[k], now);
    assert now.capsuleId == s.records[k].capsuleId;
  }

  /** The envelope of the record is signed by one of these keys. */
  predicate SignedBy(p: Platform, r: Record, keys: seq<string>) {
    var key := p.envelopeKey(r.capsuleId, r.envelope);
    key.Some? && Authorized(keys, key.value)
  }

  /** Of an admitted record, other keys can only refuse the signer. */
  lemma UnderOtherKeys(p: Platform, trusted: seq<string>, r: Record, keys: seq<string>)
    requires Admit(p, trusted, r).Ok?
    ensures Admit(p, keys, r) == if SignedBy(p, r, keys) then Admit(p, trusted, r) else Err(UntrustedSigner)
  {
    var q := Prepare(p, r).value;
    SignerDecides(p, trusted, q, keys);
    assert Verify(p, q, trusted).Ok?;
  }

  /** What authenticates under some keys authenticates under others exactly when they include its signer. */
  lemma SignerDecides(p: Platform, trusted: seq<string>, q: Record, keys: seq<string>)
    requires Authenticate(p, q, trusted).Ok?
    ensures Authenticate(p, q, keys) ==
            if SignedBy(p, q, keys) then Authenticate(p, q, trusted) else Err(UntrustedSigner)
  {
  }

  /**
   * A byte-identical retry after any run changes nothing. If the store then trusts the signer it
   * succeeds exactly when no artifact has been purged; an original lost to omitempty makes it invalid
   * instead.
   */
  lemma RetryExact(p: Platform, wire: bool, s: Vault, r: Record, ops: seq<Op>)
    requires Lawful(p) && Valid(s) && s.ready
    requires Admit(p, s.trusted, r).Ok? && IndexOf(s.records, r.capsuleId) == |s.records|
    ensures var later := Run(p, wire, Step(p, wire, s, Put(r)).0, ops).0;
            |s.records| < |later.records| &&
            var now := later.records[|s.records|].artifacts;
            Step(p, wire, later, Put(r)) ==
            (later, if !SignedBy(p, r, later.trusted) then Refused(UntrustedSigner)
                    else if HasHole(now) then Refused(Invalid)
                    else if AnyPurged(now) then Refused(OriginalsPurged)
                    else Done)
  {
    var k, q, now, later := AfterPut(p, wire, s, r, ops);
    UnderOtherKeys(p, s.trusted, r, later.trusted);
    if SignedBy(p, r, later.trusted) {
      RetryOn(p, wire, later, r, q, now);
    }
  }

  lemma RetryOn(p: Platform, wire: bool, s: Vault, r: Record, q: Record, now: Record)
    requires Lawful(p) && Admit(p, s.trusted, r) == Ok(q) && WellStored(q) && q.capsuleId == r.capsuleId
    requires IndexOf(s.records, r.capsuleId) < |s.records| && now == s.records[IndexOf(s.records, r.capsuleId)]
    requires Evolved(Kept(wire, q), now)
    ensures Step(p, wire, s, Put(r)) ==
            (s, if HasHole(now.artifacts) then Refused(Invalid)
                else if AnyPurged(now.artifacts) then Refused(OriginalsPurged)
                else Done)
  {
    RetryAnswer(p, s.trusted, q, wire, now);
    PutAdmittedExisting(p, wire, s, q);
    PutAgain(p, wire, s, r, q);
  }

  lemma RetryAnswer(p: Platform, trusted: seq<string>, q: Record, wire: bool, now: Record)
    requires Lawful(p) && WellStored(q) && Verify(p, q, trusted).Ok? && Evolved(Kept(wire, q), now)
    ensures Retry(p, trusted, now, q) ==
            if HasHole(now.artifacts) then Refused(Invalid)
            else if AnyPurged(now.artifacts) then Refused(OriginalsPurged)
            else Done
  {
    StillVerifies(p, trusted, q, wire, now);
    StoredChecksum(p, q);
  }

  lemma PutAgain(p: Platform, wire: bool, s: Vault, r: Record, q: Record)
    requires Admit(p, s.trusted, r) == Ok(q)
    ensures Step(p, wire, s, Put(r)) == PutAdmitted(p, wire, s, q)
  {
  }

  lemma GetAt(p: Platform, wire: bool, s: Vault, id: string)
    requires IsDigest(id) && IndexOf(s.records, id) < |s.records|
    ensures Step(p, wire, s, Get(id)) ==
            (s, match Verify(p, s.records[IndexOf(s.records, id)], s.trusted)
                case Err(e) => Refused(e)
                case Ok(_) => Returned(s.records[IndexOf(s.records, id)]))
  {
  }

  /**
   * After any run Get returns the record as it has evolved, unless the store no longer trusts its
   * signer or it has a hole.
   */
  lemma GetExact(p: Platform, wire: bool, s: Vault, r: Record, ops: seq<Op>)
    requires Lawful(p) && Valid(s) && s.ready
    requires Admit(p, s.trusted, r).Ok? && IndexOf(s.records, r.capsuleId) == |s.records|
    ensures var later := Run(p, wire, Step(p, wire, s, Put(r)).0, ops).0;
            |s.records| < |later.records| &&
            var now := later.records[|s.records|];
            Evolved(Kept(wire, Admit(p, s.trusted, r).value), now) &&
            Step(p, wire, later, Get(r.capsuleId)) ==
            (later, if !SignedBy(p, r, later.trusted) then Refused(UntrustedSigner)
                    else if HasHole(now.artifacts) then Refused(Invalid)
                    else Returned(now))
  {
    var k, q, now, later := AfterPut(p, wire, s, r, ops);
    VerifiesLater(p, s.trusted, r, q, wire, now, later.trusted);
    GetAt(p, wire, later, r.capsuleId);
  }

  lemma VerifiesLater(p: Platform, trusted: seq<string>, r: Record, q: Record, wire: bool, now: Record,
                      keys: seq<string>)
    requires Admit(p, trusted, r) == Ok(q) && WellStored(q) && Evolved(Kept(wire, q), now)
    ensures Verify(p, now, keys).Ok? <==> SignedBy(p, r, keys) && !HasHole(now.artifacts)
    ensures !SignedBy(p, r, keys) ==> Verify(p, now, keys) == Err(UntrustedSigner)
    ensures SignedBy(p, r, keys) && HasHole(now.artifacts) ==> Verify(p, now, keys) == Err(Invalid)
  {
    UnderOtherKeys(p, trusted, r, keys);
    if SignedBy(p, r, keys) {
      StillVerifies(p, keys, q, wire, now);
    } else {
      SignerDecides(p, trusted, q, keys);
      assert Authenticate(p, now, keys) == Authenticate(p, q, keys);
    }
  }

  lemma PutAdmittedExisting(p: Platform, wire: bool, s: Vault, q: Record)
    requires IndexOf(s.records, q.capsuleId) < |s.records|
    ensures var stored := s.records[IndexOf(s.records, q.capsuleId)];
            PutAdmitted(p, wire, s, q) == (s, Retry(p, s.trusted, stored, q)) &&
            (Retry(p, s.trusted, stored, q) == Done ==> StorageChecksum(p, stored) == StorageChecksum(p, q))
  {
  }

  lemma PutExisting(p: Platform, wire: bool, s: Vault, r: Record)
    requires IndexOf(s.records, r.capsuleId) < |s.records|
    ensures var (next, response) := Step(p, wire, s, Put(r));
            next == s &&
            (response == Done ==>
              Admit(p, s.trusted, r).Ok? &&
              StorageChecksum(p, s.records[IndexOf(s.records, r.capsuleId)]) ==
                StorageChecksum(p, Admit(p, s.trusted, r).value))
  {
    if Admit(p, s.trusted, r).Ok? {
      PutAdmittedExisting(p, wire, s, Admit(p, s.trusted, r).value);
    }
  }

  /**
   * The first successful Put of an ID fixes its commitment for good: after any run, under any keys,
   * no later Put of that ID changes anything, and one that reports success commits to the same checksum.
   */
  lemma PutIsFinal(p: Platform, wire: bool, s: Vault, r: Record, ops: seq<Op>, later: Record)
    requires Lawful(p) && Valid(s) && s.ready
    requires Admit(p, s.trusted, r).Ok? && IndexOf(s.records, r.capsuleId) == |s.records|
    requires later.capsuleId == r.capsuleId
    ensures var after := Run(p, wire, Step(p, wire, s, Put(r)).0, ops).0;
            var (next, response) := Step(p, wire, after, Put(later));
            next == after &&
            (response == Done ==>
              Admit(p, after.trusted, later).Ok? &&
              StorageChecksum(p, Admit(p, after.trusted, later).value) ==
                StorageChecksum(p, Admit(p, s.trusted, r).value))
  {
    var k, q, now, after := AfterPut(p, wire, s, r, ops);
    KeptChecksum(p, q, wire, now);
    PutExisting(p, wire, after, later);
  }

  /** Purge erases every present original of its record and nothing else, and repeating it changes nothing. */
  lemma PurgeErases(p: Platform, wire: bool, s: Vault, id: string)
    requires Valid(s) && Step(p, wire, s, Op.Purge(id)).1 == Done
    ensures var next := Step(p, wire, s, Op.Purge(id)).0;
            var k := IndexOf(s.records, id);
            k < |s.records| && |next.records| == |s.records| &&
            (forall j | 0 <= j < |s.records| && j != k :: next.records[j] == s.records[j]) &&
            next.records[k].capsuleId == id &&
            (forall i | 0 <= i < |next.records[k].artifacts| ::
              next.records[k].artifacts[i].content == None && next.records[k].artifacts[i].state != Present) &&
            Step(p, wire, next, Op.Purge(id)) == (next, Done)
  {
    var next := Step(p, wire, s, Op.Purge(id)).0;
    var k := IndexOf(s.records, id);
    assert IndexOf(next.records, id) == k;
    assert Records.Purge(next.records[k]) == next.records[k] by {
      assert Tombstones(next.records[k].artifacts) == next.records[k].artifacts;
    }
    assert next.records[k := next.records[k]] == next.records;
  }

  /** No record is stored under this ID. */
  predicate Unknown(s: Vault, id: string) {
    forall i | 0 <= i < |s.records| :: s.records[i].capsuleId != id
  }

  lemma UnknownIndex(s: Vault, id: string)
    ensures Unknown(s, id) <==> IndexOf(s.records, id) == |s.records|
  {
  }

  /** Get and Purge refuse a malformed ID as invalid and an unknown one as not found; Purge refuses nothing else. */
  lemma RefusesIds(p: Platform, wire: bool, s: Vault, id: string)
    ensures !IsDigest(id) ==>
              Step(p, wire, s, Get(id)) == (s, Refused(Invalid)) &&
                Step(p, wire, s, Op.Purge(id)) == (s, Refused(Invalid))
    ensures IsDigest(id) && Unknown(s, id) ==>
              Step(p, wire, s, Get(id)) == (s, Refused(NotFound)) &&
                Step(p, wire, s, Op.Purge(id)) == (s, Refused(NotFound))
    ensures IsDigest(id) && !Unknown(s, id) ==> Step(p, wire, s, Op.Purge(id)).1 == Done
  {
    UnknownIndex(s, id);
  }

  /** The record is stored, under keys that trust its signer, without a lost original. */
  predicate StoredWhole(p: Platform, wire: bool, s: Vault, q: Record) {
    Admit(p, s.trusted, q) == Ok(q) && IndexOf(s.records, q.capsuleId) < |s.records| &&
    s.records[IndexOf(s.records, q.capsuleId)] == q && Kept(wire, q) == q
  }

  /**
   * Once the record has been purged a retry of its Put is refused because originals were purged, if it
   * had any; before that, and if it had none, the retry succeeds.
   */
  lemma PurgeBlocksRetry(p: Platform, wire: bool, s: Vault, q: Record)
    requires Lawful(p) && Valid(s) && StoredWhole(p, wire, s, q)
    ensures Step(p, wire, s, Put(q)) == (s, Done)
    ensures var (purged, answer) := Step(p, wire, s, Op.Purge(q.capsuleId));
            answer == Done &&
            Step(p, wire, purged, Put(q)).1 ==
            if exists i | 0 <= i < |q.artifacts| :: q.artifacts[i].state == Present
            then Refused(OriginalsPurged) else Done
  {
    AdmittedIsStored(p, s.trusted, q);
    NoneHollow(p, s.trusted, q);
    EvolvedSelf(q);
    PurgedStates(q);
    RetryOn(p, wire, s, q, q, q);
    var purged := PurgedVault(p, wire, s, q);
    RetryOn(p, wire, purged, q, q, Records.Purge(q));
  }

  lemma PurgedVault(p: Platform, wire: bool, s: Vault, q: Record) returns (purged: Vault)
    requires WellStored(q) && IndexOf(s.records, q.capsuleId) < |s.records|
    requires s.records[IndexOf(s.records, q.capsuleId)] == q
    ensures Step(p, wire, s, Op.Purge(q.capsuleId)) == (purged, Done) && purged.trusted == s.trusted
    ensures IndexOf(purged.records, q.capsuleId) < |purged.records|
    ensures purged.records[IndexOf(purged.records, q.capsuleId)] == Records.Purge(q)
  {
    var k := IndexOf(s.records, q.capsuleId);
    purged := s.(records := s.records[k := Records.Purge(q)]);
    SameIndex(s.records, k, Records.Purge(q));
  }

  lemma EvolvedSelf(q: Record)
    ensures Evolved(q, q) && Evolved(q, Records.Purge(q))
  {
  }

  lemma SameIndex(records: seq<Record>, k: nat, r: Record)
    requires k < |records| && k == IndexOf(records, r.capsuleId)
    ensures IndexOf(records[k := r], r.capsuleId) == k
  {
    var after := records[k := r];
    assert after[k].capsuleId == r.capsuleId;
    assert forall j | 0 <= j < k :: after[j] == records[j];
  }

  lemma PurgedStates(q: Record)
    requires forall i | 0 <= i < |q.artifacts| :: q.artifacts[i].state != Purged
    ensures !AnyPurged(q.artifacts)
    ensures AnyPurged(Records.Purge(q).artifacts) <==> exists i | 0 <= i < |q.artifacts| ::
            q.artifacts[i].state == Present
  {
    var t := Records.Purge(q).artifacts;
    assert forall i | 0 <= i < |q.artifacts| :: t[i].state == Purged <==> q.artifacts[i].state == Present;
    if i :| 0 <= i < |t| && t[i].state == Purged {
      assert q.artifacts[i].state == Present;
    }
    if i :| 0 <= i < |q.artifacts| && q.artifacts[i].state == Present {
      assert t[i].state == Purged;
    }
  }

  /** What verifies has no hole, and Put admits no tombstone. */
  lemma NoneHollow(p: Platform, trusted: seq<string>, q: Record)
    requires Lawful(p) && Admit(p, trusted, q) == Ok(q)
    ensures !HasHole(q.artifacts) && !HasHole(Records.Purge(q).artifacts)
    ensures forall i | 0 <= i < |q.artifacts| :: q.artifacts[i].state != Purged
  {
    PrepareArtifactsExact(p, q.artifacts);
    VerifyExact(p, q, trusted);
    NoHoles(p, Authenticate(p, q, trusted).value, q);
  }

  lemma NoHoles(p: Platform, capsule: map<string, Json.Value>, q: Record)
    requires forall i | 0 <= i < |q.artifacts| :: Acceptable(p, capsule, q.artifacts[i])
    ensures !HasHole(q.artifacts) && !HasHole(Records.Purge(q).artifacts)
  {
    forall i | 0 <= i < |q.artifacts| ensures !IsHole(q.artifacts[i]) {
      assert Acceptable(p, capsule, q.artifacts[i]);
    }
  }

  /** Why a Put over a stored ID is refused, in the order of the checks. */
  lemma RetryRefuses(p: Platform, trusted: seq<string>, stored: Record, q: Record)
    ensures Verify(p, stored, trusted).Err? ==>
            Retry(p, trusted, stored, q) == Refused(Verify(p, stored, trusted).error)
    ensures Verify(p, stored, trusted).Ok? && StorageChecksum(p, stored).Ok? &&
            StorageChecksum(p, stored) != StorageChecksum(p, q) ==>
              Retry(p, trusted, stored, q) == Refused(Conflict)
    ensures Verify(p, stored, trusted).Ok? && StorageChecksum(p, stored).Ok? &&
            StorageChecksum(p, stored) == StorageChecksum(p, q) &&
            (exists i | 0 <= i < |stored.artifacts| :: stored.artifacts[i].state == Purged) ==>
              Retry(p, trusted, stored, q) == Refused(OriginalsPurged)
  {
  }
}
