/** What a SQL read can return from damaged rows, and the lifecycle the tables implement. */
module SqlProperties {
  import opened Common
  import opened Records
  import opened LineCodec
  import opened LineShape
  import opened Admission
  import opened Checksum
  import opened Lifecycle
  import opened SqlStore
  import Json

  // ---------------------------------------------------------------- fail closed

  /** The hash does not confuse the content of two artifacts of the same name. */
  predicate ContentsApart(p: Platform, s: seq<Artifact>, t: seq<Artifact>) {
    forall i, j | 0 <= i < |s| && 0 <= j < |t| && s[i].name == t[j].name ::
      NoCollision(p, ContentBytes(s[i]), ContentBytes(t[j]))
  }

  /** What damage can leave of an original without being noticed: the original itself or its tombstone. */
  predicate Survives(original: Artifact, read: Artifact) {
    read == original || read == Tombstone(original)
  }

  lemma AcceptedIsCanonical(p: Platform, capsule: map<string, Json.Value>, a: Artifact)
    requires Acceptable(p, capsule, a)
    ensures IsCanonical(a)
    ensures a.state == Present ==> a.content.Some? && (a.sha == "" || a.sha == p.sha256(a.content.value))
    ensures a.state != Present ==> a.content == None
    ensures a.state in {Present, Purged, NeverRetained}
  {
    if a.binding != Unbound {
      assert DigestAt(capsule, a.binding).Ok? && IsDigestField(a.binding);
    }
    StateRoundTrip(a.state);
    BindingRoundTrip(a.binding);
  }

  /** Two artifacts with the same name and declaration, the original prepared, the other accepted. */
  lemma SurvivorOf(p: Platform, capsule: map<string, Json.Value>, original: Artifact, read: Artifact)
    requires Lawful(p) && StoredArtifact(original) && IsPrepared(p, original)
    requires original.state == Present ==> original.content.Some?
    requires Acceptable(p, capsule, read) && read.name == original.name && DeclaredOf(read) == DeclaredOf(original)
    requires NoCollision(p, ContentBytes(original), ContentBytes(read))
    ensures Survives(original, read)
  {
    AcceptedIsCanonical(p, capsule, read);
  }

  lemma Counterpart(s: seq<Artifact>, t: seq<Artifact>, i: nat) returns (j: nat)
    requires DistinctNames(s) && DistinctNames(t) && Inventory(s) == Inventory(t) && i < |s|
    ensures j < |t| && t[j].name == s[i].name && DeclaredOf(t[j]) == DeclaredOf(s[i])
  {
    InventoryMembers(s);
    InventoryMembers(t);
    assert s[i].name in Inventory(t);
    j :| 0 <= j < |t| && t[j].name == s[i].name;
    assert Inventory(t)[t[j].name] == DeclaredOf(t[j]);
  }

  lemma AdmittedIsPrepared(p: Platform, trusted: seq<string>, put: Record)
    requires Lawful(p) && Admit(p, trusted, put).Ok?
    ensures forall i | 0 <= i < |Admit(p, trusted, put).value.artifacts| ::
              var a := Admit(p, trusted, put).value.artifacts[i];
              IsPrepared(p, a) && (a.state == Present ==> a.content.Some?)
  {
    var q := Admit(p, trusted, put).value;
    PrepareArtifactsExact(p, put.artifacts);
    VerifyExact(p, q, trusted);
    forall i | 0 <= i < |q.artifacts| ensures q.artifacts[i].state == Present ==> q.artifacts[i].content.Some? {
      AcceptedIsCanonical(p, Authenticate(p, q, trusted).value, q.artifacts[i]);
    }
  }

  lemma AdmittedFields(p: Platform, trusted: seq<string>, put: Record)
    requires Lawful(p) && Admit(p, trusted, put).Ok?
    ensures var q := Admit(p, trusted, put).value;
            q.capsuleId == put.capsuleId && WellStored(q) && CanonicalFields(q.artifacts) && StorageChecksum(p, q).Ok?
  {
    AdmittedIsStored(p, trusted, put);
    var q := Admit(p, trusted, put).value;
    forall i | 0 <= i < |q.artifacts| ensures IsCanonical(q.artifacts[i]) {
      NormalStored(q.artifacts[i]);
    }
  }

  lemma ReadFields(p: Platform, trusted: seq<string>, namespace: string, t: Tables, id: string, r: Record)
    requires ReadRecord(p, trusted, namespace, t, id) == Ok(r)
    ensures r.capsuleId == id && (namespace, id) in t.capsules &&
            StorageChecksum(p, r) == Ok(t.capsules[(namespace, id)].sum)
    ensures DistinctNames(r.artifacts) && CanonicalFields(r.artifacts)
    ensures Authenticate(p, r, trusted).Ok? &&
            forall j | 0 <= j < |r.artifacts| :: Acceptable(p, Authenticate(p, r, trusted).value, r.artifacts[j])
  {
    VerifyExact(p, r, trusted);
    var capsule := Authenticate(p, r, trusted).value;
    forall j | 0 <= j < |r.artifacts| ensures IsCanonical(r.artifacts[j]) {
      AcceptedIsCanonical(p, capsule, r.artifacts[j]);
    }
  }

  /**
   * Fail closed: if only the stored checksum of the put record q is intact and every other column and
   * row is arbitrary, a read that succeeds returns the original Capsule, envelope and inventory.
   */
  lemma ReadKeepsCommitment(p: Platform, admitting: seq<string>, put: Record, q: Record, trusted: seq<string>,
                            namespace: string, t: Tables, r: Record)
    requires Lawful(p) && Admit(p, admitting, put) == Ok(q)
    requires ReadRecord(p, trusted, namespace, t, put.capsuleId) == Ok(r)
    requires StorageChecksum(p, q) == Ok(t.capsules[(namespace, put.capsuleId)].sum)
    requires NoCollision(p, Line(Preimage(p, q)), Line(Preimage(p, r)))
    ensures r.capsuleId == q.capsuleId && r.capsule == q.capsule && r.envelope == q.envelope
    ensures Inventory(q.artifacts) == Inventory(r.artifacts) && DistinctNames(r.artifacts)
  {
    AdmittedFields(p, admitting, put);
    ReadFields(p, trusted, namespace, t, put.capsuleId, r);
    ChecksumCanonical(p, q, r);
  }

  /** Every original is read back, byte-equal or as its tombstone. */
  lemma ReadLosesNothing(p: Platform, admitting: seq<string>, put: Record, q: Record, trusted: seq<string>,
                         namespace: string, t: Tables, r: Record, i: nat) returns (j: nat)
    requires Lawful(p) && Admit(p, admitting, put) == Ok(q)
    requires ReadRecord(p, trusted, namespace, t, put.capsuleId) == Ok(r)
    requires StorageChecksum(p, q) == Ok(t.capsules[(namespace, put.capsuleId)].sum)
    requires NoCollision(p, Line(Preimage(p, q)), Line(Preimage(p, r))) && ContentsApart(p, q.artifacts, r.artifacts)
    requires i < |q.artifacts|
    ensures j < |r.artifacts| && r.artifacts[j].name == q.artifacts[i].name && Survives(q.artifacts[i], r.artifacts[j])
  {
    AdmittedFields(p, admitting, put);
    AdmittedIsPrepared(p, admitting, put);
    ReadFields(p, trusted, namespace, t, put.capsuleId, r);
    ReadKeepsCommitment(p, admitting, put, q, trusted, namespace, t, r);
    j := Counterpart(q.artifacts, r.artifacts, i);
    SurvivorOf(p, Authenticate(p, r, trusted).value, q.artifacts[i], r.artifacts[j]);
  }

  /** Nothing else is read back: whatever is returned is an original or its tombstone. */
  lemma ReadInventsNothing(p: Platform, admitting: seq<string>, put: Record, q: Record, trusted: seq<string>,
                           namespace: string, t: Tables, r: Record, j: nat) returns (i: nat)
    requires Lawful(p) && Admit(p, admitting, put) == Ok(q)
    requires ReadRecord(p, trusted, namespace, t, put.capsuleId) == Ok(r)
    requires StorageChecksum(p, q) == Ok(t.capsules[(namespace, put.capsuleId)].sum)
    requires NoCollision(p, Line(Preimage(p, q)), Line(Preimage(p, r))) && ContentsApart(p, q.artifacts, r.artifacts)
    requires j < |r.artifacts|
    ensures i < |q.artifacts| && q.artifacts[i].name == r.artifacts[j].name && Survives(q.artifacts[i], r.artifacts[j])
  {
    AdmittedFields(p, admitting, put);
    ReadFields(p, trusted, namespace, t, put.capsuleId, r);
    ReadKeepsCommitment(p, admitting, put, q, trusted, namespace, t, r);
    i := Counterpart(r.artifacts, q.artifacts, j);
    var k := ReadLosesNothing(p, admitting, put, q, trusted, namespace, t, r, i);
    assert k == j;
  }

  /** A record that is read has its artifacts in ascending order of their names. */
  lemma ReadInOrder(p: Platform, trusted: seq<string>, namespace: string, t: Tables, id: string, r: Record)
    requires Lawful(p) && ReadRecord(p, trusted, namespace, t, id) == Ok(r)
    ensures InNameOrder(r.artifacts)
  {
    ReadFields(p, trusted, namespace, t, id, r);
    ReadSorted(p, trusted, namespace, t, id, r);
    NameOrderExact(r.artifacts);
  }

  lemma ReadSorted(p: Platform, trusted: seq<string>, namespace: string, t: Tables, id: string, r: Record)
    requires SortsByName(p.orderBy) && ReadRecord(p, trusted, namespace, t, id) == Ok(r)
    ensures SortedByName(r.artifacts)
  {
    assert r.artifacts == p.orderBy(Select(t.artifacts, namespace, id));
  }

  // ---------------------------------------------------------------- the keys of the tables

  /** The primary key of the artifact rows, and their reference to a Capsule row. */
  predicate KeysHold(t: Tables) {
    (forall i, j | 0 <= i < j < |t.artifacts| :: !SameKey(t.artifacts[i], t.artifacts[j])) &&
    forall i | 0 <= i < |t.artifacts| :: (t.artifacts[i].namespace, t.artifacts[i].id) in t.capsules
  }

  predicate SameKey(a: ArtifactRow, b: ArtifactRow) {
    a.namespace == b.namespace && a.id == b.id && a.artifact.name == b.artifact.name
  }

  lemma {:induction false} Selected(rows: seq<ArtifactRow>, i: nat)
    requires i < |rows|
    ensures rows[i].artifact.name in Names(Select(rows, rows[i].namespace, rows[i].id))
  {
    var n := |rows| - 1;
    var before := Select(rows[..n], rows[i].namespace, rows[i].id);
    if i < n {
      Selected(rows[..n], i);
      var k :| 0 <= k < |before| && Names(before)[k] == rows[i].artifact.name;
      assert Select(rows, rows[i].namespace, rows[i].id)[k] == before[k];
      assert Names(Select(rows, rows[i].namespace, rows[i].id))[k] == rows[i].artifact.name;
    } else {
      var all := Select(rows, rows[i].namespace, rows[i].id);
      assert Names(all)[|before|] == rows[i].artifact.name;
    }
  }

  /** Whatever rows there are, an insertion that succeeds breaks no key. */
  lemma InsertKeepsKeys(t: Tables, namespace: string, id: string, a: Artifact)
    requires KeysHold(t) && InsertArtifact(t, namespace, id, a).Ok?
    ensures KeysHold(InsertArtifact(t, namespace, id, a).value)
  {
    forall i | 0 <= i < |t.artifacts| ensures !SameKey(t.artifacts[i], ArtifactRow(namespace, id, a)) {
      Selected(t.artifacts, i);
    }
  }

  lemma {:induction false} InsertsKeepKeys(t: Tables, namespace: string, id: string, artifacts: seq<Artifact>)
    requires KeysHold(t) && InsertArtifacts(t, namespace, id, artifacts).Ok?
    ensures KeysHold(InsertArtifacts(t, namespace, id, artifacts).value)
  {
    if artifacts != [] {
      var n := |artifacts| - 1;
      InsertsKeepKeys(t, namespace, id, artifacts[..n]);
      InsertKeepsKeys(InsertArtifacts(t, namespace, id, artifacts[..n]).value, namespace, id, artifacts[n]);
    }
  }

  /** The CHECK constraint of the artifact table, purged_at aside. */
  predicate ChecksHold(t: Tables) {
    forall i | 0 <= i < |t.artifacts| :: CheckHolds(t.artifacts[i].artifact)
  }

  predicate CheckHolds(a: Artifact) {
    (a.state == Present && a.content.Some? && |a.sha| == 64) ||
    (a.state == Purged && a.content.None? && |a.sha| == 64) ||
    (a.state == NeverRetained && a.content.None? && a.sha == "")
  }

  lemma {:induction false} InsertsKeepChecks(t: Tables, namespace: string, id: string, artifacts: seq<Artifact>)
    requires ChecksHold(t) && InsertArtifacts(t, namespace, id, artifacts).Ok?
    ensures ChecksHold(InsertArtifacts(t, namespace, id, artifacts).value)
  {
    if artifacts != [] {
      InsertsKeepChecks(t, namespace, id, artifacts[..|artifacts| - 1]);
    }
  }

  /** Whatever rows there are, Put and Purge keep the CHECK constraint. */
  lemma ChecksKept(p: Platform, trusted: seq<string>, namespace: string, t: Tables, q: Record, sum: string, id: string)
    requires ChecksHold(t)
    ensures PutAdmittedRows(p, trusted, namespace, t, q, sum).Ok? ==>
              ChecksHold(PutAdmittedRows(p, trusted, namespace, t, q, sum).value)
    ensures PurgeTables(namespace, t, id).Ok? ==> ChecksHold(PurgeTables(namespace, t, id).value)
  {
    if PutAdmittedRows(p, trusted, namespace, t, q, sum).Ok? && (namespace, q.capsuleId) !in t.capsules {
      InsertsKeepChecks(WithCapsule(t, namespace, q, sum), namespace, q.capsuleId, q.artifacts);
    }
    if PurgeTables(namespace, t, id).Ok? {
      forall i | 0 <= i < |t.artifacts| ensures CheckHolds(PurgeRow(t.artifacts[i], namespace, id).artifact) {
        assert CheckHolds(t.artifacts[i].artifact);
      }
    }
  }

  // ---------------------------------------------------------------- one namespace does not reach into another

  /** What is in other namespaces, or under other IDs, is as it was; rows are only added at the end. */
  ghost predicate OnlyTouches(before: Tables, after: Tables, namespace: string, id: string) {
    |before.artifacts| <= |after.artifacts| &&
    (forall i | 0 <= i < |before.artifacts| ::
      before.artifacts[i].namespace != namespace || before.artifacts[i].id != id ==>
        after.artifacts[i] == before.artifacts[i]) &&
    (forall i | |before.artifacts| <= i < |after.artifacts| ::
      after.artifacts[i].namespace == namespace && after.artifacts[i].id == id) &&
    (forall key | key != (namespace, id) ::
      (key in after.capsules <==> key in before.capsules) &&
      (key in before.capsules && key in after.capsules ==> after.capsules[key] == before.capsules[key]))
  }

  lemma {:induction false} InsertsOnlyTouch(t: Tables, namespace: string, id: string, artifacts: seq<Artifact>)
    requires InsertArtifacts(t, namespace, id, artifacts).Ok?
    ensures OnlyTouches(t, InsertArtifacts(t, namespace, id, artifacts).value, namespace, id)
  {
    if artifacts != [] {
      InsertsOnlyTouch(t, namespace, id, artifacts[..|artifacts| - 1]);
    }
  }

  /** Whatever rows there are, Put and Purge touch nothing but the rows of their ID in their namespace. */
  lemma NamespacesApart(p: Platform, trusted: seq<string>, namespace: string, t: Tables, q: Record, sum: string,
                        id: string)
    ensures PutAdmittedRows(p, trusted, namespace, t, q, sum).Ok? ==>
              OnlyTouches(t, PutAdmittedRows(p, trusted, namespace, t, q, sum).value, namespace, q.capsuleId)
    ensures PurgeTables(namespace, t, id).Ok? ==> OnlyTouches(t, PurgeTables(namespace, t, id).value, namespace, id)
  {
    if PutAdmittedRows(p, trusted, namespace, t, q, sum).Ok? && (namespace, q.capsuleId) !in t.capsules {
      InsertsOnlyTouch(WithCapsule(t, namespace, q, sum), namespace, q.capsuleId, q.artifacts);
    }
  }

  /** A read sees exactly the artifact rows of its ID in its namespace. */
  lemma {:induction false} SelectExact(rows: seq<ArtifactRow>, namespace: string, id: string, a: Artifact)
    ensures a in Select(rows, namespace, id) <==>
            exists i | 0 <= i < |rows| :: rows[i] == ArtifactRow(namespace, id, a)
  {
    if rows != [] {
      var n := |rows| - 1;
      SelectExact(rows[..n], namespace, id, a);
      assert forall i | 0 <= i < n :: rows[..n][i] == rows[i];
      if i :| 0 <= i < |rows| && rows[i] == ArtifactRow(namespace, id, a) {
        assert i < n ==> rows[..n][i] == ArtifactRow(namespace, id, a);
      }
      if a in Select(rows[..n], namespace, id) {
        var i :| 0 <= i < n && rows[..n][i] == ArtifactRow(namespace, id, a);
        assert rows[i] == ArtifactRow(namespace, id, a);
      }
    }
  }

  /** Whatever rows there are, Put and Purge keep both keys of the artifact table. */
  lemma KeysKept(p: Platform, trusted: seq<string>, namespace: string, t: Tables, r: Record, id: string)
    requires KeysHold(t)
    ensures PutRows(p, trusted, namespace, t, r).Ok? ==> KeysHold(PutRows(p, trusted, namespace, t, r).value)
    ensures PurgeTables(namespace, t, id).Ok? ==> KeysHold(PurgeTables(namespace, t, id).value)
  {
    if PutRows(p, trusted, namespace, t, r).Ok? {
      var q := Admit(p, trusted, r).value;
      PutKeepsKeys(p, trusted, namespace, t, q, StorageChecksum(p, q).value);
    }
    if PurgeTables(namespace, t, id).Ok? {
      PurgeKeepsKeys(namespace, t, id);
    }
  }

  lemma PutKeepsKeys(p: Platform, trusted: seq<string>, namespace: string, t: Tables, q: Record, sum: string)
    requires KeysHold(t) && PutAdmittedRows(p, trusted, namespace, t, q, sum).Ok?
    ensures KeysHold(PutAdmittedRows(p, trusted, namespace, t, q, sum).value)
  {
    if (namespace, q.capsuleId) !in t.capsules {
      InsertsKeepKeys(WithCapsule(t, namespace, q, sum), namespace, q.capsuleId, q.artifacts);
    }
  }

  lemma PurgeKeepsKeys(namespace: string, t: Tables, id: string)
    requires KeysHold(t) && PurgeTables(namespace, t, id).Ok?
    ensures KeysHold(PurgeTables(namespace, t, id).value)
  {
    var rows := PurgeRows(t.artifacts, namespace, id);
    forall i, j | 0 <= i < j < |rows| ensures !SameKey(rows[i], rows[j]) {
      assert !SameKey(t.artifacts[i], t.artifacts[j]);
    }
  }

  /** Why a read refuses, in the order of its checks. */
  lemma ReadRefuses(p: Platform, trusted: seq<string>, namespace: string, t: Tables, id: string)
    requires Lawful(p)
    ensures !IsDigest(id) ==> ReadRecord(p, trusted, namespace, t, id) == Err(Invalid)
    ensures IsDigest(id) && (namespace, id) !in t.capsules ==> ReadRecord(p, trusted, namespace, t, id) == Err(NotFound)
    ensures IsDigest(id) && (namespace, id) in t.capsules ==>
              var row := t.capsules[(namespace, id)];
              var r := Record(id, row.capsule, row.envelope, p.orderBy(Select(t.artifacts, namespace, id)));
              match StorageChecksum(p, r)
              case Err(e) => ReadRecord(p, trusted, namespace, t, id) == Err(e)
              case Ok(sum) =>
                (sum != row.sum ==> ReadRecord(p, trusted, namespace, t, id) == Err(Corrupt)) &&
                (sum == row.sum && Verify(p, r, trusted).Err? ==>
                  ReadRecord(p, trusted, namespace, t, id) == Err(Verify(p, r, trusted).error))
  {
  }
}
