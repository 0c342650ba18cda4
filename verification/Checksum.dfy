/** The storage checksum as a canonical form: what it depends on, and what it does not. */
module Checksum {
  import opened Common
  import opened Records
  import opened LineCodec
  import opened LineShape

  /** What the checksum keeps of an artifact: no content, and purged read as present. */
  function Commitment(a: Artifact): Artifact {
    a.(content := None, state := if a.state == Purged then Present else a.state)
  }

  function Commitments(artifacts: seq<Artifact>): (c: seq<Artifact>)
    ensures |c| == |artifacts|
    ensures forall i | 0 <= i < |artifacts| :: c[i] == Commitment(artifacts[i])
  {
    seq(|artifacts|, i requires 0 <= i < |artifacts| => Commitment(artifacts[i]))
  }

  /** The record whose marshalled form is hashed. */
  function Preimage(p: Platform, r: Record): Record {
    r.(artifacts := p.sortSlice(Commitments(r.artifacts)))
  }

  function StorageChecksum(p: Platform, r: Record): Result<string> {
    var data :- Marshal(p, Preimage(p, r));
    Ok(p.sha256(data))
  }

  // ---------------------------------------------------------------- sorting by distinct names has one result

  lemma {:induction false} SortedUnique(s: seq<Artifact>, t: seq<Artifact>)
    requires SortedByName(s) && SortedByName(t) && DistinctNames(s) && DistinctNames(t)
    requires forall a :: a in s <==> a in t
    ensures s == t
  {
    assert (s != [] ==> s[0] in t) && (t != [] ==> t[0] in s);
    if s != [] {
      LessTotal(s[0].name, t[0].name);
      var i :| 0 <= i < |s| && s[i] == t[0];
      var j :| 0 <= j < |t| && t[j] == s[0];
      assert s[0] == t[0];
      assert forall a :: a in s[1..] <==> a in s && a != s[0];
      assert forall a :: a in t[1..] <==> a in t && a != t[0];
      SortedUnique(s[1..], t[1..]);
    }
  }

  lemma SameElements(s: seq<Artifact>, t: seq<Artifact>)
    requires multiset(s) == multiset(t)
    ensures forall a :: a in s <==> a in t
  {
    forall a ensures a in s <==> a in t {
      assert a in s <==> a in multiset(s);
      assert a in t <==> a in multiset(t);
    }
  }

  predicate UniqueName(s: multiset<Artifact>, a: Artifact) {
    s[a] == 1 && forall b | b in s && b.name == a.name :: b == a
  }

  lemma {:induction false} DistinctIsUnique(s: seq<Artifact>)
    requires DistinctNames(s)
    ensures forall a | a in multiset(s) :: UniqueName(multiset(s), a)
  {
    if s != [] {
      var n := |s| - 1;
      var init, last := s[..n], s[n];
      assert s == init + [last];
      assert forall a :: a in multiset(init) <==> a in init;
      DistinctIsUnique(init);
    }
  }

  lemma {:induction false} UniqueIsDistinct(s: seq<Artifact>)
    requires forall a | a in multiset(s) :: UniqueName(multiset(s), a)
    ensures DistinctNames(s)
  {
    forall i, j | 0 <= i < j < |s| ensures s[i].name != s[j].name {
      assert s[i] in multiset(s) && s[j] in multiset(s);
      assert UniqueName(multiset(s), s[i]);
      OnlyOnce(s, i, j);
    }
  }

  /** Distinctness of names survives any permutation. */
  lemma DistinctPermutation(s: seq<Artifact>, t: seq<Artifact>)
    requires multiset(s) == multiset(t) && DistinctNames(s)
    ensures DistinctNames(t)
  {
    DistinctIsUnique(s);
    UniqueIsDistinct(t);
  }

  /** However an unstable sort treats its input, the result is determined by the set of entries. */
  lemma SortsAgree(p: Platform, s: seq<Artifact>, t: seq<Artifact>)
    requires Lawful(p) && DistinctNames(s) && DistinctNames(t)
    ensures p.sortSlice(s) == p.sortSlice(t) <==> forall a :: a in s <==> a in t
  {
    SameElements(s, p.sortSlice(s));
    SameElements(t, p.sortSlice(t));
    if forall a :: a in s <==> a in t {
      DistinctPermutation(s, p.sortSlice(s));
      DistinctPermutation(t, p.sortSlice(t));
      SortedUnique(p.sortSlice(s), p.sortSlice(t));
    }
  }

  // ---------------------------------------------------------------- what the checksum is invariant under

  /** Purging leaves the checksum as it was, for every record. */
  lemma PurgeKeepsChecksum(p: Platform, r: Record)
    ensures StorageChecksum(p, Purge(r)) == StorageChecksum(p, r)
  {
    assert Commitments(Purge(r).artifacts) == Commitments(r.artifacts);
  }

  lemma CommitmentsMembers(artifacts: seq<Artifact>)
    requires DistinctNames(artifacts)
    ensures DistinctNames(Commitments(artifacts))
    ensures forall c :: c in Commitments(artifacts) <==> exists a :: a in artifacts && c == Commitment(a)
  {
    forall c ensures c in Commitments(artifacts) <==> exists a :: a in artifacts && c == Commitment(a) {
      if c in Commitments(artifacts) {
        var i :| 0 <= i < |artifacts| && Commitments(artifacts)[i] == c;
        assert artifacts[i] in artifacts && c == Commitment(artifacts[i]);
      }
      if a :| a in artifacts && c == Commitment(a) {
        var i :| 0 <= i < |artifacts| && artifacts[i] == a;
        assert Commitments(artifacts)[i] == c;
      }
    }
  }

  /** Reordering the artifacts leaves the checksum as it was. */
  lemma PermutationKeepsChecksum(p: Platform, r: Record, artifacts: seq<Artifact>)
    requires Lawful(p) && DistinctNames(r.artifacts) && multiset(artifacts) == multiset(r.artifacts)
    ensures StorageChecksum(p, r.(artifacts := artifacts)) == StorageChecksum(p, r)
  {
    DistinctPermutation(r.artifacts, artifacts);
    SameElements(r.artifacts, artifacts);
    CommitmentsMembers(r.artifacts);
    CommitmentsMembers(artifacts);
    SortsAgree(p, Commitments(artifacts), Commitments(r.artifacts));
  }

  // ---------------------------------------------------------------- what the checksum determines

  datatype Declared = Declared(binding: Binding, state: State, sha: string)

  function DeclaredOf(a: Artifact): Declared {
    Declared(a.binding, if a.state == Purged then Present else a.state, a.sha)
  }

  /** The inventory by name: binding, state with purged read as present, and content hash. */
  function Inventory(artifacts: seq<Artifact>): map<string, Declared> {
    if artifacts == [] then map[]
    else Inventory(artifacts[1..])[artifacts[0].name := DeclaredOf(artifacts[0])]
  }

  lemma {:induction false} InventoryMembers(artifacts: seq<Artifact>)
    requires DistinctNames(artifacts)
    ensures forall i | 0 <= i < |artifacts| :: artifacts[i].name in Inventory(artifacts) &&
                                               Inventory(artifacts)[artifacts[i].name] == DeclaredOf(artifacts[i])
    ensures forall name | name in Inventory(artifacts) :: exists i :: 0 <= i < |artifacts| && artifacts[i].name == name
  {
    if artifacts != [] {
      InventoryMembers(artifacts[1..]);
      assert forall i | 1 <= i < |artifacts| :: artifacts[i] == artifacts[1..][i - 1];
      forall name | name in Inventory(artifacts) ensures exists i :: 0 <= i < |artifacts| && artifacts[i].name == name {
        if name != artifacts[0].name {
          var i :| 0 <= i < |artifacts[1..]| && artifacts[1..][i].name == name;
          assert artifacts[i + 1].name == name;
        }
      }
    }
  }

  predicate Covered(s: seq<Artifact>, t: seq<Artifact>) {
    forall i | 0 <= i < |s| :: s[i].name in Inventory(t) && Inventory(t)[s[i].name] == DeclaredOf(s[i])
  }

  lemma CommittedCovered(s: seq<Artifact>, t: seq<Artifact>)
    requires DistinctNames(s) && DistinctNames(t)
    requires forall c :: c in Commitments(s) ==> c in Commitments(t)
    ensures Covered(s, t)
  {
    InventoryMembers(t);
    forall i | 0 <= i < |s| ensures s[i].name in Inventory(t) && Inventory(t)[s[i].name] == DeclaredOf(s[i]) {
      assert Commitments(s)[i] in Commitments(t);
      var j :| 0 <= j < |t| && Commitments(t)[j] == Commitments(s)[i];
      assert t[j].name == s[i].name && DeclaredOf(t[j]) == DeclaredOf(s[i]);
    }
  }

  lemma CoveredCommitted(s: seq<Artifact>, t: seq<Artifact>)
    requires DistinctNames(s) && DistinctNames(t) && Covered(s, t)
    ensures forall c :: c in Commitments(s) ==> c in Commitments(t)
  {
    InventoryMembers(t);
    forall c | c in Commitments(s) ensures c in Commitments(t) {
      var i :| 0 <= i < |s| && Commitments(s)[i] == c;
      var j :| 0 <= j < |t| && t[j].name == s[i].name;
      assert DeclaredOf(t[j]) == DeclaredOf(s[i]);
      assert Commitments(t)[j] == c;
    }
  }

  lemma CoveredIff(s: seq<Artifact>, t: seq<Artifact>)
    requires DistinctNames(s) && DistinctNames(t)
    ensures Inventory(s) == Inventory(t) <==> Covered(s, t) && Covered(t, s)
  {
    InventoryMembers(s);
    InventoryMembers(t);
  }

  /** Two inventories are the same map exactly when their commitments are the same set. */
  lemma InventoryIff(s: seq<Artifact>, t: seq<Artifact>)
    requires DistinctNames(s) && DistinctNames(t)
    ensures Inventory(s) == Inventory(t) <==> forall c :: c in Commitments(s) <==> c in Commitments(t)
  {
    CoveredIff(s, t);
    if forall c :: c in Commitments(s) <==> c in Commitments(t) {
      CommittedCovered(s, t);
      CommittedCovered(t, s);
    }
    if Covered(s, t) && Covered(t, s) {
      CoveredCommitted(s, t);
      CoveredCommitted(t, s);
    }
  }

  predicate CanonicalFields(artifacts: seq<Artifact>) {
    forall i | 0 <= i < |artifacts| :: IsCanonical(artifacts[i])
  }

  lemma CommitmentCanonical(a: Artifact)
    requires IsCanonical(a)
    ensures NormalArtifact(Commitment(a)) == Commitment(a)
  {
    StateRoundTrip(Present);
  }

  lemma PreimageRoundTrip(p: Platform, r: Record)
    requires Lawful(p) && CanonicalFields(r.artifacts)
    ensures Decode(Line(Preimage(p, r))) == Some(Preimage(p, r))
  {
    var q := Preimage(p, r);
    RoundTrip(q);
    SameElements(q.artifacts, Commitments(r.artifacts));
    forall i | 0 <= i < |q.artifacts| ensures NormalArtifact(q.artifacts[i]) == q.artifacts[i] {
      assert q.artifacts[i] in Commitments(r.artifacts);
      var j :| 0 <= j < |r.artifacts| && Commitments(r.artifacts)[j] == q.artifacts[i];
      CommitmentCanonical(r.artifacts[j]);
    }
    assert NormalArtifacts(q.artifacts) == q.artifacts;
  }

  /**
   * The checksum is a canonical form: unless the hash collides on the two preimages, records with
   * distinct artifact names have the same checksum exactly when they agree on Capsule ID, Capsule,
   * envelope and inventory.
   */
  lemma ChecksumCanonical(p: Platform, r: Record, q: Record)
    requires Lawful(p)
    requires DistinctNames(r.artifacts) && CanonicalFields(r.artifacts) && StorageChecksum(p, r).Ok?
    requires DistinctNames(q.artifacts) && CanonicalFields(q.artifacts) && StorageChecksum(p, q).Ok?
    requires NoCollision(p, Line(Preimage(p, r)), Line(Preimage(p, q)))
    ensures StorageChecksum(p, r) == StorageChecksum(p, q) <==>
            r.capsuleId == q.capsuleId && r.capsule == q.capsule && r.envelope == q.envelope &&
            Inventory(r.artifacts) == Inventory(q.artifacts)
  {
    PreimageRoundTrip(p, r);
    PreimageRoundTrip(p, q);
    CommitmentsMembers(r.artifacts);
    CommitmentsMembers(q.artifacts);
    SortsAgree(p, Commitments(r.artifacts), Commitments(q.artifacts));
    InventoryIff(r.artifacts, q.artifacts);
    assert StorageChecksum(p, r) == StorageChecksum(p, q) <==> Preimage(p, r) == Preimage(p, q);
  }

  // ---------------------------------------------------------------- what is hashed

  /** The entry of an artifact in the hashed record: no content, and present for an original that was purged. */
  predicate Declares(entry: Artifact, a: Artifact) {
    entry.name == a.name && entry.binding == a.binding && entry.content == None && entry.sha == a.sha &&
    entry.state == match a.state case Purged => Present case Present => Present case other => other
  }

  /** The inventory lists the declarations of these artifacts, in the order of their distinct names. */
  predicate Lists(entries: seq<Artifact>, artifacts: seq<Artifact>) {
    |entries| == |artifacts| && InNameOrder(entries) &&
    (forall i {:trigger IsDeclared(entries, artifacts[i])} | 0 <= i < |artifacts| ::
      IsDeclared(entries, artifacts[i])) &&
    (forall j {:trigger IsEntryOf(entries[j], artifacts)} | 0 <= j < |entries| :: IsEntryOf(entries[j], artifacts))
  }

  /** Names ascend strictly, byte by byte. */
  predicate InNameOrder(artifacts: seq<Artifact>) {
    forall i, j | 0 <= i < j < |artifacts| :: Less(artifacts[i].name, artifacts[j].name)
  }

  /** Whatever the sort is, it sorts distinct names into ascending order. */
  lemma NameOrderExact(artifacts: seq<Artifact>)
    ensures InNameOrder(artifacts) <==> SortedByName(artifacts) && DistinctNames(artifacts)
  {
    if InNameOrder(artifacts) {
      forall i, j | 0 <= i < j < |artifacts|
        ensures !Less(artifacts[j].name, artifacts[i].name) && artifacts[i].name != artifacts[j].name
      {
        Ascending(artifacts[i].name, artifacts[j].name);
      }
    }
    if SortedByName(artifacts) && DistinctNames(artifacts) {
      forall i, j | 0 <= i < j < |artifacts| ensures Less(artifacts[i].name, artifacts[j].name) {
        LessTotal(artifacts[i].name, artifacts[j].name);
      }
    }
  }

  lemma Ascending(a: string, b: string)
    requires Less(a, b)
    ensures !Less(b, a) && a != b
  {
    LessIrreflexive(a);
    if Less(b, a) {
      LessTransitive(a, b, a);
    }
  }

  predicate IsDeclared(entries: seq<Artifact>, a: Artifact) {
    exists j | 0 <= j < |entries| :: Declares(entries[j], a)
  }

  predicate IsEntryOf(entry: Artifact, artifacts: seq<Artifact>) {
    exists i | 0 <= i < |artifacts| :: Declares(entry, artifacts[i])
  }

  lemma DeclaresIsCommitment(entry: Artifact, a: Artifact)
    ensures Declares(entry, a) <==> entry == Commitment(a)
  {
  }

  /**
   * The checksum of a record is the hash of the line of the record whose inventory declares the same
   * artifacts in name order: without contents, and with purged originals declared as present.
   */
  lemma ChecksumHashes(p: Platform, r: Record, entries: seq<Artifact>)
    requires Lawful(p) && DistinctNames(r.artifacts) && Lists(entries, r.artifacts)
    ensures var declared := Record(r.capsuleId, r.capsule, r.envelope, entries);
            StorageChecksum(p, r) ==
            match Marshal(p, declared) case Err(e) => Err(e) case Ok(line) => Ok(p.sha256(line))
  {
    var c := Commitments(r.artifacts);
    ListedCommitments(entries, r.artifacts);
    NameOrderExact(entries);
    assert DistinctNames(c);
    SameElements(p.sortSlice(c), c);
    DistinctPermutation(c, p.sortSlice(c));
    SortedUnique(p.sortSlice(c), entries);
  }

  lemma ListedCommitments(entries: seq<Artifact>, artifacts: seq<Artifact>)
    requires Lists(entries, artifacts)
    ensures forall e :: e in entries <==> e in Commitments(artifacts)
  {
    var c := Commitments(artifacts);
    forall e | e in entries ensures e in c {
      var j :| 0 <= j < |entries| && entries[j] == e;
      assert IsEntryOf(entries[j], artifacts);
      var i :| 0 <= i < |artifacts| && Declares(entries[j], artifacts[i]);
      DeclaresIsCommitment(entries[j], artifacts[i]);
      assert c[i] == e;
    }
    forall e | e in c ensures e in entries {
      var i :| 0 <= i < |c| && c[i] == e;
      assert IsDeclared(entries, artifacts[i]);
      var j :| 0 <= j < |entries| && Declares(entries[j], artifacts[i]);
      DeclaresIsCommitment(entries[j], artifacts[i]);
      assert entries[j] == e;
    }
  }

  /** An inventory that already has that form is hashed as it stands. */
  lemma ChecksumOfDeclaration(p: Platform, r: Record)
    requires Lawful(p) && InNameOrder(r.artifacts) && Marshal(p, r).Ok?
    requires forall i | 0 <= i < |r.artifacts| :: r.artifacts[i].content == None && r.artifacts[i].state != Purged
    ensures StorageChecksum(p, r) == Ok(p.sha256(Line(r)))
  {
    forall i | 0 <= i < |r.artifacts|
      ensures IsDeclared(r.artifacts, r.artifacts[i]) && IsEntryOf(r.artifacts[i], r.artifacts)
    {
      assert Declares(r.artifacts[i], r.artifacts[i]);
    }
    NameOrderExact(r.artifacts);
    ChecksumHashes(p, r, r.artifacts);
  }
}
