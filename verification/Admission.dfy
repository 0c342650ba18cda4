/** What a record must satisfy before a store keeps it, and again whenever a store returns it. */
module Admission {
  import opened Common
  import opened Json
  import opened Records
  import opened LineCodec
  import opened LineShape
  import JsonTrees

  const MAX_ARTIFACTS := 64
  const MAX_ENVELOPE := 65535
  const MAX_RECORD := 8 * 1024 * 1024
  const PUBLIC_KEY_SIZE := 32

  // ---------------------------------------------------------------- Prepare

  function ContentBytes(a: Artifact): Bytes {
    match a.content
    case None => ""
    case Some(bytes) => bytes
  }

  /** The loop body of Prepare: a retained original gets the digest of its bytes. */
  function PrepareArtifact(p: Platform, a: Artifact): Result<Artifact> {
    if a.state == Purged then Err(OriginalsPurged)
    else if a.state != Present then Ok(a)
    else
      var digest := p.sha256(ContentBytes(a));
      if a.sha != "" && a.sha != digest then Err(Corrupt) else Ok(a.(sha := digest))
  }

  function PrepareArtifacts(p: Platform, artifacts: seq<Artifact>): (r: Result<seq<Artifact>>)
    ensures r.Ok? ==> |r.value| == |artifacts|
  {
    if artifacts == [] then Ok([])
    else
      var n := |artifacts| - 1;
      var before :- PrepareArtifacts(p, artifacts[..n]);
      var last :- PrepareArtifact(p, artifacts[n]);
      Ok(before + [last])
  }

  function RecordSize(r: Record): nat {
    |r.capsule| + |r.envelope| + ContentSize(r.artifacts)
  }

  function Prepare(p: Platform, r: Record): Result<Record> {
    if |r.artifacts| > MAX_ARTIFACTS || |r.envelope| > MAX_ENVELOPE then Err(Invalid)
    else
      var artifacts :- PrepareArtifacts(p, r.artifacts);
      if RecordSize(r) > MAX_RECORD then Err(Invalid) else Ok(r.(artifacts := artifacts))
  }

  /** A prepared artifact: not purged, and carrying its digest if it is present. */
  predicate IsPrepared(p: Platform, a: Artifact) {
    a.state != Purged && (a.state == Present ==> a.sha == p.sha256(ContentBytes(a)))
  }

  /**
   * Preparation fails exactly on an artifact that is purged or carries a wrong digest, and changes
   * nothing but missing digests.
   */
  lemma {:induction false} PrepareArtifactsExact(p: Platform, artifacts: seq<Artifact>)
    requires forall s :: p.sha256(s) != ""
    ensures PrepareArtifacts(p, artifacts).Ok? <==>
            forall i | 0 <= i < |artifacts| ::
              artifacts[i].state != Purged &&
              (artifacts[i].state == Present ==> artifacts[i].sha in {"", p.sha256(ContentBytes(artifacts[i]))})
    ensures PrepareArtifacts(p, artifacts).Ok? ==>
              forall i | 0 <= i < |artifacts| ::
                var a := PrepareArtifacts(p, artifacts).value[i];
                IsPrepared(p, a) && a == artifacts[i].(sha := a.sha) && (a.state != Present ==> a == artifacts[i])
  {
    if artifacts != [] {
      var n := |artifacts| - 1;
      PrepareArtifactsExact(p, artifacts[..n]);
      assert forall i | 0 <= i < n :: artifacts[..n][i] == artifacts[i];
    }
  }

  predicate AllPrepared(p: Platform, artifacts: seq<Artifact>) {
    forall i {:trigger IsPrepared(p, artifacts[i])} | 0 <= i < |artifacts| :: IsPrepared(p, artifacts[i])
  }

  lemma PreparedIsKept(p: Platform, a: Artifact)
    requires IsPrepared(p, a)
    ensures PrepareArtifact(p, a) == Ok(a)
  {
  }

  lemma {:induction false} PrepareKeepsPrepared(p: Platform, artifacts: seq<Artifact>)
    requires AllPrepared(p, artifacts)
    ensures PrepareArtifacts(p, artifacts) == Ok(artifacts)
  {
    if artifacts != [] {
      var init, last := artifacts[..|artifacts| - 1], artifacts[|artifacts| - 1];
      assert IsPrepared(p, artifacts[|artifacts| - 1]);
      PreparedIsKept(p, last);
      forall i | 0 <= i < |init| ensures IsPrepared(p, init[i]) {
        assert IsPrepared(p, artifacts[i]);
      }
      PrepareKeepsPrepared(p, init);
      assert artifacts == init + [last];
    }
  }

  lemma {:induction false} SameSize(artifacts: seq<Artifact>, others: seq<Artifact>)
    requires |artifacts| == |others| && forall i | 0 <= i < |artifacts| :: artifacts[i].content == others[i].content
    ensures ContentSize(artifacts) == ContentSize(others)
  {
    if artifacts != [] {
      SameSize(artifacts[1..], others[1..]);
    }
  }

  /** Preparing a prepared record returns an equal record. */
  lemma PrepareIdempotent(p: Platform, r: Record)
    requires Lawful(p) && Prepare(p, r).Ok?
    ensures Prepare(p, Prepare(p, r).value) == Prepare(p, r)
  {
    var q := Prepare(p, r).value;
    PrepareArtifactsExact(p, r.artifacts);
    PrepareKeepsPrepared(p, q.artifacts);
    SameSize(q.artifacts, r.artifacts);
  }

  // ---------------------------------------------------------------- digestAt

  function Split(s: string, separator: char): (parts: seq<string>)
    ensures parts != []
  {
    if s == "" then [""]
    else if s[0] == separator then [""] + Split(s[1..], separator)
    else
      var rest := Split(s[1..], separator);
      [[s[0]] + rest[0]] + rest[1..]
  }

  predicate IsDigestField(field: Binding) {
    field.AgentInput? || field.AgentOutput? || field.EffectRequest? || field.EffectResponse?
  }

  /** The value at a path of keys through nested objects. */
  function Walk(value: Value, keys: seq<string>): Option<Value> {
    if keys == [] then Some(value)
    else if value.Object? && keys[0] in value.members then Walk(value.members[keys[0]], keys[1..])
    else None
  }

  function DigestAt(capsule: map<string, Value>, field: Binding): Result<string> {
    if !IsDigestField(field) then Err(Invalid)
    else match Walk(Object(capsule), Split(BindingText(field), '.'))
      case Some(Leaf(String(digest))) => if IsDigest(digest) then Ok(digest) else Err(Invalid)
      case _ => Err(Invalid)
  }

  method ReadDigestAt(capsule: map<string, Value>, field: Binding) returns (r: Result<string>)
    ensures r == DigestAt(capsule, field)
  {
    if !IsDigestField(field) {
      return Err(Invalid);
    }
    var value := Object(capsule);
    var keys := Split(BindingText(field), '.');
    var i := 0;
    while i < |keys|
      invariant 0 <= i <= |keys|
      invariant Walk(Object(capsule), keys) == Walk(value, keys[i..])
    {
      if !value.Object? || keys[i] !in value.members {
        return Err(Invalid);
      }
      assert keys[i..][1..] == keys[i + 1..];
      value := value.members[keys[i]];
      i := i + 1;
    }
    if !value.Leaf? || !value.scalar.String? || !IsDigest(value.scalar.s) {
      return Err(Invalid);
    }
    r := Ok(value.scalar.s);
  }

  // ---------------------------------------------------------------- Verify

  datatype Check = Check(state: State, bound: bool, verified: bool)

  /** decodeStrictJSON: valid UTF-8, one strictly decoded value, and nothing after it. */
  function DecodeText(p: Platform, data: string): Option<Value> {
    if p.utf8(data) then DecodeStrict(p.tokens(data)) else None
  }

  function DecodePayload(p: Platform, data: string): Result<map<string, Value>> {
    match DecodeText(p, data)
    case Some(Object(members)) => Ok(members)
    case _ => Err(Failed)
  }

  /** DigestJSON of raw JSON: written out, strictly decoded, and digested as a value. */
  function DigestJson(p: Platform, data: string): Option<string> {
    var encoded :- p.rawJson(data);
    var value :- DecodeText(p, encoded);
    p.valueDigest(value)
  }

  /** The Capsule ID of a Capsule that decodes and passes the profile and Class 1 checks. */
  function VerifyCapsule(p: Platform, data: string): Option<string> {
    match DecodePayload(p, data)
    case Err(_) => None
    case Ok(payload) => p.class1(payload)
  }

  predicate Authorized(trusted: seq<string>, key: string) {
    exists i | 0 <= i < |trusted| :: |trusted[i]| == PUBLIC_KEY_SIZE && trusted[i] == key
  }

  function CheckState(p: Platform, capsule: map<string, Value>, a: Artifact, committed: string): Result<Check> {
    var bound := a.binding != Unbound;
    if a.state == Present then
      match a.content
      case None => Err(Invalid)
      case Some(bytes) =>
        if a.sha != "" && a.sha != p.sha256(bytes) then Err(Corrupt)
        else if bound && DigestJson(p, bytes) != Some(committed) then Err(DigestMismatch)
        else Ok(Check(a.state, bound, bound))
    else if a.state == Purged then
      if a.content.Some? || !IsDigest(a.sha) then Err(Invalid) else Ok(Check(a.state, bound, false))
    else if a.state == NeverRetained then
      if a.content.Some? || a.sha != "" then Err(Invalid) else Ok(Check(a.state, bound, false))
    else Err(Invalid)
  }

  function CheckArtifact(p: Platform, capsule: map<string, Value>, a: Artifact): Result<Check> {
    var committed :- if a.binding == Unbound then Ok("") else DigestAt(capsule, a.binding);
    CheckState(p, capsule, a, committed)
  }

  /** The loop body of Verify, given the results so far. */
  function CheckNext(p: Platform, capsule: map<string, Value>, seen: map<string, Check>, a: Artifact): Result<Check> {
    if !IsName(a.name) || a.name in seen then Err(Invalid) else CheckArtifact(p, capsule, a)
  }

  function CheckArtifacts(p: Platform, capsule: map<string, Value>, artifacts: seq<Artifact>)
    : Result<map<string, Check>>
  {
    if artifacts == [] then Ok(map[])
    else
      var n := |artifacts| - 1;
      var seen :- CheckArtifacts(p, capsule, artifacts[..n]);
      var check :- CheckNext(p, capsule, seen, artifacts[n]);
      Ok(seen[artifacts[n].name := check])
  }

  /** The part of Verify that does not look at artifacts: identity, envelope, signer. */
  function Authenticate(p: Platform, r: Record, trusted: seq<string>): Result<map<string, Value>> {
    if !IsDigest(r.capsuleId) || VerifyCapsule(p, r.capsule) != Some(r.capsuleId) then Err(Invalid)
    else match p.envelopeKey(r.capsuleId, r.envelope)
      case None => Err(Invalid)
      case Some(key) =>
        if !Authorized(trusted, key) then Err(UntrustedSigner) else DecodePayload(p, r.capsule)
  }

  function Verify(p: Platform, r: Record, trusted: seq<string>): Result<map<string, Check>> {
    var capsule :- Authenticate(p, r, trusted);
    CheckArtifacts(p, capsule, r.artifacts)
  }

  method VerifyRecord(p: Platform, r: Record, trusted: seq<string>) returns (checks: Result<map<string, Check>>)
    ensures checks == Verify(p, r, trusted)
  {
    if !IsDigest(r.capsuleId) {
      return Err(Invalid);
    }
    var id := VerifyCapsule(p, r.capsule);
    if id != Some(r.capsuleId) {
      return Err(Invalid);
    }
    var key := p.envelopeKey(r.capsuleId, r.envelope);
    if key.None? {
      return Err(Invalid);
    }
    var authorized := false;
    for i := 0 to |trusted|
      invariant authorized <==> Authorized(trusted[..i], key.value)
    {
      if |trusted[i]| == PUBLIC_KEY_SIZE && trusted[i] == key.value {
        authorized := true;
        assert trusted[..i + 1][i] == trusted[i];
      }
      assert trusted[..i + 1] == trusted[..i] + [trusted[i]];
    }
    assert trusted[..|trusted|] == trusted;
    if !authorized {
      return Err(UntrustedSigner);
    }
    match DecodePayload(p, r.capsule)
    case Err(e) => return Err(e);
    case Ok(payload) => checks := VerifyArtifacts(p, payload, r.artifacts);
  }

  method VerifyArtifacts(p: Platform, capsule: map<string, Value>, artifacts: seq<Artifact>)
    returns (checks: Result<map<string, Check>>)
    ensures checks == CheckArtifacts(p, capsule, artifacts)
  {
    var results: map<string, Check> := map[];
    for i := 0 to |artifacts|
      invariant CheckArtifacts(p, capsule, artifacts[..i]) == Ok(results)
    {
      var check := VerifyNext(p, capsule, results, artifacts[i]);
      CheckSnoc(p, capsule, artifacts, i);
      if check.Err? {
        CheckPrefix(p, capsule, artifacts, i + 1);
        return Err(check.error);
      }
      results := results[artifacts[i].name := check.value];
    }
    assert artifacts[..|artifacts|] == artifacts;
    checks := Ok(results);
  }

  method VerifyNext(p: Platform, capsule: map<string, Value>, seen: map<string, Check>, a: Artifact)
    returns (check: Result<Check>)
    ensures check == CheckNext(p, capsule, seen, a)
  {
    if !IsName(a.name) || a.name in seen {
      return Err(Invalid);
    }
    var committed := "";
    if a.binding != Unbound {
      var found := ReadDigestAt(capsule, a.binding);
      if found.Err? {
        return Err(found.error);
      }
      committed := found.value;
    }
    check := CheckState(p, capsule, a, committed);
  }

  lemma CheckSnoc(p: Platform, capsule: map<string, Value>, artifacts: seq<Artifact>, i: nat)
    requires i < |artifacts| && CheckArtifacts(p, capsule, artifacts[..i]).Ok?
    ensures var seen := CheckArtifacts(p, capsule, artifacts[..i]).value;
            CheckArtifacts(p, capsule, artifacts[..i + 1]) ==
            match CheckNext(p, capsule, seen, artifacts[i])
            case Err(e) => Err(e)
            case Ok(check) => Ok(seen[artifacts[i].name := check])
  {
    assert artifacts[..i + 1][..i] == artifacts[..i];
  }

  /** The first failing artifact decides the error. */
  lemma {:induction false} CheckPrefix(p: Platform, capsule: map<string, Value>, artifacts: seq<Artifact>, n: nat)
    requires n <= |artifacts| && CheckArtifacts(p, capsule, artifacts[..n]).Err?
    ensures CheckArtifacts(p, capsule, artifacts) == CheckArtifacts(p, capsule, artifacts[..n])
    decreases |artifacts|
  {
    if n < |artifacts| {
      var m := |artifacts| - 1;
      assert artifacts[..m][..n] == artifacts[..n];
      CheckPrefix(p, capsule, artifacts[..m], n);
    } else {
      assert artifacts[..n] == artifacts;
    }
  }

  // ---------------------------------------------------------------- which texts of an original count as the same

  /** The bytes are written out as a text whose tokens are those of the tree. */
  predicate Spells(p: Platform, data: string, t: JsonTrees.Tree) {
    p.rawJson(data).Some? && p.utf8(p.rawJson(data).value) &&
    p.tokens(p.rawJson(data).value) == TokenStream(JsonTrees.Print(t), true)
  }

  /** The digest depends on the decoded value alone: not on member order, nor on the sign of zeros. */
  lemma SameTextSameDigest(p: Platform, x: Bytes, y: Bytes, t: JsonTrees.Tree, u: JsonTrees.Tree)
    requires Spells(p, x, t) && Spells(p, y, u)
    requires JsonTrees.Acceptable(t) && JsonTrees.Acceptable(u) && JsonTrees.SameText(t, u)
    ensures DigestJson(p, x) == DigestJson(p, y)
  {
    JsonTrees.SameDecoding(t, u);
  }

  /** Two originals that differ only so verify alike under any Capsule, each under its own byte hash. */
  lemma SameTextVerifiesAlike(p: Platform, capsule: map<string, Value>, a: Artifact, x: Bytes, y: Bytes,
                              t: JsonTrees.Tree, u: JsonTrees.Tree)
    requires Spells(p, x, t) && Spells(p, y, u)
    requires JsonTrees.Acceptable(t) && JsonTrees.Acceptable(u) && JsonTrees.SameText(t, u)
    ensures CheckArtifact(p, capsule, a.(content := Some(x), sha := p.sha256(x))) ==
            CheckArtifact(p, capsule, a.(content := Some(y), sha := p.sha256(y)))
  {
    SameTextSameDigest(p, x, y, t, u);
  }

  // ---------------------------------------------------------------- what verification means

  /** A single artifact is acceptable under the Capsule. */
  predicate Acceptable(p: Platform, capsule: map<string, Value>, a: Artifact) {
    IsName(a.name) && CheckArtifact(p, capsule, a).Ok?
  }

  lemma {:induction false} CheckedNames(p: Platform, capsule: map<string, Value>, artifacts: seq<Artifact>)
    requires CheckArtifacts(p, capsule, artifacts).Ok?
    ensures forall name :: name in CheckArtifacts(p, capsule, artifacts).value <==> name in Names(artifacts)
  {
    if artifacts != [] {
      var n := |artifacts| - 1;
      CheckedNames(p, capsule, artifacts[..n]);
      assert Names(artifacts) == Names(artifacts[..n]) + [artifacts[n].name];
    }
  }

  lemma DistinctSnoc(artifacts: seq<Artifact>, a: Artifact)
    ensures DistinctNames(artifacts + [a]) <==> DistinctNames(artifacts) && a.name !in Names(artifacts)
  {
    var all := artifacts + [a];
    assert all[|artifacts|] == a && forall i | 0 <= i < |artifacts| :: all[i] == artifacts[i];
    if DistinctNames(all) {
      assert forall i | 0 <= i < |artifacts| :: Names(artifacts)[i] == all[i].name;
    }
  }

  /** Artifacts verify exactly when names are distinct and each one is acceptable. */
  lemma {:induction false} CheckArtifactsExact(p: Platform, capsule: map<string, Value>, artifacts: seq<Artifact>)
    ensures CheckArtifacts(p, capsule, artifacts).Ok? <==>
            DistinctNames(artifacts) && forall i | 0 <= i < |artifacts| :: Acceptable(p, capsule, artifacts[i])
  {
    if artifacts != [] {
      var n := |artifacts| - 1;
      var init := artifacts[..n];
      CheckArtifactsExact(p, capsule, init);
      assert artifacts == init + [artifacts[n]];
      DistinctSnoc(init, artifacts[n]);
      assert forall i | 0 <= i < n :: artifacts[i] == init[i];
      if CheckArtifacts(p, capsule, init).Ok? {
        CheckedNames(p, capsule, init);
      }
    }
  }

  /** The result lists each artifact's own check under its name. */
  lemma {:induction false} CheckedResults(p: Platform, capsule: map<string, Value>, artifacts: seq<Artifact>, i: nat)
    requires CheckArtifacts(p, capsule, artifacts).Ok? && i < |artifacts|
    ensures var checks := CheckArtifacts(p, capsule, artifacts).value;
            artifacts[i].name in checks && Ok(checks[artifacts[i].name]) == CheckArtifact(p, capsule, artifacts[i])
  {
    var n := |artifacts| - 1;
    if i < n {
      CheckedResults(p, capsule, artifacts[..n], i);
    }
  }

  /** Verify succeeds exactly on an authentic record whose artifacts have distinct names and are each acceptable. */
  lemma VerifyExact(p: Platform, r: Record, trusted: seq<string>)
    ensures Verify(p, r, trusted).Ok? <==>
            Authenticate(p, r, trusted).Ok? && DistinctNames(r.artifacts) &&
            forall i | 0 <= i < |r.artifacts| :: Acceptable(p, Authenticate(p, r, trusted).value, r.artifacts[i])
  {
    if Authenticate(p, r, trusted).Ok? {
      CheckArtifactsExact(p, Authenticate(p, r, trusted).value, r.artifacts);
    }
  }

  /** The check of a tombstone, from the check of its original. */
  function Downgrade(c: Check): Check {
    if c.state == Present then Check(Purged, c.bound, false) else c
  }

  /** The original, if present, carries a digest that a tombstone may keep. */
  predicate Erasable(a: Artifact) {
    a.state == Present ==> IsDigest(a.sha)
  }

  lemma TombstoneState(p: Platform, capsule: map<string, Value>, a: Artifact, committed: string)
    requires CheckState(p, capsule, a, committed).Ok?
    ensures CheckState(p, capsule, Tombstone(a), committed) ==
            if Erasable(a) then Ok(Downgrade(CheckState(p, capsule, a, committed).value)) else Err(Invalid)
  {
  }

  lemma TombstoneChecks(p: Platform, capsule: map<string, Value>, a: Artifact)
    requires CheckArtifact(p, capsule, a).Ok?
    ensures CheckArtifact(p, capsule, Tombstone(a)) ==
            if Erasable(a) then Ok(Downgrade(CheckArtifact(p, capsule, a).value)) else Err(Invalid)
  {
    var committed := if a.binding == Unbound then Ok("") else DigestAt(capsule, a.binding);
    TombstoneState(p, capsule, a, committed.value);
  }

  /** after holds the checks of the tombstones of the originals checked in before. */
  predicate Downgraded(before: map<string, Check>, after: map<string, Check>) {
    before.Keys == after.Keys && forall name | name in before :: after[name] == Downgrade(before[name])
  }

  predicate AllErasable(artifacts: seq<Artifact>) {
    forall i | 0 <= i < |artifacts| :: Erasable(artifacts[i])
  }

  lemma TombstoneNext(p: Platform, capsule: map<string, Value>, before: map<string, Check>, after: map<string, Check>,
                      a: Artifact)
    requires Downgraded(before, after) && CheckNext(p, capsule, before, a).Ok?
    ensures CheckNext(p, capsule, after, Tombstone(a)) ==
            if Erasable(a) then Ok(Downgrade(CheckNext(p, capsule, before, a).value)) else Err(Invalid)
  {
    TombstoneChecks(p, capsule, a);
  }

  function AddCheck(p: Platform, capsule: map<string, Value>, seen: map<string, Check>, a: Artifact)
    : Result<map<string, Check>>
  {
    var check :- CheckNext(p, capsule, seen, a);
    Ok(seen[a.name := check])
  }

  lemma CheckLast(p: Platform, capsule: map<string, Value>, artifacts: seq<Artifact>, a: Artifact)
    ensures var before, all := CheckArtifacts(p, capsule, artifacts), CheckArtifacts(p, capsule, artifacts + [a]);
            all == if before.Err? then before else AddCheck(p, capsule, before.value, a)
  {
    assert (artifacts + [a])[..|artifacts|] == artifacts;
  }

  lemma ErasableLast(artifacts: seq<Artifact>, a: Artifact)
    ensures AllErasable(artifacts + [a]) <==> AllErasable(artifacts) && Erasable(a)
    ensures Tombstones(artifacts + [a]) == Tombstones(artifacts) + [Tombstone(a)]
  {
    var all := artifacts + [a];
    assert all[|artifacts|] == a && forall i | 0 <= i < |artifacts| :: all[i] == artifacts[i];
  }

  /**
   * The purged inventory verifies exactly when every present original carries its digest, and then
   * with downgraded checks.
   */
  predicate PurgedChecks(p: Platform, capsule: map<string, Value>, artifacts: seq<Artifact>)
    requires CheckArtifacts(p, capsule, artifacts).Ok?
  {
    var after := CheckArtifacts(p, capsule, Tombstones(artifacts));
    (after.Ok? <==> AllErasable(artifacts)) &&
    (after.Ok? ==> Downgraded(CheckArtifacts(p, capsule, artifacts).value, after.value))
  }

  lemma PurgedChecksNext(p: Platform, capsule: map<string, Value>, artifacts: seq<Artifact>, a: Artifact)
    requires CheckArtifacts(p, capsule, artifacts).Ok? && CheckArtifacts(p, capsule, artifacts + [a]).Ok?
    requires PurgedChecks(p, capsule, artifacts)
    ensures PurgedChecks(p, capsule, artifacts + [a])
  {
    CheckLast(p, capsule, artifacts, a);
    CheckLast(p, capsule, Tombstones(artifacts), Tombstone(a));
    ErasableLast(artifacts, a);
    if AllErasable(artifacts) {
      var before, after := CheckArtifacts(p, capsule, artifacts).value,
        CheckArtifacts(p, capsule, Tombstones(artifacts)).value;
      TombstoneNext(p, capsule, before, after, a);
    }
  }

  lemma {:induction false} TombstonesCheck(p: Platform, capsule: map<string, Value>, artifacts: seq<Artifact>)
    requires CheckArtifacts(p, capsule, artifacts).Ok?
    ensures PurgedChecks(p, capsule, artifacts)
  {
    if artifacts != [] {
      var init, last := artifacts[..|artifacts| - 1], artifacts[|artifacts| - 1];
      assert artifacts == init + [last];
      TombstonesCheck(p, capsule, init);
      PurgedChecksNext(p, capsule, init, last);
    }
  }

  /**
   * Purging a verified record leaves it verifiable exactly when every present original carries its
   * digest; then the names and Bound flags stay, and nothing purged counts as verified.
   */
  lemma PurgeVerifies(p: Platform, r: Record, trusted: seq<string>)
    requires Verify(p, r, trusted).Ok?
    ensures Verify(p, Purge(r), trusted).Ok? <==> AllErasable(r.artifacts)
    ensures Verify(p, Purge(r), trusted).Ok? ==>
              Downgraded(Verify(p, r, trusted).value, Verify(p, Purge(r), trusted).value)
  {
    TombstonesCheck(p, Authenticate(p, r, trusted).value, r.artifacts);
  }
}
