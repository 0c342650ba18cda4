/** What Prepare and Verify accept, and why they refuse, said of the record itself. */
module Acceptance {
  import opened Common
  import opened Json
  import opened Records
  import opened LineCodec
  import opened LineShape
  import opened Admission
  import Lifecycle

  // ---------------------------------------------------------------- Prepare

  /** A record with these bytes and originals is within the limits of the first version. */
  predicate WithinLimits(r: Record) {
    |r.artifacts| <= 64 && |r.envelope| <= 65535 && |r.capsule| + |r.envelope| + TotalContent(r.artifacts) <= 8388608
  }

  function TotalContent(artifacts: seq<Artifact>): nat {
    if artifacts == [] then 0
    else TotalContent(artifacts[..|artifacts| - 1]) +
         match artifacts[|artifacts| - 1].content
         case None => 0
         case Some(bytes) => |bytes|
  }

  /** Not a tombstone, and an original that carries a digest carries its own. */
  predicate Preparable(p: Platform, a: Artifact) {
    a.state != Purged &&
    (a.state == Present && a.sha != "" ==>
      a.sha == p.sha256(match a.content case None => "" case Some(bytes) => bytes))
  }

  lemma {:induction false} TotalIsContentSize(artifacts: seq<Artifact>)
    ensures TotalContent(artifacts) == ContentSize(artifacts)
  {
    if artifacts != [] {
      var init, last := artifacts[..|artifacts| - 1], artifacts[|artifacts| - 1];
      assert artifacts == init + [last];
      TotalIsContentSize(init);
      ContentSizeSnoc(init, last);
    }
  }

  /** Prepare succeeds exactly within the limits, on originals that can be prepared. */
  lemma PrepareExact(p: Platform, r: Record)
    requires Lawful(p)
    ensures Prepare(p, r).Ok? <==>
            WithinLimits(r) && forall i | 0 <= i < |r.artifacts| :: Preparable(p, r.artifacts[i])
  {
    TotalIsContentSize(r.artifacts);
    PrepareArtifactsExact(p, r.artifacts);
    if PrepareArtifacts(p, r.artifacts).Ok? {
      forall i | 0 <= i < |r.artifacts| ensures Preparable(p, r.artifacts[i]) {
      }
    }
  }

  /** Position i holds the first artifact that cannot be prepared. */
  predicate FirstUnprepared(p: Platform, artifacts: seq<Artifact>, i: nat) {
    i < |artifacts| && !Preparable(p, artifacts[i]) && forall j | 0 <= j < i :: Preparable(p, artifacts[j])
  }

  lemma {:induction false} UnpreparedError(p: Platform, artifacts: seq<Artifact>) returns (i: nat)
    requires PrepareArtifacts(p, artifacts).Err?
    ensures FirstUnprepared(p, artifacts, i)
    ensures PrepareArtifacts(p, artifacts) == Err(if artifacts[i].state == Purged then OriginalsPurged else Corrupt)
  {
    var n := |artifacts| - 1;
    var init := artifacts[..n];
    if PrepareArtifacts(p, init).Err? {
      i := UnpreparedError(p, init);
      assert forall j | 0 <= j <= i :: init[j] == artifacts[j];
    } else {
      i := n;
      EachPreparable(p, init);
      assert forall j | 0 <= j < n :: init[j] == artifacts[j];
    }
  }

  lemma {:induction false} EachPreparable(p: Platform, artifacts: seq<Artifact>)
    requires PrepareArtifacts(p, artifacts).Ok?
    ensures forall i | 0 <= i < |artifacts| :: Preparable(p, artifacts[i])
  {
    if artifacts != [] {
      var init := artifacts[..|artifacts| - 1];
      EachPreparable(p, init);
      assert forall j | 0 <= j < |init| :: init[j] == artifacts[j];
    }
  }

  /** Why Prepare refuses: the counts first, then the first original that cannot be prepared, then the total size. */
  lemma PrepareRefuses(p: Platform, r: Record) returns (i: nat)
    requires Prepare(p, r).Err?
    ensures |r.artifacts| > 64 || |r.envelope| > 65535 ==> Prepare(p, r) == Err(Invalid)
    ensures |r.artifacts| <= 64 && |r.envelope| <= 65535 ==>
              (FirstUnprepared(p, r.artifacts, i) &&
               Prepare(p, r) == Err(if r.artifacts[i].state == Purged then OriginalsPurged else Corrupt)) ||
              ((forall j | 0 <= j < |r.artifacts| :: Preparable(p, r.artifacts[j])) && Prepare(p, r) == Err(Invalid))
  {
    i := 0;
    if PrepareArtifacts(p, r.artifacts).Err? {
      i := UnpreparedError(p, r.artifacts);
    } else {
      EachPreparable(p, r.artifacts);
    }
  }

  // ---------------------------------------------------------------- the committed digest

  function Member(v: Value, key: string): Option<Value> {
    if v.Object? && key in v.members then Some(v.members[key]) else None
  }

  function DigestOf(v: Option<Value>): Option<string> {
    match v
    case Some(Leaf(String(s))) => if IsDigest(s) then Some(s) else None
    case _ => None
  }

  /** The digest a Capsule commits to in the place a binding names. */
  function Committed(capsule: map<string, Value>, binding: Binding): Option<string> {
    match binding
    case AgentInput =>
      var attestation :- Member(Object(capsule), "model_attestation");
      var compute :- Member(attestation, "compute_attestation");
      DigestOf(Member(compute, "agent_input_digest"))
    case AgentOutput =>
      var attestation :- Member(Object(capsule), "model_attestation");
      var compute :- Member(attestation, "compute_attestation");
      DigestOf(Member(compute, "agent_output_digest"))
    case EffectRequest =>
      var effect :- Member(Object(capsule), "effect");
      DigestOf(Member(effect, "request_digest"))
    case EffectResponse =>
      var effect :- Member(Object(capsule), "effect");
      DigestOf(Member(effect, "response_digest"))
    case _ => None
  }

  lemma {:induction false} SplitWhole(s: string)
    requires '.' !in s
    ensures Split(s, '.') == [s]
  {
    if s != "" {
      SplitWhole(s[1..]);
      assert [s[0]] + s[1..] == s;
    }
  }

  lemma {:induction false} SplitAt(a: string, b: string)
    requires '.' !in a
    ensures Split(a + "." + b, '.') == [a] + Split(b, '.')
  {
    if a == "" {
      assert a + "." + b == "." + b && ("." + b)[1..] == b;
    } else {
      SplitAt(a[1..], b);
      assert (a + "." + b)[1..] == a[1..] + "." + b;
      assert [a[0]] + a[1..] == a;
    }
  }

  lemma SplitTwo(a: string, b: string)
    requires '.' !in a && '.' !in b
    ensures Split(a + "." + b, '.') == [a, b]
  {
    SplitAt(a, b);
    SplitWhole(b);
  }

  lemma SplitThree(a: string, b: string, c: string)
    requires '.' !in a && '.' !in b && '.' !in c
    ensures Split(a + "." + (b + "." + c), '.') == [a, b, c]
  {
    SplitAt(a, b + "." + c);
    SplitTwo(b, c);
  }

  lemma WalkCons(v: Value, key: string, keys: seq<string>)
    ensures Walk(v, [key] + keys) == if Member(v, key).Some? then Walk(Member(v, key).value, keys) else None
  {
    assert ([key] + keys)[1..] == keys;
  }

  lemma WalkTwo(v: Value, a: string, b: string)
    ensures Walk(v, [a, b]) == if Member(v, a).Some? then Member(Member(v, a).value, b) else None
  {
    assert [a, b] == [a] + [b] && [b] == [b] + [];
    WalkCons(v, a, [b]);
    if Member(v, a).Some? {
      WalkCons(Member(v, a).value, b, []);
    }
  }

  lemma WalkThree(v: Value, a: string, b: string, c: string)
    ensures Walk(v, [a, b, c]) ==
            if Member(v, a).Some? && Member(Member(v, a).value, b).Some?
            then Member(Member(Member(v, a).value, b).value, c) else None
  {
    assert [a, b, c] == [a] + [b, c];
    WalkCons(v, a, [b, c]);
    if Member(v, a).Some? {
      WalkTwo(Member(v, a).value, b, c);
    }
  }

  lemma AttestationPaths()
    ensures Split(BindingText(AgentInput), '.') == ["model_attestation", "compute_attestation", "agent_input_digest"]
    ensures Split(BindingText(AgentOutput), '.') == ["model_attestation", "compute_attestation", "agent_output_digest"]
  {
    AttestationPath("agent_input_digest");
    AttestationPath("agent_output_digest");
  }

  lemma RequestPath()
    ensures Split(BindingText(EffectRequest), '.') == ["effect", "request_digest"]
  {
    assert "effect.request_digest" == "effect" + "." + "request_digest";
    SplitTwo("effect", "request_digest");
  }

  lemma ResponsePath()
    ensures Split(BindingText(EffectResponse), '.') == ["effect", "response_digest"]
  {
    assert "effect.response_digest" == "effect" + "." + "response_digest";
    SplitTwo("effect", "response_digest");
  }

  lemma AttestationPath(field: string)
    requires '.' !in field
    ensures Split("model_attestation." + "compute_attestation." + field, '.') ==
            ["model_attestation", "compute_attestation", field]
  {
    var a, b := "model_attestation", "compute_attestation";
    assert "model_attestation." + "compute_attestation." + field == a + "." + (b + "." + field);
    SplitThree(a, b, field);
  }

  /** digestAt finds exactly the digest at the literal place of the binding. */
  lemma DigestAtExact(capsule: map<string, Value>, binding: Binding)
    ensures DigestAt(capsule, binding) ==
            match Committed(capsule, binding) case Some(digest) => Ok(digest) case None => Err(Invalid)
  {
    AttestationPaths();
    RequestPath();
    ResponsePath();
    WalkTwo(Object(capsule), "effect", "request_digest");
    WalkTwo(Object(capsule), "effect", "response_digest");
    WalkThree(Object(capsule), "model_attestation", "compute_attestation", "agent_input_digest");
    WalkThree(Object(capsule), "model_attestation", "compute_attestation", "agent_output_digest");
  }

  // ---------------------------------------------------------------- one artifact

  predicate LetterOrDigit(c: char) {
    48 <= c as int <= 57 || 65 <= c as int <= 90 || 97 <= c as int <= 122
  }

  /** A letter or digit, and at most 63 more, dots, underscores or hyphens. */
  predicate WellNamed(s: string) {
    1 <= |s| <= 64 && LetterOrDigit(s[0]) &&
    forall i | 1 <= i < |s| :: LetterOrDigit(s[i]) || s[i] in {'.', '_', '-'}
  }

  /** 64 lowercase hexadecimal digits. */
  lemma DigestShape(s: string)
    ensures IsDigest(s) <==> |s| == 64 && forall i | 0 <= i < |s| :: s[i] in "0123456789abcdef"
  {
    var digits := "0123456789abcdef";
    forall i | 0 <= i < |s| ensures IsHexDigit(s[i]) <==> s[i] in digits {
      HexDigits(s[i]);
    }
  }

  lemma HexDigits(c: char)
    ensures IsHexDigit(c) <==> c in "0123456789abcdef"
  {
    var digits := "0123456789abcdef";
    if '0' <= c <= '9' {
      assert digits[c as int - 48] == c;
    }
    if 'a' <= c <= 'f' {
      assert digits[c as int - 87] == c;
    }
  }

  /** A store opens with a well-formed namespace and at least one key, each of 32 bytes. */
  lemma ConfigurationExact(namespace: string, keys: seq<string>)
    ensures Lifecycle.ValidConfiguration(namespace, keys) <==>
            WellNamed(namespace) && |keys| >= 1 && forall i | 0 <= i < |keys| :: |keys[i]| == 32
  {
    NameExact(namespace);
  }

  /** What the state of an artifact asks of its content and hash. */
  predicate Meets(p: Platform, capsule: map<string, Value>, a: Artifact) {
    WellNamed(a.name) &&
    (a.binding != Unbound ==> Committed(capsule, a.binding).Some?) &&
    match a.state
    case Present =>
      a.content.Some? && a.sha in {"", p.sha256(a.content.value)} &&
      (a.binding != Unbound ==> JsonDigestIs(p, a.content.value, Committed(capsule, a.binding).value))
    case Purged => a.content.None? && IsDigest(a.sha)
    case NeverRetained => a.content.None? && a.sha == ""
    case OtherState(_) => false
  }

  /** The bytes are one JSON value, by the strict decoder, of this digest. */
  predicate JsonDigestIs(p: Platform, bytes: Bytes, digest: string) {
    p.rawJson(bytes).Some? && p.utf8(p.rawJson(bytes).value) &&
    var decoded := DecodeStrict(p.tokens(p.rawJson(bytes).value));
    decoded.Some? && p.valueDigest(decoded.value) == Some(digest)
  }

  /** The error class with which an artifact that does not meet its state's conditions is refused. */
  function WhyNot(p: Platform, capsule: map<string, Value>, a: Artifact): Error {
    if !WellNamed(a.name) || (a.binding != Unbound && Committed(capsule, a.binding).None?) then Invalid
    else if a.state != Present || a.content.None? then Invalid
    else if a.sha !in {"", p.sha256(a.content.value)} then Corrupt
    else DigestMismatch
  }

  lemma NameExact(s: string)
    ensures IsName(s) <==> WellNamed(s)
  {
  }

  lemma ArtifactExact(p: Platform, capsule: map<string, Value>, a: Artifact)
    requires IsName(a.name)
    ensures CheckArtifact(p, capsule, a) ==
            if Meets(p, capsule, a)
              then Ok(Check(a.state, a.binding != Unbound, a.state == Present && a.binding != Unbound))
            else Err(WhyNot(p, capsule, a))
  {
    NameExact(a.name);
    DigestAtExact(capsule, a.binding);
    if a.binding == Unbound {
      StateExact(p, capsule, a, "");
    } else if Committed(capsule, a.binding).Some? {
      StateExact(p, capsule, a, Committed(capsule, a.binding).value);
    }
  }

  lemma StateExact(p: Platform, capsule: map<string, Value>, a: Artifact, committed: string)
    requires WellNamed(a.name) && (a.binding != Unbound ==> Committed(capsule, a.binding) == Some(committed))
    ensures CheckState(p, capsule, a, committed) ==
            if Meets(p, capsule, a)
              then Ok(Check(a.state, a.binding != Unbound, a.state == Present && a.binding != Unbound))
            else Err(WhyNot(p, capsule, a))
  {
    if a.state == Present && a.content.Some? {
      DigestExact(p, a.content.value, committed);
    }
  }

  lemma DigestExact(p: Platform, bytes: Bytes, digest: string)
    ensures DigestJson(p, bytes) == Some(digest) <==> JsonDigestIs(p, bytes, digest)
  {
  }

  // ---------------------------------------------------------------- the whole record

  /** The Capsule decodes to an object that passes under the record's ID, and the envelope is intact. */
  predicate Genuine(p: Platform, r: Record) {
    IsDigest(r.capsuleId) && p.utf8(r.capsule) &&
    var decoded := DecodeStrict(p.tokens(r.capsule));
    decoded.Some? && decoded.value.Object? && p.class1(decoded.value.members) == Some(r.capsuleId) &&
    p.envelopeKey(r.capsuleId, r.envelope).Some?
  }

  function Payload(p: Platform, r: Record): map<string, Value>
    requires Genuine(p, r)
  {
    DecodeStrict(p.tokens(r.capsule)).value.members
  }

  /** One of the caller's keys, of 32 bytes, has signed the envelope. */
  predicate FromTrusted(p: Platform, r: Record, trusted: seq<string>)
    requires Genuine(p, r)
  {
    exists i | 0 <= i < |trusted| :: |trusted[i]| == 32 && trusted[i] == p.envelopeKey(r.capsuleId, r.envelope).value
  }

  lemma AuthenticateExact(p: Platform, r: Record, trusted: seq<string>)
    ensures Authenticate(p, r, trusted) ==
            if !Genuine(p, r) then Err(Invalid)
            else if !FromTrusted(p, r, trusted) then Err(UntrustedSigner)
            else Ok(Payload(p, r))
  {
  }

  /** The artifacts before position i meet their conditions under distinct names, and the one there does not. */
  predicate FirstRefused(p: Platform, capsule: map<string, Value>, artifacts: seq<Artifact>, i: nat) {
    i < |artifacts| && DistinctNames(artifacts[..i]) &&
    (forall j | 0 <= j < i :: Meets(p, capsule, artifacts[j])) &&
    (Repeats(artifacts, i) || !Meets(p, capsule, artifacts[i]))
  }

  predicate Repeats(artifacts: seq<Artifact>, i: nat)
    requires i < |artifacts|
  {
    exists j | 0 <= j < i :: artifacts[j].name == artifacts[i].name
  }

  predicate AllMeet(p: Platform, capsule: map<string, Value>, artifacts: seq<Artifact>) {
    DistinctNames(artifacts) && forall i | 0 <= i < |artifacts| :: Meets(p, capsule, artifacts[i])
  }

  lemma AllMeetExact(p: Platform, capsule: map<string, Value>, artifacts: seq<Artifact>)
    ensures CheckArtifacts(p, capsule, artifacts).Ok? <==> AllMeet(p, capsule, artifacts)
  {
    CheckArtifactsExact(p, capsule, artifacts);
    forall i | 0 <= i < |artifacts| ensures Acceptable(p, capsule, artifacts[i]) <==> Meets(p, capsule, artifacts[i]) {
      NameExact(artifacts[i].name);
      if IsName(artifacts[i].name) {
        ArtifactExact(p, capsule, artifacts[i]);
      }
    }
  }

  /** The first artifact refused gives its error class: Invalid for a repeated name, otherwise its own. */
  lemma {:induction false} FirstError(p: Platform, capsule: map<string, Value>, artifacts: seq<Artifact>)
    returns (i: nat)
    requires CheckArtifacts(p, capsule, artifacts).Err?
    ensures FirstRefused(p, capsule, artifacts, i)
    ensures CheckArtifacts(p, capsule, artifacts).error ==
            if Repeats(artifacts, i) then Invalid else WhyNot(p, capsule, artifacts[i])
  {
    var n := |artifacts| - 1;
    var init, a := artifacts[..n], artifacts[n];
    assert artifacts == init + [a];
    if CheckArtifacts(p, capsule, init).Err? {
      i := FirstError(p, capsule, init);
      StillFirst(p, capsule, init, a, i);
      CheckLast(p, capsule, init, a);
    } else {
      i := n;
      AllMeetExact(p, capsule, init);
      LastRefused(p, capsule, init, a);
      assert artifacts[..i] == init;
    }
  }

  lemma StillFirst(p: Platform, capsule: map<string, Value>, init: seq<Artifact>, a: Artifact, i: nat)
    requires FirstRefused(p, capsule, init, i)
    ensures FirstRefused(p, capsule, init + [a], i)
    ensures (init + [a])[i] == init[i] && (Repeats(init + [a], i) <==> Repeats(init, i))
  {
    var all := init + [a];
    assert all[..i] == init[..i] && forall j | 0 <= j <= i :: all[j] == init[j];
  }

  lemma LastRefused(p: Platform, capsule: map<string, Value>, init: seq<Artifact>, a: Artifact)
    requires CheckArtifacts(p, capsule, init).Ok? && CheckArtifacts(p, capsule, init + [a]).Err?
    ensures var all := init + [a];
            (Repeats(all, |init|) || !Meets(p, capsule, a)) &&
            CheckArtifacts(p, capsule, all).error == if Repeats(all, |init|) then Invalid else WhyNot(p, capsule, a)
  {
    CheckLast(p, capsule, init, a);
    CheckedNames(p, capsule, init);
    NameExact(a.name);
    if IsName(a.name) {
      ArtifactExact(p, capsule, a);
    }
    var all := init + [a];
    assert Repeats(all, |init|) <==> a.name in Names(init) by {
      if a.name in Names(init) {
        var j :| 0 <= j < |init| && Names(init)[j] == a.name;
        assert all[j].name == all[|init|].name;
      }
      if Repeats(all, |init|) {
        var j :| 0 <= j < |init| && all[j].name == all[|init|].name;
        assert Names(init)[j] == a.name;
      }
    }
  }

  /**
   * Verify succeeds exactly on a genuine record from a trusted signer whose artifacts have distinct
   * names and meet what their states ask; then each is listed with its state, as bound if it has a
   * binding, and as verified if moreover it is present.
   */
  lemma VerifyMeans(p: Platform, r: Record, trusted: seq<string>)
    ensures Verify(p, r, trusted).Ok? <==>
            Genuine(p, r) && FromTrusted(p, r, trusted) && AllMeet(p, Payload(p, r), r.artifacts)
    ensures Verify(p, r, trusted).Ok? ==>
              forall i | 0 <= i < |r.artifacts| ::
                var a := r.artifacts[i];
                a.name in Verify(p, r, trusted).value &&
                Verify(p, r, trusted).value[a.name] ==
                Check(a.state, a.binding != Unbound, a.state == Present && a.binding != Unbound)
  {
    AuthenticateExact(p, r, trusted);
    if Genuine(p, r) && FromTrusted(p, r, trusted) {
      AllMeetExact(p, Payload(p, r), r.artifacts);
      if Verify(p, r, trusted).Ok? {
        forall i | 0 <= i < |r.artifacts|
          ensures r.artifacts[i].name in Verify(p, r, trusted).value
          ensures var a := r.artifacts[i];
                  Verify(p, r, trusted).value[a.name] ==
                  Check(a.state, a.binding != Unbound, a.state == Present && a.binding != Unbound)
        {
          CheckedResults(p, Payload(p, r), r.artifacts, i);
          NameExact(r.artifacts[i].name);
          ArtifactExact(p, Payload(p, r), r.artifacts[i]);
        }
      }
    }
  }

  /** The error class of every refusal. */
  lemma VerifyRefuses(p: Platform, r: Record, trusted: seq<string>) returns (i: nat)
    requires Verify(p, r, trusted).Err?
    ensures !Genuine(p, r) ==> Verify(p, r, trusted) == Err(Invalid)
    ensures Genuine(p, r) && !FromTrusted(p, r, trusted) ==> Verify(p, r, trusted) == Err(UntrustedSigner)
    ensures Genuine(p, r) && FromTrusted(p, r, trusted) ==>
              FirstRefused(p, Payload(p, r), r.artifacts, i) &&
              Verify(p, r, trusted) ==
              Err(if Repeats(r.artifacts, i) then Invalid else WhyNot(p, Payload(p, r), r.artifacts[i]))
  {
    i := 0;
    AuthenticateExact(p, r, trusted);
    if Genuine(p, r) && FromTrusted(p, r, trusted) {
      i := FirstError(p, Payload(p, r), r.artifacts);
    }
  }
}
