/** The JSONL wire form of a record: fixed field order, standard base64, omitempty; and a reader for it. */
module LineCodec {
  import opened Common
  import opened Records
  import opened JsonText
  import Base64

  const NAME := "{\"name\":"
  const BINDING := ",\"binding\":"
  const CONTENT := ",\"content\":"
  const STATE := ",\"state\":"
  const SHA := ",\"content_sha256\":"
  const CAPSULE_ID := "{\"capsule_id\":"
  const CAPSULE := ",\"capsule\":"
  const ENVELOPE := ",\"producer_envelope\":"
  const ARTIFACTS := ",\"artifacts\":["

  // ---------------------------------------------------------------- texts of enumerated fields

  function StateText(s: State): string {
    match s
    case Present => "present"
    case Purged => "purged"
    case NeverRetained => "never_retained"
    case OtherState(text) => text
  }

  function ReadState(text: string): State {
    if text == "present" then Present
    else if text == "purged" then Purged
    else if text == "never_retained" then NeverRetained
    else OtherState(text)
  }

  function BindingText(b: Binding): string {
    match b
    case Unbound => ""
    case AgentInput => "model_attestation." + "compute_attestation." + "agent_input_digest"
    case AgentOutput => "model_attestation." + "compute_attestation." + "agent_output_digest"
    case EffectRequest => "effect.request_digest"
    case EffectResponse => "effect.response_digest"
    case OtherField(text) => text
  }

  function ReadBinding(text: string): Binding {
    if text == "" then Unbound
    else if text == BindingText(AgentInput) then AgentInput
    else if text == BindingText(AgentOutput) then AgentOutput
    else if text == BindingText(EffectRequest) then EffectRequest
    else if text == BindingText(EffectResponse) then EffectResponse
    else OtherField(text)
  }

  lemma StateRoundTrip(s: State)
    requires !s.OtherState?
    ensures ReadState(StateText(s)) == s
  {
    assert |StateText(Present)| == 7 && |StateText(Purged)| == 6 && |StateText(NeverRetained)| == 14;
  }

  lemma BindingRoundTrip(b: Binding)
    requires !b.OtherField?
    ensures ReadBinding(BindingText(b)) == b
  {
    assert |BindingText(AgentInput)| == 56 && |BindingText(AgentOutput)| == 57;
    assert |BindingText(EffectRequest)| == 21 && |BindingText(EffectResponse)| == 22;
  }

  lemma TextOfRead(text: string)
    ensures StateText(ReadState(text)) == text && BindingText(ReadBinding(text)) == text
  {
  }

  // ---------------------------------------------------------------- writing

  /** A field with omitempty. */
  function Optional(key: string, text: string): string {
    if text == "" then "" else key + Quote(text)
  }

  function ContentText(a: Artifact): string {
    match a.content
    case None => ""
    case Some(bytes) => Base64.Encode(bytes)
  }

  function StatePart(a: Artifact): string {
    STATE + Quote(StateText(a.state)) + (Optional(SHA, a.sha) + "}")
  }

  function ContentPart(a: Artifact): string {
    Optional(CONTENT, ContentText(a)) + StatePart(a)
  }

  function BindingPart(a: Artifact): string {
    Optional(BINDING, BindingText(a.binding)) + ContentPart(a)
  }

  function ArtifactText(a: Artifact): string {
    NAME + Quote(a.name) + BindingPart(a)
  }

  /** The elements of the inventory, separated by commas and followed by the tail. */
  function ArtifactsText(artifacts: seq<Artifact>, tail: string): string {
    if artifacts == [] then tail
    else ArtifactText(artifacts[0]) + (if |artifacts| == 1 then tail else "," + ArtifactsText(artifacts[1..], tail))
  }

  function EnvelopePart(r: Record): string {
    ENVELOPE + Quote(Base64.Encode(r.envelope)) + (ARTIFACTS + ArtifactsText(r.artifacts, "]}"))
  }

  function CapsulePart(r: Record): string {
    CAPSULE + Quote(Base64.Encode(r.capsule)) + EnvelopePart(r)
  }

  function Line(r: Record): string {
    CAPSULE_ID + Quote(r.capsuleId) + CapsulePart(r)
  }

  predicate Utf8Artifact(p: Platform, a: Artifact) {
    p.utf8(a.name) && p.utf8(BindingText(a.binding)) && p.utf8(StateText(a.state)) && p.utf8(a.sha)
  }

  predicate Utf8Record(p: Platform, r: Record) {
    p.utf8(r.capsuleId) && forall i | 0 <= i < |r.artifacts| :: Utf8Artifact(p, r.artifacts[i])
  }

  /** encoding/json/v2 refuses strings that are not UTF-8. */
  function Marshal(p: Platform, r: Record): Result<string> {
    if Utf8Record(p, r) then Ok(Line(r)) else Err(Failed)
  }

  // ---------------------------------------------------------------- reading

  function ReadField(t: string, key: string): (r: Option<(string, string)>)
    ensures r.Some? ==> |r.value.1| < |t|
  {
    if key <= t then ReadQuoted(t[|key|..]) else None
  }

  function ReadOptional(t: string, key: string): (r: Option<(Option<string>, string)>)
    ensures r.Some? ==> |r.value.1| <= |t|
  {
    if key <= t then
      var (s, rest) :- ReadQuoted(t[|key|..]);
      Some((Some(s), rest))
    else Some((None, t))
  }

  function ReadBytes(s: Option<string>): Option<Option<Bytes>> {
    match s
    case None => Some(None)
    case Some(text) =>
      var bytes :- Base64.Decode(text);
      Some(Some(bytes))
  }

  function OrEmpty(s: Option<string>): string {
    match s
    case None => ""
    case Some(text) => text
  }

  function ReadStatePart(t: string): (r: Option<((State, string), string)>)
    ensures r.Some? ==> |r.value.1| < |t|
  {
    var (state, t1) :- ReadField(t, STATE);
    var (sha, t2) :- ReadOptional(t1, SHA);
    if t2 == "" || t2[0] != '}' then None else Some(((ReadState(state), OrEmpty(sha)), t2[1..]))
  }

  function ReadArtifact(t: string): (r: Option<(Artifact, string)>)
    ensures r.Some? ==> |r.value.1| < |t|
  {
    var (name, t1) :- ReadField(t, NAME);
    var (binding, t2) :- ReadOptional(t1, BINDING);
    var (text, t3) :- ReadOptional(t2, CONTENT);
    var content :- ReadBytes(text);
    var ((state, sha), t4) :- ReadStatePart(t3);
    Some((Artifact(name, ReadBinding(OrEmpty(binding)), content, state, sha), t4))
  }

  function ReadArtifacts(t: string): (r: Option<(seq<Artifact>, string)>)
    decreases |t|
  {
    var (a, rest) :- ReadArtifact(t);
    if rest == "" then None
    else if rest[0] == ']' then Some(([a], rest[1..]))
    else if rest[0] != ',' then None
    else
      var (more, end) :- ReadArtifacts(rest[1..]);
      Some(([a] + more, end))
  }

  function Decode(t: string): Option<Record> {
    var (id, t1) :- ReadField(t, CAPSULE_ID);
    var (capsuleText, t2) :- ReadField(t1, CAPSULE);
    var capsule :- Base64.Decode(capsuleText);
    var (envelopeText, t3) :- ReadField(t2, ENVELOPE);
    var envelope :- Base64.Decode(envelopeText);
    if !(ARTIFACTS <= t3) then None
    else
      var t4 := t3[|ARTIFACTS|..];
      if t4 == "]}" then Some(Record(id, capsule, envelope, []))
      else
        var (artifacts, t5) :- ReadArtifacts(t4);
        if t5 == "}" then Some(Record(id, capsule, envelope, artifacts)) else None
  }

  // ---------------------------------------------------------------- round trip

  /** What a line keeps of an artifact: omitempty makes empty content absent, and fields are known by their texts. */
  function NormalArtifact(a: Artifact): Artifact {
    Artifact(a.name, ReadBinding(BindingText(a.binding)), if a.content == Some("") then None else a.content,
             ReadState(StateText(a.state)), a.sha)
  }

  function NormalArtifacts(artifacts: seq<Artifact>): (n: seq<Artifact>)
    ensures |n| == |artifacts|
    ensures forall i | 0 <= i < |artifacts| :: n[i] == NormalArtifact(artifacts[i])
  {
    if artifacts == [] then [] else [NormalArtifact(artifacts[0])] + NormalArtifacts(artifacts[1..])
  }

  function Normal(r: Record): Record {
    r.(artifacts := NormalArtifacts(r.artifacts))
  }

  lemma ReadWrittenField(key: string, s: string, tail: string, rest: string)
    ensures ReadField(key + Quote(s) + tail + rest, key) == Some((s, tail + rest))
  {
    assert (key + Quote(s) + tail + rest)[|key|..] == Quote(s) + (tail + rest);
    ReadQuote(s, tail + rest);
  }

  lemma ReadWrittenOptional(key: string, s: string, tail: string, rest: string)
    requires !(key <= tail + rest)
    ensures ReadOptional(Optional(key, s) + tail + rest, key) == Some((if s == "" then None else Some(s), tail + rest))
  {
    if s == "" {
      assert Optional(key, s) + tail + rest == tail + rest;
    } else {
      ReadWrittenField(key, s, tail, rest);
    }
  }

  lemma ReadWrittenContent(a: Artifact)
    ensures ReadBytes(if ContentText(a) == "" then None else Some(ContentText(a))) == Some(NormalArtifact(a).content)
  {
    if a.content.Some? {
      Base64.DecodeEncode(a.content.value);
      Base64.EncodeShape(a.content.value);
    }
  }

  lemma ReadWrittenState(a: Artifact, rest: string)
    ensures ReadStatePart(StatePart(a) + rest) == Some(((ReadState(StateText(a.state)), a.sha), rest))
  {
    ReadWrittenField(STATE, StateText(a.state), Optional(SHA, a.sha) + "}", rest);
    var t1 := Optional(SHA, a.sha) + "}" + rest;
    assert !(SHA <= "}" + rest) by {
      assert ("}" + rest)[0] == '}';
    }
    ReadWrittenOptional(SHA, a.sha, "}", rest);
    assert ("}" + rest)[1..] == rest;
  }

  lemma PartsDiffer(a: Artifact, rest: string)
    ensures !(CONTENT <= StatePart(a) + rest) && !(BINDING <= ContentPart(a) + rest)
  {
    assert (StatePart(a) + rest)[2] == 's';
    assert (ContentPart(a) + rest)[2] == if ContentText(a) == "" then 's' else 'c';
  }

  lemma ReadWrittenArtifact(a: Artifact, rest: string)
    ensures ReadArtifact(ArtifactText(a) + rest) == Some((NormalArtifact(a), rest))
  {
    PartsDiffer(a, rest);
    ReadWrittenField(NAME, a.name, BindingPart(a), rest);
    ReadWrittenOptional(BINDING, BindingText(a.binding), ContentPart(a), rest);
    ReadWrittenOptional(CONTENT, ContentText(a), StatePart(a), rest);
    ReadWrittenContent(a);
    ReadWrittenState(a, rest);
  }

  lemma ReadLastArtifact(a: Artifact, rest: string)
    ensures ReadArtifacts(ArtifactText(a) + ("]" + rest)) == Some(([NormalArtifact(a)], rest))
  {
    ReadWrittenArtifact(a, "]" + rest);
    assert ("]" + rest)[1..] == rest;
  }

  lemma ReadNextArtifact(a: Artifact, x: string, more: seq<Artifact>, rest: string)
    requires ReadArtifacts(x) == Some((more, rest))
    ensures ReadArtifacts(ArtifactText(a) + ("," + x)) == Some(([NormalArtifact(a)] + more, rest))
  {
    ReadWrittenArtifact(a, "," + x);
    assert ("," + x)[1..] == x;
  }

  lemma NormalArtifactsCons(artifacts: seq<Artifact>)
    requires artifacts != []
    ensures NormalArtifacts(artifacts) == [NormalArtifact(artifacts[0])] + NormalArtifacts(artifacts[1..])
    ensures |artifacts| == 1 ==> NormalArtifacts(artifacts) == [NormalArtifact(artifacts[0])]
  {
  }

  lemma ArtifactsTextCons(artifacts: seq<Artifact>, tail: string)
    requires artifacts != []
    ensures |artifacts| == 1 ==> ArtifactsText(artifacts, tail) == ArtifactText(artifacts[0]) + tail
    ensures |artifacts| > 1 ==>
              ArtifactsText(artifacts, tail) == ArtifactText(artifacts[0]) + ("," + ArtifactsText(artifacts[1..], tail))
  {
  }

  lemma {:induction false} ReadWrittenArtifacts(artifacts: seq<Artifact>, tail: string, rest: string)
    requires artifacts != [] && tail == "]" + rest
    ensures ReadArtifacts(ArtifactsText(artifacts, tail)) == Some((NormalArtifacts(artifacts), rest))
  {
    NormalArtifactsCons(artifacts);
    ArtifactsTextCons(artifacts, tail);
    if |artifacts| == 1 {
      ReadLastArtifact(artifacts[0], rest);
    } else {
      ReadWrittenArtifacts(artifacts[1..], tail, rest);
      ReadNextArtifact(artifacts[0], ArtifactsText(artifacts[1..], tail), NormalArtifacts(artifacts[1..]), rest);
    }
  }

  lemma ArtifactTextStarts(a: Artifact)
    ensures |ArtifactText(a)| > 2 && ArtifactText(a)[0] == '{'
  {
  }

  /** Reading a written line gives the record back, except that empty content is read as absent. */
  lemma RoundTrip(r: Record)
    ensures Decode(Line(r)) == Some(Normal(r))
  {
    ReadWrittenField(CAPSULE_ID, r.capsuleId, CapsulePart(r), "");
    ReadWrittenField(CAPSULE, Base64.Encode(r.capsule), EnvelopePart(r), "");
    Base64.DecodeEncode(r.capsule);
    ReadWrittenField(ENVELOPE, Base64.Encode(r.envelope), ARTIFACTS + ArtifactsText(r.artifacts, "]}"), "");
    Base64.DecodeEncode(r.envelope);
    Trimmed(Line(r), CapsulePart(r), EnvelopePart(r), ARTIFACTS + ArtifactsText(r.artifacts, "]}"));
    ReadWrittenInventory(r.artifacts);
  }

  lemma Trimmed(a: string, b: string, c: string, d: string)
    ensures a + "" == a && b + "" == b && c + "" == c && d + "" == d
  {
  }

  lemma ReadWrittenInventory(artifacts: seq<Artifact>)
    ensures var t := ArtifactsText(artifacts, "]}");
            (ARTIFACTS + t)[|ARTIFACTS|..] == t &&
            if artifacts == [] then t == "]}" && NormalArtifacts(artifacts) == []
            else t != "]}" && ReadArtifacts(t) == Some((NormalArtifacts(artifacts), "}"))
  {
    if artifacts != [] {
      assert "]" + "}" == "]}";
      ReadWrittenArtifacts(artifacts, "]}", "}");
      ArtifactTextStarts(artifacts[0]);
      assert ArtifactsText(artifacts, "]}")[0] == '{';
    }
  }

  /** Each string is represented by one value only. */
  predicate IsCanonical(a: Artifact) {
    ReadState(StateText(a.state)) == a.state && ReadBinding(BindingText(a.binding)) == a.binding
  }

  /** The round trip is the identity exactly on records without empty non-nil content. */
  lemma RoundTripExact(r: Record)
    requires forall i | 0 <= i < |r.artifacts| :: IsCanonical(r.artifacts[i])
    ensures Decode(Line(r)) == Some(r) <==> forall i | 0 <= i < |r.artifacts| :: r.artifacts[i].content != Some("")
  {
    RoundTrip(r);
    if forall i | 0 <= i < |r.artifacts| :: r.artifacts[i].content != Some("") {
      assert NormalArtifacts(r.artifacts) == r.artifacts;
    } else {
      var i :| 0 <= i < |r.artifacts| && r.artifacts[i].content == Some("");
      assert NormalArtifacts(r.artifacts)[i] != r.artifacts[i];
    }
  }
}
