/** The written line, letter by letter. */
module Wire {
  import opened Common
  import opened Records
  import opened JsonText
  import opened LineCodec
  import opened LineShape
  import Base64

  // ---------------------------------------------------------------- base64

  /** The alphabet of section 4 of RFC 4648. */
  lemma Alphabet(v: int)
    requires 0 <= v < 64
    ensures v < 26 ==> Base64.Letter(v) as int == 'A' as int + v
    ensures 26 <= v < 52 ==> Base64.Letter(v) as int == 'a' as int + (v - 26)
    ensures 52 <= v < 62 ==> Base64.Letter(v) as int == '0' as int + (v - 52)
    ensures Base64.Letter(62) == '+' && Base64.Letter(63) == '/'
  {
  }

  /** Three bytes are four letters: their 24 bits, six at a time, the high ones first. */
  lemma ThreeBytes(a: int, b: int, c: int)
    requires 0 <= a < 256 && 0 <= b < 256 && 0 <= c < 256
    ensures var bits := a * 65536 + b * 256 + c;
            Base64.Encode([a as char, b as char, c as char]) ==
            [Base64.Letter(bits / 262144), Base64.Letter(bits / 4096 % 64), Base64.Letter(bits / 64 % 64),
             Base64.Letter(bits % 64)]
  {
    var bits := a * 65536 + b * 256 + c;
    Sextets(a, b, c);
    var s: Bytes := [a as char, b as char, c as char];
    assert s[0] as int == a && s[1] as int == b && s[2] as int == c;
  }

  lemma Sextets(a: int, b: int, c: int)
    requires 0 <= a < 256 && 0 <= b < 256 && 0 <= c < 256
    ensures var bits := a * 65536 + b * 256 + c;
            bits / 262144 == a / 4 && bits / 4096 % 64 == a % 4 * 16 + b / 16 &&
            bits / 64 % 64 == b % 16 * 4 + c / 64 && bits % 64 == c % 64
  {
    HighSextets(a, b * 256 + c);
    LowSextets(a * 16 + b / 16, b % 16, c);
    assert a * 65536 + b * 256 + c == (a * 16 + b / 16) * 4096 + b % 16 * 256 + c;
    assert (b * 256 + c) / 4096 == b / 16;
  }

  lemma HighSextets(a: int, low: int)
    requires 0 <= a < 256 && 0 <= low < 65536
    ensures (a * 65536 + low) / 262144 == a / 4
    ensures (a * 65536 + low) / 4096 % 64 == a % 4 * 16 + low / 4096
  {
    var sextets := a * 16 + low / 4096;
    assert a * 65536 + low == 4096 * sextets + low % 4096;
    assert (4096 * sextets + low % 4096) / 4096 == sextets;
    assert sextets == 64 * (a / 4) + (a % 4 * 16 + low / 4096);
    assert a * 65536 + low == 262144 * (a / 4) + (a % 4 * 65536 + low);
  }

  lemma LowSextets(high: int, b: int, c: int)
    requires 0 <= high && 0 <= b < 16 && 0 <= c < 256
    ensures (high * 4096 + b * 256 + c) / 64 % 64 == b * 4 + c / 64
    ensures (high * 4096 + b * 256 + c) % 64 == c % 64
  {
    var sextets := 64 * high + (b * 4 + c / 64);
    assert high * 4096 + b * 256 + c == 64 * sextets + c % 64;
    assert (64 * sextets + c % 64) / 64 == sextets && (64 * sextets + c % 64) % 64 == c % 64;
    assert sextets % 64 == b * 4 + c / 64;
  }

  /** The published test vectors. */
  lemma Vectors()
    ensures Base64.Encode("") == ""
    ensures Base64.Encode("f") == "Zg=="
    ensures Base64.Encode("fo") == "Zm8="
    ensures Base64.Encode("foo") == "Zm9v"
  {
  }

  /** One input for each of the last two letters. */
  lemma LastLetters()
    ensures Base64.Encode([251 as char, 239 as char, 190 as char]) == "++++"
    ensures Base64.Encode([255 as char, 255 as char, 255 as char]) == "////"
  {
  }

  lemma LongVectors()
    ensures Base64.Encode("foob") == "Zm9vYg=="
    ensures Base64.Encode("fooba") == "Zm9vYmE="
    ensures Base64.Encode("foobar") == "Zm9vYmFy"
  {
    assert "foob"[..3] == "foo" && "foob"[3..] == "b";
    assert "fooba"[..3] == "foo" && "fooba"[3..] == "ba";
    assert "foobar"[..3] == "foo" && "foobar"[3..] == "bar";
    assert Base64.Encode("b") == "Yg==" && Base64.Encode("ba") == "YmE=" && Base64.Encode("bar") == "YmFy";
    assert Base64.EncodeGroup("foo") == "Zm9v";
  }

  // ---------------------------------------------------------------- strings

  /** The escapes encoding/json/v2 writes. */
  lemma Escapes()
    ensures EscapeChar('"') == "\\\"" && EscapeChar('\\') == "\\\\"
    ensures EscapeChar(8 as char) == "\\b" && EscapeChar(12 as char) == "\\f"
    ensures EscapeChar('\n') == "\\n" && EscapeChar('\r') == "\\r" && EscapeChar('\t') == "\\t"
    ensures EscapeChar(0 as char) == "\\u0000" && EscapeChar(1 as char) == "\\u0001"
    ensures EscapeChar(11 as char) == "\\u000b" && EscapeChar(31 as char) == "\\u001f"
    ensures forall c: char | c >= ' ' && c != '"' && c != '\\' :: EscapeChar(c) == [c]
  {
  }

  // ---------------------------------------------------------------- the line

  function StateJson(s: State): string {
    match s
    case Present => "present"
    case Purged => "purged"
    case NeverRetained => "never_retained"
    case OtherState(text) => text
  }

  function BindingJson(b: Binding): string {
    match b
    case Unbound => ""
    case AgentInput => "model_attestation.compute_attestation.agent_input_digest"
    case AgentOutput => "model_attestation.compute_attestation.agent_output_digest"
    case EffectRequest => "effect.request_digest"
    case EffectResponse => "effect.response_digest"
    case OtherField(text) => text
  }

  /** What stands up to the opening quote of a string, the string, and its closing quote. */
  function Closed(opening: string, text: string): string {
    opening + Escape(text) + "\""
  }

  /** An artifact as it stands in a line; binding, content and hash only if they are not empty. */
  function ArtifactJson(a: Artifact): string {
    Closed("{\"name\":\"", a.name) +
    (if BindingJson(a.binding) == "" then "" else Closed(",\"binding\":\"", BindingJson(a.binding))) +
    (if a.content in {None, Some("")} then "" else Closed(",\"content\":\"", Base64.Encode(a.content.value))) +
    Closed(",\"state\":\"", StateJson(a.state)) +
    (if a.sha == "" then "" else Closed(",\"content_sha256\":\"", a.sha)) +
    "}"
  }

  function InventoryJson(artifacts: seq<Artifact>): string {
    if artifacts == [] then ""
    else if |artifacts| == 1 then ArtifactJson(artifacts[0])
    else ArtifactJson(artifacts[0]) + "," + InventoryJson(artifacts[1..])
  }

  function RecordJson(r: Record): string {
    Closed("{\"capsule_id\":\"", r.capsuleId) + Closed(",\"capsule\":\"", Base64.Encode(r.capsule)) +
    Closed(",\"producer_envelope\":\"", Base64.Encode(r.envelope)) +
    ",\"artifacts\":[" + InventoryJson(r.artifacts) + "]}"
  }

  lemma TextsAgree(a: Artifact)
    ensures BindingText(a.binding) == BindingJson(a.binding) && StateText(a.state) == StateJson(a.state)
  {
    match a.binding
    case AgentInput => AttestationText();
    case AgentOutput => AttestationText();
    case _ =>
  }

  lemma AttestationText()
    ensures "model_attestation." + "compute_attestation." == "model_attestation.compute_attestation."
    ensures BindingText(AgentInput) == BindingJson(AgentInput) && BindingText(AgentOutput) == BindingJson(AgentOutput)
  {
    Joined("agent_input_digest");
    Joined("agent_output_digest");
  }

  lemma Joined(field: string)
    ensures "model_attestation." + "compute_attestation." + field == "model_attestation.compute_attestation." + field
  {
  }

  lemma EmptyText(s: Bytes)
    ensures Base64.Encode(s) == "" <==> s == ""
  {
    Base64.EncodeShape(s);
  }

  lemma Quoted(key: string, opening: string, text: string)
    requires key + "\"" == opening
    ensures key + Quote(text) == Closed(opening, text)
  {
  }

  lemma NameKey(text: string)
    ensures NAME + Quote(text) == Closed("{\"name\":\"", text)
  {
    Quoted(NAME, "{\"name\":\"", text);
  }

  lemma BindingKey(text: string)
    ensures BINDING + Quote(text) == Closed(",\"binding\":\"", text)
  {
    Quoted(BINDING, ",\"binding\":\"", text);
  }

  lemma ContentKey(text: string)
    ensures CONTENT + Quote(text) == Closed(",\"content\":\"", text)
  {
    Quoted(CONTENT, ",\"content\":\"", text);
  }

  lemma StateKey(text: string)
    ensures STATE + Quote(text) == Closed(",\"state\":\"", text)
  {
    Quoted(STATE, ",\"state\":\"", text);
  }

  lemma HashKey(text: string)
    ensures SHA + Quote(text) == Closed(",\"content_sha256\":\"", text)
  {
    Quoted(SHA, ",\"content_sha256\":\"", text);
  }

  lemma RecordKeys(id: string, capsule: string, envelope: string)
    ensures CAPSULE_ID + Quote(id) == Closed("{\"capsule_id\":\"", id)
    ensures CAPSULE + Quote(capsule) == Closed(",\"capsule\":\"", capsule)
    ensures ENVELOPE + Quote(envelope) == Closed(",\"producer_envelope\":\"", envelope)
  {
    Quoted(CAPSULE_ID, "{\"capsule_id\":\"", id);
    Quoted(CAPSULE, ",\"capsule\":\"", capsule);
    Quoted(ENVELOPE, ",\"producer_envelope\":\"", envelope);
  }

  lemma ArtifactInLiterals(a: Artifact)
    ensures ArtifactText(a) == ArtifactJson(a)
  {
    TextsAgree(a);
    NameKey(a.name);
    BindingKey(BindingText(a.binding));
    ContentKey(ContentText(a));
    StateKey(StateText(a.state));
    HashKey(a.sha);
    if a.content.Some? {
      EmptyText(a.content.value);
    }
    Chain(NAME + Quote(a.name), Optional(BINDING, BindingText(a.binding)), Optional(CONTENT, ContentText(a)),
          STATE + Quote(StateText(a.state)), Optional(SHA, a.sha), "}");
  }

  lemma Chain(a: string, b: string, c: string, d: string, e: string, f: string)
    ensures a + (b + (c + (d + (e + f)))) == a + b + c + d + e + f
  {
  }

  lemma {:induction false} InventoryInLiterals(artifacts: seq<Artifact>, tail: string)
    ensures ArtifactsText(artifacts, tail) == InventoryJson(artifacts) + tail
  {
    if artifacts == [] {
      assert "" + tail == tail;
    } else {
      ArtifactInLiterals(artifacts[0]);
      InventoryInLiterals(artifacts[1..], tail);
      Separated(ArtifactJson(artifacts[0]), InventoryJson(artifacts[1..]), tail);
    }
  }

  lemma Separated(a: string, b: string, tail: string)
    ensures a + ("," + (b + tail)) == a + "," + b + tail
  {
  }

  /** The line of any record, with its keys, their order and its separators written out. */
  lemma LineInLiterals(r: Record)
    ensures Line(r) == RecordJson(r)
  {
    var capsule, envelope := Base64.Encode(r.capsule), Base64.Encode(r.envelope);
    RecordKeys(r.capsuleId, capsule, envelope);
    InventoryInLiterals(r.artifacts, "]}");
    Chain(CAPSULE_ID + Quote(r.capsuleId), CAPSULE + Quote(capsule), ENVELOPE + Quote(envelope), ",\"artifacts\":[",
          InventoryJson(r.artifacts), "]}");
  }

  // ---------------------------------------------------------------- plain fields, and the bytes of the golden line

  /** The byte fields of the cross-language golden line. */
  lemma GoldenBytes()
    ensures Base64.Encode("{}") == "e30=" && Base64.Encode("{}\n") == "e30K"
    ensures Base64.Encode([0 as char, 1 as char, 2 as char, 255 as char]) == "AAEC/w=="
  {
    var s: Bytes := [0 as char, 1 as char, 2 as char, 255 as char];
    assert s[..3] == [0 as char, 1 as char, 2 as char] && s[3..] == [255 as char];
    assert Base64.EncodeGroup(s[..3]) == "AAEC" && Base64.Encode(s[3..]) == "/w==";
  }

  lemma ClosedPlain(opening: string, text: string)
    requires IsPlain(text)
    ensures Closed(opening, text) == opening + text + "\""
  {
    EscapePlain(text);
  }

  /** A record without artifacts, under an ID that needs no escapes. */
  lemma EmptyInventoryLine(r: Record)
    requires IsPlain(r.capsuleId) && r.artifacts == []
    ensures Line(r) ==
            ("{\"capsule_id\":\"" + r.capsuleId + "\"") + (",\"capsule\":\"" + Base64.Encode(r.capsule) + "\"") +
            (",\"producer_envelope\":\"" + Base64.Encode(r.envelope) + "\"") + ",\"artifacts\":[" + "" + "]}"
  {
    LineInLiterals(r);
    EncodePlain(r.capsule);
    EncodePlain(r.envelope);
    ClosedPlain("{\"capsule_id\":\"", r.capsuleId);
    ClosedPlain(",\"capsule\":\"", Base64.Encode(r.capsule));
    ClosedPlain(",\"producer_envelope\":\"", Base64.Encode(r.envelope));
  }

  /** An artifact with every field, none of which needs escapes; and one with none of the optional fields. */
  lemma PlainArtifacts(a: Artifact, b: Artifact)
    requires IsPlain(a.name) && IsPlain(BindingJson(a.binding)) && IsPlain(StateJson(a.state)) && IsPlain(a.sha)
    requires a.binding == EffectRequest && a.content.Some? && a.content != Some("") && a.sha != ""
    requires IsPlain(b.name) && IsPlain(StateJson(b.state)) && b.binding == Unbound && b.content == None && b.sha == ""
    ensures ArtifactText(a) ==
            ("{\"name\":\"" + a.name + "\"") + (",\"binding\":\"" + "effect.request_digest" + "\"") +
            (",\"content\":\"" + Base64.Encode(a.content.value) + "\"") +
            (",\"state\":\"" + StateJson(a.state) + "\"") + (",\"content_sha256\":\"" + a.sha + "\"") + "}"
    ensures ArtifactText(b) ==
            ("{\"name\":\"" + b.name + "\"") + "" + "" + (",\"state\":\"" + StateJson(b.state) + "\"") + "" + "}"
  {
    ArtifactInLiterals(a);
    ArtifactInLiterals(b);
    EncodePlain(a.content.value);
    ClosedPlain("{\"name\":\"", a.name);
    ClosedPlain(",\"binding\":\"", BindingJson(a.binding));
    ClosedPlain(",\"content\":\"", Base64.Encode(a.content.value));
    ClosedPlain(",\"state\":\"", StateJson(a.state));
    ClosedPlain(",\"content_sha256\":\"", a.sha);
    ClosedPlain("{\"name\":\"", b.name);
    ClosedPlain(",\"state\":\"", StateJson(b.state));
  }

  /** A record marshals exactly when its ID and the names, bindings, states and hashes of its artifacts are UTF-8. */
  lemma MarshalExact(p: Platform, r: Record)
    ensures Marshal(p, r).Ok? <==>
            p.utf8(r.capsuleId) && forall i | 0 <= i < |r.artifacts| ::
              var a := r.artifacts[i];
              p.utf8(a.name) && p.utf8(BindingJson(a.binding)) && p.utf8(StateJson(a.state)) && p.utf8(a.sha)
    ensures Marshal(p, r).Ok? ==> Marshal(p, r) == Ok(RecordJson(r))
  {
    LineInLiterals(r);
    forall i | 0 <= i < |r.artifacts|
      ensures BindingText(r.artifacts[i].binding) == BindingJson(r.artifacts[i].binding)
      ensures StateText(r.artifacts[i].state) == StateJson(r.artifacts[i].state)
    {
      TextsAgree(r.artifacts[i]);
    }
  }
}
