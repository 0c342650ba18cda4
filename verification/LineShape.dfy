/** The shape of written lines: no control characters, a bounded length, and what a JSON library must make of them. */
module LineShape {
  import opened Common
  import opened Records
  import opened JsonText
  import opened LineCodec
  import Base64

  lemma EncodePlain(s: Bytes)
    ensures IsPlain(Base64.Encode(s))
  {
    Base64.EncodeShape(s);
  }

  lemma ConcatPrintable(a: string, b: string)
    requires ControlFree(a) && ControlFree(b)
    ensures ControlFree(a + b)
  {
  }

  lemma FieldPrintable(key: string, s: string, tail: string)
    requires ControlFree(key) && ControlFree(tail)
    ensures ControlFree(key + Quote(s) + tail) && ControlFree(Optional(key, s) + tail)
  {
    EscapePrintable(s);
    ConcatPrintable("\"", Escape(s));
    ConcatPrintable("\"" + Escape(s), "\"");
    ConcatPrintable(key, Quote(s));
    ConcatPrintable(key + Quote(s), tail);
    assert "" + tail == tail;
  }

  lemma ArtifactKeysPrintable()
    ensures ControlFree(NAME) && ControlFree(BINDING) && ControlFree(CONTENT) && ControlFree(STATE) &&
            ControlFree(SHA) && ControlFree("}")
  {
  }

  lemma RecordKeysPrintable()
    ensures ControlFree(CAPSULE_ID) && ControlFree(CAPSULE) && ControlFree(ENVELOPE) && ControlFree(ARTIFACTS) &&
            ControlFree("]}")
  {
  }

  lemma ArtifactPrintable(a: Artifact)
    ensures ControlFree(ArtifactText(a))
  {
    ArtifactKeysPrintable();
    FieldPrintable(SHA, a.sha, "}");
    FieldPrintable(STATE, StateText(a.state), Optional(SHA, a.sha) + "}");
    FieldPrintable(CONTENT, ContentText(a), StatePart(a));
    FieldPrintable(BINDING, BindingText(a.binding), ContentPart(a));
    FieldPrintable(NAME, a.name, BindingPart(a));
  }

  lemma {:induction false} ArtifactsPrintable(artifacts: seq<Artifact>, tail: string)
    requires ControlFree(tail)
    ensures ControlFree(ArtifactsText(artifacts, tail))
  {
    if artifacts != [] {
      ArtifactPrintable(artifacts[0]);
      ArtifactsPrintable(artifacts[1..], tail);
    }
  }

  /** A written line holds no control character, so neither LF nor CR can split or shorten it. */
  lemma LinePrintable(r: Record)
    ensures ControlFree(Line(r))
  {
    RecordKeysPrintable();
    ArtifactsPrintable(r.artifacts, "]}");
    var inventory := ARTIFACTS + ArtifactsText(r.artifacts, "]}");
    ConcatPrintable(ARTIFACTS, ArtifactsText(r.artifacts, "]}"));
    FieldPrintable(ENVELOPE, Base64.Encode(r.envelope), inventory);
    FieldPrintable(CAPSULE, Base64.Encode(r.capsule), EnvelopePart(r));
    FieldPrintable(CAPSULE_ID, r.capsuleId, CapsulePart(r));
  }

  // ---------------------------------------------------------------- length

  function ContentLength(a: Artifact): nat {
    match a.content
    case None => 0
    case Some(bytes) => |bytes|
  }

  function ContentSize(artifacts: seq<Artifact>): nat {
    if artifacts == [] then 0 else ContentLength(artifacts[0]) + ContentSize(artifacts[1..])
  }

  lemma {:induction false} ContentSizeSnoc(artifacts: seq<Artifact>, a: Artifact)
    ensures ContentSize(artifacts + [a]) == ContentSize(artifacts) + ContentLength(a)
  {
    if artifacts == [] {
      assert [a][1..] == [];
    } else {
      assert (artifacts + [a])[1..] == artifacts[1..] + [a];
      ContentSizeSnoc(artifacts[1..], a);
    }
  }

  /** Bounds that hold of every admitted artifact. */
  predicate Small(a: Artifact) {
    IsPlain(a.name) && |a.name| <= 64 &&
    IsPlain(BindingText(a.binding)) && |BindingText(a.binding)| <= 57 &&
    IsPlain(StateText(a.state)) && |StateText(a.state)| <= 14 &&
    IsPlain(a.sha) && |a.sha| <= 64
  }

  lemma OptionalLength(key: string, text: string)
    requires IsPlain(text)
    ensures |Optional(key, text)| == if text == "" then 0 else |key| + |text| + 2
  {
    EscapePlain(text);
  }

  lemma ArtifactLength(a: Artifact)
    requires Small(a)
    ensures 3 * |ArtifactText(a)| <= 809 + 4 * ContentLength(a)
  {
    EscapePlain(a.name);
    EscapePlain(StateText(a.state));
    OptionalLength(BINDING, BindingText(a.binding));
    OptionalLength(SHA, a.sha);
    if a.content.Some? {
      EncodePlain(a.content.value);
      Base64.EncodeShape(a.content.value);
    }
    OptionalLength(CONTENT, ContentText(a));
    assert |StatePart(a)| <= 9 + 16 + 84 + 1;
    assert 3 * |ContentPart(a)| <= 3 * |StatePart(a)| + 39 + 4 * ContentLength(a) + 8;
  }

  lemma {:induction false} ArtifactsLength(artifacts: seq<Artifact>, tail: string)
    requires forall i | 0 <= i < |artifacts| :: Small(artifacts[i])
    ensures 3 * |ArtifactsText(artifacts, tail)| <= 812 * |artifacts| + 4 * ContentSize(artifacts) + 3 * |tail|
  {
    if artifacts != [] {
      ArtifactLength(artifacts[0]);
      ArtifactsLength(artifacts[1..], tail);
    }
  }

  /** Base64 expansion included, a line is at most a third longer than its bytes plus a fixed overhead per artifact. */
  lemma LineLength(r: Record)
    requires IsDigest(r.capsuleId) && forall i | 0 <= i < |r.artifacts| :: Small(r.artifacts[i])
    ensures 3 * |Line(r)| <= 412 + 812 * |r.artifacts| + 4 * (|r.capsule| + |r.envelope| + ContentSize(r.artifacts))
  {
    EscapePlain(r.capsuleId);
    EncodePlain(r.capsule);
    EncodePlain(r.envelope);
    EscapePlain(Base64.Encode(r.capsule));
    EscapePlain(Base64.Encode(r.envelope));
    Base64.EncodeShape(r.capsule);
    Base64.EncodeShape(r.envelope);
    ArtifactsLength(r.artifacts, "]}");
    assert |EnvelopePart(r)| == 21 + 2 + |Base64.Encode(r.envelope)| + 14 + |ArtifactsText(r.artifacts, "]}")|;
    assert |CapsulePart(r)| == 11 + 2 + |Base64.Encode(r.capsule)| + |EnvelopePart(r)|;
  }

  lemma PresentLength()
    ensures |Quote(StateText(Present))| == 9
  {
    EscapePlain(StateText(Present));
  }

  lemma PurgedLength()
    ensures |Quote(StateText(Purged))| == 8
  {
    EscapePlain(StateText(Purged));
  }

  lemma TombstoneLength(a: Artifact)
    ensures |ArtifactText(Tombstone(a))| <= |ArtifactText(a)|
  {
    if a.state == Present {
      var t := Tombstone(a);
      PresentLength();
      PurgedLength();
      assert ContentText(t) == "";
      assert |StatePart(t)| <= |StatePart(a)|;
      assert |ContentPart(t)| == |StatePart(t)|;
      assert |ContentPart(a)| >= |StatePart(a)|;
    }
  }

  lemma {:induction false} TombstonesLength(artifacts: seq<Artifact>, tail: string)
    ensures |ArtifactsText(Tombstones(artifacts), tail)| <= |ArtifactsText(artifacts, tail)|
  {
    if artifacts != [] {
      TombstoneLength(artifacts[0]);
      TombstonesLength(artifacts[1..], tail);
      assert Tombstones(artifacts)[1..] == Tombstones(artifacts[1..]);
    }
  }

  /** Purging never lengthens a line, whatever the record. */
  lemma PurgedLineNoLonger(r: Record)
    ensures |Line(Purge(r))| <= |Line(r)|
  {
    TombstonesLength(r.artifacts, "]}");
    assert |EnvelopePart(Purge(r))| <= |EnvelopePart(r)|;
    assert |CapsulePart(Purge(r))| <= |CapsulePart(r)|;
  }

  // ---------------------------------------------------------------- the laws of the platform

  predicate IsAscii(s: string) {
    forall i | 0 <= i < |s| :: ' ' <= s[i] <= '~'
  }

  /**
   * What is assumed of the foreign functions: a digest is 64 hexadecimal characters, printable ASCII
   * is UTF-8, a sort sorts, and the JSON reader gives every line in the canonical form the meaning
   * Decode gives it. On all other lines the reader may do anything.
   */
  ghost predicate Lawful(p: Platform) {
    (forall s :: IsDigest(p.sha256(s))) &&
    (forall s :: IsAscii(s) ==> p.utf8(s)) &&
    SortsByName(p.sortSlice) && SortsByName(p.orderBy) &&
    (forall line :: Decode(line).Some? && Utf8Record(p, Decode(line).value) ==>
      p.unmarshal(line) == Decode(line) && p.peek(line) == Peek(Decode(line).value.capsuleId, true))
  }

  lemma NormalKeepsTexts(p: Platform, r: Record)
    requires Utf8Record(p, r)
    ensures Utf8Record(p, Normal(r))
  {
    forall i | 0 <= i < |r.artifacts| ensures Utf8Artifact(p, NormalArtifact(r.artifacts[i])) {
      var a := r.artifacts[i];
      TextOfRead(StateText(a.state));
      TextOfRead(BindingText(a.binding));
    }
  }

  /** The store reads back what it wrote. */
  lemma ReadBack(p: Platform, r: Record)
    requires Lawful(p) && Utf8Record(p, r)
    ensures p.unmarshal(Line(r)) == Some(Normal(r))
    ensures p.peek(Line(r)) == Peek(r.capsuleId, true)
  {
    RoundTrip(r);
    NormalKeepsTexts(p, r);
  }
}
