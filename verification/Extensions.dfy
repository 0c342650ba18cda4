/** Merging extensions into a base payload. */
module Extensions {
  import opened Common
  import opened Json
  import opened Records
  import opened Admission

  datatype Extension = Extension(name: string, value: Bytes)

  /** The number checks of the upstream canonicalizer, on the text of a number. */
  datatype Numbers = Numbers(isFloat: string -> bool, isUnsafeInt: string -> bool)

  /** The member names the base profile defines. */
  const BASE_MEMBERS: set<string> := {
    "spec_version", "format_version", "canonicalization_id", "capsule_id", "action_id", "action_type",
    "operator", "developer", "timestamp", "epoch_id", "domain", "provenance", "provenance_mode",
    "disposition", "effect", "chain", "assurance", "cross_party", "model_attestation", "references",
    "constraints", "compliance", "signature", "key_id"
  }

  /** What Build writes before it merges extensions: nine members always, nine more where the input has them. */
  datatype BaseInput = BaseInput(
    specVersion: Value, formatVersion: Value, canonicalizationId: Value, actionId: Value, actionType: Value,
    operator: Value, developer: Value, timestamp: Value, assurance: Value,
    epochId: Option<Value>, domain: Option<Value>, provenance: Option<Value>, provenanceMode: Option<Value>,
    disposition: Option<Value>, effect: Option<Value>, chain: Option<Value>, modelAttestation: Option<Value>,
    references: Option<Value>)

  function FixedMembers(b: BaseInput): map<string, Value> {
    map["spec_version" := b.specVersion, "format_version" := b.formatVersion,
      "canonicalization_id" := b.canonicalizationId,
        "action_id" := b.actionId, "action_type" := b.actionType, "operator" := b.operator, "developer" := b.developer,
        "timestamp" := b.timestamp, "assurance" := b.assurance]
  }

  /** The members written only if the input has them, in the order of Build. */
  function OptionalMembers(b: BaseInput): seq<(string, Option<Value>)> {
    [("epoch_id", b.epochId), ("domain", b.domain), ("provenance", b.provenance), ("provenance_mode", b.provenanceMode),
     ("disposition", b.disposition), ("effect", b.effect), ("chain", b.chain),
       ("model_attestation", b.modelAttestation),
     ("references", b.references)]
  }

  function WithMembers(payload: map<string, Value>, members: seq<(string, Option<Value>)>): map<string, Value>
    decreases members
  {
    if members == [] then payload
    else
      var (key, value) := members[0];
      WithMembers(if value.Some? then payload[key := value.value] else payload, members[1..])
  }

  function BasePayload(b: BaseInput): map<string, Value> {
    WithMembers(FixedMembers(b), OptionalMembers(b))
  }

  lemma {:induction false} WithMembersKeys(payload: map<string, Value>, members: seq<(string, Option<Value>)>,
                                           base: set<string>)
    requires payload.Keys <= base && forall i | 0 <= i < |members| :: members[i].0 in base
    ensures WithMembers(payload, members).Keys <= base
    decreases members
  {
    if members != [] {
      var (key, value) := members[0];
      WithMembersKeys(if value.Some? then payload[key := value.value] else payload, members[1..], base);
    }
  }

  /** The members Build can write. */
  function WrittenKeys(b: BaseInput): set<string> {
    FixedMembers(b).Keys + set i | 0 <= i < |OptionalMembers(b)| :: OptionalMembers(b)[i].0
  }

  /** The base profile has the members Build can write and six that it never writes. */
  lemma BaseMembersExact(b: BaseInput)
    ensures BASE_MEMBERS ==
            WrittenKeys(b) + {"capsule_id", "cross_party", "constraints", "compliance", "signature", "key_id"}
  {
    var optional := set i | 0 <= i < |OptionalMembers(b)| :: OptionalMembers(b)[i].0;
    assert optional == {"epoch_id", "domain", "provenance", "provenance_mode", "disposition", "effect", "chain",
                        "model_attestation", "references"} by {
      OptionalKeys(b);
    }
    assert FixedMembers(b).Keys == {"spec_version", "format_version", "canonicalization_id", "action_id", "action_type",
                                    "operator", "developer", "timestamp", "assurance"};
  }

  lemma OptionalKeys(b: BaseInput)
    ensures var o := OptionalMembers(b);
            |o| == 9 && o[0].0 == "epoch_id" && o[1].0 == "domain" && o[2].0 == "provenance" &&
            o[3].0 == "provenance_mode" && o[4].0 == "disposition" && o[5].0 == "effect" && o[6].0 == "chain" &&
            o[7].0 == "model_attestation" && o[8].0 == "references"
  {
  }

  /** Build writes nothing but base-profile members. */
  lemma BasePayloadKeys(b: BaseInput)
    ensures BasePayload(b).Keys <= BASE_MEMBERS
  {
    assert FixedMembers(b).Keys <= BASE_MEMBERS;
    WithMembersKeys(FixedMembers(b), OptionalMembers(b), BASE_MEMBERS);
  }

  /** ^[a-z][a-z0-9_]*$ */
  predicate IsExtensionName(s: string) {
    s != "" && 'a' <= s[0] <= 'z' &&
    forall i | 0 <= i < |s| :: 'a' <= s[i] <= 'z' || '0' <= s[i] <= '9' || s[i] == '_'
  }

  /** checkExtensionNumbers: every number anywhere in the value is an integer in the interoperable range. */
  predicate SafeNumbers(n: Numbers, v: Value) {
    match v
    case Leaf(Number(text)) => !n.isFloat(text) && !n.isUnsafeInt(text)
    case Leaf(_) => true
    case Array(items) => forall i | 0 <= i < |items| :: SafeNumbers(n, items[i])
    case Object(members) => forall k | k in members :: SafeNumbers(n, members[k])
  }

  /** A step from a value to one of its parts: to a position of an array, or to a member of an object. */
  datatype Step = Index(i: nat) | Key(k: string)

  /** The part of a value at a path, if there is one. */
  function Part(v: Value, path: seq<Step>): Option<Value> {
    if path == [] then Some(v)
    else
      match path[0]
      case Index(i) => if v.Array? && i < |v.items| then Part(v.items[i], path[1..]) else None
      case Key(k) => if v.Object? && k in v.members then Part(v.members[k], path[1..]) else None
  }

  /** If the part at this path is a number, it is an integer in the interoperable range. */
  predicate SafeAt(n: Numbers, v: Value, path: seq<Step>) {
    match Part(v, path)
    case Some(Leaf(Number(text))) => !n.isFloat(text) && !n.isUnsafeInt(text)
    case _ => true
  }

  ghost predicate SafeEverywhere(n: Numbers, v: Value) {
    forall path :: SafeAt(n, v, path)
  }

  lemma {:induction false} SafeAlong(n: Numbers, v: Value, path: seq<Step>)
    requires SafeNumbers(n, v)
    ensures SafeAt(n, v, path)
    decreases path
  {
    if path != [] {
      match path[0]
      case Index(i) =>
        if v.Array? && i < |v.items| {
          SafeAlong(n, v.items[i], path[1..]);
        }
      case Key(k) =>
        if v.Object? && k in v.members {
          SafeAlong(n, v.members[k], path[1..]);
        }
    }
  }

  lemma PartOf(n: Numbers, v: Value, step: Step, w: Value)
    requires SafeEverywhere(n, v) && Part(v, [step]) == Some(w)
    ensures SafeEverywhere(n, w)
  {
    forall path ensures SafeAt(n, w, path) {
      assert ([step] + path)[1..] == path && [step][1..] == [];
      assert SafeAt(n, v, [step] + path);
    }
  }

  /** The recursive check refuses exactly a value that has an unsafe number somewhere, at whatever depth. */
  lemma {:induction false} SafeNumbersExact(n: Numbers, v: Value)
    ensures SafeNumbers(n, v) <==> SafeEverywhere(n, v)
    decreases v
  {
    if SafeNumbers(n, v) {
      forall path ensures SafeAt(n, v, path) {
        SafeAlong(n, v, path);
      }
    }
    if SafeEverywhere(n, v) {
      match v
      case Leaf(_) =>
        assert SafeAt(n, v, []);
      case Array(items) =>
        forall i | 0 <= i < |items| ensures SafeNumbers(n, items[i]) {
          assert [Index(i)][1..] == [];
          PartOf(n, v, Index(i), items[i]);
          SafeNumbersExact(n, items[i]);
        }
      case Object(members) =>
        forall k | k in members ensures SafeNumbers(n, members[k]) {
          assert [Key(k)][1..] == [];
          PartOf(n, v, Key(k), members[k]);
          SafeNumbersExact(n, members[k]);
        }
    }
  }

  /** extensionValue, given the payload built so far; base is the set of base-profile names. */
  function ExtensionValue(p: Platform, n: Numbers, base: set<string>, e: Extension,
                          payload: map<string, Value>): Option<Value> {
    if !IsExtensionName(e.name) || e.name in base || e.name in payload || |e.value| == 0 then None
    else
      var value :- DecodeText(p, e.value);
      if value == Leaf(Null) || !SafeNumbers(n, value) then None else Some(value)
  }

  function Merge(p: Platform, n: Numbers, base: set<string>, payload: map<string, Value>,
                 extensions: seq<Extension>): Option<map<string, Value>> {
    if extensions == [] then Some(payload)
    else
      var last := extensions[|extensions| - 1];
      var before :- Merge(p, n, base, payload, extensions[..|extensions| - 1]);
      var value :- ExtensionValue(p, n, base, last, before);
      Some(before[last.name := value])
  }

  /** The extension loop of Build. */
  method MergeExtensions(p: Platform, n: Numbers, base: set<string>, payload: map<string, Value>,
                         extensions: seq<Extension>)
    returns (merged: Option<map<string, Value>>)
    ensures merged == Merge(p, n, base, payload, extensions)
  {
    var members := payload;
    for i := 0 to |extensions|
      invariant Merge(p, n, base, payload, extensions[..i]) == Some(members)
    {
      assert extensions[..i + 1][..i] == extensions[..i];
      var value := ExtensionValue(p, n, base, extensions[i], members);
      if value.None? {
        MergePrefix(p, n, base, payload, extensions, i + 1);
        return None;
      }
      members := members[extensions[i].name := value.value];
    }
    assert extensions[..|extensions|] == extensions;
    merged := Some(members);
  }

  lemma {:induction false} MergePrefix(p: Platform, n: Numbers, base: set<string>, payload: map<string, Value>,
                                       extensions: seq<Extension>, k: nat)
    requires k <= |extensions| && Merge(p, n, base, payload, extensions[..k]).None?
    ensures Merge(p, n, base, payload, extensions).None?
    decreases |extensions|
  {
    if k < |extensions| {
      var init := extensions[..|extensions| - 1];
      assert init[..k] == extensions[..k];
      MergePrefix(p, n, base, payload, init, k);
      RefusedOnceMore(p, n, base, payload, init, extensions[|extensions| - 1]);
      assert extensions == init + [extensions[|extensions| - 1]];
    } else {
      assert extensions[..k] == extensions;
    }
  }

  lemma RefusedOnceMore(p: Platform, n: Numbers, base: set<string>, payload: map<string, Value>,
                        extensions: seq<Extension>, e: Extension)
    requires Merge(p, n, base, payload, extensions).None?
    ensures Merge(p, n, base, payload, extensions + [e]).None?
  {
    assert (extensions + [e])[..|extensions|] == extensions;
  }

  // ---------------------------------------------------------------- what the loop accepts and what it adds

  /** Valid whatever else is merged: a well-formed foreign name and a non-null value in which every number is safe. */
  ghost predicate ValidExtension(p: Platform, n: Numbers, base: set<string>, e: Extension) {
    IsExtensionName(e.name) && e.name !in base && |e.value| > 0 &&
    match DecodeText(p, e.value)
    case None => false
    case Some(value) => value != Leaf(Null) && SafeEverywhere(n, value)
  }

  ghost predicate AllValid(p: Platform, n: Numbers, base: set<string>, extensions: seq<Extension>) {
    forall i {:trigger ValidExtension(p, n, base, extensions[i])} | 0 <= i < |extensions| ::
      ValidExtension(p, n, base, extensions[i])
  }

  predicate NamesApart(extensions: seq<Extension>) {
    forall i, j | 0 <= i < j < |extensions| :: extensions[i].name != extensions[j].name
  }

  function ExtensionNames(extensions: seq<Extension>): set<string> {
    set i | 0 <= i < |extensions| :: extensions[i].name
  }

  lemma NamesSnoc(extensions: seq<Extension>, e: Extension)
    ensures NamesApart(extensions + [e]) <==> NamesApart(extensions) && e.name !in ExtensionNames(extensions)
    ensures ExtensionNames(extensions + [e]) == ExtensionNames(extensions) + {e.name}
  {
    var all := extensions + [e];
    assert all[|extensions|] == e && forall i | 0 <= i < |extensions| :: all[i] == extensions[i];
    if NamesApart(all) {
      forall i | 0 <= i < |extensions| ensures extensions[i].name != e.name {
        assert all[i].name != all[|extensions|].name;
      }
    }
    forall name | name in ExtensionNames(extensions) + {e.name} ensures name in ExtensionNames(all) {
      if name == e.name {
        assert all[|extensions|].name == name;
      } else {
        var i :| 0 <= i < |extensions| && extensions[i].name == name;
        assert all[i].name == name;
      }
    }
  }

  lemma ValidSnoc(p: Platform, n: Numbers, base: set<string>, extensions: seq<Extension>, e: Extension)
    ensures AllValid(p, n, base, extensions + [e]) <==>
            AllValid(p, n, base, extensions) && ValidExtension(p, n, base, e)
  {
    var all := extensions + [e];
    if AllValid(p, n, base, all) {
      assert ValidExtension(p, n, base, all[|extensions|]);
      forall i | 0 <= i < |extensions| ensures ValidExtension(p, n, base, extensions[i]) {
        assert ValidExtension(p, n, base, all[i]);
      }
    }
  }

  lemma ValueIff(p: Platform, n: Numbers, base: set<string>, e: Extension, payload: map<string, Value>)
    ensures ExtensionValue(p, n, base, e, payload) ==
            if ValidExtension(p, n, base, e) && e.name !in payload then DecodeText(p, e.value) else None
  {
    if DecodeText(p, e.value).Some? {
      SafeNumbersExact(n, DecodeText(p, e.value).value);
    }
  }

  /**
   * The loop succeeds exactly when every extension is valid by itself, none names a base member and no
   * name is repeated; then the keys are those of the base payload and one per extension.
   */
  lemma {:induction false} MergeExact(p: Platform, n: Numbers, base: set<string>, payload: map<string, Value>,
                                      extensions: seq<Extension>)
    requires payload.Keys <= base
    ensures Merge(p, n, base, payload, extensions).Some? <==> AllValid(p, n, base, extensions) && NamesApart(extensions)
    ensures Merge(p, n, base, payload, extensions).Some? ==>
              Merge(p, n, base, payload, extensions).value.Keys == payload.Keys + ExtensionNames(extensions)
  {
    if extensions != [] {
      var m := |extensions| - 1;
      var init, last := extensions[..m], extensions[m];
      assert extensions == init + [last];
      MergeExact(p, n, base, payload, init);
      NamesSnoc(init, last);
      ValidSnoc(p, n, base, init, last);
      if Merge(p, n, base, payload, init).Some? {
        ValueIff(p, n, base, last, Merge(p, n, base, payload, init).value);
      }
    }
  }

  /** The base payload is conserved: every earlier key keeps its value. */
  lemma {:induction false} MergeConserves(p: Platform, n: Numbers, base: set<string>, payload: map<string, Value>,
                                          extensions: seq<Extension>)
    requires Merge(p, n, base, payload, extensions).Some?
    ensures var merged := Merge(p, n, base, payload, extensions).value;
            forall k | k in payload :: k in merged && merged[k] == payload[k]
  {
    if extensions != [] {
      MergeConserves(p, n, base, payload, extensions[..|extensions| - 1]);
    }
  }

  /** Each extension contributes its own decoded value, all of whose numbers are safe. */
  lemma {:induction false} MergeAdds(p: Platform, n: Numbers, base: set<string>, payload: map<string, Value>,
                                     extensions: seq<Extension>, i: nat)
    requires Merge(p, n, base, payload, extensions).Some? && i < |extensions|
    ensures var merged := Merge(p, n, base, payload, extensions).value;
            extensions[i].name in merged && DecodeText(p, extensions[i].value) == Some(merged[extensions[i].name]) &&
            merged[extensions[i].name] != Leaf(Null) && SafeEverywhere(n, merged[extensions[i].name])
  {
    var m := |extensions| - 1;
    if i < m {
      MergeAdds(p, n, base, payload, extensions[..m], i);
    } else {
      var before := Merge(p, n, base, payload, extensions[..m]).value;
      ValueIff(p, n, base, extensions[i], before);
    }
  }

  // ---------------------------------------------------------------- list order does not matter

  lemma SameExtensions(s: seq<Extension>, t: seq<Extension>)
    requires multiset(s) == multiset(t)
    ensures forall e :: e in s <==> e in t
  {
    forall e ensures e in s <==> e in t {
      assert e in s <==> e in multiset(s);
      assert e in t <==> e in multiset(t);
    }
  }

  lemma {:induction false} ApartOnce(s: seq<Extension>, e: Extension)
    requires NamesApart(s)
    ensures multiset(s)[e] <= 1
  {
    if s != [] {
      var m := |s| - 1;
      assert s == s[..m] + [s[m]];
      ApartOnce(s[..m], e);
      if s[m] == e {
        assert e !in s[..m] by {
          assert forall i | 0 <= i < m :: s[..m][i] == s[i];
        }
      }
    }
  }

  lemma ApartPermuted(s: seq<Extension>, t: seq<Extension>)
    requires multiset(s) == multiset(t) && NamesApart(s)
    ensures NamesApart(t)
  {
    SameExtensions(s, t);
    forall i, j | 0 <= i < j < |t| ensures t[i].name != t[j].name {
      assert t[i] in s && t[j] in s;
      ApartOnce(s, t[i]);
      OnlyOnce(t, i, j);
    }
  }

  lemma ValidPermuted(p: Platform, n: Numbers, base: set<string>, s: seq<Extension>, t: seq<Extension>)
    requires multiset(s) == multiset(t) && AllValid(p, n, base, s)
    ensures AllValid(p, n, base, t)
  {
    SameExtensions(s, t);
    forall i | 0 <= i < |t| ensures ValidExtension(p, n, base, t[i]) {
      assert t[i] in s;
      var j :| 0 <= j < |s| && s[j] == t[i];
      assert ValidExtension(p, n, base, s[j]);
    }
  }

  lemma MergeWithin(p: Platform, n: Numbers, base: set<string>, payload: map<string, Value>, s: seq<Extension>,
                    t: seq<Extension>, k: string)
    requires payload.Keys <= base && multiset(s) == multiset(t)
    requires Merge(p, n, base, payload, s).Some? && Merge(p, n, base, payload, t).Some?
    requires k in Merge(p, n, base, payload, s).value
    ensures k in Merge(p, n, base, payload, t).value &&
            Merge(p, n, base, payload, t).value[k] == Merge(p, n, base, payload, s).value[k]
  {
    if k in payload {
      MergeConserves(p, n, base, payload, s);
      MergeConserves(p, n, base, payload, t);
    } else {
      MergeExact(p, n, base, payload, s);
      SameExtensions(s, t);
      var i :| 0 <= i < |s| && s[i].name == k;
      assert s[i] in t;
      var j :| 0 <= j < |t| && t[j] == s[i];
      MergeAdds(p, n, base, payload, s, i);
      MergeAdds(p, n, base, payload, t, j);
    }
  }

  /** Every permutation of the extensions gives the same payload, or is refused alike. */
  lemma MergePermuted(p: Platform, n: Numbers, base: set<string>, payload: map<string, Value>, s: seq<Extension>,
                      t: seq<Extension>)
    requires payload.Keys <= base && multiset(s) == multiset(t)
    ensures Merge(p, n, base, payload, s) == Merge(p, n, base, payload, t)
  {
    MergeExact(p, n, base, payload, s);
    MergeExact(p, n, base, payload, t);
    if Merge(p, n, base, payload, s).Some? {
      ValidPermuted(p, n, base, s, t);
      ApartPermuted(s, t);
    }
    if Merge(p, n, base, payload, t).Some? {
      ValidPermuted(p, n, base, t, s);
      ApartPermuted(t, s);
      forall k | k in Merge(p, n, base, payload, s).value
        ensures k in Merge(p, n, base, payload, t).value
        ensures Merge(p, n, base, payload, t).value[k] == Merge(p, n, base, payload, s).value[k]
      {
        MergeWithin(p, n, base, payload, s, t, k);
      }
      forall k | k in Merge(p, n, base, payload, t).value ensures k in Merge(p, n, base, payload, s).value {
        MergeWithin(p, n, base, payload, t, s, k);
      }
      assert Merge(p, n, base, payload, s).value == Merge(p, n, base, payload, t).value;
    }
  }

  /**
   * The extension loop on a payload Build wrote, with the real list of base members: when it
   * succeeds, and that order does not matter.
   */
  lemma BuildMerges(p: Platform, n: Numbers, b: BaseInput, s: seq<Extension>, t: seq<Extension>)
    requires multiset(s) == multiset(t)
    ensures Merge(p, n, BASE_MEMBERS, BasePayload(b), s).Some? <==> AllValid(p, n, BASE_MEMBERS, s) && NamesApart(s)
    ensures Merge(p, n, BASE_MEMBERS, BasePayload(b), s) == Merge(p, n, BASE_MEMBERS, BasePayload(b), t)
  {
    BasePayloadKeys(b);
    MergeExact(p, n, BASE_MEMBERS, BasePayload(b), s);
    MergePermuted(p, n, BASE_MEMBERS, BasePayload(b), s, t);
  }

  /** A lowercase letter, then lowercase letters, digits and underscores. */
  lemma ExtensionNameExact(s: string)
    ensures IsExtensionName(s) <==>
            |s| >= 1 && 97 <= s[0] as int <= 122 &&
            forall i | 1 <= i < |s| :: 97 <= s[i] as int <= 122 || 48 <= s[i] as int <= 57 || s[i] as int == 95
  {
  }
}
