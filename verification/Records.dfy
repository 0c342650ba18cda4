/** Artifact records, and the foreign functions the stores call. */
module Records {
  import opened Common
  import opened Json

  /** The retention states the source compares with, and any other string. */
  datatype State = Present | Purged | NeverRetained | OtherState(text: string)

  /** The digest fields the source supports, the empty string, and any other string. */
  datatype Binding = Unbound | AgentInput | AgentOutput | EffectRequest | EffectResponse | OtherField(text: string)

  /** content is None for a nil slice; an empty slice is Some(""). */
  datatype Artifact = Artifact(name: string, binding: Binding, content: Option<Bytes>, state: State, sha: string)

  datatype Record = Record(capsuleId: string, capsule: Bytes, envelope: Bytes, artifacts: seq<Artifact>)

  /** The outcome of unmarshalling only capsule_id: the field as far as it was read, and whether parsing succeeded. */
  datatype Peek = Peek(capsuleId: string, ok: bool)

  /**
   * Everything the source calls and does not define, as arbitrary total functions:
   * hashing, UTF-8 validation, tokenising, the profile and Class 1 check of a decoded Capsule (its ID
   * if it passes), envelope verification (its key if it passes), how the JSON writer passes on raw
   * JSON, the digest of a decoded value, the JSON reader and the two sorts.
   */
  datatype Platform = Platform(
    sha256: string -> string,
    utf8: string -> bool,
    tokens: string -> TokenStream,
    class1: map<string, Value> -> Option<string>,
    envelopeKey: (string, string) -> Option<string>,
    rawJson: string -> Option<string>,
    valueDigest: Value -> Option<string>,
    unmarshal: string -> Option<Record>,
    peek: string -> Peek,
    sortSlice: seq<Artifact> -> seq<Artifact>,
    orderBy: seq<Artifact> -> seq<Artifact>
  )

  function Names(artifacts: seq<Artifact>): (names: seq<string>)
    ensures |names| == |artifacts|
    ensures forall i | 0 <= i < |artifacts| :: names[i] == artifacts[i].name
  {
    seq(|artifacts|, i requires 0 <= i < |artifacts| => artifacts[i].name)
  }

  predicate DistinctNames(artifacts: seq<Artifact>) {
    forall i, j | 0 <= i < j < |artifacts| :: artifacts[i].name != artifacts[j].name
  }

  predicate SortedByName(artifacts: seq<Artifact>) {
    forall i, j | 0 <= i < j < |artifacts| :: !Less(artifacts[j].name, artifacts[i].name)
  }

  /** Any sort by name, stable or not. */
  ghost predicate SortsByName(sort: seq<Artifact> -> seq<Artifact>) {
    forall s :: SortedByName(sort(s)) && multiset(sort(s)) == multiset(s)
  }

  /** The hash does not collide on these two inputs. */
  predicate NoCollision(p: Platform, x: string, y: string) {
    p.sha256(x) == p.sha256(y) ==> x == y
  }

  /** The tombstone of a present original; every other artifact is its own. */
  function Tombstone(a: Artifact): Artifact {
    if a.state == Present then a.(content := None, state := Purged) else a
  }

  function Tombstones(artifacts: seq<Artifact>): (t: seq<Artifact>)
    ensures |t| == |artifacts|
    ensures forall i | 0 <= i < |artifacts| :: t[i] == Tombstone(artifacts[i])
  {
    seq(|artifacts|, i requires 0 <= i < |artifacts| => Tombstone(artifacts[i]))
  }

  function Purge(r: Record): Record {
    r.(artifacts := Tombstones(r.artifacts))
  }

  predicate AnyPurged(artifacts: seq<Artifact>) {
    exists i | 0 <= i < |artifacts| :: artifacts[i].state == Purged
  }

  method FindPurged(artifacts: seq<Artifact>) returns (purged: bool)
    ensures purged == AnyPurged(artifacts)
  {
    for i := 0 to |artifacts|
      invariant forall j | 0 <= j < i :: artifacts[j].state != Purged
    {
      if artifacts[i].state == Purged {
        return true;
      }
    }
    purged := false;
  }
}
