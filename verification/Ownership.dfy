/** Prepare and StorageChecksum on mutable slices: they edit and sort in place, but only their own copies. */
module Ownership {
  import opened Common
  import opened Records
  import opened LineCodec
  import opened LineShape
  import opened Admission
  import opened Checksum

  type Octet = c: char | c as int < 256

  /** An artifact whose content is a slice of memory; null is the nil slice. */
  datatype RawArtifact = RawArtifact(name: string, binding: Binding, content: array?<Octet>, state: State, sha: string)

  /** A record whose byte fields and inventory are slices of memory. */
  datatype RawRecord = RawRecord(capsuleId: string, capsule: array<Octet>, envelope: array<Octet>,
    artifacts: array<RawArtifact>)

  function ContentOf(content: array?<Octet>): Option<Bytes>
    reads if content == null then {} else {content}
  {
    if content == null then None else Some(content[..])
  }

  function ArtifactOf(a: RawArtifact): Artifact
    reads if a.content == null then {} else {a.content}
  {
    Artifact(a.name, a.binding, ContentOf(a.content), a.state, a.sha)
  }

  function Contents(artifacts: seq<RawArtifact>): set<object> {
    set i | 0 <= i < |artifacts| && artifacts[i].content != null :: artifacts[i].content
  }

  /** The values the slices hold. */
  function ArtifactsOf(artifacts: seq<RawArtifact>): (r: seq<Artifact>)
    reads Contents(artifacts)
    ensures |r| == |artifacts|
    ensures forall i | 0 <= i < |artifacts| :: r[i] == ArtifactOf(artifacts[i])
  {
    if artifacts == [] then []
    else
      assert forall i | 0 <= i < |artifacts| - 1 :: artifacts[..|artifacts| - 1][i] == artifacts[i];
      assert artifacts[|artifacts| - 1].content != null ==> artifacts[|artifacts| - 1].content in Contents(artifacts);
      assert Contents(artifacts[..|artifacts| - 1]) <= Contents(artifacts);
      ArtifactsOf(artifacts[..|artifacts| - 1]) + [ArtifactOf(artifacts[|artifacts| - 1])]
  }

  function RecordOf(r: RawRecord): Record
    reads r.capsule, r.envelope, r.artifacts, Contents(r.artifacts[..])
  {
    Record(r.capsuleId, r.capsule[..], r.envelope[..], ArtifactsOf(r.artifacts[..]))
  }

  /** Every buffer of the record. */
  function Buffers(r: RawRecord): set<object>
    reads r.artifacts
  {
    {r.capsule, r.envelope, r.artifacts} + Contents(r.artifacts[..])
  }

  method Copy(source: array<Octet>) returns (copy: array<Octet>)
    ensures fresh(copy) && copy[..] == source[..]
  {
    copy := new Octet[source.Length](i requires 0 <= i < source.Length reads source => source[i]);
  }

  /** The loop body of Prepare on one artifact of the copied slice. */
  method PrepareRaw(p: Platform, a: RawArtifact) returns (r: Result<RawArtifact>, length: nat)
    ensures length == ContentLength(ArtifactOf(a))
    ensures match PrepareArtifact(p, ArtifactOf(a))
            case Err(e) => r == Err(e)
            case Ok(b) => r.Ok? && ArtifactOf(r.value) == b
    ensures r.Ok? && r.value.content != null ==> fresh(r.value.content)
  {
    length := if a.content == null then 0 else a.content.Length;
    if a.state == Purged {
      return Err(OriginalsPurged), length;
    }
    var b := a;
    if a.content != null {
      var copy := Copy(a.content);
      b := b.(content := copy);
    }
    if b.state == Present {
      var bytes := if b.content == null then "" else b.content[..];
      var digest := p.sha256(bytes);
      if b.sha != "" && b.sha != digest {
        return Err(Corrupt), length;
      }
      b := b.(sha := digest);
    }
    r := Ok(b);
  }

  /** The first artifact that cannot be prepared decides the outcome. */
  lemma {:induction false} PreparePrefix(p: Platform, artifacts: seq<Artifact>, n: nat)
    requires n <= |artifacts| && PrepareArtifacts(p, artifacts[..n]).Err?
    ensures PrepareArtifacts(p, artifacts) == PrepareArtifacts(p, artifacts[..n])
    decreases |artifacts|
  {
    if n < |artifacts| {
      var m := |artifacts| - 1;
      assert artifacts[..m][..n] == artifacts[..n];
      PreparePrefix(p, artifacts[..m], n);
    } else {
      assert artifacts[..n] == artifacts;
    }
  }

  lemma PrepareNext(p: Platform, artifacts: seq<Artifact>, i: nat, done: seq<Artifact>)
    requires i < |artifacts| && PrepareArtifacts(p, artifacts[..i]) == Ok(done)
    ensures match PrepareArtifact(p, artifacts[i])
            case Err(e) => PrepareArtifacts(p, artifacts) == Err(e)
            case Ok(b) => PrepareArtifacts(p, artifacts[..i + 1]) == Ok(done + [b])
  {
    assert artifacts[..i + 1][..i] == artifacts[..i];
    if PrepareArtifact(p, artifacts[i]).Err? {
      PreparePrefix(p, artifacts, i + 1);
    }
  }

  lemma SizeNext(artifacts: seq<Artifact>, i: nat)
    requires i < |artifacts|
    ensures ContentSize(artifacts[..i + 1]) == ContentSize(artifacts[..i]) + ContentLength(artifacts[i])
  {
    assert artifacts[..i + 1] == artifacts[..i] + [artifacts[i]];
    ContentSizeSnoc(artifacts[..i], artifacts[i]);
  }

  /** The loop of Prepare has prepared the first i artifacts, with this total content length. */
  predicate PreparedSoFar(p: Platform, values: seq<Artifact>, i: nat, done: seq<Artifact>, total: nat)
    requires i <= |values|
  {
    PrepareArtifacts(p, values[..i]) == Ok(done) && total == ContentSize(values[..i])
  }

  lemma PreparedNext(p: Platform, values: seq<Artifact>, i: nat, done: seq<Artifact>, total: nat)
    requires i < |values| && PreparedSoFar(p, values, i, done, total)
    ensures match PrepareArtifact(p, values[i])
            case Err(e) => PrepareArtifacts(p, values) == Err(e)
            case Ok(b) => PreparedSoFar(p, values, i + 1, done + [b], total + ContentLength(values[i]))
  {
    PrepareNext(p, values, i, done);
    SizeNext(values, i);
  }

  /** The slices hold these values. */
  predicate Holds(artifacts: seq<RawArtifact>, values: seq<Artifact>)
    reads Contents(artifacts)
  {
    |artifacts| == |values| && forall i | 0 <= i < |artifacts| :: ArtifactOf(artifacts[i]) == values[i]
  }

  lemma Snapshot(artifacts: seq<RawArtifact>, values: seq<Artifact>)
    requires Holds(artifacts, values)
    ensures ArtifactsOf(artifacts) == values
  {
  }

  lemma HoldsNext(artifacts: seq<RawArtifact>, values: seq<Artifact>, a: RawArtifact, v: Artifact)
    requires Holds(artifacts, values) && ArtifactOf(a) == v
    ensures Holds(artifacts + [a], values + [v])
  {
  }

  /** One iteration of the loop of Prepare, on the artifact at position i. */
  method PrepareAt(p: Platform, artifacts: array<RawArtifact>, i: nat, ghost value: Artifact)
    returns (size: Result<nat>)
    requires i < artifacts.Length && ArtifactOf(artifacts[i]) == value
    modifies artifacts
    ensures artifacts[..i] == old(artifacts[..i]) && artifacts[i + 1..] == old(artifacts[i + 1..])
    ensures match PrepareArtifact(p, value)
            case Err(e) => size == Err(e)
            case Ok(b) => size == Ok(ContentLength(value)) && ArtifactOf(artifacts[i]) == b
    ensures size.Ok? && artifacts[i].content != null ==> fresh(artifacts[i].content)
  {
    var one, length := PrepareRaw(p, artifacts[i]);
    if one.Err? {
      return Err(one.error);
    }
    artifacts[i] := one.value;
    size := Ok(length);
  }

  /** The same iteration after done has been prepared: the prepared prefix grows by one. */
  method PrepareNextAt(p: Platform, artifacts: array<RawArtifact>, i: nat, ghost value: Artifact,
                       ghost done: seq<Artifact>)
    returns (size: Result<nat>)
    requires i < artifacts.Length && ArtifactOf(artifacts[i]) == value && Holds(artifacts[..i], done)
    modifies artifacts
    ensures artifacts[i + 1..] == old(artifacts[i + 1..])
    ensures match PrepareArtifact(p, value)
            case Err(e) => size == Err(e)
            case Ok(b) => size == Ok(ContentLength(value)) && Holds(artifacts[..i + 1], done + [b])
    ensures size.Ok? ==> fresh(Contents(artifacts[..i + 1]) - old(Contents(artifacts[..i])))
  {
    ghost var before := artifacts[..i];
    size := PrepareAt(p, artifacts, i, value);
    if size.Ok? {
      HoldsNext(before, done, artifacts[i], PrepareArtifact(p, value).value);
      ContentsNext(before, artifacts[i]);
      assert artifacts[..i + 1] == before + [artifacts[i]];
    }
  }

  /** The loop of Prepare over its own copy of the inventory; returns the total content length. */
  method PrepareSlice(p: Platform, artifacts: array<RawArtifact>, ghost values: seq<Artifact>)
    returns (size: Result<nat>)
    requires Holds(artifacts[..], values)
    modifies artifacts
    ensures match PrepareArtifacts(p, values)
            case Err(e) => size == Err(e)
            case Ok(q) => size == Ok(ContentSize(values)) && Holds(artifacts[..], q)
    ensures size.Ok? ==> fresh(Contents(artifacts[..]))
  {
    var total := 0;
    ghost var done: seq<Artifact> := [];
    ghost var source := artifacts[..];
    for i := 0 to artifacts.Length
      invariant PreparedSoFar(p, values, i, done, total)
      invariant Holds(artifacts[..i], done) && fresh(Contents(artifacts[..i]))
      invariant artifacts[i..] == source[i..] && Holds(source, values)
    {
      assert artifacts[i] == artifacts[i..][0] == source[i];
      var length := PrepareNextAt(p, artifacts, i, values[i], done);
      PreparedNext(p, values, i, done, total);
      if length.Err? {
        return Err(length.error);
      }
      total := total + length.value;
      done := done + [PrepareArtifact(p, values[i]).value];
      assert artifacts[i + 1..] == source[i..][1..] == source[i + 1..];
    }
    assert values[..artifacts.Length] == values;
    assert artifacts[..artifacts.Length] == artifacts[..];
    size := Ok(total);
  }

  lemma ContentsNext(artifacts: seq<RawArtifact>, a: RawArtifact)
    ensures Contents(artifacts + [a]) == Contents(artifacts) + if a.content == null then {} else {a.content}
  {
    var all := artifacts + [a];
    assert all[|artifacts|] == a && forall i | 0 <= i < |artifacts| :: all[i] == artifacts[i];
    forall o | o in Contents(artifacts) ensures o in Contents(all) {
      var i :| 0 <= i < |artifacts| && artifacts[i].content != null && o == artifacts[i].content;
      assert all[i].content == o;
    }
    if a.content != null {
      assert all[|artifacts|].content == a.content;
    }
  }

  method CopySlice(source: array<RawArtifact>) returns (copy: array<RawArtifact>)
    ensures fresh(copy) && copy[..] == source[..]
  {
    copy := new RawArtifact[source.Length](i requires 0 <= i < source.Length reads source => source[i]);
  }

  /** The same error, or memory that holds the expected record. */
  predicate Gives(result: Result<RawRecord>, expected: Result<Record>)
    reads if result.Ok? then Buffers(result.value) else {}
    reads if result.Ok? then {result.value.artifacts} else {}
  {
    match expected
    case Err(e) => result == Err(e)
    case Ok(q) => result.Ok? && RecordOf(result.value) == q
  }

  /**
   * Prepare on memory: the caller's slices are untouched, the result is what Prepare gives on their
   * values, and every buffer of the result is new.
   */
  method PrepareRecord(p: Platform, r: RawRecord) returns (result: Result<RawRecord>)
    ensures RecordOf(r) == old(RecordOf(r))
    ensures Gives(result, Prepare(p, RecordOf(r)))
    ensures result.Ok? ==>
              fresh(result.value.capsule) && fresh(result.value.envelope) && fresh(result.value.artifacts) &&
              fresh(Contents(result.value.artifacts[..]))
  {
    ghost var record := RecordOf(r);
    var own := OwnCopy(r, record);
    assert RecordOf(r) == record;
    result := PrepareOwned(p, own, record);
    assert RecordOf(r) == record;
    assert Gives(result, Prepare(p, record));
  }

  /** New slices with the same bytes; the copied inventory still shares the contents of the original. */
  method OwnCopy(r: RawRecord, ghost record: Record) returns (own: RawRecord)
    requires record == RecordOf(r)
    ensures fresh(own.capsule) && fresh(own.envelope) && fresh(own.artifacts) && own.capsuleId == record.capsuleId
    ensures own.capsule[..] == record.capsule && own.envelope[..] == record.envelope
    ensures Holds(own.artifacts[..], record.artifacts)
  {
    var capsule := Copy(r.capsule);
    var envelope := Copy(r.envelope);
    var artifacts := CopySlice(r.artifacts);
    own := RawRecord(r.capsuleId, capsule, envelope, artifacts);
    assert Holds(artifacts[..], record.artifacts);
  }

  /** The rest of Prepare, once everything it may change is its own. */
  method PrepareOwned(p: Platform, r: RawRecord, ghost record: Record) returns (result: Result<RawRecord>)
    requires r.capsuleId == record.capsuleId && r.capsule[..] == record.capsule && r.envelope[..] == record.envelope
    requires Holds(r.artifacts[..], record.artifacts)
    modifies r.artifacts
    ensures Gives(result, Prepare(p, record)) && (result.Ok? ==> result.value == r)
    ensures result.Ok? ==> fresh(Contents(r.artifacts[..]))
  {
    var size := r.capsule.Length + r.envelope.Length;
    if r.artifacts.Length > MAX_ARTIFACTS || r.envelope.Length > MAX_ENVELOPE {
      return Err(Invalid);
    }
    var content := PrepareSlice(p, r.artifacts, record.artifacts);
    if content.Err? {
      return Err(content.error);
    }
    if size + content.value > MAX_RECORD {
      return Err(Invalid);
    }
    Snapshot(r.artifacts[..], PrepareArtifacts(p, record.artifacts).value);
    result := Ok(r);
  }

  /** The in-place edits of StorageChecksum on its own copy of the inventory. */
  method StripSlice(artifacts: array<RawArtifact>, ghost values: seq<Artifact>)
    requires Holds(artifacts[..], values)
    modifies artifacts
    ensures Holds(artifacts[..], Commitments(values))
  {
    ghost var source := artifacts[..];
    for i := 0 to artifacts.Length
      invariant forall j | 0 <= j < i :: ArtifactOf(artifacts[j]) == Commitment(values[j])
      invariant forall j | i <= j < artifacts.Length :: artifacts[j] == source[j]
      invariant Holds(source, values)
    {
      assert ArtifactOf(source[i]) == values[i];
      artifacts[i] := artifacts[i].(content := null);
      if artifacts[i].state == Purged {
        artifacts[i] := artifacts[i].(state := Present);
      }
    }
  }

  /** The copy of the inventory that StorageChecksum edits in place. */
  method StrippedCopy(r: RawRecord) returns (stripped: array<RawArtifact>)
    ensures RecordOf(r) == old(RecordOf(r)) && fresh(stripped)
    ensures Holds(stripped[..], Commitments(RecordOf(r).artifacts))
  {
    ghost var record := RecordOf(r);
    stripped := CopySlice(r.artifacts);
    assert Holds(stripped[..], record.artifacts);
    StripSlice(stripped, record.artifacts);
    assert RecordOf(r) == record;
  }

  lemma Swapped(s: seq<Artifact>, i: nat, j: nat)
    requires i <= j < |s|
    ensures multiset(s[i := s[j]][j := s[i]]) == multiset(s)
  {
  }

  /** What belongs at position i is still to be found from there on. */
  lemma StillThere(now: seq<Artifact>, order: seq<Artifact>, i: nat)
    requires multiset(now) == multiset(order) && |now| == |order| && i < |order| && now[..i] == order[..i]
    ensures exists j :: i <= j < |now| && now[j] == order[i]
  {
    assert now == now[..i] + now[i..] && order == order[..i] + order[i..];
    var a := order[i];
    assert multiset(now)[a] == multiset(now[..i])[a] + multiset(now[i..])[a];
    assert multiset(order)[a] == multiset(order[..i])[a] + multiset(order[i..])[a];
    assert order[i..][0] == a && a in multiset(order[i..]);
    assert a in multiset(now[i..]);
    var k :| 0 <= k < |now[i..]| && now[i..][k] == order[i];
    assert now[i + k] == order[i];
  }

  /** Where the element that belongs at position i stands. */
  method FindFrom(artifacts: array<RawArtifact>, i: nat, wanted: Artifact, ghost now: seq<Artifact>) returns (j: nat)
    requires Holds(artifacts[..], now) && exists k :: i <= k < |now| && now[k] == wanted
    ensures i <= j < artifacts.Length && now[j] == wanted
  {
    j := i;
    while true
      invariant i <= j <= artifacts.Length && forall k | i <= k < j :: now[k] != wanted
      decreases artifacts.Length - j
    {
      assert ArtifactOf(artifacts[..][j]) == now[j];
      if ArtifactOf(artifacts[j]) == wanted {
        return;
      }
      j := j + 1;
    }
  }

  lemma HoldsSwapped(before: seq<RawArtifact>, after: seq<RawArtifact>, now: seq<Artifact>, i: nat, j: nat)
    requires Holds(before, now) && i <= j < |before| && after == before[i := before[j]][j := before[i]]
    ensures Holds(after, now[i := now[j]][j := now[i]])
  {
  }

  lemma Placed(now: seq<Artifact>, order: seq<Artifact>, i: nat, j: nat)
    requires |now| == |order| && i <= j < |now| && now[..i] == order[..i] && now[j] == order[i]
    ensures now[i := now[j]][j := now[i]][..i + 1] == order[..i + 1]
  {
    var next := now[i := now[j]][j := now[i]];
    assert forall k | 0 <= k < i :: next[k] == now[..i][k] == order[..i][k];
  }

  /** One swap of the sort: position i gets what belongs there. */
  method PlaceNext(artifacts: array<RawArtifact>, i: nat, order: seq<Artifact>, ghost now: seq<Artifact>)
    returns (ghost next: seq<Artifact>)
    requires Holds(artifacts[..], now) && |now| == |order| && i < |order|
    requires multiset(now) == multiset(order) && now[..i] == order[..i]
    modifies artifacts
    ensures Holds(artifacts[..], next) && |next| == |order|
    ensures multiset(next) == multiset(order) && next[..i + 1] == order[..i + 1]
  {
    StillThere(now, order, i);
    var j := FindFrom(artifacts, i, order[i], now);
    ghost var before := artifacts[..];
    artifacts[i], artifacts[j] := artifacts[j], artifacts[i];
    HoldsSwapped(before, artifacts[..], now, i, j);
    Swapped(now, i, j);
    Placed(now, order, i, j);
    next := now[i := now[j]][j := now[i]];
  }

  /** sort.Slice by name: it permutes the slice it is given, by swaps, into the order the sort chooses. */
  method SortSlice(p: Platform, artifacts: array<RawArtifact>, ghost values: seq<Artifact>)
    requires Holds(artifacts[..], values) && SortsByName(p.sortSlice)
    modifies artifacts
    ensures Holds(artifacts[..], p.sortSlice(values))
  {
    Snapshot(artifacts[..], values);
    SortPermutes(p.sortSlice, values);
    var order := p.sortSlice(ArtifactsOf(artifacts[..]));
    ghost var now := values;
    for i := 0 to artifacts.Length
      invariant Holds(artifacts[..], now) && |now| == |order|
      invariant multiset(now) == multiset(order) && now[..i] == order[..i]
    {
      now := PlaceNext(artifacts, i, order, now);
    }
    Whole(now, order);
  }

  lemma Whole(now: seq<Artifact>, order: seq<Artifact>)
    requires |now| == |order| && now[..|order|] == order[..|order|]
    ensures now == order
  {
    assert now[..|order|] == now && order[..|order|] == order;
  }

  lemma SortPermutes(sort: seq<Artifact> -> seq<Artifact>, values: seq<Artifact>)
    requires SortsByName(sort)
    ensures |sort(values)| == |values| && multiset(sort(values)) == multiset(values)
  {
    assert |multiset(sort(values))| == |multiset(values)|;
  }

  /** The copy of the inventory that StorageChecksum marshals: stripped and sorted in place. */
  method SortedCopy(p: Platform, r: RawRecord) returns (sorted: array<RawArtifact>)
    requires SortsByName(p.sortSlice)
    ensures RecordOf(r) == old(RecordOf(r)) && fresh(sorted)
    ensures Holds(sorted[..], p.sortSlice(Commitments(RecordOf(r).artifacts)))
  {
    ghost var record := RecordOf(r);
    sorted := StrippedCopy(r);
    SortSlice(p, sorted, Commitments(record.artifacts));
    assert RecordOf(r) == record;
  }

  /**
   * StorageChecksum on memory: it strips and sorts its own copy of the inventory in place and leaves
   * the caller's slices alone.
   */
  method ChecksumRecord(p: Platform, r: RawRecord) returns (sum: Result<string>)
    requires SortsByName(p.sortSlice)
    ensures RecordOf(r) == old(RecordOf(r))
    ensures sum == StorageChecksum(p, RecordOf(r))
  {
    var artifacts := SortedCopy(p, r);
    Snapshot(artifacts[..], p.sortSlice(Commitments(RecordOf(r).artifacts)));
    var sorted := ArtifactsOf(artifacts[..]);
    var data := Marshal(p, Record(r.capsuleId, r.capsule[..], r.envelope[..], sorted));
    sum := if data.Err? then Err(data.error) else Ok(p.sha256(data.value));
  }
}
