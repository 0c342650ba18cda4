/** Over every run the JSONL file and its index implement the lifecycle, byte for byte. */
module JsonlRefinement {
  import opened Common
  import opened Records
  import opened LineCodec
  import opened LineShape
  import opened Lifecycle
  import opened Lines
  import opened Rewriting
  import opened JsonlStore

  /** The file on disk, the index of the open store and its trusted keys. */
  datatype Disk = Disk(image: Image, trusted: seq<string>)

  /** One operation without I/O errors; Reopen is New on the same path. */
  function StepDisk(p: Platform, d: Disk, op: Op): (Disk, Response) {
    match op
    case Init => (d.(image := d.image.(file := Some(if d.image.file.None? then "" else d.image.file.value))), Done)
    case Put(r) =>
      var (image, response) := PutImage(p, d.trusted, d.image, r);
      (d.(image := image), response)
    case Get(id) => (d, GetImage(p, d.trusted, d.image, id))
    case Purge(id) =>
      var (image, response) := PurgeImage(p, d.image, id);
      (d.(image := image), response)
    case Reopen(namespace, keys) =>
      match OpenImage(p, d.image.file, namespace, keys)
      case Err(e) => (d, Refused(e))
      case Ok(image) => (Disk(image, keys), Done)
  }

  function RunDisk(p: Platform, d: Disk, ops: seq<Op>): (r: (Disk, seq<Response>))
    ensures |r.1| == |ops|
    decreases ops
  {
    if ops == [] then (d, [])
    else
      var (next, response) := StepDisk(p, d, ops[0]);
      var (last, responses) := RunDisk(p, next, ops[1..]);
      (last, [response] + responses)
  }

  function LinesOf(records: seq<Record>): (lines: seq<string>)
    ensures |lines| == |records|
  {
    if records == [] then [] else LinesOf(records[..|records| - 1]) + [Line(records[|records| - 1])]
  }

  lemma {:induction false} LineOf(records: seq<Record>, i: nat)
    requires i < |records|
    ensures LinesOf(records)[i] == Line(records[i])
  {
    if i < |records| - 1 {
      LineOf(records[..|records| - 1], i);
    }
  }

  lemma LinesOfUpdate(records: seq<Record>, k: nat, r: Record)
    requires k < |records|
    ensures LinesOf(records[k := r]) == LinesOf(records)[k := Line(r)]
  {
    var before, after := LinesOf(records), LinesOf(records[k := r]);
    forall i | 0 <= i < |records| ensures after[i] == before[k := Line(r)][i] {
      LineOf(records, i);
      LineOf(records[k := r], i);
    }
  }

  /** A record that a line gives back unchanged: no empty content that omitempty would drop. */
  predicate IsWire(r: Record) {
    forall i | 0 <= i < |r.artifacts| :: r.artifacts[i].content != Some("")
  }

  predicate AllWire(records: seq<Record>) {
    forall i {:trigger IsWire(records[i])} | 0 <= i < |records| :: IsWire(records[i])
  }

  lemma AllWireUpdate(records: seq<Record>, k: nat, r: Record)
    requires AllWire(records) && k < |records| && IsWire(r)
    ensures AllWire(records[k := r])
  {
    var after := records[k := r];
    forall i {:trigger IsWire(after[i])} | 0 <= i < |after| ensures IsWire(after[i]) {
      assert i != k ==> IsWire(records[i]);
    }
  }

  lemma PurgeIsWire(r: Record)
    requires IsWire(r)
    ensures IsWire(Records.Purge(r))
  {
  }

  lemma {:induction false} WireIsNormal(artifacts: seq<Artifact>)
    requires forall i | 0 <= i < |artifacts| :: StoredArtifact(artifacts[i]) && artifacts[i].content != Some("")
    ensures NormalArtifacts(artifacts) == artifacts
  {
    forall i | 0 <= i < |artifacts| ensures NormalArtifact(artifacts[i]) == artifacts[i] {
      NormalStored(artifacts[i]);
    }
  }

  lemma NormalIsWire(q: Record)
    requires WellStored(q)
    ensures IsWire(Normal(q))
  {
    forall i | 0 <= i < |q.artifacts| ensures Normal(q).artifacts[i].content != Some("") {
      NormalStored(q.artifacts[i]);
    }
  }

  /** The file is exactly one line per stored record, in order, and the index is what a scan of it builds. */
  predicate Represents(p: Platform, d: Disk, s: Vault) {
    Valid(s) && AllWire(s.records) &&
    d.trusted == s.trusted &&
    d.image.file == (if s.ready then Some(Join(LinesOf(s.records))) else None) &&
    d.image.index == Index(p, true, LinesOf(s.records))
  }

  // ---------------------------------------------------------------- single lines

  lemma CleanLine(p: Platform, r: Record)
    requires Lawful(p) && WellStored(r)
    ensures IsClean(Line(r))
  {
    StoredLine(p, r);
    LinePrintable(r);
  }

  lemma ReadableLine(p: Platform, r: Record)
    requires Lawful(p) && WellStored(r)
    ensures Marshal(p, r) == Ok(Line(r)) && p.peek(Line(r)) == Peek(r.capsuleId, true)
    ensures IsWire(r) ==> p.unmarshal(Line(r)) == Some(r)
  {
    StoredLine(p, r);
    ReadBack(p, r);
    if IsWire(r) {
      WireIsNormal(r.artifacts);
    }
  }

  // ---------------------------------------------------------------- lines and the records they hold

  /** The line scans, is indexed under the record's id, and parses to the record. */
  predicate Reads(p: Platform, line: string, r: Record) {
    IsClean(line) && p.peek(line) == Peek(r.capsuleId, true) && p.unmarshal(line) == Some(r)
  }

  predicate AllRead(p: Platform, lines: seq<string>, records: seq<Record>) {
    |lines| == |records| && forall i | 0 <= i < |lines| :: Reads(p, lines[i], records[i])
  }

  predicate DistinctIds(records: seq<Record>) {
    (forall i | 0 <= i < |records| :: records[i].capsuleId != "") &&
    forall i, j | 0 <= i < j < |records| :: records[i].capsuleId != records[j].capsuleId
  }

  lemma RepresentedLines(p: Platform, d: Disk, s: Vault)
    requires Lawful(p) && Represents(p, d, s)
    ensures AllRead(p, LinesOf(s.records), s.records) && AllClean(LinesOf(s.records)) && DistinctIds(s.records)
  {
    LinesRead(p, s.records);
    IdsDistinct(s);
  }

  lemma IdsDistinct(s: Vault)
    requires Valid(s)
    ensures DistinctIds(s.records)
  {
  }

  lemma LinesRead(p: Platform, records: seq<Record>)
    requires Lawful(p) && AllWire(records)
    requires forall i {:trigger WellStored(records[i])} | 0 <= i < |records| :: WellStored(records[i])
    ensures AllRead(p, LinesOf(records), records) && AllClean(LinesOf(records))
  {
    var lines := LinesOf(records);
    forall i | 0 <= i < |records| ensures Reads(p, lines[i], records[i]) {
      assert WellStored(records[i]) && IsWire(records[i]);
      LineOf(records, i);
      LineReads(p, records[i]);
    }
    forall i | 0 <= i < |lines| ensures IsClean(lines[i]) {
      assert Reads(p, lines[i], records[i]);
    }
  }

  lemma LineReads(p: Platform, r: Record)
    requires Lawful(p) && WellStored(r) && IsWire(r)
    ensures Reads(p, Line(r), r)
  {
    CleanLine(p, r);
    ReadableLine(p, r);
  }

  lemma IndexLookup(p: Platform, lines: seq<string>, records: seq<Record>, id: string)
    requires AllRead(p, lines, records) && DistinctIds(records)
    ensures var k := IndexOf(records, id);
            (id in Index(p, true, lines) <==> k < |records|) &&
            (k < |records| ==> Index(p, true, lines)[id] == Entry(Offset(lines[..k]), |lines[k]|))
  {
    AllYield(p, lines, records);
    if IndexOf(records, id) < |records| {
      IndexedOnce(p, lines, records, id);
    } else {
      NotIndexed(p, lines, records, id);
    }
  }

  /** Line i yields the id of record i. */
  predicate YieldIds(p: Platform, lines: seq<string>, records: seq<Record>) {
    |lines| == |records| &&
    forall i | 0 <= i < |lines| :: Yields(p, true, lines[i]) && p.peek(lines[i]).capsuleId == records[i].capsuleId
  }

  lemma AllYield(p: Platform, lines: seq<string>, records: seq<Record>)
    requires AllRead(p, lines, records) && DistinctIds(records)
    ensures YieldIds(p, lines, records)
  {
    forall i | 0 <= i < |lines|
      ensures Yields(p, true, lines[i]) && p.peek(lines[i]).capsuleId == records[i].capsuleId
    {
      assert Reads(p, lines[i], records[i]);
    }
  }

  lemma IndexedOnce(p: Platform, lines: seq<string>, records: seq<Record>, id: string)
    requires YieldIds(p, lines, records) && DistinctIds(records) && IndexOf(records, id) < |records|
    ensures var k := IndexOf(records, id);
            id in Index(p, true, lines) && Index(p, true, lines)[id] == Entry(Offset(lines[..k]), |lines[k]|)
  {
    var m := IndexExact(p, true, lines, id);
    assert m == IndexOf(records, id);
  }

  lemma NotIndexed(p: Platform, lines: seq<string>, records: seq<Record>, id: string)
    requires YieldIds(p, lines, records) && IndexOf(records, id) == |records|
    ensures id !in Index(p, true, lines)
  {
    var m := IndexExact(p, true, lines, id);
  }

  lemma ReadRange(p: Platform, text: string, e: Entry, line: string, r: Record)
    requires line != "" && e.length == |line| && e.offset + |line| <= |text| &&
             text[e.offset..e.offset + |line|] == line
    requires p.unmarshal(line) == Some(r)
    ensures ReadAt(p, Some(text), e) == Ok(r)
  {
  }

  /** Reading through the index gives the stored record. */
  lemma ReadStored(p: Platform, im: Image, lines: seq<string>, records: seq<Record>, id: string, text: string)
    requires AllRead(p, lines, records) && DistinctIds(records)
    requires im.index == Index(p, true, lines) && (records != [] ==> im.file == Some(text)) && text == Join(lines)
    requires forall i | 0 <= i < |lines| :: lines[i] != ""
    ensures id in im.index <==> IndexOf(records, id) < |records|
    ensures id in im.index ==> ReadIndexed(p, im, id) == Ok(records[IndexOf(records, id)])
  {
    IndexLookup(p, lines, records, id);
    var k := IndexOf(records, id);
    if k < |records| {
      LineAt(lines, k);
      assert Reads(p, lines[k], records[k]);
      ReadRange(p, text, im.index[id], lines[k], records[k]);
    }
  }

  lemma ReadRepresented(p: Platform, d: Disk, s: Vault, id: string)
    requires Lawful(p) && Represents(p, d, s)
    ensures id in d.image.index <==> IndexOf(s.records, id) < |s.records|
    ensures id in d.image.index ==> ReadIndexed(p, d.image, id) == Ok(s.records[IndexOf(s.records, id)])
  {
    RepresentedLines(p, d, s);
    forall i | 0 <= i < |s.records| ensures LinesOf(s.records)[i] != "" {
      LineOf(s.records, i);
    }
    ReadStored(p, d.image, LinesOf(s.records), s.records, id, Join(LinesOf(s.records)));
  }

  // ---------------------------------------------------------------- each operation

  lemma PutRefines(p: Platform, d: Disk, s: Vault, r: Record)
    requires Lawful(p) && Represents(p, d, s)
    ensures StepDisk(p, d, Put(r)).1 == Step(p, true, s, Put(r)).1
    ensures Represents(p, StepDisk(p, d, Put(r)).0, Step(p, true, s, Put(r)).0)
  {
    if Admit(p, s.trusted, r).Ok? {
      var q := Admit(p, s.trusted, r).value;
      AdmittedIsStored(p, s.trusted, r);
      StepValid(p, true, s, Put(r));
      PutAdmittedRefines(p, d, s, q);
    }
  }

  lemma PutAdmittedRefines(p: Platform, d: Disk, s: Vault, q: Record)
    requires Lawful(p) && Represents(p, d, s) && WellStored(q) && Valid(PutAdmitted(p, true, s, q).0)
    ensures PutAdmittedImage(p, d.trusted, d.image, q).1 == PutAdmitted(p, true, s, q).1
    ensures Represents(p, d.(image := PutAdmittedImage(p, d.trusted, d.image, q).0), PutAdmitted(p, true, s, q).0)
  {
    ReadRepresented(p, d, s, q.capsuleId);
    if IndexOf(s.records, q.capsuleId) == |s.records| {
      ReadableLine(p, q);
      if s.ready {
        AppendRefines(p, d, s, q);
        RepresentsAppend(p, d, s, Normal(q));
      }
    }
  }

  lemma RepresentsAppend(p: Platform, d: Disk, s: Vault, r: Record)
    requires Represents(p, d, s) && s.ready && IsWire(r) && Valid(s.(records := s.records + [r]))
    ensures var lines := LinesOf(s.records + [r]);
            Represents(p, d.(image := Image(Some(Join(lines)), Index(p, true, lines))), s.(records := s.records + [r]))
  {
  }

  lemma LineOfNormal(q: Record)
    requires WellStored(q)
    ensures Line(Normal(q)) == Line(q) && IsWire(Normal(q))
  {
    NormalIsWire(q);
    forall i | 0 <= i < |q.artifacts| ensures ArtifactText(Normal(q).artifacts[i]) == ArtifactText(q.artifacts[i]) {
      NormalText(q.artifacts[i]);
    }
    SameTexts(Normal(q).artifacts, q.artifacts, "]}");
  }

  lemma {:induction false} SameTexts(s: seq<Artifact>, t: seq<Artifact>, tail: string)
    requires |s| == |t| && forall i {:trigger ArtifactText(s[i])} | 0 <= i < |s| ::
             ArtifactText(s[i]) == ArtifactText(t[i])
    ensures ArtifactsText(s, tail) == ArtifactsText(t, tail)
  {
    if s != [] {
      assert ArtifactText(s[0]) == ArtifactText(t[0]);
      forall i {:trigger ArtifactText(s[1..][i])} | 0 <= i < |s[1..]|
        ensures ArtifactText(s[1..][i]) == ArtifactText(t[1..][i])
      {
        assert ArtifactText(s[i + 1]) == ArtifactText(t[i + 1]);
      }
      SameTexts(s[1..], t[1..], tail);
    }
  }

  lemma NormalText(a: Artifact)
    requires StoredArtifact(a)
    ensures ArtifactText(NormalArtifact(a)) == ArtifactText(a)
  {
    NormalStored(a);
    assert ContentText(NormalArtifact(a)) == ContentText(a);
  }

  lemma AppendRefines(p: Platform, d: Disk, s: Vault, q: Record)
    requires Lawful(p) && Represents(p, d, s) && s.ready && WellStored(q)
    ensures var lines := LinesOf(s.records + [Normal(q)]);
            Marshal(p, q) == Ok(Line(q)) &&
            Join(lines) == d.image.file.value + Line(q) + "\n" &&
            Index(p, true, lines) == d.image.index[q.capsuleId := Entry(|d.image.file.value|, |Line(q)|)] &&
            IsWire(Normal(q))
  {
    var before := LinesOf(s.records);
    var records := s.records + [Normal(q)];
    LineOfNormal(q);
    ReadableLine(p, q);
    assert records[..|records| - 1] == s.records;
    assert LinesOf(records) == before + [Line(q)];
    JoinSnoc(before, Line(q));
    JoinLength(before);
    IndexSnoc(p, before, Line(q));
  }

  lemma PurgeRefines(p: Platform, d: Disk, s: Vault, id: string)
    requires Lawful(p) && Represents(p, d, s)
    ensures StepDisk(p, d, Op.Purge(id)).1 == Step(p, true, s, Op.Purge(id)).1
    ensures Represents(p, StepDisk(p, d, Op.Purge(id)).0, Step(p, true, s, Op.Purge(id)).0)
  {
    if IsDigest(id) {
      ReadRepresented(p, d, s, id);
      var k := IndexOf(s.records, id);
      if k < |s.records| {
        var replacement := Records.Purge(s.records[k]);
        StepValid(p, true, s, Op.Purge(id));
        RewriteRepresented(p, d, s, k, replacement);
      }
    }
  }

  lemma RewriteRepresented(p: Platform, d: Disk, s: Vault, k: nat, replacement: Record)
    requires Lawful(p) && Represents(p, d, s) && k < |s.records| && replacement == Records.Purge(s.records[k])
    requires Valid(s.(records := s.records[k := replacement]))
    ensures d.image.file.Some? && Rewrite(p, d.image.file.value, s.records[k].capsuleId, replacement).Ok?
    ensures Represents(p, d.(image := Rewrite(p, d.image.file.value, s.records[k].capsuleId, replacement).value),
                       s.(records := s.records[k := replacement]))
  {
    var lines, out := LinesOf(s.records), Line(replacement);
    RepresentedLines(p, d, s);
    assert WellStored(s.records[k := replacement][k]);
    ReadableLine(p, replacement);
    RewriteOne(p, lines, s.records, k, replacement, out);
    LinesOfUpdate(s.records, k, replacement);
    RepresentsUpdate(p, d, s, k, replacement, lines[k := out]);
  }

  lemma RepresentsUpdate(p: Platform, d: Disk, s: Vault, k: nat, replacement: Record, lines: seq<string>)
    requires Represents(p, d, s) && k < |s.records| && replacement == Records.Purge(s.records[k])
    requires Valid(s.(records := s.records[k := replacement])) && lines == LinesOf(s.records[k := replacement])
    ensures Represents(p, d.(image := Image(Some(Join(lines)), Index(p, true, lines))),
            s.(records := s.records[k := replacement]))
  {
    assert IsWire(s.records[k]);
    PurgeIsWire(s.records[k]);
    AllWireUpdate(s.records, k, replacement);
  }

  lemma RewriteOne(p: Platform, lines: seq<string>, records: seq<Record>, k: nat, replacement: Record, out: string)
    requires AllRead(p, lines, records) && AllClean(lines) && DistinctIds(records) && k < |records|
    requires Marshal(p, replacement) == Ok(out) && p.peek(out) == Peek(records[k].capsuleId, true)
    ensures Rewrite(p, Join(lines), records[k].capsuleId, replacement) ==
            Ok(Image(Some(Join(lines[k := out])), Index(p, true, lines[k := out])))
  {
    var id, now := records[k].capsuleId, lines[k := out];
    TokensOfJoin(lines);
    OneTarget(p, lines, records, k, out);
    RewrittenIndexExact(p, lines, id, out);
    IndexesAgree(p, now);
  }

  lemma OneTarget(p: Platform, lines: seq<string>, records: seq<Record>, k: nat, out: string)
    requires AllRead(p, lines, records) && DistinctIds(records) && k < |records|
    requires p.peek(out) == Peek(records[k].capsuleId, true)
    ensures var (id, now) := (records[k].capsuleId, lines[k := out]);
            HasTarget(p, lines, id) && Replaced(p, lines, id, out) == now && Shadowed(p, now)
  {
    var id, now := records[k].capsuleId, lines[k := out];
    forall i | 0 <= i < |lines|
      ensures IsTarget(p, id, lines[i]) <==> i == k
      ensures !HalfParsed(p, now[i])
    {
      assert Reads(p, lines[i], records[i]);
    }
    assert IsTarget(p, id, lines[k]);
    assert Replaced(p, lines, id, out) == now;
  }

  lemma ReopenRefines(p: Platform, d: Disk, s: Vault, namespace: string, keys: seq<string>)
    requires Lawful(p) && Represents(p, d, s)
    ensures StepDisk(p, d, Reopen(namespace, keys)).1 == Step(p, true, s, Reopen(namespace, keys)).1
    ensures Represents(p, StepDisk(p, d, Reopen(namespace, keys)).0, Step(p, true, s, Reopen(namespace, keys)).0)
  {
    OpenRepresented(p, d, s, namespace, keys);
  }

  /** Reopening scans the represented file back to the index the store already has. */
  lemma OpenRepresented(p: Platform, d: Disk, s: Vault, namespace: string, keys: seq<string>)
    requires Lawful(p) && Represents(p, d, s)
    ensures OpenImage(p, d.image.file, namespace, keys) ==
            if ValidConfiguration(namespace, keys) then Ok(d.image) else Err(Invalid)
  {
    RepresentedLines(p, d, s);
    TokensOfJoin(LinesOf(s.records));
  }

  lemma StepRefines(p: Platform, d: Disk, s: Vault, op: Op)
    requires Lawful(p) && Represents(p, d, s)
    ensures StepDisk(p, d, op).1 == Step(p, true, s, op).1
    ensures Represents(p, StepDisk(p, d, op).0, Step(p, true, s, op).0)
  {
    match op
    case Init =>
    case Put(r) => PutRefines(p, d, s, r);
    case Get(id) => ReadRepresented(p, d, s, id);
    case Purge(id) => PurgeRefines(p, d, s, id);
    case Reopen(namespace, keys) => ReopenRefines(p, d, s, namespace, keys);
  }

  /**
   * Every run of the file-backed store answers as the lifecycle does and ends in a file that
   * represents the lifecycle's state.
   */
  lemma {:induction false} RunRefines(p: Platform, d: Disk, s: Vault, ops: seq<Op>)
    requires Lawful(p) && Represents(p, d, s)
    ensures RunDisk(p, d, ops).1 == Run(p, true, s, ops).1
    ensures Represents(p, RunDisk(p, d, ops).0, Run(p, true, s, ops).0)
    decreases ops
  {
    if ops != [] {
      StepRefines(p, d, s, ops[0]);
      RunRefines(p, StepDisk(p, d, ops[0]).0, Step(p, true, s, ops[0]).0, ops[1..]);
    }
  }

  /** The index entry of the id is the byte range of the line. */
  predicate Holds(im: Image, id: string, line: string) {
    id in im.index && im.file.Some? &&
    var e, text := im.index[id], im.file.value;
    e.offset + e.length < |text| && text[e.offset..e.offset + e.length] == line
  }

  /** The byte range of each stored id holds exactly its line. */
  ghost predicate RangesExact(d: Disk, records: seq<Record>) {
    (forall id :: id in d.image.index <==> IndexOf(records, id) < |records|) &&
    forall k | 0 <= k < |records| :: Holds(d.image, records[k].capsuleId, LinesOf(records)[k])
  }

  lemma RangeOf(p: Platform, im: Image, lines: seq<string>, records: seq<Record>, k: nat)
    requires AllRead(p, lines, records) && DistinctIds(records) && k < |records|
    requires im == Image(Some(Join(lines)), Index(p, true, lines))
    ensures Holds(im, records[k].capsuleId, lines[k])
  {
    IndexLookup(p, lines, records, records[k].capsuleId);
    assert IndexOf(records, records[k].capsuleId) == k;
    LineAt(lines, k);
  }

  lemma RangesOfLines(p: Platform, d: Disk, records: seq<Record>, lines: seq<string>)
    requires AllRead(p, lines, records) && DistinctIds(records) && lines == LinesOf(records)
    requires d.image.index == Index(p, true, lines) && (records != [] ==> d.image.file == Some(Join(lines)))
    ensures RangesExact(d, records)
  {
    forall id ensures id in d.image.index <==> IndexOf(records, id) < |records| {
      IndexLookup(p, lines, records, id);
    }
    forall k | 0 <= k < |records| ensures Holds(d.image, records[k].capsuleId, lines[k]) {
      RangeOf(p, d.image, lines, records, k);
    }
  }

  /**
   * The file is absent until Init; then it is one LF-terminated line per record, and a scan of it
   * rebuilds the index.
   */
  predicate FileExact(p: Platform, d: Disk, s: Vault) {
    (d.image.file.Some? <==> s.ready) &&
    (s.ready ==>
      d.image.file.value == Join(LinesOf(s.records)) &&
      Tokens(d.image.file.value) == Some(LinesOf(s.records)) &&
      d.image.index == Index(p, true, LinesOf(s.records)))
  }

  /**
   * From an absent file, over any sequence of Init, Put, Get, Purge and reopening: the answers are
   * those of the abstract store; the file is one LF-terminated line per record, in order, with
   * distinct ids; a scan of the file rebuilds the index; and each id is indexed with exactly its
   * line's byte range.
   */
  lemma FromAbsentFile(p: Platform, keys: seq<string>, ops: seq<Op>, d: Disk, answers: seq<Response>)
    requires Lawful(p)
    requires RunDisk(p, Disk(Image(None, map[]), keys), ops) == (d, answers)
    ensures var (s, expected) := Run(p, true, Vault(false, [], keys), ops);
            answers == expected && Valid(s) && d.trusted == s.trusted && FileExact(p, d, s) && RangesExact(d, s.records)
  {
    RunRefines(p, Disk(Image(None, map[]), keys), Vault(false, [], keys), ops);
    RepresentedExactly(p, d, Run(p, true, Vault(false, [], keys), ops).0);
  }

  lemma RepresentedExactly(p: Platform, d: Disk, s: Vault)
    requires Lawful(p) && Represents(p, d, s)
    ensures FileExact(p, d, s) && RangesExact(d, s.records)
  {
    RepresentedLines(p, d, s);
    TokensOfJoin(LinesOf(s.records));
    RangesOfLines(p, d, s.records, LinesOf(s.records));
  }
}
