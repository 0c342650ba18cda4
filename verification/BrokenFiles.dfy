/** Files the store did not write, on which a purge reports success and a later New disagrees or fails. */
module BrokenFiles {
  import opened Common
  import opened Records
  import opened JsonText
  import opened LineCodec
  import opened LineShape
  import opened Admission
  import opened Lifecycle
  import opened Lines
  import opened Rewriting
  import opened JsonlStore
  import opened Consistency

  function Id(): string { Zeros(64) }

  function Keys(): seq<string> { [Zeros(PUBLIC_KEY_SIZE)] }

  lemma Configured()
    ensures ValidConfiguration("n", Keys()) && IsDigest(Id())
  {
  }

  lemma IdLine(rest: string)
    ensures ReadField(CAPSULE_ID + Quote(Id()) + rest, CAPSULE_ID) == Some((Id(), rest))
    ensures |CAPSULE_ID + Quote(Id()) + rest| == 80 + |rest|
  {
    var line := CAPSULE_ID + Quote(Id()) + rest;
    ReadWrittenField(CAPSULE_ID, Id(), rest, "");
    assert line + "" == line && rest + "" == rest;
    EscapePlain(Id());
  }

  // ---------------------------------------------------------------- a purge that makes its line too long

  /** n elements of a JSON array, each an empty object. */
  function Braces(n: nat): string {
    if n == 0 then "" else if n == 1 then "{}" else "{}," + Braces(n - 1)
  }

  lemma {:induction false} BracesShape(n: nat)
    ensures |Braces(n)| <= 3 * n && ControlFree(Braces(n))
  {
    if n > 1 {
      BracesShape(n - 1);
    }
  }

  const INVENTORY := ",\"artifacts\":["

  /** A line another writer may leave out most fields of. */
  function Sparse(n: nat): string {
    CAPSULE_ID + Quote(Id()) + (INVENTORY + Braces(n) + "]}")
  }

  /** What the JSON reader makes of {}: every field has its zero value. */
  function Blank(): Artifact {
    Artifact("", Unbound, None, OtherState(""), "")
  }

  function Blanks(n: nat): seq<Artifact> {
    seq(n, i => Blank())
  }

  function SparseRecord(n: nat): Record {
    Record(Id(), "", "", Blanks(n))
  }

  /** A platform whose reader also accepts the sparse line. */
  function SparseReader(n: nat): Platform {
    Reading(line => if line == Sparse(n) then Some(SparseRecord(n)) else LineCodec.Decode(line),
            line => if line == Sparse(n) then Peek(Id(), true) else PeekOf(line))
  }

  lemma SparseTail(n: nat)
    requires n <= 5_000_000
    ensures var tail := INVENTORY + Braces(n) + "]}";
            ControlFree(tail) && |tail| <= 15_000_016 && tail[|tail| - 1] == '}' && !(CAPSULE <= tail)
  {
    BracesShape(n);
    var tail := INVENTORY + Braces(n) + "]}";
    assert INVENTORY[2] == 'a' && tail[2] == 'a' && CAPSULE[2] == 'c';
  }

  /** It is a line like any other to the scanner, and not in the form the library writes. */
  lemma SparseShape(n: nat)
    requires n <= 5_000_000
    ensures IsClean(Sparse(n)) && LineCodec.Decode(Sparse(n)) == None && Sparse(n) != ""
  {
    var tail := INVENTORY + Braces(n) + "]}";
    SparseTail(n);
    TailLine(tail);
  }

  lemma TailLine(tail: string)
    requires ControlFree(tail) && 0 < |tail| <= 15_000_016 && tail[|tail| - 1] == '}' && !(CAPSULE <= tail)
    ensures var line := CAPSULE_ID + Quote(Id()) + tail; IsClean(line) && line != "" && LineCodec.Decode(line) == None
  {
    var line := CAPSULE_ID + Quote(Id()) + tail;
    IdLine(tail);
    SparsePrintable(tail);
    assert line[|line| - 1] == tail[|tail| - 1];
    PrintableIsClean(line);
    NotWritten(line, tail);
  }

  lemma PrintableIsClean(line: string)
    requires ControlFree(line) && |line| < MAX_LINE
    ensures IsClean(line)
  {
  }

  lemma NotWritten(line: string, tail: string)
    requires ReadField(line, CAPSULE_ID) == Some((Id(), tail)) && !(CAPSULE <= tail)
    ensures LineCodec.Decode(line) == None
  {
  }

  lemma SparsePrintable(tail: string)
    requires ControlFree(tail)
    ensures ControlFree(CAPSULE_ID + Quote(Id()) + tail)
  {
    RecordKeysPrintable();
    FieldPrintable(CAPSULE_ID, Id(), tail);
  }

  lemma SparseLawful(n: nat)
    requires n <= 5_000_000
    ensures Lawful(SparseReader(n))
  {
    SparseShape(n);
    ReadingLawful(line => if line == Sparse(n) then Some(SparseRecord(n)) else LineCodec.Decode(line),
                  line => if line == Sparse(n) then Peek(Id(), true) else PeekOf(line));
  }

  lemma BlankLength()
    ensures |ArtifactText(Blank())| == 22
  {
    assert Quote("") == "\"\"";
    assert |StatePart(Blank())| == 12;
    assert ContentPart(Blank()) == StatePart(Blank()) && BindingPart(Blank()) == StatePart(Blank());
  }

  lemma {:induction false} BlanksLength(artifacts: seq<Artifact>, tail: string)
    requires forall i | 0 <= i < |artifacts| :: artifacts[i] == Blank()
    ensures |ArtifactsText(artifacts, tail)| + 1 >= 23 * |artifacts|
  {
    if artifacts != [] {
      BlankLength();
      BlanksLength(artifacts[1..], tail);
    }
  }

  lemma SparseGrows(n: nat)
    requires n >= 730_000
    ensures Records.Purge(SparseRecord(n)) == SparseRecord(n) && |Line(SparseRecord(n))| >= MAX_LINE
  {
    assert Tombstones(Blanks(n)) == Blanks(n);
    BlanksLength(Blanks(n), "]}");
    LineContains(SparseRecord(n));
  }

  lemma LineContains(r: Record)
    ensures |Line(r)| >= |ArtifactsText(r.artifacts, "]}")|
  {
    assert |EnvelopePart(r)| >= |ArtifactsText(r.artifacts, "]}")|;
    assert |CapsulePart(r)| >= |EnvelopePart(r)|;
  }

  /** The open store on a file of one line that yields the ID. */
  lemma OneLine(p: Platform, line: string, r: Record)
    requires IsClean(line) && line != "" && r.capsuleId == Id() && p.peek(line) == Peek(Id(), true) &&
             p.unmarshal(line) == Some(r)
    ensures var file := Some(Join([line]));
            var im := Image(file, map[Id() := Entry(0, |line|)]);
            LfOnly(file.value) && RawLines(file.value) == [line] && OpenImage(p, file, "n", Keys()) == Ok(im) &&
            ReadIndexed(p, im, Id()) == Ok(r) && PurgeTarget(p, im, Id()) == Ok(Records.Purge(r))
  {
    Configured();
    TokensOfJoin([line]);
    JoinedLines([line]);
    assert Join([line]) == line + "\n" + "";
    OneIndexed(p, line);
    Opens(p, Some(Join([line])), "n", Keys());
    assert Join([line])[0..|line|] == line;
    TargetAt(p, Image(Some(Join([line])), map[Id() := Entry(0, |line|)]), line, r);
  }

  lemma OneIndexed(p: Platform, line: string)
    requires p.peek(line) == Peek(Id(), true)
    ensures Index(p, true, [line]) == map[Id() := Entry(0, |line|)]
  {
    assert [line][..0] == [];
    assert Index(p, true, []) == map[] && Offset([]) == 0;
  }

  /** Purging the only line succeeds. */
  lemma OneTarget(p: Platform, im: Image, line: string, r: Record)
    requires PurgeTarget(p, im, Id()) == Ok(r) && Utf8Record(p, r)
    requires im.file == Some(Join([line])) && IsClean(line) && p.peek(line) == Peek(Id(), true)
    ensures PurgeImage(p, im, Id()).1 == Done
  {
    TokensOfJoin([line]);
    assert IsTarget(p, Id(), [line][0]) && HasTarget(p, [line], Id());
  }

  /** A line whose purged form is too long: what becomes of a file that holds nothing else. */
  lemma PurgeOutgrows(p: Platform, line: string, r: Record) returns (im: Image)
    requires Lawful(p) && IsClean(line) && line != "" && r.capsuleId == Id() && Utf8Record(p, Records.Purge(r))
    requires p.peek(line) == Peek(Id(), true) && p.unmarshal(line) == Some(r)
    requires |Line(Records.Purge(r))| >= MAX_LINE
    ensures im.file == Some(Join([line])) && LfOnly(im.file.value) && OpenImage(p, im.file, "n", Keys()) == Ok(im)
    ensures PurgeImage(p, im, Id()).1 == Done
    ensures OpenImage(p, PurgeImage(p, im, Id()).0.file, "n", Keys()) == Err(Failed)
    ensures forall id :: PurgeImage(p, PurgeImage(p, im, Id()).0, id).1 != Done
  {
    OneLine(p, line, r);
    im := Image(Some(Join([line])), map[Id() := Entry(0, |line|)]);
    OneTarget(p, im, line, Records.Purge(r));
    Configured();
    PurgeReopens(p, im, Id(), "n", Keys());
    var after := PurgeImage(p, im, Id()).0;
    NotReopened(p, after);
    forall id ensures PurgeImage(p, after, id).1 != Done {
      PurgeNeedsScan(p, after, id);
    }
  }

  lemma NotReopened(p: Platform, im: Image)
    requires OpenImage(p, im.file, "n", Keys()).Err?
    ensures im.file.Some? && Tokens(im.file.value).None? && OpenImage(p, im.file, "n", Keys()) == Err(Failed)
  {
    Configured();
  }

  /**
   * A line of at most 15 MB in which 730,000 or more artifacts are written as {}: it is opened and
   * indexed, Purge of its ID reports success, and from then on New fails and so does every Purge.
   */
  lemma PurgeBreaksFile(n: nat) returns (p: Platform, im: Image)
    requires 730_000 <= n <= 5_000_000
    ensures Lawful(p) && im.file == Some(Join([Sparse(n)])) && LfOnly(im.file.value)
    ensures OpenImage(p, im.file, "n", Keys()) == Ok(im) && PurgeImage(p, im, Id()).1 == Done
    ensures OpenImage(p, PurgeImage(p, im, Id()).0.file, "n", Keys()) == Err(Failed)
    ensures forall id :: PurgeImage(p, PurgeImage(p, im, Id()).0, id).1 != Done
  {
    p := SparseReader(n);
    SparseShape(n);
    SparseReads(n);
    SparseGrows(n);
    im := PurgeOutgrows(p, Sparse(n), SparseRecord(n));
  }

  lemma SparseReads(n: nat)
    requires n <= 5_000_000
    ensures var p, line := SparseReader(n), Sparse(n);
            Lawful(p) && p.peek(line) == Peek(Id(), true) && p.unmarshal(line) == Some(SparseRecord(n)) &&
            Utf8Record(p, Records.Purge(SparseRecord(n)))
  {
    SparseLawful(n);
  }

  // ---------------------------------------------------------------- a purge that indexes a broken line

  function OtherId(): (id: string)
    ensures IsDigest(id)
  {
    seq(64, i => '1')
  }

  /** A line that breaks off after the Capsule ID. */
  function Half(): string {
    CAPSULE_ID + Quote(OtherId())
  }

  /**
   * A platform whose reader reports the ID of the broken line together with its error, as an
   * unmarshaller does that fills fields as it goes.
   */
  function HalfReader(): Platform {
    Reading(line => LineCodec.Decode(line), line => if line == Half() then Peek(OtherId(), false) else PeekOf(line))
  }

  lemma HalfShape()
    ensures IsClean(Half()) && LineCodec.Decode(Half()) == None && Half() != ""
  {
    EscapePlain(OtherId());
    ReadWrittenField(CAPSULE_ID, OtherId(), "", "");
    assert Half() + "" + "" == Half() && "" + "" == "";
    assert !(CAPSULE <= "");
    RecordKeysPrintable();
    FieldPrintable(CAPSULE_ID, OtherId(), "");
    PrintableIsClean(Half());
  }

  lemma HalfLawful()
    ensures Lawful(HalfReader()) && HalfParsed(HalfReader(), Half())
  {
    HalfShape();
    ReadingLawful(line => LineCodec.Decode(line),
                  line => if line == Half() then Peek(OtherId(), false) else PeekOf(line));
  }

  function Bare(): Record {
    Record(Id(), "", "", [])
  }

  lemma BareLine(p: Platform)
    requires Lawful(p) && p.utf8(Id())
    ensures Records.Purge(Bare()) == Bare() && Marshal(p, Bare()) == Ok(Line(Bare())) && Line(Bare()) != ""
    ensures IsClean(Line(Bare())) && p.peek(Line(Bare())) == Peek(Id(), true) &&
            p.unmarshal(Line(Bare())) == Some(Bare())
  {
    Configured();
    assert Tombstones([]) == [];
    LineLength(Bare());
    WrittenLine(Bare());
    ReadBack(p, Bare());
  }

  /** The store opened on a broken line followed by a whole one. */
  lemma TwoLines(p: Platform, lines: seq<string>, r: Record) returns (im: Image)
    requires |lines| == 2 && AllClean(lines) && lines[1] != "" && r.capsuleId == Id()
    requires p.peek(lines[1]) == Peek(Id(), true) && p.unmarshal(lines[1]) == Some(r)
    ensures im.file == Some(Join(lines)) && LfOnly(im.file.value) && Tokens(im.file.value) == Some(lines)
    ensures OpenImage(p, im.file, "n", Keys()) == Ok(im) && PurgeTarget(p, im, Id()) == Ok(Records.Purge(r))
  {
    Configured();
    TokensOfJoin(lines);
    im := Image(Some(Join(lines)), Index(p, true, lines));
    Opens(p, im.file, "n", Keys());
    SecondIndexed(p, lines);
    LineAt(lines, 1);
    TargetAt(p, im, lines[1], r);
  }

  lemma SecondIndexed(p: Platform, lines: seq<string>)
    requires |lines| == 2 && p.peek(lines[1]) == Peek(Id(), true)
    ensures Id() in Index(p, true, lines) && Index(p, true, lines)[Id()] == Entry(Offset(lines[..1]), |lines[1]|)
  {
    Configured();
    assert Yields(p, true, lines[1]);
    var k := IndexExact(p, true, lines, Id());
    assert k == 1;
  }

  lemma TargetAt(p: Platform, im: Image, line: string, r: Record)
    requires line != "" && r.capsuleId == Id() && p.unmarshal(line) == Some(r) && im.file.Some? && Id() in im.index
    requires var e := im.index[Id()];
             e.length == |line| && e.offset + |line| <= |im.file.value| &&
               im.file.value[e.offset..e.offset + |line|] == line
    ensures ReadIndexed(p, im, Id()) == Ok(r) && PurgeTarget(p, im, Id()) == Ok(Records.Purge(r))
  {
    Configured();
  }

  /**
   * A broken line ahead of a whole one: New indexes only the whole one, so the broken ID is not found.
   * Purge of the other ID reports success and indexes both, so that Get of the broken ID answers that
   * the record is corrupt; and after reopening the file the purge left it is not found again.
   */
  lemma PurgeIndexesBrokenLine() returns (p: Platform, im: Image)
    ensures Lawful(p) && im.file == Some(Join([Half(), Line(Bare())])) && LfOnly(im.file.value)
    ensures OpenImage(p, im.file, "n", Keys()) == Ok(im) && PurgeImage(p, im, Id()).1 == Done
    ensures var after := PurgeImage(p, im, Id()).0;
            var reopened := OpenImage(p, after.file, "n", Keys());
            reopened.Ok? && GetImage(p, Keys(), im, OtherId()) == Refused(NotFound) &&
            GetImage(p, Keys(), after, OtherId()) == Refused(Corrupt) &&
            GetImage(p, Keys(), reopened.value, OtherId()) == Refused(NotFound)
  {
    p := HalfReader();
    HalfShape();
    HalfLawful();
    im := BrokenThenWhole(p, Half());
  }

  lemma BrokenThenWhole(p: Platform, half: string) returns (im: Image)
    requires Lawful(p) && IsClean(half) && HalfParsed(p, half) && p.peek(half) == Peek(OtherId(), false) && p.utf8(Id())
    requires p.unmarshal(half) == None && half != ""
    ensures im.file == Some(Join([half, Line(Bare())])) && LfOnly(im.file.value)
    ensures OpenImage(p, im.file, "n", Keys()) == Ok(im) && PurgeImage(p, im, Id()).1 == Done
    ensures var after := PurgeImage(p, im, Id()).0;
            var reopened := OpenImage(p, after.file, "n", Keys());
            reopened.Ok? && GetImage(p, Keys(), im, OtherId()) == Refused(NotFound) &&
            GetImage(p, Keys(), after, OtherId()) == Refused(Corrupt) &&
            GetImage(p, Keys(), reopened.value, OtherId()) == Refused(NotFound)
  {
    BareLine(p);
    im := TwoLines(p, [half, Line(Bare())], Bare());
    PurgeOfTwo(p, im, half);
  }

  lemma PurgeOfTwo(p: Platform, im: Image, half: string)
    requires Lawful(p) && IsClean(half) && HalfParsed(p, half) && p.peek(half) == Peek(OtherId(), false) && p.utf8(Id())
    requires p.unmarshal(half) == None && half != ""
    requires im.file == Some(Join([half, Line(Bare())])) && PurgeTarget(p, im, Id()) == Ok(Records.Purge(Bare()))
    requires OpenImage(p, im.file, "n", Keys()) == Ok(im) && Tokens(im.file.value) == Some([half, Line(Bare())])
    ensures PurgeImage(p, im, Id()).1 == Done
    ensures var after := PurgeImage(p, im, Id()).0;
            var reopened := OpenImage(p, after.file, "n", Keys());
            reopened.Ok? && GetImage(p, Keys(), im, OtherId()) == Refused(NotFound) &&
            GetImage(p, Keys(), after, OtherId()) == Refused(Corrupt) &&
            GetImage(p, Keys(), reopened.value, OtherId()) == Refused(NotFound)
  {
    var line := Line(Bare());
    BareLine(p);
    var after := RewriteOfTwo(p, im, half, line);
    StrayGets(p, im, after, [half, line]);
  }

  /** The purge rewrites the whole line to itself, and indexes both. */
  lemma RewriteOfTwo(p: Platform, im: Image, half: string, line: string) returns (after: Image)
    requires HalfParsed(p, half) && p.peek(half).capsuleId == OtherId() && p.peek(line) == Peek(Id(), true)
    requires im.file == Some(Join([half, line])) && PurgeTarget(p, im, Id()) == Ok(Bare())
    requires Tokens(im.file.value) == Some([half, line]) && Marshal(p, Bare()) == Ok(line)
    ensures PurgeImage(p, im, Id()) == (after, Done)
    ensures after == Image(im.file, Index(p, false, [half, line]))
  {
    var lines := [half, line];
    Configured();
    IdsDiffer();
    assert IsTarget(p, Id(), lines[1]) && HasTarget(p, lines, Id());
    BrokenPair(p, lines, Id(), line);
    RewrittenIndexExact(p, lines, Id(), line);
    after := Image(im.file, Index(p, false, lines));
  }

  /** Get of the broken ID: before the purge, after it, and after reopening. */
  lemma StrayGets(p: Platform, im: Image, after: Image, lines: seq<string>)
    requires |lines| == 2 && lines[0] != "" && p.unmarshal(lines[0]) == None && HalfParsed(p, lines[0])
    requires p.peek(lines[0]).capsuleId == OtherId() && p.peek(lines[1]).capsuleId == Id()
    requires im.file == Some(Join(lines)) && Tokens(im.file.value) == Some(lines)
    requires OpenImage(p, im.file, "n", Keys()) == Ok(im) && after == Image(im.file, Index(p, false, lines))
    ensures OpenImage(p, after.file, "n", Keys()) == Ok(im)
    ensures GetImage(p, Keys(), im, OtherId()) == Refused(NotFound)
    ensures GetImage(p, Keys(), after, OtherId()) == Refused(Corrupt)
  {
    Configured();
    IdsDiffer();
    Opens(p, im.file, "n", Keys());
    StrictSkipsHalf(p, lines);
    StrayEntry(p, after, lines);
  }

  /** An index entry for a line that cannot be read. */
  lemma StrayEntry(p: Platform, im: Image, lines: seq<string>)
    requires |lines| == 2 && lines[0] != "" && p.unmarshal(lines[0]) == None
    requires p.peek(lines[0]).capsuleId == OtherId() && p.peek(lines[1]).capsuleId == Id()
    requires im.file == Some(Join(lines)) && im.index == Index(p, false, lines)
    ensures GetImage(p, Keys(), im, OtherId()) == Refused(Corrupt)
  {
    IdsDiffer();
    assert Yields(p, false, lines[0]);
    var k := IndexExact(p, false, lines, OtherId());
    assert k == 0;
    LineAt(lines, 0);
  }

  lemma IdsDiffer()
    ensures OtherId() != Id()
  {
    assert OtherId()[0] == '1' && Id()[0] == '0';
  }

  // ---------------------------------------------------------------- a purge that makes a record invalid

  /** A record with one present original that carries no digest, as a writer may leave it out. */
  function Undigested(): Record {
    Record(Id(), "", "", [Artifact("n", Unbound, Some("x"), Present, "")])
  }

  lemma UndigestedVerifies()
    ensures Verify(Sample(), Undigested(), Keys()).Ok?
    ensures Verify(Sample(), Records.Purge(Undigested()), Keys()) == Err(Invalid)
  {
    var p, r := Sample(), Undigested();
    Configured();
    SampleDecodes("");
    assert Keys()[0] == Zeros(PUBLIC_KEY_SIZE);
    assert Authenticate(p, r, Keys()) == Ok(map[]) && Authenticate(p, Records.Purge(r), Keys()) == Ok(map[]);
    VerifyExact(p, r, Keys());
    OnlyCheck(p, r.artifacts[0]);
    OnlyCheck(p, Tombstone(r.artifacts[0]));
    assert Records.Purge(r).artifacts == [Tombstone(r.artifacts[0])];
  }

  lemma OnlyCheck(p: Platform, a: Artifact)
    requires IsName(a.name) && a.binding == Unbound
    ensures CheckArtifacts(p, map[], [a]) ==
            if CheckState(p, map[], a, "").Err? then Err(CheckState(p, map[], a, "").error)
            else Ok(map[a.name := CheckState(p, map[], a, "").value])
  {
    assert [a] == [] + [a];
    CheckLast(p, map[], [], a);
  }

  /** A short record that a written line gives back. */
  predicate Short(p: Platform, r: Record) {
    r.capsuleId == Id() && Utf8Record(p, r) && Normal(r) == r && |Line(r)| < MAX_LINE
  }

  lemma WrittenReads(p: Platform, r: Record)
    requires Lawful(p) && Short(p, r)
    ensures Readable(p, Line(r), r) && Marshal(p, r) == Ok(Line(r))
  {
    WrittenLine(r);
    ReadBack(p, r);
  }

  /** The line scans and is read as the record. */
  predicate Readable(p: Platform, line: string, r: Record) {
    IsClean(line) && line != "" && r.capsuleId == Id() &&
    p.peek(line) == Peek(Id(), true) && p.unmarshal(line) == Some(r)
  }

  lemma UndigestedShort()
    ensures Short(Sample(), Undigested()) && Short(Sample(), Records.Purge(Undigested()))
  {
    UndigestedNormal();
    UndigestedLength();
    ShortAndPurged(Undigested());
  }

  lemma ShortAndPurged(r: Record)
    requires r.capsuleId == Id() && |Line(r)| < MAX_LINE
    requires Normal(r) == r && Normal(Records.Purge(r)) == Records.Purge(r)
    ensures Short(Sample(), r) && Short(Sample(), Records.Purge(r))
  {
    PurgedLineNoLonger(r);
    SampleUtf8(r);
    SampleUtf8(Records.Purge(r));
  }

  lemma SampleUtf8(r: Record)
    ensures Utf8Record(Sample(), r)
  {
  }

  lemma UndigestedNormal()
    ensures Normal(Undigested()) == Undigested()
    ensures Normal(Records.Purge(Undigested())) == Records.Purge(Undigested())
  {
    var r := Undigested();
    StateRoundTrip(Present);
    StateRoundTrip(Purged);
    BindingRoundTrip(Unbound);
    assert Normal(r).artifacts == r.artifacts;
    assert Normal(Records.Purge(r)).artifacts == Records.Purge(r).artifacts;
  }

  lemma UndigestedLength()
    ensures |Line(Undigested())| < MAX_LINE
  {
    var r := Undigested();
    Configured();
    OneContent(r.artifacts);
    SmallUndigested(r.artifacts[0]);
    LineLength(r);
  }

  lemma OneContent(artifacts: seq<Artifact>)
    requires |artifacts| == 1
    ensures ContentSize(artifacts) == ContentLength(artifacts[0])
  {
    assert artifacts[1..] == [];
  }

  lemma SmallUndigested(a: Artifact)
    requires a == Artifact("n", Unbound, Some("x"), Present, "")
    ensures Small(a)
  {
    StateTextShape(Present);
  }

  /** A file of one line, before and after its purge. */
  lemma PurgeOfLine(p: Platform, line: string, r: Record, out: string, purged: Record) returns (im: Image, after: Image)
    requires Readable(p, line, r) && Readable(p, out, purged) && purged == Records.Purge(r)
    requires Rewrite(p, Join([line]), Id(), purged) == Ok(OneImage(out))
    ensures im == OneImage(line) && OpenImage(p, im.file, "n", Keys()) == Ok(im)
    ensures PurgeImage(p, im, Id()) == (after, Done)
    ensures ReadIndexed(p, im, Id()) == Ok(r) && ReadIndexed(p, after, Id()) == Ok(purged)
    ensures Id() in im.index && Id() in after.index
  {
    im, after := OneImage(line), OneImage(out);
    OneLine(p, line, r);
    OneLine(p, out, purged);
  }

  /** The file of this line alone, and its index. */
  function OneImage(line: string): Image {
    Image(Some(Join([line])), map[Id() := Entry(0, |line|)])
  }

  lemma OneRewritten(p: Platform, line: string, r: Record, out: string)
    requires Marshal(p, r) == Ok(out) && IsClean(line) && p.peek(line) == Peek(Id(), true)
    ensures Rewrite(p, Join([line]), Id(), r) == Ok(OneImage(out))
  {
    var lines := [line];
    TokensOfJoin(lines);
    Configured();
    assert IsTarget(p, Id(), lines[0]) && HasTarget(p, lines, Id());
    assert Replaced(p, lines, Id(), out) == [out];
    OneReindexed(p, line, out);
  }

  lemma OneReindexed(p: Platform, line: string, out: string)
    requires p.peek(line) == Peek(Id(), true)
    ensures RewrittenIndex(p, [line], Id(), out) == map[Id() := Entry(0, |out|)]
  {
    assert [line][..0] == [] && Replaced(p, [], Id(), out) == [] && Offset([]) == 0;
    assert Id()[0] == '0';
  }

  /**
   * A present original without a digest, on a line another writer wrote: Get returns the record, Purge
   * reports success, and Get then answers that the record is invalid.
   */
  lemma PurgeInvalidates() returns (p: Platform, im: Image)
    ensures Lawful(p) && im.file == Some(Join([Line(Undigested())])) && OpenImage(p, im.file, "n", Keys()) == Ok(im)
    ensures GetImage(p, Keys(), im, Id()) == Returned(Undigested())
    ensures PurgeImage(p, im, Id()).1 == Done
    ensures GetImage(p, Keys(), PurgeImage(p, im, Id()).0, Id()) == Refused(Invalid)
  {
    p := Sample();
    SampleLawful();
    UndigestedShort();
    var r := Undigested();
    WrittenReads(p, r);
    WrittenReads(p, Records.Purge(r));
    UndigestedVerifies();
    OneRewritten(p, Line(r), Records.Purge(r), Line(Records.Purge(r)));
    im := GetBeforeAndAfter(p, Line(r), r, Line(Records.Purge(r)), Records.Purge(r));
  }

  lemma GetBeforeAndAfter(p: Platform, line: string, r: Record, out: string, purged: Record) returns (im: Image)
    requires Readable(p, line, r) && Readable(p, out, purged) && purged == Records.Purge(r)
    requires Rewrite(p, Join([line]), Id(), purged) == Ok(OneImage(out))
    requires Verify(p, r, Keys()).Ok? && Verify(p, purged, Keys()) == Err(Invalid)
    ensures im.file == Some(Join([line])) && OpenImage(p, im.file, "n", Keys()) == Ok(im)
    ensures GetImage(p, Keys(), im, Id()) == Returned(r) && PurgeImage(p, im, Id()).1 == Done
    ensures GetImage(p, Keys(), PurgeImage(p, im, Id()).0, Id()) == Refused(Invalid)
  {
    var after;
    Configured();
    im, after := PurgeOfLine(p, line, r, out, purged);
  }

  // ---------------------------------------------------------------- an offset that a CR puts out

  /** An empty line that ends in CR LF, ahead of a written line. */
  function AfterCR(line: string): string {
    "\r\n" + line + "\n"
  }

  lemma CRTokens(line: string)
    requires IsClean(line)
    ensures Tokens(AfterCR(line)) == Some(["", line])
  {
    var rest := Join([line]);
    TokensOfJoin([line]);
    assert rest == line + "\n" + "";
    assert AfterCR(line) == "\r" + "\n" + rest;
    TokensStep("\r", rest);
    assert [DropCR("\r")] + [line] == ["", line];
  }

  /** The range of the second line starts one byte early: at the LF of the first. */
  lemma CRRange(line: string)
    requires line != ""
    ensures Offset(["", line][..1]) == 1 && 1 + |line| <= |AfterCR(line)|
    ensures AfterCR(line)[1..1 + |line|] == "\n" + line[..|line| - 1]
  {
    assert ["", line][..1] == [""] && [""][..0] == [] && Offset([]) == 0;
    assert AfterCR(line) == "\r" + ("\n" + line[..|line| - 1]) + ([line[|line| - 1]] + "\n");
  }

  lemma NotALine(t: string)
    requires t != "" && t[0] == '\n'
    ensures LineCodec.Decode(t) == None
  {
    assert CAPSULE_ID[0] == '{';
  }

  /**
   * A CR before the LF of an earlier line: New succeeds and indexes the record one byte early, at the
   * LF, and Get answers that it is corrupt although its line is whole.
   */
  lemma CRHidesRecord() returns (p: Platform, im: Image)
    ensures Lawful(p) && im.file == Some(AfterCR(Line(Bare()))) && OpenImage(p, im.file, "n", Keys()) == Ok(im)
    ensures Id() in im.index && im.index[Id()] == Entry(1, |Line(Bare())|)
    ensures GetImage(p, Keys(), im, Id()) == Refused(Corrupt)
  {
    p := Sample();
    SampleLawful();
    BareLine(p);
    im := OpenAfterCR(p, Line(Bare()));
    CRRange(Line(Bare()));
    NotALine("\n" + Line(Bare())[..|Line(Bare())| - 1]);
    CannotGet(p, im, "\n" + Line(Bare())[..|Line(Bare())| - 1]);
  }

  lemma OpenAfterCR(p: Platform, line: string) returns (im: Image)
    requires IsClean(line) && line != "" && p.peek(line) == Peek(Id(), true)
    ensures im.file == Some(AfterCR(line)) && OpenImage(p, im.file, "n", Keys()) == Ok(im)
    ensures Id() in im.index && im.index[Id()] == Entry(1, |line|)
  {
    CRTokens(line);
    CRRange(line);
    SecondIndexed(p, ["", line]);
    Configured();
    im := Image(Some(AfterCR(line)), Index(p, true, ["", line]));
    Opens(p, im.file, "n", Keys());
  }

  lemma CannotGet(p: Platform, im: Image, bytes: string)
    requires im.file.Some? && Id() in im.index && p.unmarshal(bytes) == None && bytes != ""
    requires var e := im.index[Id()];
             e.length == |bytes| && e.offset + |bytes| <= |im.file.value| &&
             im.file.value[e.offset..e.offset + |bytes|] == bytes
    ensures GetImage(p, Keys(), im, Id()) == Refused(Corrupt)
  {
    Configured();
  }
}
