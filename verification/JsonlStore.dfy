/** The JSONL backend: one file of lines and an in-memory index of byte ranges. */
module JsonlStore {
  import opened Common
  import opened Records
  import opened LineCodec
  import opened LineShape
  import opened Admission
  import opened Checksum
  import opened Lifecycle
  import opened Lines
  import opened Rewriting

  // ---------------------------------------------------------------- the operations as functions of file and index

  function ReadAt(p: Platform, file: Option<string>, e: Entry): Result<Record> {
    match file
    case None => Err(Failed)
    case Some(text) =>
      if e.length > 0 && e.offset + e.length > |text| then Err(Corrupt)
      else match p.unmarshal(if e.length == 0 then "" else text[e.offset..e.offset + e.length])
        case None => Err(Corrupt)
        case Some(record) => Ok(record)
  }

  /** The record an index entry leads to, if it is the one the index promises. */
  function ReadIndexed(p: Platform, im: Image, id: string): Result<Record>
    requires id in im.index
  {
    var record :- ReadAt(p, im.file, im.index[id]);
    if record.capsuleId != id then Err(Corrupt) else Ok(record)
  }

  /** Put of an admitted record. */
  function PutAdmittedImage(p: Platform, trusted: seq<string>, im: Image, q: Record): (Image, Response) {
    if q.capsuleId in im.index then (
      match ReadIndexed(p, im, q.capsuleId)
      case Err(e) => (im, Refused(e))
      case Ok(stored) => (im, Retry(p, trusted, stored, q))
    ) else (
      match Marshal(p, q)
      case Err(e) => (im, Refused(e))
      case Ok(data) =>
        match im.file
        case None => (im, Refused(Failed))
        case Some(text) =>
          (Image(Some(text + data + "\n"), im.index[q.capsuleId := Entry(|text|, |data|)]), Done)
    )
  }

  function PutImage(p: Platform, trusted: seq<string>, im: Image, r: Record): (Image, Response) {
    match Admit(p, trusted, r)
    case Err(e) => (im, Refused(e))
    case Ok(q) => PutAdmittedImage(p, trusted, im, q)
  }

  function GetImage(p: Platform, trusted: seq<string>, im: Image, id: string): Response {
    if !IsDigest(id) then Refused(Invalid)
    else if id !in im.index then Refused(NotFound)
    else match ReadIndexed(p, im, id)
      case Err(e) => Refused(e)
      case Ok(record) =>
        match Verify(p, record, trusted)
        case Err(e) => Refused(e)
        case Ok(_) => Returned(record)
  }

  /** The record Purge writes back, or why it does not. */
  function PurgeTarget(p: Platform, im: Image, id: string): Result<Record> {
    if !IsDigest(id) then Err(Invalid)
    else if id !in im.index then Err(NotFound)
    else
      var record :- ReadIndexed(p, im, id);
      Ok(Records.Purge(record))
  }

  function PurgeImage(p: Platform, im: Image, id: string): (Image, Response) {
    match PurgeTarget(p, im, id)
    case Err(e) => (im, Refused(e))
    case Ok(replacement) =>
      match im.file
      case None => (im, Refused(Failed))
      case Some(text) =>
        match Rewrite(p, text, id, replacement)
        case Err(e) => (im, Refused(e))
        case Ok(after) => (after, Done)
  }

  function OpenImage(p: Platform, file: Option<string>, namespace: string, keys: seq<string>): Result<Image> {
    if !ValidConfiguration(namespace, keys) then Err(Invalid)
    else match file
      case None => Ok(Image(None, map[]))
      case Some(text) =>
        match Tokens(text)
        case None => Err(Failed)
        case Some(lines) => Ok(Image(file, Index(p, true, lines)))
  }

  /**
   * After a purge of any LF-only file, New succeeds exactly when the line written for the purged
   * record fits the scanner, and then finds the index the store has exactly when every half-parsed
   * line of another id is shadowed. Purge checks neither before it renames.
   */
  lemma PurgeReopens(p: Platform, im: Image, id: string, namespace: string, keys: seq<string>)
    requires Lawful(p) && ValidConfiguration(namespace, keys) && im.file.Some? && LfOnly(im.file.value)
    requires PurgeImage(p, im, id).1 == Done
    ensures PurgeTarget(p, im, id).Ok?
    ensures var after, line := PurgeImage(p, im, id).0, Line(PurgeTarget(p, im, id).value);
            var reopened := OpenImage(p, after.file, namespace, keys);
            (reopened.Ok? <==> |line| < MAX_LINE) &&
            (reopened == Ok(after) <==> |line| < MAX_LINE && ShadowedOthers(p, RawLines(im.file.value), id))
  {
    var replacement, after := PurgeRewrites(p, im, id);
    RewriteLines(p, im.file.value, id, replacement, after);
    RewriteIndex(p, im.file.value, replacement, after);
    Opens(p, after.file, namespace, keys);
  }

  lemma PurgeRewrites(p: Platform, im: Image, id: string) returns (replacement: Record, after: Image)
    requires PurgeImage(p, im, id).1 == Done
    ensures PurgeTarget(p, im, id) == Ok(replacement) && replacement.capsuleId == id && PurgeImage(p, im, id).0 == after
    ensures im.file.Some? && Rewrite(p, im.file.value, id, replacement) == Ok(after)
  {
    replacement, after := PurgeTarget(p, im, id).value, PurgeImage(p, im, id).0;
  }

  lemma Opens(p: Platform, file: Option<string>, namespace: string, keys: seq<string>)
    requires ValidConfiguration(namespace, keys) && file.Some?
    ensures OpenImage(p, file, namespace, keys) ==
            match Tokens(file.value)
            case None => Err(Failed)
            case Some(lines) => Ok(Image(file, Index(p, true, lines)))
  {
  }

  /** The bytes an index entry names, if the file has them. */
  function BytesAt(im: Image, id: string): Option<string> {
    if im.file.None? || id !in im.index then None
    else
      var e := im.index[id];
      if e.length == 0 then Some("")
      else if e.offset + e.length <= |im.file.value| then Some(im.file.value[e.offset..e.offset + e.length])
      else None
  }

  /**
   * Whatever file and index: a record that Get returns is what the bytes parse to, under the ID
   * asked for, and verifies.
   */
  lemma GetFailsClosed(p: Platform, trusted: seq<string>, im: Image, id: string, r: Record)
    ensures GetImage(p, trusted, im, id) == Returned(r) <==>
            IsDigest(id) && BytesAt(im, id).Some? && p.unmarshal(BytesAt(im, id).value) == Some(r) &&
            r.capsuleId == id && Verify(p, r, trusted).Ok?
  {
  }

  /** Why Get refuses, in the order of its checks. */
  lemma GetRefuses(p: Platform, trusted: seq<string>, im: Image, id: string)
    ensures !IsDigest(id) ==> GetImage(p, trusted, im, id) == Refused(Invalid)
    ensures IsDigest(id) && id !in im.index ==> GetImage(p, trusted, im, id) == Refused(NotFound)
    ensures IsDigest(id) && id in im.index && im.file.None? ==> GetImage(p, trusted, im, id) == Refused(Failed)
    ensures IsDigest(id) && id in im.index && im.file.Some? && BytesAt(im, id).None? ==>
              GetImage(p, trusted, im, id) == Refused(Corrupt)
    ensures IsDigest(id) && BytesAt(im, id).Some? ==>
              match p.unmarshal(BytesAt(im, id).value)
              case None => GetImage(p, trusted, im, id) == Refused(Corrupt)
              case Some(r) =>
                (r.capsuleId != id ==> GetImage(p, trusted, im, id) == Refused(Corrupt)) &&
                (r.capsuleId == id && Verify(p, r, trusted).Err? ==>
                  GetImage(p, trusted, im, id) == Refused(Verify(p, r, trusted).error))
  {
  }

  lemma ReadsBytes(p: Platform, im: Image, id: string)
    requires id in im.index
    ensures ReadIndexed(p, im, id).Ok? <==>
            BytesAt(im, id).Some? && p.unmarshal(BytesAt(im, id).value).Some? &&
            p.unmarshal(BytesAt(im, id).value).value.capsuleId == id
    ensures ReadIndexed(p, im, id).Ok? ==> Some(ReadIndexed(p, im, id).value) == p.unmarshal(BytesAt(im, id).value)
  {
  }

  /** A retry succeeds exactly over a record that verifies, has the same checksum and has no tombstone. */
  lemma RetrySucceeds(p: Platform, trusted: seq<string>, stored: Record, q: Record)
    requires StorageChecksum(p, q).Ok?
    ensures Retry(p, trusted, stored, q) == Done <==>
            Verify(p, stored, trusted).Ok? && StorageChecksum(p, stored) == StorageChecksum(p, q) &&
            forall i | 0 <= i < |stored.artifacts| :: stored.artifacts[i].state != State.Purged
  {
  }

  /**
   * Whatever file and index: Put over an indexed ID changes neither and succeeds exactly when the
   * stored bytes parse to a record of that ID that verifies, has the same checksum, and has no
   * tombstone.
   */
  lemma PutOverExisting(p: Platform, trusted: seq<string>, im: Image, q: Record)
    requires StorageChecksum(p, q).Ok? && q.capsuleId in im.index
    ensures PutAdmittedImage(p, trusted, im, q).0 == im
    ensures PutAdmittedImage(p, trusted, im, q).1 == Done <==>
            BytesAt(im, q.capsuleId).Some? && p.unmarshal(BytesAt(im, q.capsuleId).value).Some? &&
            var stored := p.unmarshal(BytesAt(im, q.capsuleId).value).value;
            stored.capsuleId == q.capsuleId && Verify(p, stored, trusted).Ok? &&
            StorageChecksum(p, stored) == StorageChecksum(p, q) &&
            forall i | 0 <= i < |stored.artifacts| :: stored.artifacts[i].state != State.Purged
  {
    ReadsBytes(p, im, q.capsuleId);
    if ReadIndexed(p, im, q.capsuleId).Ok? {
      RetrySucceeds(p, trusted, ReadIndexed(p, im, q.capsuleId).value, q);
    }
  }

  /** Whatever file and index: Purge writes back a record of the ID it was asked to purge, and no other. */
  lemma PurgeTargets(p: Platform, im: Image, id: string, r: Record)
    requires PurgeTarget(p, im, id) == Ok(r)
    ensures r.capsuleId == id && BytesAt(im, id).Some? && p.unmarshal(BytesAt(im, id).value).Some?
    ensures var stored := p.unmarshal(BytesAt(im, id).value).value;
            stored.capsuleId == id && r.capsule == stored.capsule && r.envelope == stored.envelope &&
            |r.artifacts| == |stored.artifacts| &&
            forall i | 0 <= i < |r.artifacts| ::
              r.artifacts[i] ==
              if stored.artifacts[i].state == Present
              then stored.artifacts[i].(state := State.Purged, content := None) else stored.artifacts[i]
  {
  }

  /** A file that does not scan cannot be purged either. */
  lemma PurgeNeedsScan(p: Platform, im: Image, id: string)
    requires im.file.Some? && Tokens(im.file.value).None?
    ensures PurgeImage(p, im, id).1 != Done
  {
  }

  // ---------------------------------------------------------------- reading a file line by line

  /** How the tokens of a file split into those read and those unread. */
  ghost predicate ReadSoFar(text: string, done: seq<string>, unread: string) {
    Tokens(text) == match Tokens(unread)
                    case None => None
                    case Some(rest) => Some(done + rest)
  }

  lemma ReadNext(text: string, done: seq<string>, unread: string)
    requires ReadSoFar(text, done, unread) && unread != "" && FirstLF(unread) < MAX_LINE
    ensures ReadSoFar(text, done + [DropCR(unread[..FirstLF(unread)])], AfterLine(unread))
  {
    if Tokens(AfterLine(unread)).Some? {
      var line, rest := DropCR(unread[..FirstLF(unread)]), Tokens(AfterLine(unread)).value;
      assert done + [line] + rest == done + ([line] + rest);
    }
  }

  lemma ReadNothing(text: string)
    ensures ReadSoFar(text, [], text)
  {
    if Tokens(text).Some? {
      assert [] + Tokens(text).value == Tokens(text).value;
    }
  }

  lemma ReadEverything(text: string, done: seq<string>, unread: string)
    requires ReadSoFar(text, done, unread) && (unread != "" ==> FirstLF(unread) >= MAX_LINE)
    ensures Tokens(text) == if unread == "" then Some(done) else None
  {
    assert done + [] == done;
  }

  /** The bytes that can be read before reading fails, if it does. */
  function Visible(text: string, fails: Option<nat>): string {
    match fails
    case None => text
    case Some(n) => if n < |text| then text[..n] else text
  }

  /** bufio.Scanner with ScanLines and a buffer of MAX_LINE bytes, on a file whose reading may fail after some bytes. */
  class LineScanner {
    const text: string
    const broken: bool
    var pos: nat
    var line: string
    var failed: bool
    ghost var done: seq<string>

    constructor (file: string, fails: Option<nat>)
      ensures text == Visible(file, fails) && broken == fails.Some?
      ensures Valid() && !failed && done == []
    {
      text, broken, pos, line, failed, done := Visible(file, fails), fails.Some?, 0, "", false, [];
      new;
      assert text[0..] == text;
      ReadNothing(text);
    }

    function Unread(): string
      requires pos <= |text|
      reads this
    {
      text[pos..]
    }

    /** done is what has been read of the lines, and the rest is still to be read. */
    ghost predicate Valid()
      reads this
    {
      pos <= |text| && ReadSoFar(text, done, Unread())
    }

    /**
     * One step: the next line without LF and CR, the end, or a failure; unread bytes at a read
     * error are a last line.
     */
    method Advance() returns (more: bool)
      requires pos <= |text| && !failed
      modifies this
      ensures pos <= |text| && done == old(done)
      ensures more ==> !failed && old(Unread()) != "" && FirstLF(old(Unread())) < MAX_LINE &&
                       line == DropCR(old(Unread())[..FirstLF(old(Unread()))]) && Unread() == AfterLine(old(Unread()))
      ensures !more ==> Unread() == old(Unread()) && failed == (broken || old(Unread()) != "") &&
                        (old(Unread()) != "" ==> FirstLF(old(Unread())) >= MAX_LINE)
    {
      if pos == |text| {
        failed := broken;
        return false;
      }
      var n := FirstLF(text[pos..]);
      if n >= MAX_LINE {
        failed := true;
        return false;
      }
      assert text[pos..][..n] == text[pos..pos + n];
      line := DropCR(text[pos..pos + n]);
      pos := if pos + n < |text| then pos + n + 1 else |text|;
      more := true;
    }

    /** Over all steps: the lines of the file in order, and at the end whether they are all of them. */
    method Scan() returns (more: bool)
      requires Valid() && !failed
      modifies this
      ensures Valid()
      ensures more ==> !failed && done == old(done) + [line] && |Unread()| < |old(Unread())|
      ensures !more ==> done == old(done) && (failed <==> broken || Tokens(text).None?)
      ensures !more && Tokens(text).Some? ==> Tokens(text).value == done
    {
      ghost var unread := Unread();
      more := Advance();
      if more {
        ReadNext(text, done, unread);
        done := done + [line];
      } else {
        ReadEverything(text, done, unread);
      }
    }
  }

  lemma IndexSnoc(p: Platform, lines: seq<string>, line: string)
    ensures Index(p, true, lines + [line]) ==
            if Yields(p, true, line) then Index(p, true, lines)[p.peek(line).capsuleId := Entry(Offset(lines), |line|)]
            else Index(p, true, lines)
  {
    assert (lines + [line])[..|lines|] == lines;
  }

  function Written(p: Platform, line: string, id: string, out: string): string {
    if IsTarget(p, id, line) then out else line
  }

  lemma WrittenSnoc(p: Platform, lines: seq<string>, line: string, id: string, out: string)
    ensures var (before, after) := (Replaced(p, lines, id, out), Replaced(p, lines + [line], id, out));
            var written := Written(p, line, id, out);
            Join(after) == Join(before) + written + "\n" && Offset(after) == Offset(before) + |written| + 1
  {
    ReplacedSnoc(p, lines, line, id, out);
    JoinSnoc(Replaced(p, lines, id, out), Written(p, line, id, out));
    OffsetSnoc(Replaced(p, lines, id, out), Written(p, line, id, out));
  }

  lemma RewrittenIndexSnoc(p: Platform, lines: seq<string>, line: string, id: string, out: string)
    ensures var before := RewrittenIndex(p, lines, id, out);
            var entry := Entry(Offset(Replaced(p, lines, id, out)), |Written(p, line, id, out)|);
            RewrittenIndex(p, lines + [line], id, out) ==
            if p.peek(line).capsuleId == "" then before else before[p.peek(line).capsuleId := entry]
  {
    var all := lines + [line];
    assert all[..|lines|] == lines && all[|lines|] == line;
  }

  lemma TargetSnoc(p: Platform, lines: seq<string>, line: string, id: string)
    ensures HasTarget(p, lines + [line], id) <==> HasTarget(p, lines, id) || IsTarget(p, id, line)
  {
    var all := lines + [line];
    assert all[|lines|] == line && forall i | 0 <= i < |lines| :: all[i] == lines[i];
    if i :| 0 <= i < |lines| && IsTarget(p, id, lines[i]) {
      assert IsTarget(p, id, all[i]);
    }
  }

  /** What the copying loop of rewrite has produced from the lines read so far. */
  datatype Copy = Copy(tmp: string, index: map<string, Entry>, offset: nat, found: bool)

  ghost function Copied(p: Platform, done: seq<string>, id: string, out: string): Copy {
    var lines := Replaced(p, done, id, out);
    Copy(Join(lines), RewrittenIndex(p, done, id, out), Offset(lines), HasTarget(p, done, id))
  }

  /** The loop body of rewrite for one line. */
  function CopyLine(p: Platform, c: Copy, line: string, id: string, outLine: string): Copy {
    var peeked := p.peek(line).capsuleId;
    Copy(c.tmp + outLine + "\n", if peeked == "" then c.index else c.index[peeked := Entry(c.offset, |outLine|)],
         c.offset + |outLine| + 1, c.found || peeked == id)
  }

  lemma CopiedSnoc(p: Platform, done: seq<string>, line: string, id: string, out: string)
    ensures Copied(p, done + [line], id, out) ==
            CopyLine(p, Copied(p, done, id, out), line, id, Written(p, line, id, out))
  {
    WrittenSnoc(p, done, line, id, out);
    RewrittenIndexSnoc(p, done, line, id, out);
    TargetSnoc(p, done, line, id);
  }

  /** What the end of the copying loop means for the whole rewrite. */
  lemma CopiedAll(p: Platform, text: string, id: string, replacement: Record, done: seq<string>)
    requires Tokens(text) == Some(done)
    ensures var c := Copied(p, done, id, Line(replacement));
            Rewrite(p, text, id, replacement) ==
            if !c.found then Err(Corrupt)
            else match Marshal(p, replacement)
              case Err(e) => Err(e)
              case Ok(_) => Ok(Image(Some(c.tmp), c.index))
  {
  }

  /** A target line that has been read decides that the file has one. */
  lemma TargetRead(p: Platform, text: string, done: seq<string>, unread: string, id: string)
    requires ReadSoFar(text, done, unread) && done != [] && IsTarget(p, id, done[|done| - 1])
    ensures Tokens(text).Some? ==> HasTarget(p, Tokens(text).value, id)
  {
    if Tokens(text).Some? {
      assert Tokens(text).value[|done| - 1] == done[|done| - 1];
    }
  }

  // ---------------------------------------------------------------- the store as the source writes it

  /** A path on disk: absent, or the bytes of the file; and the temporary files left beside it. */
  class File {
    var content: Option<string>
    var temps: seq<string>

    constructor ()
      ensures content == None && temps == []
    {
      content, temps := None, [];
    }
  }

  /** What goes wrong when a stored line is read: nothing, opening the file, or reading the bytes. */
  datatype ReadFault = ReadsFine | CannotOpen | CannotRead

  /** How an append goes wrong: the file cannot be opened or positioned, or the write stops after some bytes. */
  datatype AppendFault = Appends | CannotAppend | StopsAfter(bytes: nat)

  /** Which input or output steps of a purge fail; scan is after how many bytes reading the source fails. */
  datatype Faults = Faults(read: ReadFault, open: bool, createTemp: bool, stat: bool, chmod: bool, scan: Option<nat>,
                           write: nat -> bool, flush: bool, close: bool, rename: bool, remove: bool)

  ghost predicate NoFaults(io: Faults) {
    io.read.ReadsFine? && !io.open && !io.createTemp && !io.stat && !io.chmod && io.scan.None? &&
    (forall n :: !io.write(n)) && !io.flush && !io.close && !io.rename
  }

  /** An operation has its whole effect, or it is refused and has none. */
  predicate Attempted(effect: (Image, Response), before: Image, after: Image, response: Response) {
    (after, response) == effect || (after == before && response.Refused?)
  }

  /** What a torn append leaves: the old bytes and a beginning of the line. */
  predicate Torn(before: Option<string>, after: Option<string>, line: string, n: nat) {
    before.Some? && n <= |line| && after == Some(before.value + line[..n])
  }

  class Store {
    const p: Platform
    const file: File
    const namespace: string
    const trusted: seq<string>
    var index: map<string, Entry>

    constructor (p: Platform, file: File, namespace: string, trusted: seq<string>)
      ensures this.p == p && this.file == file && this.namespace == namespace && this.trusted == trusted
      ensures index == map[]
    {
      this.p, this.file, this.namespace, this.trusted := p, file, namespace, trusted;
      index := map[];
    }

    function View(): Image
      reads this, file
    {
      Image(file.content, index)
    }

    method ScanIndex(text: string, fails: Option<nat>) returns (ok: bool)
      requires index == map[]
      modifies this
      ensures ok <==> fails.None? && Tokens(text).Some?
      ensures ok ==> index == Index(p, true, Tokens(text).value)
    {
      var scanner := new LineScanner(text, fails);
      var offset := 0;
      while true
        invariant scanner.Valid() && !scanner.failed
        invariant index == Index(p, true, scanner.done) && offset == Offset(scanner.done)
        decreases |scanner.Unread()|
      {
        ghost var done := scanner.done;
        var more := scanner.Scan();
        if !more {
          return !scanner.failed;
        }
        var line := scanner.line;
        var peek := p.peek(line);
        if peek.ok && peek.capsuleId != "" {
          index := index[peek.capsuleId := Entry(offset, |line|)];
        }
        offset := offset + |line| + 1;
        IndexSnoc(p, done, line);
        OffsetSnoc(done, line);
      }
    }

    /** Opens the file, if there is one, and builds the index; opening fails, or reading fails after some bytes. */
    static method New(p: Platform, file: File, namespace: string, keys: seq<string>, open: bool, fails: Option<nat>)
      returns (r: Result<Store>)
      ensures ValidConfiguration(namespace, keys) && (open || (file.content.Some? && fails.Some?)) ==> r == Err(Failed)
      ensures !(ValidConfiguration(namespace, keys) && (open || (file.content.Some? && fails.Some?))) ==>
                match OpenImage(p, file.content, namespace, keys)
                case Err(e) => r == Err(e)
                case Ok(image) => r.Ok? && fresh(r.value) && r.value.p == p && r.value.file == file &&
                                  r.value.trusted == keys && r.value.View() == image
    {
      if !IsName(namespace) || |keys| == 0 {
        return Err(Invalid);
      }
      var store := new Store(p, file, namespace, keys);
      for i := 0 to |keys|
        invariant forall j | 0 <= j < i :: |keys[j]| == PUBLIC_KEY_SIZE
      {
        if |keys[i]| != PUBLIC_KEY_SIZE {
          return Err(Invalid);
        }
      }
      if open {
        return Err(Failed);
      }
      if file.content.None? {
        return Ok(store);
      }
      var ok := store.ScanIndex(file.content.value, fails);
      r := if ok then Ok(store) else Err(Failed);
    }

    /** Creates an empty file if there is none. */
    method Init(fails: bool) returns (r: Result<Unit>)
      modifies file
      ensures file.temps == old(file.temps)
      ensures r.Ok? ==> file.content == Some(match old(file.content) case None => "" case Some(text) => text)
      ensures r.Err? ==> fails && file.content == old(file.content)
    {
      if fails {
        return Err(Failed);
      }
      if file.content.None? {
        file.content := Some("");
      }
      r := Ok(Unit);
    }

    method Read(e: Entry, fault: ReadFault) returns (r: Result<Record>)
      ensures fault.ReadsFine? ==> r == ReadAt(p, file.content, e)
      ensures fault.CannotOpen? ==> r == Err(Failed)
      ensures fault.CannotRead? ==> r == ReadAt(p, file.content, e) || r == Err(Corrupt)
    {
      if file.content.None? || fault.CannotOpen? {
        return Err(Failed);
      }
      var text := file.content.value;
      var buffer := "";
      if e.length > 0 {
        if e.offset + e.length > |text| || fault.CannotRead? {
          return Err(Corrupt);
        }
        buffer := text[e.offset..e.offset + e.length];
      }
      var record := p.unmarshal(buffer);
      r := if record.None? then Err(Corrupt) else Ok(record.value);
    }

    /** Prepare, Verify and StorageChecksum, as every Put calls them. */
    method AdmitRecord(record: Record) returns (r: Result<(Record, string)>)
      ensures match Admit(p, trusted, record)
              case Err(e) => r == Err(e)
              case Ok(q) => r.Ok? && r.value.0 == q && StorageChecksum(p, q) == Ok(r.value.1)
    {
      var prepared := Prepare(p, record);
      if prepared.Err? {
        return Err(prepared.error);
      }
      var q := prepared.value;
      var checks := VerifyRecord(p, q, trusted);
      if checks.Err? {
        return Err(checks.error);
      }
      var sum := StorageChecksum(p, q);
      if sum.Err? {
        return Err(sum.error);
      }
      assert Admit(p, trusted, record) == Ok(q);
      r := Ok((q, sum.value));
    }

    /**
     * Success is the whole effect of Put. On an error the index is as it was, and so is the file,
     * unless the write itself stopped half-way.
     */
    method Put(record: Record, read: ReadFault, append: AppendFault) returns (response: Response)
      modifies this, file
      ensures file.temps == old(file.temps)
      ensures response == Done || (read.ReadsFine? && append.Appends?) ==>
                (View(), response) == PutImage(p, trusted, old(View()), record)
      ensures response != Done ==>
                index == old(index) &&
                (file.content == old(file.content) ||
                 (append.StopsAfter? && Admit(p, trusted, record).Ok? &&
                  Torn(old(file.content), file.content, Line(Admit(p, trusted, record).value) + "\n", append.bytes)))
      ensures !append.StopsAfter? ==>
              Attempted(PutImage(p, trusted, old(View()), record), old(View()), View(), response)
    {
      var admitted := AdmitRecord(record);
      if admitted.Err? {
        return Refused(admitted.error);
      }
      var (q, sum) := admitted.value;
      if q.capsuleId in index {
        response := PutExisting(q, sum, read);
      } else {
        response := Append(q, append);
      }
    }

    /** Put of an admitted record whose ID is indexed. */
    method PutExisting(q: Record, sum: string, read: ReadFault) returns (response: Response)
      requires q.capsuleId in index && StorageChecksum(p, q) == Ok(sum)
      ensures response == Done || response.Refused?
      ensures response == Done || read.ReadsFine? ==> (View(), response) == PutAdmittedImage(p, trusted, View(), q)
    {
      var existing := Read(index[q.capsuleId], read);
      if existing.Err? {
        return Refused(existing.error);
      }
      if existing.value.capsuleId != q.capsuleId {
        return Refused(Corrupt);
      }
      response := Reconcile(existing.value, q, sum);
    }

    /** Put of an admitted record whose ID is not indexed. */
    method Append(q: Record, append: AppendFault) returns (response: Response)
      requires q.capsuleId !in index
      modifies this, file
      ensures file.temps == old(file.temps) && (response == Done || response.Refused?)
      ensures response == Done || append.Appends? ==> (View(), response) == PutAdmittedImage(p, trusted, old(View()), q)
      ensures response != Done ==>
                index == old(index) &&
                (file.content == old(file.content) ||
                 (append.StopsAfter? && Torn(old(file.content), file.content, Line(q) + "\n", append.bytes)))
    {
      var data := Marshal(p, q);
      if data.Err? {
        return Refused(data.error);
      }
      if file.content.None? || append.CannotAppend? {
        return Refused(Failed);
      }
      var offset := |file.content.value|;
      var line := data.value + "\n";
      if append.StopsAfter? && append.bytes <= |line| {
        file.content := Some(file.content.value + line[..append.bytes]);
        return Refused(Failed);
      }
      file.content := Some(file.content.value + line);
      assert file.content.value == old(file.content.value) + data.value + "\n";
      index := index[q.capsuleId := Entry(offset, |data.value|)];
      response := Done;
    }

    /** The retry branch of Put, after the stored record has been read. */
    method Reconcile(existing: Record, admitted: Record, sum: string) returns (response: Response)
      requires StorageChecksum(p, admitted) == Ok(sum)
      ensures response == Retry(p, trusted, existing, admitted)
    {
      var checks := VerifyRecord(p, existing, trusted);
      if checks.Err? {
        return Refused(checks.error);
      }
      var oldSum := StorageChecksum(p, existing);
      if oldSum.Err? {
        return Refused(oldSum.error);
      }
      if oldSum.value != sum {
        return Refused(Conflict);
      }
      var purged := FindPurged(existing.artifacts);
      response := if purged then Refused(OriginalsPurged) else Done;
    }

    method Get(id: string, read: ReadFault) returns (response: Response)
      ensures read.ReadsFine? || response.Returned? ==> response == GetImage(p, trusted, View(), id)
      ensures response == GetImage(p, trusted, View(), id) || response in {Refused(Failed), Refused(Corrupt)}
      ensures Attempted((View(), GetImage(p, trusted, View(), id)), View(), View(), response)
    {
      if !IsDigest(id) {
        return Refused(Invalid);
      }
      if id !in index {
        return Refused(NotFound);
      }
      var record := Read(index[id], read);
      if record.Err? {
        return Refused(record.error);
      }
      if record.value.capsuleId != id {
        return Refused(Corrupt);
      }
      var checks := VerifyRecord(p, record.value, trusted);
      response := if checks.Err? then Refused(checks.error) else Returned(record.value);
    }

    /**
     * Either the whole purge takes effect or, on any error before the rename, file and index are as
     * they were; the temporary file is gone either way, unless its removal fails too.
     */
    method Purge(id: string, io: Faults) returns (response: Response)
      modifies this, file
      ensures response == Done || View() == old(View())
      ensures response == Done || NoFaults(io) ==> (View(), response) == PurgeImage(p, old(View()), id)
      ensures Attempted(PurgeImage(p, old(View()), id), old(View()), View(), response)
      ensures old(file.temps) <= file.temps
      ensures response == Done || !io.remove ==> file.temps == old(file.temps)
    {
      if !IsDigest(id) {
        return Refused(Invalid);
      }
      if id !in index {
        return Refused(NotFound);
      }
      var target := Read(index[id], io.read);
      if target.Err? {
        return Refused(target.error);
      }
      if target.value.capsuleId != id {
        return Refused(Corrupt);
      }
      var artifacts := EraseOriginals(target.value.artifacts);
      var result := RewriteFile(id, target.value.(artifacts := artifacts), io);
      response := if result.Err? then Refused(result.error) else Done;
    }

    method EraseOriginals(artifacts: seq<Artifact>) returns (erased: seq<Artifact>)
      ensures erased == Tombstones(artifacts)
    {
      erased := artifacts;
      for i := 0 to |artifacts|
        invariant |erased| == |artifacts|
        invariant forall j | 0 <= j < i :: erased[j] == Tombstone(artifacts[j])
        invariant forall j | i <= j < |artifacts| :: erased[j] == artifacts[j]
      {
        if erased[i].state == Present {
          erased := erased[i := erased[i].(content := None, state := State.Purged)];
        }
      }
    }

    /** rewrite: fill a temporary file, rename it over the original, and remove it if anything failed before that. */
    method RewriteFile(id: string, replacement: Record, io: Faults) returns (r: Result<Unit>)
      modifies this, file
      ensures r.Err? ==> View() == old(View())
      ensures r.Ok? ==> old(file.content).Some? && Rewrite(p, old(file.content.value), id, replacement) == Ok(View())
      ensures NoFaults(io) ==>
                match old(file.content)
                case None => r == Err(Failed)
                case Some(text) =>
                  match Rewrite(p, text, id, replacement)
                  case Err(e) => r == Err(e)
                  case Ok(_) => r.Ok?
      ensures old(file.temps) <= file.temps
      ensures r.Ok? || !io.remove ==> file.temps == old(file.temps)
    {
      if file.content.None? || io.open || io.createTemp {
        return Err(Failed);
      }
      var last := |file.temps|;
      file.temps := file.temps + [""];
      var filled := FillTemp(file.content.value, id, replacement, io);
      if filled.Err? || io.rename {
        if !io.remove {
          file.temps := file.temps[..last];
        }
        return Err(if filled.Err? then filled.error else Failed);
      }
      file.content := Some(file.temps[last]);
      file.temps := file.temps[..last];
      index := filled.value;
      r := Ok(Unit);
    }

    /** rewrite from the creation of the temporary file to its closing; returns the new index. */
    method FillTemp(text: string, id: string, replacement: Record, io: Faults) returns (r: Result<map<string, Entry>>)
      requires file.temps != []
      modifies file`temps
      ensures |file.temps| == |old(file.temps)| && file.temps[..|file.temps| - 1] == old(file.temps)[..|file.temps| - 1]
      ensures r.Ok? ==> Rewrite(p, text, id, replacement) == Ok(Image(Some(file.temps[|file.temps| - 1]), r.value))
      ensures NoFaults(io) ==> match Rewrite(p, text, id, replacement)
                               case Err(e) => r == Err(e)
                               case Ok(_) => r.Ok?
    {
      if io.stat || io.chmod {
        return Err(Failed);
      }
      var copied := CopyLines(text, id, replacement, io);
      if copied.Err? {
        return Err(copied.error);
      }
      if io.flush || io.close {
        return Err(Failed);
      }
      file.temps := file.temps[|file.temps| - 1 := copied.value.file.value];
      r := Ok(copied.value.index);
    }

    /** What rewrite writes for one line. */
    method OutLine(line: string, id: string, replacement: Record) returns (r: Result<string>)
      ensures r == if IsTarget(p, id, line) then Marshal(p, replacement) else Ok(line)
    {
      if p.peek(line).capsuleId == id {
        r := Marshal(p, replacement);
      } else {
        r := Ok(line);
      }
    }

    /** One iteration of the copying loop, after the lines in done. */
    method CopyNext(c: Copy, line: string, id: string, replacement: Record, ghost done: seq<string>)
      returns (r: Result<Copy>)
      requires Copying(c, done, id, replacement)
      ensures IsTarget(p, id, line) && Marshal(p, replacement).Err? ==> r == Err(Marshal(p, replacement).error)
      ensures !(IsTarget(p, id, line) && Marshal(p, replacement).Err?) ==>
                r.Ok? && Copying(r.value, done + [line], id, replacement)
    {
      var outLine := OutLine(line, id, replacement);
      if outLine.Err? {
        return Err(outLine.error);
      }
      CopiedSnoc(p, done, line, id, Line(replacement));
      r := Ok(CopyLine(p, c, line, id, outLine.value));
    }

    /** The state of the copying loop; a target has been written only if the replacement marshals. */
    ghost predicate Copying(c: Copy, done: seq<string>, id: string, replacement: Record) {
      c == Copied(p, done, id, Line(replacement)) && (c.found ==> Marshal(p, replacement).Ok?)
    }

    /** The copying loop of rewrite: the content of the temporary file, and the new index. */
    method CopyLines(text: string, id: string, replacement: Record, io: Faults) returns (r: Result<Image>)
      ensures r.Ok? ==> r == Rewrite(p, text, id, replacement)
      ensures NoFaults(io) ==> r == Rewrite(p, text, id, replacement)
    {
      var scanner := new LineScanner(text, io.scan);
      var copy := Copy("", map[], 0, false);
      var written := 0;
      while true
        invariant scanner.Valid() && !scanner.failed
        invariant Copying(copy, scanner.done, id, replacement)
        decreases |scanner.Unread()|
      {
        ghost var done := scanner.done;
        var more := scanner.Scan();
        if !more {
          r := Finish(text, scanner.failed, copy, id, replacement, scanner.done, io);
          return;
        }
        var next := CopyNext(copy, scanner.line, id, replacement, done);
        if next.Err? {
          TargetRead(p, scanner.text, scanner.done, scanner.Unread(), id);
          return Err(next.error);
        }
        if io.write(written) {
          return Err(Failed);
        }
        written := written + 1;
        copy := next.value;
      }
    }

    /** What rewrite makes of the end of the loop. */
    method Finish(text: string, failed: bool, c: Copy, id: string, replacement: Record, ghost done: seq<string>,
                  io: Faults)
      returns (r: Result<Image>)
      requires Copying(c, done, id, replacement)
      requires failed <==> io.scan.Some? || Tokens(Visible(text, io.scan)).None?
      requires Tokens(Visible(text, io.scan)).Some? ==> Tokens(Visible(text, io.scan)).value == done
      ensures r.Ok? || NoFaults(io) ==> r == Rewrite(p, text, id, replacement)
    {
      if failed {
        return Err(Failed);
      }
      CopiedAll(p, text, id, replacement, done);
      r := if !c.found then Err(Corrupt) else Ok(Image(Some(c.tmp), c.index));
    }
  }
}
