/** Rewriting a JSONL file: what becomes of its lines and of its index, whatever the file held. */
module Rewriting {
  import opened Common
  import opened Records
  import opened LineCodec
  import opened LineShape
  import opened Lifecycle
  import opened Lines

  predicate IsTarget(p: Platform, id: string, line: string) {
    p.peek(line).capsuleId == id
  }

  /** Every line of the target id, duplicates included, becomes the replacement. */
  function Replaced(p: Platform, lines: seq<string>, id: string, out: string): (r: seq<string>)
    ensures |r| == |lines|
    ensures forall i | 0 <= i < |lines| :: r[i] == if IsTarget(p, id, lines[i]) then out else lines[i]
  {
    seq(|lines|, i requires 0 <= i < |lines| => if IsTarget(p, id, lines[i]) then out else lines[i])
  }

  predicate HasTarget(p: Platform, lines: seq<string>, id: string) {
    exists i | 0 <= i < |lines| :: IsTarget(p, id, lines[i])
  }

  /** The index rewrite builds as it goes: ids as read from the old lines, ranges in the new file. */
  function RewrittenIndex(p: Platform, lines: seq<string>, id: string, out: string): map<string, Entry> {
    if lines == [] then map[]
    else
      var n := |lines| - 1;
      var before := RewrittenIndex(p, lines[..n], id, out);
      var peeked := p.peek(lines[n]).capsuleId;
      if peeked == "" then before
      else before[peeked := Entry(Offset(Replaced(p, lines[..n], id, out)), |Replaced(p, lines, id, out)[n]|)]
  }

  datatype Image = Image(file: Option<string>, index: map<string, Entry>)

  /** The outcome of a rewrite that no I/O error interrupts. */
  function Rewrite(p: Platform, text: string, id: string, replacement: Record): (r: Result<Image>)
    ensures r.Ok? ==> r.value.file.Some?
  {
    match Tokens(text)
    case None => Err(Failed)
    case Some(lines) =>
      if !HasTarget(p, lines, id) then Err(Corrupt)
      else
        var out :- Marshal(p, replacement);
        Ok(Image(Some(Join(Replaced(p, lines, id, out))), RewrittenIndex(p, lines, id, out)))
  }

  lemma ReplacedSnoc(p: Platform, lines: seq<string>, line: string, id: string, out: string)
    ensures Replaced(p, lines + [line], id, out) ==
            Replaced(p, lines, id, out) + [if IsTarget(p, id, line) then out else line]
  {
  }

  /** The index built incrementally from the old lines is the lenient index of the new ones. */
  lemma {:induction false} RewrittenIndexExact(p: Platform, lines: seq<string>, id: string, out: string)
    requires p.peek(out).capsuleId == id
    ensures RewrittenIndex(p, lines, id, out) == Index(p, false, Replaced(p, lines, id, out))
  {
    if lines != [] {
      var n := |lines| - 1;
      assert lines == lines[..n] + [lines[n]];
      ReplacedSnoc(p, lines[..n], lines[n], id, out);
      RewrittenIndexExact(p, lines[..n], id, out);
      assert Replaced(p, lines, id, out)[..n] == Replaced(p, lines[..n], id, out);
    }
  }

  /** A written line never contains LF or CR, so it is clean exactly when it is short enough. */
  lemma WrittenLine(r: Record)
    ensures NoLF(Line(r)) && (IsClean(Line(r)) <==> |Line(r)| < MAX_LINE)
  {
    LinePrintable(r);
  }

  /** What a successful rewrite of a file with these lines amounts to. */
  lemma RewriteParts(p: Platform, text: string, id: string, replacement: Record, after: Image)
    returns (before: seq<string>)
    requires LfOnly(text) && Rewrite(p, text, id, replacement) == Ok(after)
    ensures Tokens(text) == Some(before) && RawLines(text) == before && HasTarget(p, before, id)
    ensures Marshal(p, replacement) == Ok(Line(replacement))
    ensures var lines := Replaced(p, before, id, Line(replacement));
            RawLines(after.file.value) == lines && (LfOnly(after.file.value) <==> |Line(replacement)| < MAX_LINE) &&
            Tokens(after.file.value) == (if |Line(replacement)| < MAX_LINE then Some(lines) else None) &&
            after.index == RewrittenIndex(p, before, id, Line(replacement))
  {
    before := Tokens(text).value;
    LfOnlyIsClean(text);
    JoinedLines(before);
    ReplacedScans(p, before, id, replacement);
  }

  lemma ReplacedScans(p: Platform, before: seq<string>, id: string, replacement: Record)
    requires AllClean(before) && HasTarget(p, before, id)
    ensures var lines := Replaced(p, before, id, Line(replacement));
            RawLines(Join(lines)) == lines && (LfOnly(Join(lines)) <==> |Line(replacement)| < MAX_LINE) &&
            Tokens(Join(lines)) == if |Line(replacement)| < MAX_LINE then Some(lines) else None
  {
    var out := Line(replacement);
    var lines := Replaced(p, before, id, out);
    WrittenLine(replacement);
    forall i | 0 <= i < |lines| ensures NoLF(lines[i]) {
      assert IsClean(before[i]);
    }
    JoinedLines(lines);
    if |out| < MAX_LINE {
      TokensOfJoin(lines);
    } else {
      var i :| 0 <= i < |before| && IsTarget(p, id, before[i]);
      assert lines[i] == out;
    }
  }

  /**
   * Rewriting any LF-only file, whatever its lines are: the new file has the same number of lines in
   * the same order, every line of another id is byte-identical and every line of the target id is the
   * replacement. It scans again, and is again LF-only, exactly when the replacement fits the scanner.
   */
  lemma RewriteLines(p: Platform, text: string, id: string, replacement: Record, after: Image)
    requires LfOnly(text) && Rewrite(p, text, id, replacement) == Ok(after)
    ensures RawLines(after.file.value) == Replaced(p, RawLines(text), id, Line(replacement))
    ensures LfOnly(after.file.value) <==> |Line(replacement)| < MAX_LINE
    ensures Tokens(after.file.value) ==
            if |Line(replacement)| < MAX_LINE then Some(RawLines(after.file.value)) else None
  {
    var before := RewriteParts(p, text, id, replacement, after);
  }

  /** Every line of another id that yields its id without parsing is shadowed by a later full line of that id. */
  predicate ShadowedOthers(p: Platform, lines: seq<string>, id: string) {
    forall j | 0 <= j < |lines| && HalfParsed(p, lines[j]) && !IsTarget(p, id, lines[j]) :: ShadowOf(p, lines, j)
  }

  lemma SameLast(p: Platform, lines: seq<string>, id: string, out: string, other: string, k: nat)
    requires p.peek(out) == Peek(id, true) && other != id
    ensures LastOf(p, false, Replaced(p, lines, id, out), other, k) <==> LastOf(p, false, lines, other, k)
  {
    var now := Replaced(p, lines, id, out);
    assert forall m | 0 <= m < |lines| ::
        Yields(p, false, now[m]) && p.peek(now[m]).capsuleId == other <==>
        Yields(p, false, lines[m]) && p.peek(lines[m]).capsuleId == other;
  }

  lemma ReplacedShadowed(p: Platform, lines: seq<string>, id: string, out: string)
    requires p.peek(out) == Peek(id, true)
    ensures Shadowed(p, Replaced(p, lines, id, out)) <==> ShadowedOthers(p, lines, id)
  {
    var now := Replaced(p, lines, id, out);
    forall j | 0 <= j < |lines| && !IsTarget(p, id, lines[j])
      ensures HalfParsed(p, now[j]) <==> HalfParsed(p, lines[j])
      ensures ShadowOf(p, now, j) <==> ShadowOf(p, lines, j)
    {
      var other := p.peek(lines[j]).capsuleId;
      assert now[j] == lines[j];
      forall k | j < k < |lines|
        ensures p.peek(now[k]).ok && LastOf(p, false, now, other, k) <==>
                p.peek(lines[k]).ok && LastOf(p, false, lines, other, k)
      {
        SameLast(p, lines, id, out, other, k);
      }
    }
    assert forall j | 0 <= j < |lines| && IsTarget(p, id, lines[j]) :: !HalfParsed(p, now[j]);
  }

  /**
   * The index a rewrite installs is the lenient index of the new file. Reopening the file succeeds
   * and builds that very index exactly when the replacement fits the scanner and, in the old file,
   * every half-parsed line of another id is shadowed.
   */
  lemma RewriteIndex(p: Platform, text: string, replacement: Record, after: Image)
    requires Lawful(p) && LfOnly(text) && Rewrite(p, text, replacement.capsuleId, replacement) == Ok(after)
    ensures after.index == Index(p, false, RawLines(after.file.value))
    ensures Tokens(after.file.value).Some? && after.index == Index(p, true, Tokens(after.file.value).value) <==>
            |Line(replacement)| < MAX_LINE && ShadowedOthers(p, RawLines(text), replacement.capsuleId)
  {
    var id, out := replacement.capsuleId, Line(replacement);
    var before := RewriteParts(p, text, id, replacement, after);
    ReadBack(p, replacement);
    RewrittenIndexExact(p, before, id, out);
    IndexesAgree(p, Replaced(p, before, id, out));
    ReplacedShadowed(p, before, id, out);
  }

  /**
   * Files for which it fails: one half-parsed line of another id ahead of the target. The rewrite
   * indexes that line; reopening the rewritten file does not.
   */
  lemma RewriteIndexesBrokenLine(p: Platform, half: string, line: string, replacement: Record, after: Image)
    requires Lawful(p) && IsClean(half) && HalfParsed(p, half) && p.peek(half).capsuleId != replacement.capsuleId
    requires IsClean(line) && IsTarget(p, replacement.capsuleId, line)
    requires Rewrite(p, Join([half, line]), replacement.capsuleId, replacement) == Ok(after)
    requires |Line(replacement)| < MAX_LINE
    ensures Tokens(after.file.value) == Some([half, Line(replacement)])
    ensures p.peek(half).capsuleId in after.index
    ensures p.peek(half).capsuleId !in Index(p, true, Tokens(after.file.value).value)
  {
    var id, lines := replacement.capsuleId, [half, line];
    TokensOfJoin(lines);
    var before := RewriteParts(p, Join(lines), id, replacement, after);
    ReadBack(p, replacement);
    BrokenPair(p, lines, id, Line(replacement));
  }

  lemma BrokenPair(p: Platform, lines: seq<string>, id: string, out: string)
    requires |lines| == 2 && HalfParsed(p, lines[0]) && p.peek(lines[0]).capsuleId != id
    requires IsTarget(p, id, lines[1]) && p.peek(out).capsuleId == id
    ensures Replaced(p, lines, id, out) == [lines[0], out]
    ensures p.peek(lines[0]).capsuleId in RewrittenIndex(p, lines, id, out)
    ensures p.peek(lines[0]).capsuleId !in Index(p, true, [lines[0], out])
  {
    assert Replaced(p, lines, id, out) == [lines[0], out];
    KeepsHalf(p, lines, id, out);
    StrictSkipsHalf(p, [lines[0], out]);
  }

  lemma KeepsHalf(p: Platform, lines: seq<string>, id: string, out: string)
    requires |lines| == 2 && HalfParsed(p, lines[0])
    ensures p.peek(lines[0]).capsuleId in RewrittenIndex(p, lines, id, out)
  {
    var first := lines[..1];
    assert |first| == 1 && first[0] == lines[0];
    assert p.peek(first[0]).capsuleId in RewrittenIndex(p, first, id, out);
  }

  lemma StrictSkipsHalf(p: Platform, lines: seq<string>)
    requires |lines| == 2 && HalfParsed(p, lines[0]) && p.peek(lines[1]).capsuleId != p.peek(lines[0]).capsuleId
    ensures p.peek(lines[0]).capsuleId !in Index(p, true, lines)
  {
    var first := lines[..1];
    assert |first| == 1 && first[0] == lines[0];
    assert Index(p, true, first) == map[];
  }

  lemma ReplacedTwice(p: Platform, lines: seq<string>, id: string, out: string)
    requires HasTarget(p, lines, id) && p.peek(out).capsuleId == id
    ensures Replaced(p, Replaced(p, lines, id, out), id, out) == Replaced(p, lines, id, out)
    ensures HasTarget(p, Replaced(p, lines, id, out), id)
  {
    var i :| 0 <= i < |lines| && IsTarget(p, id, lines[i]);
    assert IsTarget(p, id, Replaced(p, lines, id, out)[i]);
  }

  /** Rewriting what was just rewritten changes neither the file nor the index, unless the file no longer scans. */
  lemma RewriteIdempotent(p: Platform, text: string, replacement: Record, after: Image)
    requires Lawful(p) && LfOnly(text) && Rewrite(p, text, replacement.capsuleId, replacement) == Ok(after)
    ensures Rewrite(p, after.file.value, replacement.capsuleId, replacement) ==
            if |Line(replacement)| < MAX_LINE then Ok(after) else Err(Failed)
  {
    var id, out := replacement.capsuleId, Line(replacement);
    var before := RewriteParts(p, text, id, replacement, after);
    ReadBack(p, replacement);
    ReplacedTwice(p, before, id, out);
    RewrittenIndexExact(p, before, id, out);
    RewrittenIndexExact(p, Replaced(p, before, id, out), id, out);
  }

  /**
   * Total erasure: after a purge no line of the file that yields the target id, duplicates included,
   * carries content of a formerly present artifact.
   */
  lemma PurgeErasesEveryLine(p: Platform, text: string, target: Record, after: Image, i: nat, j: nat)
    requires LfOnly(text) && Rewrite(p, text, target.capsuleId, Records.Purge(target)) == Ok(after)
    requires i < |RawLines(after.file.value)| && IsTarget(p, target.capsuleId, RawLines(after.file.value)[i])
    requires j < |target.artifacts| && target.artifacts[j].state == Present
    ensures var stored := Decode(RawLines(after.file.value)[i]);
            stored.Some? && stored.value.capsuleId == target.capsuleId &&
              |stored.value.artifacts| == |target.artifacts| &&
            stored.value.artifacts[j].content == None && stored.value.artifacts[j].state == Purged &&
            stored.value.artifacts[j].sha == target.artifacts[j].sha
  {
    var before := RewriteParts(p, text, target.capsuleId, Records.Purge(target), after);
    PurgedLine(target, j);
  }

  /** What the line written by a purge says of a formerly present artifact. */
  lemma PurgedLine(target: Record, j: nat)
    requires j < |target.artifacts| && target.artifacts[j].state == Present
    ensures var stored := Decode(Line(Records.Purge(target)));
            stored.Some? && stored.value.capsuleId == target.capsuleId &&
              |stored.value.artifacts| == |target.artifacts| &&
            stored.value.artifacts[j].content == None && stored.value.artifacts[j].state == Purged &&
            stored.value.artifacts[j].sha == target.artifacts[j].sha
  {
    RoundTrip(Records.Purge(target));
    StateRoundTrip(Purged);
  }

  /**
   * When a rewrite is refused, and why: the file does not scan, no line is the target, or the
   * record does not marshal.
   */
  lemma RewriteRefuses(p: Platform, text: string, id: string, replacement: Record)
    ensures Tokens(text).None? ==> Rewrite(p, text, id, replacement) == Err(Failed)
    ensures Tokens(text).Some? &&
            (forall i | 0 <= i < |Tokens(text).value| :: p.peek(Tokens(text).value[i]).capsuleId != id) ==>
              Rewrite(p, text, id, replacement) == Err(Corrupt)
    ensures Tokens(text).Some? &&
            (exists i | 0 <= i < |Tokens(text).value| :: p.peek(Tokens(text).value[i]).capsuleId == id) ==>
              (Rewrite(p, text, id, replacement).Ok? <==> Utf8Record(p, replacement)) &&
              (Rewrite(p, text, id, replacement).Err? ==> Rewrite(p, text, id, replacement) == Err(Failed))
  {
  }
}
