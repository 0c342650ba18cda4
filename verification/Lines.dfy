/** A text file as bufio.Scanner reads it, and the offset index over its lines. */
module Lines {
  import opened Common
  import opened Records
  import opened Lifecycle

  // ---------------------------------------------------------------- splitting into lines

  function FirstLF(t: string): (n: nat)
    ensures n <= |t|
    ensures forall i | 0 <= i < n :: t[i] != '\n'
    ensures n < |t| ==> t[n] == '\n'
  {
    if t == "" || t[0] == '\n' then 0 else 1 + FirstLF(t[1..])
  }

  /** What follows the first line and its terminator. */
  function AfterLine(t: string): (rest: string)
    requires t != ""
    ensures |rest| < |t|
  {
    var n := FirstLF(t);
    if n < |t| then t[n + 1..] else ""
  }

  function DropCR(line: string): string {
    if line != "" && line[|line| - 1] == '\r' then line[..|line| - 1] else line
  }

  /** The lines without their LF; a last line need not be terminated. */
  function RawLines(t: string): seq<string>
    decreases |t|
  {
    if t == "" then [] else [t[..FirstLF(t)]] + RawLines(AfterLine(t))
  }

  /** The tokens of bufio.ScanLines, or None once a line does not fit the buffer with its LF. */
  function Tokens(t: string): Option<seq<string>>
    decreases |t|
  {
    if t == "" then Some([])
    else if FirstLF(t) >= MAX_LINE then None
    else
      var rest :- Tokens(AfterLine(t));
      Some([DropCR(t[..FirstLF(t)])] + rest)
  }

  /** The file with every line terminated by LF. */
  function Join(lines: seq<string>): string {
    if lines == [] then "" else lines[0] + "\n" + Join(lines[1..])
  }

  /** A line the scanner reads back as it was written. */
  predicate IsClean(line: string) {
    (forall i | 0 <= i < |line| :: line[i] != '\n') && DropCR(line) == line && |line| < MAX_LINE
  }

  predicate AllClean(lines: seq<string>) {
    forall i | 0 <= i < |lines| :: IsClean(lines[i])
  }

  lemma FirstLFOfJoined(line: string, rest: string)
    requires forall i | 0 <= i < |line| :: line[i] != '\n'
    ensures FirstLF(line + "\n" + rest) == |line| && AfterLine(line + "\n" + rest) == rest
  {
    var t := line + "\n" + rest;
    assert t[|line|] == '\n';
    assert forall i | 0 <= i < |line| :: t[i] == line[i];
    assert t[|line| + 1..] == rest;
  }

  lemma TokensStep(line: string, rest: string)
    requires forall i | 0 <= i < |line| :: line[i] != '\n'
    ensures var t := line + "\n" + rest;
            RawLines(t) == [line] + RawLines(rest) &&
            Tokens(t) ==
            if |line| < MAX_LINE && Tokens(rest).Some? then Some([DropCR(line)] + Tokens(rest).value) else None
  {
    var t := line + "\n" + rest;
    FirstLFOfJoined(line, rest);
    assert t[..|line|] == line;
  }

  lemma TokensOfJoinStep(line: string, others: seq<string>)
    requires IsClean(line) && Tokens(Join(others)) == Some(others)
    ensures Tokens(Join([line] + others)) == Some([line] + others)
  {
    var rest := Join(others);
    TokensStep(line, rest);
    assert ([line] + others)[1..] == others;
    assert Join([line] + others) == line + "\n" + rest;
  }

  lemma {:induction false} TokensOfJoin(lines: seq<string>)
    requires AllClean(lines)
    ensures Tokens(Join(lines)) == Some(lines)
  {
    if lines != [] {
      var line, others := lines[0], lines[1..];
      assert IsClean(line);
      assert forall i | 0 <= i < |others| :: others[i] == lines[i + 1];
      TokensOfJoin(others);
      TokensOfJoinStep(line, others);
      assert lines == [line] + others;
    }
  }

  predicate NoLF(line: string) {
    forall i | 0 <= i < |line| :: line[i] != '\n'
  }

  /** A file of lines without LF, long ones included: what its lines are, and when it scans at all. */
  lemma {:induction false} JoinedLines(lines: seq<string>)
    requires forall i | 0 <= i < |lines| :: NoLF(lines[i])
    ensures RawLines(Join(lines)) == lines
    ensures Tokens(Join(lines)).Some? <==> forall i | 0 <= i < |lines| :: |lines[i]| < MAX_LINE
  {
    if lines != [] {
      var line, others := lines[0], lines[1..];
      assert NoLF(line);
      assert forall i | 0 <= i < |others| :: others[i] == lines[i + 1];
      JoinedLines(others);
      TokensStep(line, Join(others));
      LinesFitCons(lines, line, others);
    }
  }

  /** The file holds only LF-terminated lines that fit the buffer and do not end in CR. */
  predicate LfOnly(t: string) {
    Tokens(t).Some? && Join(Tokens(t).value) == t
  }

  predicate EndsWithLF(t: string) {
    t != "" ==> t[|t| - 1] == '\n'
  }

  predicate NoCRLF(t: string) {
    forall i | 1 <= i < |t| && t[i] == '\n' :: t[i - 1] != '\r'
  }

  predicate LinesFit(t: string) {
    forall k | 0 <= k < |RawLines(t)| :: |RawLines(t)[k]| < 16777216
  }

  lemma LfOnlyStep(line: string, rest: string)
    requires forall i | 0 <= i < |line| :: line[i] != '\n'
    ensures LfOnly(line + "\n" + rest) <==> LfOnly(rest) && IsClean(line)
  {
    TokensStep(line, rest);
    if Tokens(rest).Some? {
      var others := Tokens(rest).value;
      var t, u := line + "\n" + rest, DropCR(line) + "\n" + Join(others);
      assert ([DropCR(line)] + others)[1..] == others;
      if t == u {
        assert t[|DropCR(line)|] == u[|DropCR(line)|] == '\n';
        assert t[|line| + 1..] == rest && u[|line| + 1..] == Join(others);
      }
    }
  }

  lemma EndsWithLFStep(line: string, rest: string)
    ensures EndsWithLF(line + "\n" + rest) <==> EndsWithLF(rest)
  {
    var t := line + "\n" + rest;
    assert rest == "" ==> t[|t| - 1] == '\n';
    assert rest != "" ==> t[|t| - 1] == rest[|rest| - 1];
  }

  lemma NoCRLFStep(line: string, rest: string)
    requires forall i | 0 <= i < |line| :: line[i] != '\n'
    ensures NoCRLF(line + "\n" + rest) <==> NoCRLF(rest) && DropCR(line) == line
  {
    var t, n := line + "\n" + rest, |line| + 1;
    assert t[..n] == line + "\n" && t[n..] == rest;
    assert forall i | 0 <= i < |line| :: t[i] == line[i];
    assert t[|line|] == '\n';
    if NoCRLF(t) {
      assert forall i | 0 <= i < |rest| :: rest[i] == t[n + i];
    }
    if NoCRLF(rest) && DropCR(line) == line {
      forall i | 1 <= i < |t| && t[i] == '\n' ensures t[i - 1] != '\r' {
        if i > n {
          assert t[i] == rest[i - n] && t[i - 1] == rest[i - n - 1];
        }
      }
    }
  }

  lemma LinesFitStep(line: string, rest: string)
    requires forall i | 0 <= i < |line| :: line[i] != '\n'
    ensures LinesFit(line + "\n" + rest) <==> LinesFit(rest) && |line| < 16777216
  {
    var t := line + "\n" + rest;
    TokensStep(line, rest);
    LinesFitCons(RawLines(t), line, RawLines(rest));
  }

  lemma LinesFitCons(all: seq<string>, line: string, others: seq<string>)
    requires all == [line] + others
    ensures (forall k | 0 <= k < |all| :: |all[k]| < MAX_LINE) <==>
            |line| < MAX_LINE && forall k | 0 <= k < |others| :: |others[k]| < MAX_LINE
  {
    assert all[0] == line && forall k | 0 <= k < |others| :: others[k] == all[k + 1];
  }

  lemma SplitAt(t: string, n: nat)
    requires n < |t|
    ensures t == t[..n] + [t[n]] + t[n + 1..]
  {
  }

  lemma Terminated(t: string)
    requires t != "" && FirstLF(t) < |t|
    ensures t == t[..FirstLF(t)] + "\n" + AfterLine(t)
  {
    SplitAt(t, FirstLF(t));
  }

  lemma Unterminated(t: string)
    requires t != "" && FirstLF(t) == |t|
    ensures !LfOnly(t) && !EndsWithLF(t)
  {
    if Tokens(t).Some? {
      var lines := Tokens(t).value;
      assert Join(lines)[|lines[0]|] == '\n';
    }
  }

  /** In bytes: the last line is terminated, no LF follows a CR, and no line is too long. */
  lemma {:induction false} LfOnlyExact(t: string)
    ensures LfOnly(t) <==> EndsWithLF(t) && NoCRLF(t) && LinesFit(t)
    decreases |t|
  {
    if t != "" {
      if FirstLF(t) < |t| {
        var line, rest := t[..FirstLF(t)], AfterLine(t);
        Terminated(t);
        LfOnlyStep(line, rest);
        EndsWithLFStep(line, rest);
        NoCRLFStep(line, rest);
        LinesFitStep(line, rest);
        LfOnlyExact(rest);
      } else {
        Unterminated(t);
      }
    }
  }

  lemma {:induction false} LfOnlyIsClean(t: string)
    requires LfOnly(t)
    ensures AllClean(Tokens(t).value)
    decreases |t|
  {
    if t != "" {
      var line, rest := t[..FirstLF(t)], AfterLine(t);
      if FirstLF(t) == |t| {
        Unterminated(t);
      }
      Terminated(t);
      LfOnlyStep(line, rest);
      LfOnlyIsClean(rest);
      TokensStep(line, rest);
    }
  }

  // ---------------------------------------------------------------- offsets

  /** The offset scanIndex gives to the line after these tokens. */
  function Offset(lines: seq<string>): nat {
    if lines == [] then 0 else Offset(lines[..|lines| - 1]) + |lines[|lines| - 1]| + 1
  }

  lemma {:induction false} JoinSnoc(lines: seq<string>, line: string)
    ensures Join(lines + [line]) == Join(lines) + line + "\n"
  {
    if lines == [] {
      assert Join([line][1..]) == "";
    } else {
      assert (lines + [line])[1..] == lines[1..] + [line];
      JoinSnoc(lines[1..], line);
    }
  }

  lemma {:induction false} JoinLength(lines: seq<string>)
    ensures |Join(lines)| == Offset(lines)
  {
    if lines != [] {
      var n := |lines| - 1;
      assert lines == lines[..n] + [lines[n]];
      JoinSnoc(lines[..n], lines[n]);
      JoinLength(lines[..n]);
    }
  }

  lemma {:induction false} JoinConcat(a: seq<string>, b: seq<string>)
    ensures Join(a + b) == Join(a) + Join(b)
  {
    if a == [] {
      assert a + b == b;
    } else {
      assert (a + b)[1..] == a[1..] + b;
      JoinConcat(a[1..], b);
    }
  }

  /** In an LF-only file the range (offset, length) of a line holds exactly that line. */
  lemma LineAt(lines: seq<string>, k: nat)
    requires k < |lines|
    ensures Offset(lines[..k]) + |lines[k]| < |Join(lines)|
    ensures Join(lines)[Offset(lines[..k])..Offset(lines[..k]) + |lines[k]|] == lines[k]
  {
    var before, after := lines[..k], lines[k + 1..];
    assert lines == before + ([lines[k]] + after);
    JoinConcat(before, [lines[k]] + after);
    JoinLength(before);
    assert ([lines[k]] + after)[1..] == after;
    assert Join(lines) == Join(before) + (lines[k] + "\n" + Join(after));
  }

  // ---------------------------------------------------------------- the index

  datatype Entry = Entry(offset: nat, length: nat)

  /** Whether a line is indexed: strict is scanIndex, which wants the line to parse; rewrite ignores the parse error. */
  predicate Yields(p: Platform, strict: bool, line: string) {
    p.peek(line).capsuleId != "" && (strict ==> p.peek(line).ok)
  }

  function Index(p: Platform, strict: bool, lines: seq<string>): map<string, Entry> {
    if lines == [] then map[]
    else
      var n := |lines| - 1;
      var before := Index(p, strict, lines[..n]);
      if Yields(p, strict, lines[n])
      then before[p.peek(lines[n]).capsuleId := Entry(Offset(lines[..n]), |lines[n]|)]
      else before
  }

  /** Line k is the last one that yields the id. */
  predicate LastOf(p: Platform, strict: bool, lines: seq<string>, id: string, k: nat) {
    k < |lines| && Yields(p, strict, lines[k]) && p.peek(lines[k]).capsuleId == id &&
    forall m | k < m < |lines| :: !(Yields(p, strict, lines[m]) && p.peek(lines[m]).capsuleId == id)
  }

  /**
   * Last occurrence wins: the index holds exactly the ids that some line yields, each with the
   * range of its last line.
   */
  lemma {:induction false} IndexExact(p: Platform, strict: bool, lines: seq<string>, id: string) returns (k: nat)
    ensures k < |lines| ==> LastOf(p, strict, lines, id, k) && id in Index(p, strict, lines) &&
                            Index(p, strict, lines)[id] == Entry(Offset(lines[..k]), |lines[k]|)
    ensures k >= |lines| ==> id !in Index(p, strict, lines) &&
                             forall m | 0 <= m < |lines| ::
                               !(Yields(p, strict, lines[m]) && p.peek(lines[m]).capsuleId == id)
  {
    if lines == [] {
      k := 0;
    } else {
      var n := |lines| - 1;
      var init := lines[..n];
      if Yields(p, strict, lines[n]) && p.peek(lines[n]).capsuleId == id {
        k := n;
      } else {
        k := IndexExact(p, strict, init, id);
        assert forall m | 0 <= m < n :: init[m] == lines[m];
        if k < n {
          assert init[..k] == lines[..k];
        } else {
          k := n + 1;
        }
      }
    }
  }

  lemma {:induction false} OffsetIncreases(lines: seq<string>, j: nat, k: nat)
    requires j < k <= |lines|
    ensures Offset(lines[..j]) < Offset(lines[..k])
  {
    assert lines[..k][..k - 1] == lines[..k - 1];
    if j < k - 1 {
      OffsetIncreases(lines, j, k - 1);
    }
  }

  /** The line yields an id and then fails to parse. */
  predicate HalfParsed(p: Platform, line: string) {
    Yields(p, false, line) && !p.peek(line).ok
  }

  /** A later line that parses is the last one to yield the id of line j. */
  predicate ShadowOf(p: Platform, lines: seq<string>, j: nat)
    requires j < |lines|
  {
    exists k | j < k < |lines| :: p.peek(lines[k]).ok && LastOf(p, false, lines, p.peek(lines[j]).capsuleId, k)
  }

  predicate Shadowed(p: Platform, lines: seq<string>) {
    forall j | 0 <= j < |lines| && HalfParsed(p, lines[j]) :: ShadowOf(p, lines, j)
  }

  lemma LastParses(p: Platform, lines: seq<string>)
    requires Shadowed(p, lines)
    ensures forall j: nat, id | LastOf(p, false, lines, id, j) :: p.peek(lines[j]).ok
  {
    forall j | 0 <= j < |lines| && HalfParsed(p, lines[j])
      ensures !LastOf(p, false, lines, p.peek(lines[j]).capsuleId, j)
    {
      assert ShadowOf(p, lines, j);
    }
  }

  /**
   * The lenient index of rewrite and the strict index of scanIndex agree exactly when every
   * half-parsed line is shadowed.
   */
  lemma IndexesAgree(p: Platform, lines: seq<string>)
    ensures Index(p, false, lines) == Index(p, true, lines) <==> Shadowed(p, lines)
  {
    var lenient, strict := Index(p, false, lines), Index(p, true, lines);
    if Shadowed(p, lines) {
      LastParses(p, lines);
      forall id ensures id in lenient <==> id in strict
                ensures id in lenient && id in strict ==> lenient[id] == strict[id]
      {
        var j := IndexExact(p, false, lines, id);
        var k := IndexExact(p, true, lines, id);
      }
      assert lenient == strict;
    }
    if lenient == strict {
      forall j | 0 <= j < |lines| && HalfParsed(p, lines[j]) ensures ShadowOf(p, lines, j) {
        var id := p.peek(lines[j]).capsuleId;
        var k := IndexExact(p, false, lines, id);
        var m := IndexExact(p, true, lines, id);
        if m < k {
          OffsetIncreases(lines, m, k);
        } else if k < m {
          OffsetIncreases(lines, k, m);
        }
        assert k == m && k != j;
      }
    }
  }

  /** The number of lines ending in CR. */
  function CRs(raws: seq<string>): nat {
    if raws == [] then 0
    else CRs(raws[..|raws| - 1]) + (if DropCR(raws[|raws| - 1]) == raws[|raws| - 1] then 0 else 1)
  }

  function Stripped(raws: seq<string>): (lines: seq<string>)
    ensures |lines| == |raws|
    ensures forall i | 0 <= i < |raws| :: lines[i] == DropCR(raws[i])
  {
    seq(|raws|, i requires 0 <= i < |raws| => DropCR(raws[i]))
  }

  lemma {:induction false} TokensAreStripped(t: string)
    requires Tokens(t).Some?
    ensures Tokens(t).value == Stripped(RawLines(t))
    decreases |t|
  {
    if t != "" {
      TokensAreStripped(AfterLine(t));
    }
  }

  lemma StrippedSnoc(raws: seq<string>, raw: string)
    ensures Stripped(raws + [raw]) == Stripped(raws) + [DropCR(raw)]
  {
  }

  lemma OffsetSnoc(lines: seq<string>, line: string)
    ensures Offset(lines + [line]) == Offset(lines) + |line| + 1
  {
    assert (lines + [line])[..|lines|] == lines;
  }

  lemma OffsetDriftStep(raws: seq<string>, raw: string)
    requires Offset(Stripped(raws)) == |Join(raws)| - CRs(raws)
    ensures Offset(Stripped(raws + [raw])) == |Join(raws + [raw])| - CRs(raws + [raw])
  {
    JoinSnoc(raws, raw);
    StrippedSnoc(raws, raw);
    OffsetSnoc(Stripped(raws), DropCR(raw));
    assert (raws + [raw])[..|raws|] == raws;
  }

  lemma {:induction false} NoCRs(raws: seq<string>)
    ensures CRs(raws) == 0 <==> forall i | 0 <= i < |raws| :: DropCR(raws[i]) == raws[i]
  {
    if raws != [] {
      var n := |raws| - 1;
      NoCRs(raws[..n]);
      assert forall i | 0 <= i < n :: raws[..n][i] == raws[i];
    }
  }

  lemma {:induction false} OffsetShortfall(raws: seq<string>)
    ensures Offset(Stripped(raws)) == |Join(raws)| - CRs(raws)
  {
    if raws != [] {
      var init, raw := raws[..|raws| - 1], raws[|raws| - 1];
      assert init + [raw] == raws;
      OffsetShortfall(init);
      OffsetDriftStep(init, raw);
    }
  }

  /** The file starts with these bytes, and the line follows them. */
  predicate IsAt(t: string, before: string, line: string) {
    |before| + |line| <= |t| && t[..|before|] == before && t[|before|..|before| + |line|] == line
  }

  lemma IsAtLater(head: string, rest: string, before: string, line: string)
    requires IsAt(rest, before, line)
    ensures IsAt(head + rest, head + before, line)
  {
    var t, start := head + rest, |head + before|;
    assert t[..start] == head + rest[..|before|];
    assert t[start..start + |line|] == rest[|before|..|before| + |line|];
  }

  lemma JoinPrefix(first: string, others: seq<string>, k: nat)
    requires 0 < k <= |others|
    ensures Join(([first] + others)[..k]) == first + "\n" + Join(others[..k - 1])
  {
    assert ([first] + others)[..k] == [first] + others[..k - 1];
    assert ([first] + others[..k - 1])[1..] == others[..k - 1];
  }

  /** Raw line k stands in the file right after the lines before it, each with its LF. */
  lemma {:induction false} RawLineAt(t: string, k: nat)
    requires k < |RawLines(t)|
    ensures IsAt(t, Join(RawLines(t)[..k]), RawLines(t)[k])
    decreases |t|
  {
    var first, rest := t[..FirstLF(t)], AfterLine(t);
    var others := RawLines(rest);
    assert RawLines(t) == [first] + others;
    if k == 0 {
      assert Join(RawLines(t)[..0]) == "";
      assert t[0..|first|] == first;
    } else {
      RawLineAt(rest, k - 1);
      Terminated(t);
      JoinPrefix(first, others, k);
      IsAtLater(first + "\n", rest, Join(others[..k - 1]), others[k - 1]);
    }
  }

  /**
   * In any file that scans, the offset computed for line k is where that line starts less the number
   * of CRs stripped before it, so it is right exactly when no earlier line ends in CR.
   */
  lemma OffsetDrift(t: string, lines: seq<string>, k: nat)
    requires Tokens(t) == Some(lines) && k < |lines|
    ensures |RawLines(t)| == |lines| && lines[k] == DropCR(RawLines(t)[k])
    ensures var before := RawLines(t)[..k];
            IsAt(t, Join(before), RawLines(t)[k]) && Offset(lines[..k]) == |Join(before)| - CRs(before) &&
            (Offset(lines[..k]) == |Join(before)| <==> lines[..k] == before)
  {
    TokensAreStripped(t);
    RawLineAt(t, k);
    DriftOf(RawLines(t), k);
  }

  lemma DriftOf(raws: seq<string>, k: nat)
    requires k <= |raws|
    ensures Offset(Stripped(raws)[..k]) == |Join(raws[..k])| - CRs(raws[..k])
    ensures Offset(Stripped(raws)[..k]) == |Join(raws[..k])| <==> Stripped(raws)[..k] == raws[..k]
  {
    var before := raws[..k];
    assert Stripped(raws)[..k] == Stripped(before);
    OffsetShortfall(before);
    NoCRs(before);
    assert CRs(before) == 0 ==> Stripped(before) == before;
    assert Stripped(before) == before ==> forall i | 0 <= i < k :: DropCR(before[i]) == Stripped(before)[i];
  }
}
