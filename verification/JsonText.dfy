/** JSON string literals as encoding/json/v2 writes them, and a reader for that form. */
module JsonText {
  import opened Common

  function HexDigit(v: int): (c: char)
    requires 0 <= v < 16
  {
    if v < 10 then (v + 48) as char else (v + 87) as char
  }

  /** The value of a lowercase hexadecimal digit, 16 for any other character. */
  function HexValue(c: char): (v: int)
    ensures 0 <= v <= 16
  {
    if '0' <= c <= '9' then c as int - 48
    else if 'a' <= c <= 'f' then c as int - 87
    else 16
  }

  function EscapeChar(c: char): string {
    if c == '"' || c == '\\' then ['\\', c]
    else if c == 8 as char then "\\b"
    else if c == 12 as char then "\\f"
    else if c == '\n' then "\\n"
    else if c == '\r' then "\\r"
    else if c == '\t' then "\\t"
    else if c < ' ' then ['\\', 'u', '0', '0', HexDigit(c as int / 16), HexDigit(c as int % 16)]
    else [c]
  }

  function Escape(s: string): string {
    if s == [] then "" else EscapeChar(s[0]) + Escape(s[1..])
  }

  function Quote(s: string): string {
    "\"" + Escape(s) + "\""
  }

  /** Reads one possibly escaped character: the character and the number of characters it took. */
  function ReadChar(t: string): (r: Option<(char, nat)>)
    ensures r.Some? ==> 1 <= r.value.1 <= |t|
  {
    if t == [] || t[0] < ' ' || t[0] == '"' then None
    else if t[0] != '\\' then Some((t[0], 1))
    else if |t| < 2 then None
    else if t[1] == '"' || t[1] == '\\' then Some((t[1], 2))
    else if t[1] == 'b' then Some((8 as char, 2))
    else if t[1] == 'f' then Some((12 as char, 2))
    else if t[1] == 'n' then Some(('\n', 2))
    else if t[1] == 'r' then Some(('\r', 2))
    else if t[1] == 't' then Some(('\t', 2))
    else if t[1] != 'u' || |t| < 6 || t[2] != '0' || t[3] != '0' then None
    else
      var h, l := HexValue(t[4]), HexValue(t[5]);
      if h < 2 && l < 16 then Some(((h * 16 + l) as char, 6)) else None
  }

  /** Reads up to the closing quote: the string and the text after the quote. */
  function ReadBody(t: string): (r: Option<(string, string)>)
    ensures r.Some? ==> |r.value.1| < |t|
  {
    if t == [] then None
    else if t[0] == '"' then Some(("", t[1..]))
    else
      var (c, n) :- ReadChar(t);
      var (s, rest) :- ReadBody(t[n..]);
      Some(([c] + s, rest))
  }

  function ReadQuoted(t: string): (r: Option<(string, string)>)
    ensures r.Some? ==> |r.value.1| < |t|
  {
    if t == [] || t[0] != '"' then None else ReadBody(t[1..])
  }

  lemma ReadEscapedChar(c: char, rest: string)
    ensures var e := EscapeChar(c);
            ReadChar(e + rest) == Some((c, |e|)) && (e + rest)[|e|..] == rest && e[0] != '"'
  {
    if c < ' ' {
      var h, l := c as int / 16, c as int % 16;
      assert HexValue(HexDigit(h)) == h && HexValue(HexDigit(l)) == l;
    }
  }

  lemma {:induction false} ReadEscaped(s: string, rest: string)
    ensures ReadBody(Escape(s) + ("\"" + rest)) == Some((s, rest))
  {
    var tail := "\"" + rest;
    if s == [] {
      assert Escape(s) + tail == tail;
    } else {
      var e := EscapeChar(s[0]);
      var after := Escape(s[1..]) + tail;
      assert Escape(s) + tail == e + after;
      ReadEscapedChar(s[0], after);
      ReadEscaped(s[1..], rest);
      assert s == [s[0]] + s[1..];
    }
  }

  /** A quoted string is read back whatever follows it. */
  lemma ReadQuote(s: string, rest: string)
    ensures ReadQuoted(Quote(s) + rest) == Some((s, rest))
  {
    assert (Quote(s) + rest)[1..] == Escape(s) + ("\"" + rest);
    ReadEscaped(s, rest);
  }

  predicate ControlFree(s: string) {
    forall i | 0 <= i < |s| :: ' ' <= s[i]
  }

  /** No control character, in particular neither LF nor CR, survives quoting. */
  lemma {:induction false} EscapePrintable(s: string)
    ensures ControlFree(Escape(s))
  {
    if s != [] {
      EscapePrintable(s[1..]);
      assert ControlFree(EscapeChar(s[0]));
    }
  }

  predicate IsPlain(s: string) {
    forall i | 0 <= i < |s| :: ' ' <= s[i] && s[i] != '"' && s[i] != '\\'
  }

  /** Text without quotes, backslashes or control characters is quoted verbatim. */
  lemma {:induction false} EscapePlain(s: string)
    requires IsPlain(s)
    ensures Escape(s) == s
  {
    if s != [] {
      assert forall i | 0 <= i < |s[1..]| :: s[1..][i] == s[i + 1];
      EscapePlain(s[1..]);
      assert s == [s[0]] + s[1..];
    }
  }
}
