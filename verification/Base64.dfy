/** Standard base64 with padding, section 4 of RFC 4648, and its strict inverse. */
module Base64 {
  import opened Common

  function Letter(v: int): (c: char)
    requires 0 <= v < 64
  {
    if v < 26 then (v + 65) as char
    else if v < 52 then (v + 71) as char
    else if v < 62 then (v - 4) as char
    else if v == 62 then '+'
    else '/'
  }

  /** The value of an alphabet letter, 64 for any other character. */
  function Sextet(c: char): (v: int)
    ensures 0 <= v <= 64
  {
    if 'A' <= c <= 'Z' then c as int - 65
    else if 'a' <= c <= 'z' then c as int - 71
    else if '0' <= c <= '9' then c as int + 4
    else if c == '+' then 62
    else if c == '/' then 63
    else 64
  }

  predicate IsLetter(c: char) {
    Sextet(c) < 64
  }

  /** Four letters for one to three bytes, padded with '=' when fewer than three. */
  function EncodeGroup(g: Bytes): (t: string)
    requires 1 <= |g| <= 3
    ensures |t| == 4
  {
    var a := g[0] as int;
    if |g| == 1 then
      [Letter(a / 4), Letter(a % 4 * 16), '=', '=']
    else
      var b := g[1] as int;
      if |g| == 2 then
        [Letter(a / 4), Letter(a % 4 * 16 + b / 16), Letter(b % 16 * 4), '=']
      else
        var c := g[2] as int;
        [Letter(a / 4), Letter(a % 4 * 16 + b / 16), Letter(b % 16 * 4 + c / 64), Letter(c % 64)]
  }

  function Encode(s: Bytes): string {
    if |s| == 0 then ""
    else if |s| <= 3 then EncodeGroup(s)
    else EncodeGroup(s[..3]) + Encode(s[3..])
  }

  /** One group of four letters, the last one or two possibly padding; unused bits must be zero. */
  function DecodeGroup(t: string, last: bool): Option<Bytes>
    requires |t| == 4
  {
    var v, w, x, y := Sextet(t[0]), Sextet(t[1]), Sextet(t[2]), Sextet(t[3]);
    if v == 64 || w == 64 then None
    else if last && t[2] == '=' && t[3] == '=' then
      if w % 16 == 0 then Some([(v * 4 + w / 16) as char]) else None
    else if x == 64 then None
    else if last && t[3] == '=' then
      if x % 4 == 0 then Some([(v * 4 + w / 16) as char, (w % 16 * 16 + x / 4) as char]) else None
    else if y == 64 then None
    else Some([(v * 4 + w / 16) as char, (w % 16 * 16 + x / 4) as char, (x % 4 * 64 + y) as char])
  }

  function Decode(t: string): Option<Bytes> {
    if |t| == 0 then Some("")
    else if |t| < 4 then None
    else
      var head :- DecodeGroup(t[..4], |t| == 4);
      var tail :- Decode(t[4..]);
      Some(head + tail)
  }

  lemma SextetOfLetter(v: int)
    requires 0 <= v < 64
    ensures Sextet(Letter(v)) == v
    ensures Letter(v) != '='
  {
  }

  lemma LetterOfSextet(c: char)
    requires IsLetter(c)
    ensures Letter(Sextet(c)) == c
  {
  }

  /** Shifting the bits of up to three bytes into sextets, and back. */
  lemma Shift(a: int, b: int, c: int)
    requires 0 <= a < 256 && 0 <= b < 256 && 0 <= c < 256
    ensures a / 4 * 4 + (a % 4 * 16 + b / 16) / 16 == a
    ensures (a % 4 * 16 + b / 16) % 16 * 16 + (b % 16 * 4 + c / 64) / 4 == b
    ensures (b % 16 * 4 + c / 64) % 4 * 64 + c % 64 == c
    ensures a % 4 * 16 % 16 == 0 && a / 4 * 4 + a % 4 * 16 / 16 == a
    ensures b % 16 * 4 % 4 == 0 && (a % 4 * 16 + b / 16) % 16 * 16 + b % 16 * 4 / 4 == b
  {
  }

  lemma Unshift(v: int, w: int, x: int, y: int)
    requires 0 <= v < 64 && 0 <= w < 64 && 0 <= x < 64 && 0 <= y < 64
    ensures (v * 4 + w / 16) / 4 == v
    ensures (v * 4 + w / 16) % 4 * 16 + (w % 16 * 16 + x / 4) / 16 == w
    ensures (w % 16 * 16 + x / 4) % 16 * 4 + (x % 4 * 64 + y) / 64 == x
    ensures (x % 4 * 64 + y) % 64 == y
    ensures w % 16 == 0 ==> (v * 4 + w / 16) % 4 * 16 == w
    ensures x % 4 == 0 ==> (w % 16 * 16 + x / 4) % 16 * 4 == x
  {
  }

  lemma DecodeEncodeShort(g: Bytes)
    requires 1 <= |g| <= 2
    ensures DecodeGroup(EncodeGroup(g), true) == Some(g)
  {
    var t := EncodeGroup(g);
    var a := g[0] as int;
    var b := if |g| == 2 then g[1] as int else 0;
    Shift(a, b, 0);
    SextetOfLetter(a / 4);
    SextetOfLetter(a % 4 * 16 + b / 16);
    SextetOfLetter(b % 16 * 4);
    if |g| == 1 {
      assert g == [g[0]];
    } else {
      assert g == [g[0], g[1]];
    }
  }

  lemma DecodeEncodeGroup(g: Bytes, last: bool)
    requires 1 <= |g| <= 3
    requires |g| == 3 || last
    ensures DecodeGroup(EncodeGroup(g), last) == Some(g)
  {
    if |g| < 3 {
      DecodeEncodeShort(g);
    } else {
      var a, b, c := g[0] as int, g[1] as int, g[2] as int;
      Shift(a, b, c);
      SextetOfLetter(a / 4);
      SextetOfLetter(a % 4 * 16 + b / 16);
      SextetOfLetter(b % 16 * 4 + c / 64);
      SextetOfLetter(c % 64);
      assert g == [g[0], g[1], g[2]];
    }
  }

  lemma EncodeDecodeShort(t: string)
    requires |t| == 4 && t[3] == '=' && DecodeGroup(t, true).Some?
    ensures var g := DecodeGroup(t, true).value; 1 <= |g| <= 2 && EncodeGroup(g) == t
  {
    var v, w, x := Sextet(t[0]), Sextet(t[1]), Sextet(t[2]) % 64;
    LetterOfSextet(t[0]);
    LetterOfSextet(t[1]);
    Unshift(v, w, x, 0);
    if t[2] != '=' {
      LetterOfSextet(t[2]);
    }
    assert t == [t[0], t[1], t[2], '='];
  }

  lemma EncodeDecodeGroup(t: string, last: bool)
    requires |t| == 4 && DecodeGroup(t, last).Some?
    ensures var g := DecodeGroup(t, last).value; 1 <= |g| <= 3 && (last || |g| == 3) && EncodeGroup(g) == t
  {
    if t[3] == '=' {
      EncodeDecodeShort(t);
    } else {
      var v, w, x, y := Sextet(t[0]), Sextet(t[1]), Sextet(t[2]), Sextet(t[3]);
      LetterOfSextet(t[0]);
      LetterOfSextet(t[1]);
      LetterOfSextet(t[2]);
      LetterOfSextet(t[3]);
      Unshift(v, w, x, y);
      assert t == [t[0], t[1], t[2], t[3]];
    }
  }

  /** Decoding undoes encoding on every byte string. */
  lemma {:induction false} DecodeEncode(s: Bytes)
    ensures Decode(Encode(s)) == Some(s)
  {
    if 0 < |s| <= 3 {
      DecodeEncodeGroup(s, true);
      assert Encode(s)[..4] == EncodeGroup(s) && Encode(s)[4..] == "";
      assert s + "" == s;
    } else if 3 < |s| {
      var t := Encode(s);
      assert t[..4] == EncodeGroup(s[..3]) && t[4..] == Encode(s[3..]);
      DecodeEncodeGroup(s[..3], |t| == 4);
      DecodeEncode(s[3..]);
      assert s == s[..3] + s[3..];
    }
  }

  /** Encoding undoes decoding: the strict decoder accepts nothing but encodings. */
  lemma {:induction false} EncodeDecode(t: string)
    requires Decode(t).Some?
    ensures Encode(Decode(t).value) == t
  {
    if |t| != 0 {
      var g := DecodeGroup(t[..4], |t| == 4).value;
      var tail := Decode(t[4..]).value;
      EncodeDecodeGroup(t[..4], |t| == 4);
      EncodeDecode(t[4..]);
      assert t == t[..4] + t[4..];
      assert Decode(t).value == g + tail;
      if tail == "" {
        assert g + tail == g;
      } else {
        assert (g + tail)[..3] == g && (g + tail)[3..] == tail;
      }
    }
  }

  lemma EncodeGroupLetters(g: Bytes)
    requires 1 <= |g| <= 3
    ensures forall i | 0 <= i < 4 :: IsLetter(EncodeGroup(g)[i]) || EncodeGroup(g)[i] == '='
  {
    DecodeEncodeGroup(g, true);
  }

  /** The exact length of an encoding, and the characters that can occur in it. */
  lemma {:induction false} EncodeShape(s: Bytes)
    ensures |Encode(s)| == (|s| + 2) / 3 * 4
    ensures forall i | 0 <= i < |Encode(s)| :: IsLetter(Encode(s)[i]) || Encode(s)[i] == '='
  {
    if 0 < |s| <= 3 {
      EncodeGroupLetters(s);
    } else if 3 < |s| {
      EncodeGroupLetters(s[..3]);
      EncodeShape(s[3..]);
      OneGroupMore(|s|);
      assert Encode(s) == EncodeGroup(s[..3]) + Encode(s[3..]);
    }
  }

  lemma OneGroupMore(n: nat)
    requires n > 3
    ensures (n + 2) / 3 * 4 == 4 + (n - 3 + 2) / 3 * 4
  {
  }
}
