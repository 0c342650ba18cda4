/** The strict JSON decoder of build.go over a token stream, and the trees its streams print. */
module Json {
  import opened Common

  const MAX_DEPTH: nat := 1000

  /** Numbers keep their text, as json.Number does. */
  datatype Scalar = Null | Bool(b: bool) | Number(text: string) | String(s: string)

  datatype Value = Leaf(scalar: Scalar) | Array(items: seq<Value>) | Object(members: map<string, Value>)

  datatype Kind = Brace | Bracket

  /** What json.Decoder.Token returns: commas and colons are never seen. */
  datatype Token = Atom(scalar: Scalar) | Open(kind: Kind) | Close(kind: Kind)

  /** A tokenised text; clean says that the last token is followed by io.EOF rather than an error. */
  datatype TokenStream = TokenStream(tokens: seq<Token>, clean: bool)

  // ---------------------------------------------------------------- the decoder as a function

  predicate More(ts: seq<Token>) {
    ts != [] && !ts[0].Close?
  }

  function FixZero(s: Scalar): Scalar {
    if s == Number("-0") then Number("0") else s
  }

  function Decode(ts: seq<Token>, depth: nat): (r: Option<(Value, seq<Token>)>)
    ensures r.Some? ==> |r.value.1| < |ts|
    decreases |ts|, 0
  {
    if depth > MAX_DEPTH || ts == [] then None
    else match ts[0]
      case Atom(s) => Some((Leaf(FixZero(s)), ts[1..]))
      case Open(Brace) =>
        var (members, rest) :- DecodeMembers(ts[1..], depth + 1, map[]);
        Some((Object(members), rest))
      case Open(Bracket) =>
        var (items, rest) :- DecodeItems(ts[1..], depth + 1, []);
        Some((Array(items), rest))
      case Close(_) => None
  }

  function DecodeMembers(ts: seq<Token>, depth: nat,
                         acc: map<string, Value>): (r: Option<(map<string, Value>, seq<Token>)>)
    ensures r.Some? ==> |r.value.1| < |ts|
    decreases |ts|, 1
  {
    if !More(ts) then
      if ts != [] && ts[0] == Close(Brace) then Some((acc, ts[1..])) else None
    else if !(ts[0].Atom? && ts[0].scalar.String?) || ts[0].scalar.s in acc then None
    else
      var (v, rest) :- Decode(ts[1..], depth);
      DecodeMembers(rest, depth, acc[ts[0].scalar.s := v])
  }

  function DecodeItems(ts: seq<Token>, depth: nat, acc: seq<Value>): (r: Option<(seq<Value>, seq<Token>)>)
    ensures r.Some? ==> |r.value.1| < |ts|
    decreases |ts|, 1
  {
    if !More(ts) then
      if ts != [] && ts[0] == Close(Bracket) then Some((acc, ts[1..])) else None
    else
      var (v, rest) :- Decode(ts, depth);
      DecodeItems(rest, depth, acc + [v])
  }

  /** decodeStrictJSON after the UTF-8 check: one value and then the end of the input. */
  function DecodeStrict(stream: TokenStream): Option<Value> {
    var (v, rest) :- Decode(stream.tokens, 1);
    if rest == [] && stream.clean then Some(v) else None
  }

  // ---------------------------------------------------------------- the decoder as the source writes it

  /** The part of json.Decoder that build.go relies on: a cursor and the stack of open delimiters. */
  class TokenReader {
    const tokens: seq<Token>
    const clean: bool
    var pos: nat
    var open: seq<Kind>

    constructor (stream: TokenStream)
      ensures tokens == stream.tokens && clean == stream.clean && pos == 0 && open == []
    {
      tokens, clean, pos, open := stream.tokens, stream.clean, 0, [];
    }

    function Rest(): seq<Token>
      reads this
      requires pos <= |tokens|
    {
      tokens[pos..]
    }

    /** A closing delimiter that does not match the innermost open one is a syntax error. */
    method Token() returns (token: Option<Token>)
      requires pos <= |tokens|
      modifies this
      ensures pos <= |tokens|
      ensures token.Some? ==> old(Rest()) != [] && token.value == old(Rest())[0] && Rest() == old(Rest())[1..]
      ensures token.Some? && token.value.Open? ==> open == old(open) + [token.value.kind]
      ensures token.Some? && token.value.Atom? ==> open == old(open)
      ensures token.Some? && token.value.Close? ==>
                old(open) != [] && old(open)[|old(open)| - 1] == token.value.kind &&
                  open == old(open)[..|old(open)| - 1]
      ensures token.None? ==> pos == old(pos) && open == old(open)
      ensures token.None? ==> old(Rest()) == [] ||
                              (old(Rest())[0].Close? &&
                                (old(open) == [] || old(open)[|old(open)| - 1] != old(Rest())[0].kind))
    {
      if pos == |tokens| {
        return None;
      }
      var next := tokens[pos];
      match next {
        case Open(kind) =>
          open := open + [kind];
        case Close(kind) =>
          if open == [] || open[|open| - 1] != kind {
            return None;
          }
          open := open[..|open| - 1];
        case Atom(_) =>
      }
      pos := pos + 1;
      token := Some(next);
    }

    method HasMore() returns (more: bool)
      requires pos <= |tokens|
      ensures more == More(Rest())
    {
      more := pos < |tokens| && !tokens[pos].Close?;
    }
  }

  /** decodeJSONValue: the loops over a stateful decoder compute exactly Decode. */
  method DecodeJsonValue(decoder: TokenReader, depth: nat) returns (result: Option<Value>)
    requires decoder.pos <= |decoder.tokens|
    modifies decoder
    ensures decoder.pos <= |decoder.tokens|
    ensures match Decode(old(decoder.Rest()), depth)
            case None => result.None?
            case Some((v, rest)) => result == Some(v) && decoder.Rest() == rest && decoder.open == old(decoder.open)
    decreases |decoder.tokens| - decoder.pos, 0
  {
    if depth > MAX_DEPTH {
      return None;
    }
    var token := decoder.Token();
    if token.None? {
      return None;
    }
    match token.value {
      case Atom(s) =>
        result := Some(Leaf(if s == Number("-0") then Number("0") else s));
      case Open(Brace) =>
        result := DecodeObject(decoder, depth);
      case Open(Bracket) =>
        result := DecodeArray(decoder, depth);
      case Close(_) =>
        result := None;
    }
  }

  /** The case '{' of decodeJSONValue, entered after the brace. */
  method DecodeObject(decoder: TokenReader, depth: nat) returns (result: Option<Value>)
    requires decoder.pos <= |decoder.tokens|
    requires decoder.open != [] && decoder.open[|decoder.open| - 1] == Brace
    modifies decoder
    ensures decoder.pos <= |decoder.tokens|
    ensures match DecodeMembers(old(decoder.Rest()), depth + 1, map[])
            case None => result.None?
            case Some((m, rest)) => result == Some(Object(m)) && decoder.Rest() == rest &&
                                    decoder.open == old(decoder.open)[..|old(decoder.open)| - 1]
    decreases |decoder.tokens| - decoder.pos, 1
  {
    ghost var start := decoder.Rest();
    var members: map<string, Value> := map[];
    var more := decoder.HasMore();
    while more
      invariant decoder.pos <= |decoder.tokens|
      invariant decoder.open == old(decoder.open)
      invariant |decoder.Rest()| <= |start|
      invariant more == More(decoder.Rest())
      invariant DecodeMembers(start, depth + 1, map[]) == DecodeMembers(decoder.Rest(), depth + 1, members)
      decreases |decoder.tokens| - decoder.pos
    {
      var key := decoder.Token();
      if key.None? || !key.value.Atom? || !key.value.scalar.String? {
        return None;
      }
      if key.value.scalar.s in members {
        return None;
      }
      var value := DecodeJsonValue(decoder, depth + 1);
      if value.None? {
        return None;
      }
      members := members[key.value.scalar.s := value.value];
      more := decoder.HasMore();
    }
    var close := decoder.Token();
    result := if close.None? then None else Some(Object(members));
  }

  /** The case '[' of decodeJSONValue, entered after the bracket. */
  method DecodeArray(decoder: TokenReader, depth: nat) returns (result: Option<Value>)
    requires decoder.pos <= |decoder.tokens|
    requires decoder.open != [] && decoder.open[|decoder.open| - 1] == Bracket
    modifies decoder
    ensures decoder.pos <= |decoder.tokens|
    ensures match DecodeItems(old(decoder.Rest()), depth + 1, [])
            case None => result.None?
            case Some((vs, rest)) => result == Some(Array(vs)) && decoder.Rest() == rest &&
                                     decoder.open == old(decoder.open)[..|old(decoder.open)| - 1]
    decreases |decoder.tokens| - decoder.pos, 1
  {
    ghost var start := decoder.Rest();
    var items: seq<Value> := [];
    var more := decoder.HasMore();
    while more
      invariant decoder.pos <= |decoder.tokens|
      invariant decoder.open == old(decoder.open)
      invariant |decoder.Rest()| <= |start|
      invariant more == More(decoder.Rest())
      invariant DecodeItems(start, depth + 1, []) == DecodeItems(decoder.Rest(), depth + 1, items)
      decreases |decoder.tokens| - decoder.pos, 0
    {
      var value := DecodeJsonValue(decoder, depth + 1);
      if value.None? {
        return None;
      }
      items := items + [value.value];
      more := decoder.HasMore();
    }
    var close := decoder.Token();
    result := if close.None? then None else Some(Array(items));
  }

  method DecodeStrictJson(stream: TokenStream) returns (result: Option<Value>)
    ensures result == DecodeStrict(stream)
  {
    var decoder := new TokenReader(stream);
    assert decoder.Rest() == stream.tokens;
    result := DecodeJsonValue(decoder, 1);
    if result.Some? {
      var trailing := decoder.Token();
      if trailing.Some? || decoder.pos < |decoder.tokens| || !decoder.clean {
        result := None;
      }
    }
  }
}
