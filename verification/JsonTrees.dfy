/** JSON texts as trees: what the strict decoder accepts, what it returns, and which texts it identifies. */
module JsonTrees {
  import opened Common
  import opened Json

  /** A JSON text as written: members in order, keys possibly repeated. */
  datatype Tree = TLeaf(scalar: Scalar) | TArray(items: seq<Tree>) | TObject(members: seq<Member>)

  datatype Member = Member(key: string, value: Tree)

  function Print(t: Tree): (ts: seq<Token>)
    ensures More(ts)
    decreases t, 1
  {
    match t
    case TLeaf(s) => [Atom(s)]
    case TArray(items) => [Open(Bracket)] + PrintItems(items) + [Close(Bracket)]
    case TObject(members) => [Open(Brace)] + PrintMembers(members) + [Close(Brace)]
  }

  function PrintItems(items: seq<Tree>): seq<Token>
    decreases items, 0
  {
    if items == [] then [] else Print(items[0]) + PrintItems(items[1..])
  }

  function PrintMembers(members: seq<Member>): seq<Token>
    decreases members, 0
  {
    if members == [] then []
    else [Atom(String(members[0].key))] + Print(members[0].value) + PrintMembers(members[1..])
  }

  /** Scalars and empty containers have depth one. */
  function Depth(t: Tree): (d: nat)
    ensures d >= 1
    decreases t, 1
  {
    match t
    case TLeaf(_) => 1
    case TArray(items) => 1 + DepthOfItems(items)
    case TObject(members) => 1 + DepthOfMembers(members)
  }

  function Max(a: nat, b: nat): nat { if a < b then b else a }

  function DepthOfItems(items: seq<Tree>): nat
    decreases items, 0
  {
    if items == [] then 0 else Max(Depth(items[0]), DepthOfItems(items[1..]))
  }

  function DepthOfMembers(members: seq<Member>): nat
    decreases members, 0
  {
    if members == [] then 0 else Max(Depth(members[0].value), DepthOfMembers(members[1..]))
  }

  predicate HasKey(members: seq<Member>, key: string) {
    exists i | 0 <= i < |members| :: members[i].key == key
  }

  /** No object anywhere in the tree repeats a key. */
  predicate Distinct(t: Tree)
    decreases t, 1
  {
    match t
    case TLeaf(_) => true
    case TArray(items) => DistinctItems(items)
    case TObject(members) => DistinctMembers(members)
  }

  predicate DistinctItems(items: seq<Tree>)
    decreases items, 0
  {
    items == [] || (Distinct(items[0]) && DistinctItems(items[1..]))
  }

  predicate DistinctMembers(members: seq<Member>)
    decreases members, 0
  {
    members == [] ||
    (!HasKey(members[1..], members[0].key) && Distinct(members[0].value) && DistinctMembers(members[1..]))
  }

  /** The value a tree denotes once every -0 is read as 0. */
  function ValueOf(t: Tree): Value
    decreases t, 1
  {
    match t
    case TLeaf(s) => Leaf(FixZero(s))
    case TArray(items) => Array(ItemsOf(items))
    case TObject(members) => Object(MapOf(members))
  }

  function ItemsOf(items: seq<Tree>): (vs: seq<Value>)
    ensures |vs| == |items|
    decreases items, 0
  {
    if items == [] then [] else [ValueOf(items[0])] + ItemsOf(items[1..])
  }

  function MapOf(members: seq<Member>): map<string, Value>
    decreases members, 0
  {
    if members == [] then map[] else map[members[0].key := ValueOf(members[0].value)] + MapOf(members[1..])
  }

  predicate Fits(t: Tree, depth: nat) {
    depth + Depth(t) - 1 <= MAX_DEPTH && Distinct(t)
  }

  predicate FitItems(items: seq<Tree>, depth: nat) {
    depth + DepthOfItems(items) - 1 <= MAX_DEPTH && DistinctItems(items)
  }

  predicate FitMembers(members: seq<Member>, depth: nat) {
    depth + DepthOfMembers(members) - 1 <= MAX_DEPTH && DistinctMembers(members)
  }

  lemma FitItemsCons(items: seq<Tree>, depth: nat)
    requires items != []
    ensures FitItems(items, depth) <==> Fits(items[0], depth) && FitItems(items[1..], depth)
  {
  }

  lemma FitMembersCons(members: seq<Member>, depth: nat)
    requires members != []
    ensures FitMembers(members, depth) <==>
            Fits(members[0].value, depth) && FitMembers(members[1..], depth) && !HasKey(members[1..], members[0].key)
  {
  }

  lemma Assoc<T>(a: seq<T>, b: seq<T>, c: seq<T>)
    ensures (a + b) + c == a + (b + c)
  {
  }

  // ---------------------------------------------------------------- exactness

  /**
   * On the tokens of any tree, whatever follows, the decoder takes exactly those tokens and
   * succeeds exactly when keys are distinct and the depth fits.
   */
  lemma {:induction false} DecodePrint(t: Tree, rest: seq<Token>, depth: nat)
    ensures Decode(Print(t) + rest, depth) == if Fits(t, depth) then Some((ValueOf(t), rest)) else None
    decreases t, 1
  {
    var ts := Print(t) + rest;
    if depth <= MAX_DEPTH {
      match t
      case TLeaf(s) =>
        assert ts[1..] == rest;
      case TArray(items) =>
        assert ts[1..] == PrintItems(items) + ([Close(Bracket)] + rest);
        DecodePrintItems(items, rest, depth + 1, []);
        assert [] + ItemsOf(items) == ItemsOf(items);
      case TObject(members) =>
        assert ts[1..] == PrintMembers(members) + ([Close(Brace)] + rest);
        DecodePrintMembers(members, rest, depth + 1, map[]);
        assert map[] + MapOf(members) == MapOf(members);
    }
  }

  lemma {:induction false} DecodePrintItems(items: seq<Tree>, rest: seq<Token>, depth: nat, acc: seq<Value>)
    requires 1 <= depth <= MAX_DEPTH + 1
    ensures DecodeItems(PrintItems(items) + ([Close(Bracket)] + rest), depth, acc) ==
            if FitItems(items, depth) then Some((acc + ItemsOf(items), rest)) else None
    decreases items, 0
  {
    var tail := [Close(Bracket)] + rest;
    var ts := PrintItems(items) + tail;
    if items == [] {
      assert ts == tail && tail[1..] == rest && acc + [] == acc;
    } else {
      var after := PrintItems(items[1..]) + tail;
      Assoc(Print(items[0]), PrintItems(items[1..]), tail);
      DecodePrint(items[0], after, depth);
      ItemStep(ts, items[0], after, depth, acc);
      FitItemsCons(items, depth);
      if Fits(items[0], depth) {
        DecodePrintItems(items[1..], rest, depth, acc + [ValueOf(items[0])]);
        Assoc(acc, [ValueOf(items[0])], ItemsOf(items[1..]));
      }
    }
  }

  /** The decoder takes one item and goes on with what follows it. */
  lemma ItemStep(ts: seq<Token>, t: Tree, after: seq<Token>, depth: nat, acc: seq<Value>)
    requires ts == Print(t) + after && Decode(ts, depth) == if Fits(t, depth) then Some((ValueOf(t), after)) else None
    ensures DecodeItems(ts, depth, acc) ==
            if Fits(t, depth) then DecodeItems(after, depth, acc + [ValueOf(t)]) else None
  {
  }

  lemma PrintMembersCons(members: seq<Member>, tail: seq<Token>)
    requires members != []
    ensures var ts := PrintMembers(members) + tail;
            ts != [] && ts[0] == Atom(String(members[0].key)) &&
            ts[1..] == Print(members[0].value) + (PrintMembers(members[1..]) + tail)
  {
    Headed(Atom(String(members[0].key)), Print(members[0].value), PrintMembers(members[1..]), tail);
  }

  lemma Headed<T>(x: T, a: seq<T>, b: seq<T>, c: seq<T>)
    ensures var s := ([x] + a + b) + c; s != [] && s[0] == x && s[1..] == a + (b + c)
  {
    var s := ([x] + a + b) + c;
    assert s == [x] + (a + (b + c));
  }

  lemma Updated(acc: map<string, Value>, key: string, v: Value, others: map<string, Value>)
    ensures acc[key := v] + others == acc + (map[key := v] + others)
  {
  }

  /** The decoder takes one member whose key is new and goes on with what follows it. */
  lemma MemberStep(ts: seq<Token>, key: string, t: Tree, after: seq<Token>, depth: nat, acc: map<string, Value>)
    requires ts != [] && ts[0] == Atom(String(key)) && key !in acc && ts[1..] == Print(t) + after
    requires Decode(ts[1..], depth) == if Fits(t, depth) then Some((ValueOf(t), after)) else None
    ensures DecodeMembers(ts, depth, acc) ==
            if Fits(t, depth) then DecodeMembers(after, depth, acc[key := ValueOf(t)]) else None
  {
  }

  predicate Unused(members: seq<Member>, acc: map<string, Value>) {
    forall i | 0 <= i < |members| :: members[i].key !in acc
  }

  lemma UnusedTail(members: seq<Member>, acc: map<string, Value>, v: Value)
    requires members != [] && members[0].key !in acc
    ensures Unused(members[1..], acc[members[0].key := v]) <==>
            Unused(members, acc) && !HasKey(members[1..], members[0].key)
  {
    assert forall i | 1 <= i < |members| :: members[i] == members[1..][i - 1];
  }

  lemma {:induction false} DecodePrintMembers(members: seq<Member>, rest: seq<Token>, depth: nat,
                                              acc: map<string, Value>)
    requires 1 <= depth <= MAX_DEPTH + 1
    ensures DecodeMembers(PrintMembers(members) + ([Close(Brace)] + rest), depth, acc) ==
            if FitMembers(members, depth) && Unused(members, acc) then Some((acc + MapOf(members), rest)) else None
    decreases members, 0
  {
    var tail := [Close(Brace)] + rest;
    var ts := PrintMembers(members) + tail;
    if members == [] {
      assert ts == tail && tail[1..] == rest && acc + map[] == acc;
    } else {
      var key, value, v := members[0].key, members[0].value, ValueOf(members[0].value);
      var after := PrintMembers(members[1..]) + tail;
      PrintMembersCons(members, tail);
      if key in acc {
        assert !Unused(members, acc);
      } else {
        DecodePrint(value, after, depth);
        MemberStep(ts, key, value, after, depth, acc);
        UnusedTail(members, acc, v);
        FitMembersCons(members, depth);
        if Fits(value, depth) {
          DecodePrintMembers(members[1..], rest, depth, acc[key := v]);
          Updated(acc, key, v, MapOf(members[1..]));
        }
      }
    }
  }

  // ---------------------------------------------------------------- soundness: nothing else is accepted

  /** Whatever the decoder accepts is the printing of a tree within the depth limit and without repeated keys. */
  lemma {:induction false} DecodeSound(ts: seq<Token>, depth: nat) returns (t: Tree)
    requires depth >= 1 && Decode(ts, depth).Some?
    ensures Fits(t, depth)
    ensures ts == Print(t) + Decode(ts, depth).value.1
    ensures Decode(ts, depth).value.0 == ValueOf(t)
    decreases |ts|, 0
  {
    var (v, rest) := Decode(ts, depth).value;
    match ts[0]
    case Atom(s) =>
      t := TLeaf(s);
    case Open(Brace) =>
      var members := DecodeMembersSound(ts[1..], depth + 1, map[]);
      t := TObject(members);
      assert map[] + MapOf(members) == MapOf(members);
    case Open(Bracket) =>
      var items := DecodeItemsSound(ts[1..], depth + 1, []);
      t := TArray(items);
      assert [] + ItemsOf(items) == ItemsOf(items);
  }

  lemma {:induction false} DecodeItemsSound(ts: seq<Token>, depth: nat, acc: seq<Value>) returns (items: seq<Tree>)
    requires 1 <= depth <= MAX_DEPTH + 1 && DecodeItems(ts, depth, acc).Some?
    ensures depth + DepthOfItems(items) - 1 <= MAX_DEPTH && DistinctItems(items)
    ensures ts == PrintItems(items) + [Close(Bracket)] + DecodeItems(ts, depth, acc).value.1
    ensures DecodeItems(ts, depth, acc).value.0 == acc + ItemsOf(items)
    decreases |ts|, 1
  {
    if !More(ts) {
      items := [];
    } else {
      var (v, rest) := Decode(ts, depth).value;
      var t := DecodeSound(ts, depth);
      var others := DecodeItemsSound(rest, depth, acc + [v]);
      items := [t] + others;
      assert items[1..] == others;
      assert acc + [v] + ItemsOf(others) == acc + ItemsOf(items);
    }
  }

  lemma {:induction false} DecodeMembersSound(ts: seq<Token>, depth: nat, acc: map<string, Value>)
    returns (members: seq<Member>)
    requires 1 <= depth <= MAX_DEPTH + 1 && DecodeMembers(ts, depth, acc).Some?
    ensures depth + DepthOfMembers(members) - 1 <= MAX_DEPTH && DistinctMembers(members) && Unused(members, acc)
    ensures ts == PrintMembers(members) + [Close(Brace)] + DecodeMembers(ts, depth, acc).value.1
    ensures DecodeMembers(ts, depth, acc).value.0 == acc + MapOf(members)
    decreases |ts|, 1
  {
    if !More(ts) {
      members := [];
      assert acc + map[] == acc;
    } else {
      var key := ts[0].scalar.s;
      var (v, rest) := Decode(ts[1..], depth).value;
      var t := DecodeSound(ts[1..], depth);
      var others := DecodeMembersSound(rest, depth, acc[key := v]);
      members := Prepended(key, t, others, acc);
      Regroup(ts, Print(t), PrintMembers(others), [Close(Brace)], DecodeMembers(ts, depth, acc).value.1);
    }
  }

  lemma Regroup(ts: seq<Token>, a: seq<Token>, b: seq<Token>, c: seq<Token>, d: seq<Token>)
    requires ts != [] && ts[1..] == a + (b + c + d)
    ensures ts == [ts[0]] + a + b + c + d
  {
    assert ts == [ts[0]] + ts[1..];
  }

  lemma Prepended(key: string, t: Tree, others: seq<Member>, acc: map<string, Value>) returns (members: seq<Member>)
    requires key !in acc && Distinct(t) && DistinctMembers(others) && Unused(others, acc[key := ValueOf(t)])
    ensures DistinctMembers(members) && Unused(members, acc)
    ensures DepthOfMembers(members) == Max(Depth(t), DepthOfMembers(others))
    ensures PrintMembers(members) == [Atom(String(key))] + Print(t) + PrintMembers(others)
    ensures acc + MapOf(members) == acc[key := ValueOf(t)] + MapOf(others)
  {
    members := [Member(key, t)] + others;
    assert members[1..] == others;
    UnusedTail(members, acc, ValueOf(t));
  }

  /** The decoder, exactly: it returns v and stops before rest if and only if it read a tree it may accept. */
  lemma DecodeExact(ts: seq<Token>, v: Value, rest: seq<Token>)
    ensures Decode(ts, 1) == Some((v, rest)) <==>
            exists t :: ts == Print(t) + rest && Depth(t) <= 1000 && Distinct(t) && v == ValueOf(t)
  {
    if Decode(ts, 1) == Some((v, rest)) {
      var t := DecodeSound(ts, 1);
      assert ts == Print(t) + rest && v == ValueOf(t);
    }
    if t :| ts == Print(t) + rest && Depth(t) <= 1000 && Distinct(t) && v == ValueOf(t) {
      DecodePrint(t, rest, 1);
    }
  }

  // ---------------------------------------------------------------- normal form

  /** A whole text, exactly: one acceptable tree, and then the end of the input and not an error. */
  lemma StrictExact(stream: TokenStream, v: Value)
    ensures DecodeStrict(stream) == Some(v) <==>
            stream.clean &&
            exists t :: stream.tokens == Print(t) && Depth(t) <= 1000 && Distinct(t) && v == ValueOf(t)
  {
    DecodeExact(stream.tokens, v, []);
    assert forall t :: Print(t) + [] == Print(t);
    if t :| stream.tokens == Print(t) && Depth(t) <= 1000 && Distinct(t) && v == ValueOf(t) {
      assert stream.tokens == Print(t) + [];
    }
  }

  /** No number anywhere in the value is a negative zero. */
  predicate NoNegativeZero(v: Value) {
    match v
    case Leaf(s) => s != Number("-0")
    case Array(items) => forall i | 0 <= i < |items| :: NoNegativeZero(items[i])
    case Object(members) => forall k | k in members :: NoNegativeZero(members[k])
  }

  /** The value nests at most n deep. */
  predicate Shallow(v: Value, n: nat)
    decreases n, 0
  {
    n >= 1 &&
    match v
    case Leaf(_) => true
    case Array(items) => ShallowItems(items, n - 1)
    case Object(members) => ShallowMembers(members, n - 1)
  }

  predicate ShallowItems(items: seq<Value>, n: nat)
    decreases n, 1
  {
    forall i | 0 <= i < |items| :: Shallow(items[i], n)
  }

  predicate ShallowMembers(members: map<string, Value>, n: nat)
    decreases n, 1
  {
    forall k | k in members :: Shallow(members[k], n)
  }

  lemma {:induction false} MapOfKeys(members: seq<Member>)
    ensures forall k :: k in MapOf(members) <==> HasKey(members, k)
  {
    if members != [] {
      MapOfKeys(members[1..]);
      forall k ensures k in MapOf(members) <==> HasKey(members, k) {
        if HasKey(members[1..], k) {
          var i :| 0 <= i < |members[1..]| && members[1..][i].key == k;
          assert members[i + 1].key == k;
        }
        if HasKey(members, k) && k != members[0].key {
          var i :| 0 <= i < |members| && members[i].key == k;
          assert members[1..][i - 1].key == k;
        }
      }
    }
  }

  lemma {:induction false} MapOfAt(members: seq<Member>, i: nat)
    requires i < |members| && DistinctMembers(members)
    ensures members[i].key in MapOf(members) && MapOf(members)[members[i].key] == ValueOf(members[i].value)
    ensures Distinct(members[i].value)
    ensures forall j | 0 <= j < |members| && members[j].key == members[i].key :: j == i
    decreases members
  {
    MapOfKeys(members[1..]);
    assert forall j | 1 <= j < |members| :: members[j] == members[1..][j - 1];
    if i > 0 {
      MapOfAt(members[1..], i - 1);
      assert HasKey(members[1..], members[i].key);
    }
  }

  lemma {:induction false} DecodedIsNormal(t: Tree)
    ensures NoNegativeZero(ValueOf(t))
    decreases t, 1
  {
    match t
    case TLeaf(_) =>
    case TArray(items) =>
      DecodedItemsAreNormal(items);
    case TObject(members) =>
      DecodedMembersAreNormal(members);
  }

  lemma {:induction false} DecodedItemsAreNormal(items: seq<Tree>)
    ensures forall i | 0 <= i < |items| :: NoNegativeZero(ItemsOf(items)[i])
    decreases items, 0
  {
    if items != [] {
      DecodedIsNormal(items[0]);
      DecodedItemsAreNormal(items[1..]);
    }
  }

  lemma {:induction false} DecodedMembersAreNormal(members: seq<Member>)
    ensures forall k | k in MapOf(members) :: NoNegativeZero(MapOf(members)[k])
    decreases members, 0
  {
    if members != [] {
      DecodedIsNormal(members[0].value);
      DecodedMembersAreNormal(members[1..]);
    }
  }

  /** Depth is a property of the value: it does not depend on member order. */
  lemma {:induction false} DepthOfValue(t: Tree, n: nat)
    requires Distinct(t)
    ensures Shallow(ValueOf(t), n) <==> Depth(t) <= n
    decreases t, 1
  {
    if n >= 1 {
      match t
      case TLeaf(_) =>
      case TArray(items) =>
        DepthOfItemValues(items, n - 1);
      case TObject(members) =>
        DepthOfMemberValues(members, n - 1);
    }
  }

  lemma {:induction false} DepthOfItemValues(items: seq<Tree>, n: nat)
    requires DistinctItems(items)
    ensures ShallowItems(ItemsOf(items), n) <==> DepthOfItems(items) <= n
    decreases items, 0
  {
    if items != [] {
      var vs, rest := ItemsOf(items), ItemsOf(items[1..]);
      DepthOfValue(items[0], n);
      DepthOfItemValues(items[1..], n);
      assert vs == [ValueOf(items[0])] + rest;
      if ShallowItems(vs, n) {
        assert Shallow(vs[0], n);
        assert forall i | 0 <= i < |rest| :: rest[i] == vs[i + 1];
      } else if ShallowItems(rest, n) {
        assert !Shallow(vs[0], n);
      }
    }
  }

  lemma {:induction false} DepthOfMemberValues(members: seq<Member>, n: nat)
    requires DistinctMembers(members)
    ensures ShallowMembers(MapOf(members), n) <==> DepthOfMembers(members) <= n
    decreases members, 0
  {
    if members != [] {
      var key, m, rest := members[0].key, MapOf(members), MapOf(members[1..]);
      DepthOfValue(members[0].value, n);
      DepthOfMemberValues(members[1..], n);
      MapOfKeys(members[1..]);
      assert key !in rest && m == map[key := ValueOf(members[0].value)] + rest;
      if ShallowMembers(m, n) {
        assert Shallow(m[key], n);
        assert forall k | k in rest :: k in m && rest[k] == m[k];
      } else if ShallowMembers(rest, n) {
        assert !Shallow(m[key], n);
      }
    }
  }

  /**
   * A decoded value is in normal form, and any tree that denotes it, however its members are
   * ordered, decodes to it again.
   */
  lemma Redecode(ts: seq<Token>, t: Tree, rest: seq<Token>)
    requires Decode(ts, 1).Some?
    requires Distinct(t) && ValueOf(t) == Decode(ts, 1).value.0
    ensures NoNegativeZero(ValueOf(t))
    ensures Decode(Print(t) + rest, 1) == Some((Decode(ts, 1).value.0, rest))
  {
    var source := DecodeSound(ts, 1);
    DecodedIsNormal(t);
    DepthOfValue(source, MAX_DEPTH);
    DepthOfValue(t, MAX_DEPTH);
    DecodePrint(t, rest, 1);
  }

  // ---------------------------------------------------------------- which texts decode to the same value

  /** The two trees differ only in the order of members and in the sign of zeros. */
  predicate SameText(t: Tree, u: Tree)
    decreases t, 1
  {
    match t
    case TLeaf(s) => u.TLeaf? && FixZero(s) == FixZero(u.scalar)
    case TArray(items) => u.TArray? && SameItems(items, u.items)
    case TObject(members) =>
      u.TObject? && SameMembers(members, u.members) &&
      forall j | 0 <= j < |u.members| :: HasKey(members, u.members[j].key)
  }

  predicate SameItems(items: seq<Tree>, others: seq<Tree>)
    decreases items, 0
  {
    |items| == |others| &&
    (items == [] || (SameText(items[0], others[0]) && SameItems(items[1..], others[1..])))
  }

  /** Every member has a counterpart of the same key and the same text. */
  predicate SameMembers(members: seq<Member>, others: seq<Member>)
    decreases members, 0
  {
    members == [] ||
    ((exists j | 0 <= j < |others| :: others[j].key == members[0].key && SameText(members[0].value, others[j].value)) &&
     SameMembers(members[1..], others))
  }

  /**
   * Two trees without repeated keys decode to the same value exactly when they differ only in
   * member order and the sign of zeros.
   */
  lemma {:induction false} SameValueIffSameText(t: Tree, u: Tree)
    requires Distinct(t) && Distinct(u)
    ensures ValueOf(t) == ValueOf(u) <==> SameText(t, u)
    decreases t, 1
  {
    match t
    case TLeaf(_) =>
    case TArray(items) =>
      if u.TArray? {
        SameItemsIff(items, u.items);
      }
    case TObject(members) =>
      if u.TObject? {
        SameMembersIff(members, u.members);
        SameKeysIff(members, u.members);
        assert ValueOf(t) == Object(MapOf(members)) && ValueOf(u) == Object(MapOf(u.members));
      }
  }

  predicate Within(m: map<string, Value>, n: map<string, Value>) {
    forall k | k in m :: k in n && n[k] == m[k]
  }

  lemma SameKeysIff(members: seq<Member>, others: seq<Member>)
    ensures MapOf(members) == MapOf(others) <==>
            Within(MapOf(members), MapOf(others)) && forall j | 0 <= j < |others| :: HasKey(members, others[j].key)
  {
    MapOfKeys(members);
    MapOfKeys(others);
    var m, n := MapOf(members), MapOf(others);
    assert n.Keys <= m.Keys <==> forall j | 0 <= j < |others| :: HasKey(members, others[j].key) by {
      forall k | k in n ensures HasKey(others, k) {}
      forall j | 0 <= j < |others| ensures others[j].key in n {
        assert HasKey(others, others[j].key);
      }
    }
    assert m == n <==> Within(m, n) && n.Keys <= m.Keys;
  }

  lemma {:induction false} SameItemsIff(items: seq<Tree>, others: seq<Tree>)
    requires DistinctItems(items) && DistinctItems(others)
    ensures ItemsOf(items) == ItemsOf(others) <==> SameItems(items, others)
    decreases items, 0
  {
    if |items| == |others| && items != [] {
      SameValueIffSameText(items[0], others[0]);
      SameItemsIff(items[1..], others[1..]);
      var vs, ws := ItemsOf(items), ItemsOf(others);
      assert vs[1..] == ItemsOf(items[1..]) && ws[1..] == ItemsOf(others[1..]);
      assert vs == [vs[0]] + vs[1..] && ws == [ws[0]] + ws[1..];
    }
  }

  lemma {:induction false} SameMembersIff(members: seq<Member>, others: seq<Member>)
    requires DistinctMembers(members) && DistinctMembers(others)
    ensures SameMembers(members, others) <==> Within(MapOf(members), MapOf(others))
    decreases members, 0
  {
    if members != [] {
      var first, m, n, rest := members[0], MapOf(members), MapOf(others), MapOf(members[1..]);
      SameMembersIff(members[1..], others);
      SameMemberIff(first, others);
      MapOfKeys(members[1..]);
      assert m == map[first.key := ValueOf(first.value)] + rest && first.key !in rest;
      if Within(m, n) {
        assert m[first.key] == ValueOf(first.value);
        assert forall k | k in rest :: k in m && m[k] == rest[k];
      }
    }
  }

  lemma {:induction false} SameMemberIff(first: Member, others: seq<Member>)
    requires Distinct(first.value) && DistinctMembers(others)
    ensures (exists j | 0 <= j < |others| :: others[j].key == first.key && SameText(first.value, others[j].value)) <==>
            first.key in MapOf(others) && MapOf(others)[first.key] == ValueOf(first.value)
    decreases first, 0
  {
    MapOfKeys(others);
    forall j | 0 <= j < |others| && others[j].key == first.key
      ensures MapOf(others)[first.key] == ValueOf(others[j].value)
      ensures SameText(first.value, others[j].value) <==> ValueOf(first.value) == ValueOf(others[j].value)
    {
      MapOfAt(others, j);
      SameValueIffSameText(first.value, others[j].value);
    }
  }

  /** A tree that the decoder accepts: no repeated key, and not too deep. */
  predicate Acceptable(t: Tree) {
    Distinct(t) && Depth(t) <= 1000
  }

  /**
   * Two texts decode alike exactly when both are refused, for a repeated key or their depth, or both
   * are accepted and they differ only in member order and the sign of zeros.
   */
  lemma SameDecoding(t: Tree, u: Tree)
    ensures DecodeStrict(TokenStream(Print(t), true)) == DecodeStrict(TokenStream(Print(u), true)) <==>
            (Acceptable(t) <==> Acceptable(u)) && (Acceptable(t) ==> SameText(t, u))
  {
    DecodePrint(t, [], 1);
    DecodePrint(u, [], 1);
    assert Print(t) + [] == Print(t) && Print(u) + [] == Print(u);
    if Acceptable(t) && Acceptable(u) {
      SameValueIffSameText(t, u);
    }
  }

  // ---------------------------------------------------------------- every value has a text

  lemma {:induction false} Printable(v: Value) returns (t: Tree)
    requires NoNegativeZero(v)
    ensures Distinct(t) && ValueOf(t) == v
    decreases v, 1, 0
  {
    match v
    case Leaf(s) =>
      t := TLeaf(s);
    case Array(items) =>
      var trees := PrintableItems(v, items);
      t := TArray(trees);
    case Object(members) =>
      var written := PrintableMembers(v, members.Keys);
      t := TObject(written);
      assert Restrict(members, members.Keys) == members;
  }

  lemma {:induction false} PrintableItems(v: Value, items: seq<Value>) returns (trees: seq<Tree>)
    requires forall i | 0 <= i < |items| :: items[i] < v && NoNegativeZero(items[i])
    ensures DistinctItems(trees) && ItemsOf(trees) == items
    decreases v, 0, |items|
  {
    if items == [] {
      trees := [];
    } else {
      var first := Printable(items[0]);
      var others := PrintableItems(v, items[1..]);
      trees := [first] + others;
      assert trees[1..] == others && items == [items[0]] + items[1..];
    }
  }

  function Restrict(members: map<string, Value>, keys: set<string>): map<string, Value> {
    map k | k in members && k in keys :: members[k]
  }

  lemma RestrictStep(members: map<string, Value>, keys: set<string>, k: string)
    requires k in keys && k in members
    ensures k !in Restrict(members, keys - {k})
    ensures Restrict(members, keys) == map[k := members[k]] + Restrict(members, keys - {k})
  {
  }

  lemma {:induction false} PrintableMembers(v: Value, keys: set<string>) returns (written: seq<Member>)
    requires v.Object? && NoNegativeZero(v) && keys <= v.members.Keys
    ensures DistinctMembers(written) && MapOf(written) == Restrict(v.members, keys)
    decreases v, 0, |keys|
  {
    if keys == {} {
      written := [];
    } else {
      var k :| k in keys;
      var first := Printable(v.members[k]);
      var others := PrintableMembers(v, keys - {k});
      written := [Member(k, first)] + others;
      MapOfKeys(others);
      assert written[1..] == others;
      RestrictStep(v.members, keys, k);
    }
  }
}
