/** Composing Capsules into WHO, CAN, DID and AUDIT roles, whatever the order of the arguments. */
module Composition {
  import opened Common
  import opened Json
  import opened Records
  import opened Admission

  /** The role texts; a slot is a string because callers may pass the zero value. */
  datatype Slot = Who | Can | Did | Audit | OtherSlot(text: string)

  datatype SlotMember = SlotMember(slot: Slot, capsuleId: string, json: Bytes)

  /** A digest reference of type capsule and algorithm SHA-256, which are the same for every member. */
  datatype Reference = Reference(digest: string, slot: Slot)

  const SLOTS: seq<Slot> := [Who, Can, Did, Audit]

  predicate IsCompositionSlot(slot: Slot) {
    slot.Who? || slot.Can? || slot.Did? || slot.Audit?
  }

  method CheckSlot(slot: Slot) returns (found: bool)
    ensures found == IsCompositionSlot(slot)
  {
    for i := 0 to |SLOTS|
      invariant forall j | 0 <= j < i :: SLOTS[j] != slot
    {
      if slot == SLOTS[i] {
        return true;
      }
    }
    assert SLOTS[0] != slot && SLOTS[1] != slot && SLOTS[2] != slot && SLOTS[3] != slot;
    found := false;
  }

  // ---------------------------------------------------------------- what the argument list must satisfy

  /** A member that may take its slot: the ID is well-formed and the Capsule verifies under it. */
  predicate ValidMember(p: Platform, m: SlotMember) {
    IsCompositionSlot(m.slot) && IsDigest(m.capsuleId) && VerifyCapsule(p, m.json) == Some(m.capsuleId)
  }

  predicate Composable(p: Platform, members: seq<SlotMember>) {
    members != [] && Compatible(p, members)
  }

  predicate AllValid(p: Platform, members: seq<SlotMember>) {
    forall i {:trigger ValidMember(p, members[i])} | 0 <= i < |members| :: ValidMember(p, members[i])
  }

  predicate Apart(members: seq<SlotMember>) {
    forall i, j | 0 <= i < j < |members| ::
      members[i].slot != members[j].slot && members[i].capsuleId != members[j].capsuleId
  }

  predicate Compatible(p: Platform, members: seq<SlotMember>) {
    AllValid(p, members) && Apart(members)
  }

  predicate Takes(members: seq<SlotMember>, slot: Slot, id: string) {
    exists i | 0 <= i < |members| :: members[i].slot == slot && members[i].capsuleId == id
  }

  /** The references of a composition: one for each member, in the order of the slots. */
  predicate InSlotOrder(references: seq<Reference>) {
    forall i, j | 0 <= i < j < |references| :: Rank(references[i].slot) < Rank(references[j].slot)
  }

  function Rank(slot: Slot): nat {
    match slot
    case Who => 0
    case Can => 1
    case Did => 2
    case Audit => 3
    case OtherSlot(_) => 4
  }

  predicate ReferencesOf(members: seq<SlotMember>, references: seq<Reference>) {
    InSlotOrder(references) &&
    (forall k | 0 <= k < |references| :: Takes(members, references[k].slot, references[k].digest)) &&
    (forall i | 0 <= i < |members| :: Reference(members[i].capsuleId, members[i].slot) in references)
  }

  // ---------------------------------------------------------------- BuildComposition as the source writes it

  /** The members read so far, by slot and by ID. */
  predicate Recorded(members: seq<SlotMember>, bySlot: map<Slot, SlotMember>, seenIds: map<string, Slot>) {
    (forall i | 0 <= i < |members| ::
      members[i].slot in bySlot && bySlot[members[i].slot] == members[i] && members[i].capsuleId in seenIds) &&
    (forall slot | slot in bySlot :: bySlot[slot] in members && bySlot[slot].slot == slot) &&
    Seen(members, seenIds)
  }

  lemma RecordedNext(members: seq<SlotMember>, m: SlotMember, bySlot: map<Slot, SlotMember>, seenIds: map<string, Slot>)
    requires Recorded(members, bySlot, seenIds) && m.slot !in bySlot && m.capsuleId !in seenIds
    ensures Recorded(members + [m], bySlot[m.slot := m], seenIds[m.capsuleId := m.slot])
  {
    var all := members + [m];
    assert all[|members|] == m && forall i | 0 <= i < |members| :: all[i] == members[i];
    SeenNext(members, m, seenIds);
  }

  predicate Seen(members: seq<SlotMember>, seenIds: map<string, Slot>) {
    forall id | id in seenIds :: exists i | 0 <= i < |members| :: members[i].capsuleId == id
  }

  lemma SeenNext(members: seq<SlotMember>, m: SlotMember, seenIds: map<string, Slot>)
    requires Seen(members, seenIds)
    ensures Seen(members + [m], seenIds[m.capsuleId := m.slot])
  {
    var all := members + [m];
    var after := seenIds[m.capsuleId := m.slot];
    forall id | id in after ensures exists i | 0 <= i < |all| :: all[i].capsuleId == id {
      if id == m.capsuleId {
        assert all[|members|].capsuleId == id;
      } else {
        var i :| 0 <= i < |members| && members[i].capsuleId == id;
        assert all[i].capsuleId == id;
      }
    }
  }

  lemma ApartNext(members: seq<SlotMember>, m: SlotMember, bySlot: map<Slot, SlotMember>, seenIds: map<string, Slot>)
    requires Recorded(members, bySlot, seenIds) && m.slot !in bySlot && m.capsuleId !in seenIds
    requires Apart(members)
    ensures Apart(members + [m])
  {
  }

  lemma AllValidNext(p: Platform, members: seq<SlotMember>, m: SlotMember)
    ensures AllValid(p, members + [m]) <==> AllValid(p, members) && ValidMember(p, m)
  {
    var all := members + [m];
    assert all[|members|] == m && forall i | 0 <= i < |members| :: all[i] == members[i];
    if AllValid(p, all) {
      assert ValidMember(p, all[|members|]);
      forall i | 0 <= i < |members| ensures ValidMember(p, members[i]) {
        assert ValidMember(p, all[i]);
      }
    }
  }

  /** A member that is not valid rules out the whole list. */
  lemma NotValid(p: Platform, members: seq<SlotMember>, n: nat)
    requires n < |members| && !ValidMember(p, members[n])
    ensures !Compatible(p, members)
  {
  }

  /** A member that repeats a slot or an ID rules out the whole list. */
  lemma Repeats(members: seq<SlotMember>, n: nat, bySlot: map<Slot, SlotMember>, seenIds: map<string, Slot>)
    requires n < |members| && Recorded(members[..n], bySlot, seenIds)
    requires members[n].slot in bySlot || members[n].capsuleId in seenIds
    ensures !Apart(members)
  {
    if members[n].slot in bySlot {
      assert bySlot[members[n].slot] in members[..n];
      var i :| 0 <= i < n && members[..n][i] == bySlot[members[n].slot];
      assert members[i].slot == members[n].slot;
    } else {
      var i :| 0 <= i < n && members[..n][i].capsuleId == members[n].capsuleId;
      assert members[i].capsuleId == members[n].capsuleId;
    }
  }

  /** The references the second loop emits, slot by slot. */
  function Emit(bySlot: map<Slot, SlotMember>, slots: seq<Slot>): seq<Reference> {
    if slots == [] then []
    else
      var last := slots[|slots| - 1];
      var before := Emit(bySlot, slots[..|slots| - 1]);
      if last in bySlot then before + [Reference(bySlot[last].capsuleId, last)] else before
  }

  lemma {:induction false} EmitMembers(bySlot: map<Slot, SlotMember>, slots: seq<Slot>)
    requires forall i, j | 0 <= i < j < |slots| :: Rank(slots[i]) < Rank(slots[j])
    ensures InSlotOrder(Emit(bySlot, slots))
    ensures forall r :: r in Emit(bySlot, slots) <==>
              r.slot in slots && r.slot in bySlot && r.digest == bySlot[r.slot].capsuleId
  {
    if slots != [] {
      var n := |slots| - 1;
      var init, last := slots[..n], slots[n];
      EmitMembers(bySlot, init);
      assert slots == init + [last];
      assert forall slot | slot in init :: Rank(slot) < Rank(last);
      var before := Emit(bySlot, init);
      assert forall k | 0 <= k < |before| :: before[k] in before;
    }
  }

  /** What the two loops leave, in terms of the argument list alone. */
  lemma EmittedReferences(members: seq<SlotMember>, bySlot: map<Slot, SlotMember>, seenIds: map<string, Slot>)
    requires Recorded(members, bySlot, seenIds)
    requires forall i | 0 <= i < |members| :: IsCompositionSlot(members[i].slot)
    ensures ReferencesOf(members, Emit(bySlot, SLOTS))
  {
    EmitMembers(bySlot, SLOTS);
    var references := Emit(bySlot, SLOTS);
    assert SLOTS[0] == Who && SLOTS[1] == Can && SLOTS[2] == Did && SLOTS[3] == Audit;
    forall k | 0 <= k < |references| ensures Takes(members, references[k].slot, references[k].digest) {
      assert references[k] in references;
      assert bySlot[references[k].slot] in members;
    }
    forall i | 0 <= i < |members| ensures Reference(members[i].capsuleId, members[i].slot) in references {
      assert members[i].slot in SLOTS;
    }
  }

  /** What holds of the first n members when the first loop reaches the next one. */
  predicate Collected(p: Platform, members: seq<SlotMember>, n: nat, bySlot: map<Slot, SlotMember>,
                      seenIds: map<string, Slot>)
    requires n <= |members|
  {
    AllValid(p, members[..n]) && Apart(members[..n]) && Recorded(members[..n], bySlot, seenIds)
  }

  lemma CollectedNext(p: Platform, members: seq<SlotMember>, n: nat, bySlot: map<Slot, SlotMember>,
                      seenIds: map<string, Slot>)
    requires n < |members| && Collected(p, members, n, bySlot, seenIds) && ValidMember(p, members[n])
    requires members[n].slot !in bySlot && members[n].capsuleId !in seenIds
    ensures Collected(p, members, n + 1, bySlot[members[n].slot := members[n]],
            seenIds[members[n].capsuleId := members[n].slot])
  {
    var before, m := members[..n], members[n];
    RecordedNext(before, m, bySlot, seenIds);
    ApartNext(before, m, bySlot, seenIds);
    AllValidNext(p, before, m);
    assert members[..n + 1] == before + [m];
  }

  /** The checks of the first loop on one member, in the order the source makes them. */
  method CheckMember(p: Platform, slotted: SlotMember, bySlot: map<Slot, SlotMember>, seenIds: map<string, Slot>)
    returns (ok: bool)
    ensures ok <==> ValidMember(p, slotted) && slotted.slot !in bySlot && slotted.capsuleId !in seenIds
  {
    var known := CheckSlot(slotted.slot);
    if !known || slotted.slot in bySlot || !IsDigest(slotted.capsuleId) {
      return false;
    }
    var verified := VerifyCapsule(p, slotted.json);
    ok := verified == Some(slotted.capsuleId) && slotted.capsuleId !in seenIds;
  }

  /** The second loop. */
  method EmitReferences(bySlot: map<Slot, SlotMember>) returns (references: seq<Reference>)
    ensures references == Emit(bySlot, SLOTS)
  {
    references := [];
    for i := 0 to |SLOTS|
      invariant references == Emit(bySlot, SLOTS[..i])
    {
      assert SLOTS[..i + 1][..i] == SLOTS[..i];
      if SLOTS[i] in bySlot {
        references := references + [Reference(bySlot[SLOTS[i]].capsuleId, SLOTS[i])];
      }
    }
    assert SLOTS[..|SLOTS|] == SLOTS;
  }

  /** BuildComposition up to the call of Build: it succeeds exactly on a composable list, with its references. */
  method BuildComposition(p: Platform, members: seq<SlotMember>) returns (references: Option<seq<Reference>>)
    ensures references.Some? <==> Composable(p, members)
    ensures references.Some? ==> ReferencesOf(members, references.value)
  {
    if |members| == 0 {
      return None;
    }
    var bySlot: map<Slot, SlotMember> := map[];
    var seenIds: map<string, Slot> := map[];
    for index := 0 to |members|
      invariant Collected(p, members, index, bySlot, seenIds)
    {
      var slotted := members[index];
      var ok := CheckMember(p, slotted, bySlot, seenIds);
      if !ok {
        Rejected(p, members, index, bySlot, seenIds);
        return None;
      }
      CollectedNext(p, members, index, bySlot, seenIds);
      seenIds := seenIds[slotted.capsuleId := slotted.slot];
      bySlot := bySlot[slotted.slot := slotted];
    }
    assert members[..|members|] == members;
    AllSlots(p, members);
    EmittedReferences(members, bySlot, seenIds);
    var emitted := EmitReferences(bySlot);
    references := Some(emitted);
  }

  lemma Rejected(p: Platform, members: seq<SlotMember>, n: nat, bySlot: map<Slot, SlotMember>,
                 seenIds: map<string, Slot>)
    requires n < |members| && Collected(p, members, n, bySlot, seenIds)
    requires !(ValidMember(p, members[n]) && members[n].slot !in bySlot && members[n].capsuleId !in seenIds)
    ensures !Composable(p, members)
  {
    if ValidMember(p, members[n]) {
      Repeats(members, n, bySlot, seenIds);
    } else {
      NotValid(p, members, n);
    }
  }

  lemma AllSlots(p: Platform, members: seq<SlotMember>)
    requires AllValid(p, members)
    ensures forall i | 0 <= i < |members| :: IsCompositionSlot(members[i].slot)
  {
    forall i | 0 <= i < |members| ensures IsCompositionSlot(members[i].slot) {
      assert ValidMember(p, members[i]);
    }
  }

  // ---------------------------------------------------------------- argument order does not matter

  lemma {:induction false} OrderedUnique(s: seq<Reference>, t: seq<Reference>)
    requires InSlotOrder(s) && InSlotOrder(t)
    requires forall r :: r in s <==> r in t
    ensures s == t
  {
    assert (s != [] ==> s[0] in t) && (t != [] ==> t[0] in s);
    if s != [] {
      var i :| 0 <= i < |s| && s[i] == t[0];
      var j :| 0 <= j < |t| && t[j] == s[0];
      assert s[0] == t[0];
      assert forall r :: r in s[1..] <==> r in s && r != s[0];
      assert forall r :: r in t[1..] <==> r in t && r != t[0];
      OrderedUnique(s[1..], t[1..]);
    }
  }

  lemma SameMembers(s: seq<SlotMember>, t: seq<SlotMember>)
    requires multiset(s) == multiset(t)
    ensures forall m :: m in s <==> m in t
  {
    forall m ensures m in s <==> m in t {
      assert m in s <==> m in multiset(s);
      assert m in t <==> m in multiset(t);
    }
  }

  /** The references are determined by the set of members. */
  lemma ReferencesUnique(s: seq<SlotMember>, t: seq<SlotMember>, rs: seq<Reference>, rt: seq<Reference>)
    requires forall m :: m in s <==> m in t
    requires ReferencesOf(s, rs) && ReferencesOf(t, rt)
    ensures rs == rt
  {
    ReferencesWithin(s, t, rs, rt);
    ReferencesWithin(t, s, rt, rs);
    OrderedUnique(rs, rt);
  }

  lemma ReferencesWithin(s: seq<SlotMember>, t: seq<SlotMember>, rs: seq<Reference>, rt: seq<Reference>)
    requires forall m :: m in s <==> m in t
    requires ReferencesOf(s, rs) && ReferencesOf(t, rt)
    ensures forall r :: r in rs ==> r in rt
  {
    forall r | r in rs ensures r in rt {
      var k :| 0 <= k < |rs| && rs[k] == r;
      assert Takes(s, rs[k].slot, rs[k].digest);
      var i :| 0 <= i < |s| && s[i].slot == r.slot && s[i].capsuleId == r.digest;
      assert s[i] in t;
      var j :| 0 <= j < |t| && t[j] == s[i];
      assert Reference(t[j].capsuleId, t[j].slot) == r;
    }
  }

  lemma CompatiblePermuted(p: Platform, s: seq<SlotMember>, t: seq<SlotMember>)
    requires multiset(s) == multiset(t) && Compatible(p, s)
    ensures Compatible(p, t)
  {
    SameMembers(s, t);
    forall i | 0 <= i < |t| ensures ValidMember(p, t[i]) {
      assert t[i] in s;
      var j :| 0 <= j < |s| && s[j] == t[i];
      assert ValidMember(p, s[j]);
    }
    forall i, j | 0 <= i < j < |t| ensures t[i].slot != t[j].slot && t[i].capsuleId != t[j].capsuleId {
      assert t[i] in s && t[j] in s;
      Once(s, t[i]);
      OnlyOnce(t, i, j);
    }
  }

  lemma {:induction false} Once(s: seq<SlotMember>, m: SlotMember)
    requires Apart(s)
    ensures multiset(s)[m] <= 1
  {
    if s != [] {
      var n := |s| - 1;
      assert s == s[..n] + [s[n]];
      Once(s[..n], m);
      if s[n] == m {
        assert m !in s[..n] by {
          assert forall i | 0 <= i < n :: s[..n][i] == s[i];
        }
      }
    }
  }

  /** Every permutation of the arguments gives the same outcome and the same references. */
  lemma CompositionPermuted(p: Platform, s: seq<SlotMember>, t: seq<SlotMember>)
    requires multiset(s) == multiset(t)
    ensures Composable(p, s) <==> Composable(p, t)
    ensures forall rs, rt :: ReferencesOf(s, rs) && ReferencesOf(t, rt) ==> rs == rt
  {
    SameMembers(s, t);
    assert |multiset(s)| == |s| && |multiset(t)| == |t|;
    if Compatible(p, s) {
      CompatiblePermuted(p, s, t);
    }
    if Compatible(p, t) {
      CompatiblePermuted(p, t, s);
    }
    forall rs, rt | ReferencesOf(s, rs) && ReferencesOf(t, rt) ensures rs == rt {
      ReferencesUnique(s, t, rs, rt);
    }
  }

  function SlotsOf(members: seq<SlotMember>): (slots: seq<Slot>)
    ensures |slots| == |members| && forall i | 0 <= i < |members| :: slots[i] == members[i].slot
  {
    seq(|members|, i requires 0 <= i < |members| => members[i].slot)
  }

  function SlotsUsed(references: seq<Reference>): (slots: seq<Slot>)
    ensures |slots| == |references| && forall k | 0 <= k < |references| :: slots[k] == references[k].slot
  {
    seq(|references|, k requires 0 <= k < |references| => references[k].slot)
  }

  lemma {:induction false} Count(slots: seq<Slot>)
    requires NoDuplicates(slots)
    ensures |set slot | slot in slots| == |slots|
  {
    if slots != [] {
      var n := |slots| - 1;
      Count(slots[..n]);
      assert slots == slots[..n] + [slots[n]];
      assert (set slot | slot in slots) == (set slot | slot in slots[..n]) + {slots[n]};
    }
  }

  /** A composition has one reference per member. */
  lemma OnePerMember(p: Platform, members: seq<SlotMember>, references: seq<Reference>)
    requires Compatible(p, members) && ReferencesOf(members, references)
    ensures |references| == |members|
  {
    var slots, used := SlotsOf(members), SlotsUsed(references);
    forall slot ensures slot in slots <==> slot in used {
      if i :| 0 <= i < |members| && members[i].slot == slot {
        var r := Reference(members[i].capsuleId, members[i].slot);
        assert r in references;
        var k :| 0 <= k < |references| && references[k] == r;
        assert used[k] == slot;
      }
      if k :| 0 <= k < |references| && references[k].slot == slot {
        assert Takes(members, references[k].slot, references[k].digest);
        var i :| 0 <= i < |members| && members[i].slot == slot;
        assert slots[i] == slot;
      }
    }
    assert (set slot | slot in slots) == (set slot | slot in used);
    Count(slots);
    Count(used);
  }

  /** The Capsule decodes strictly to an object that passes the profile and Class 1 checks under this ID. */
  predicate VerifiesAs(p: Platform, json: Bytes, id: string) {
    p.utf8(json) &&
    var decoded := DecodeStrict(p.tokens(json));
    decoded.Some? && decoded.value.Object? && p.class1(decoded.value.members) == Some(id)
  }

  /** The condition on a list of members, said of the members themselves. */
  lemma ComposableMeans(p: Platform, members: seq<SlotMember>)
    ensures Composable(p, members) <==>
            |members| >= 1 &&
            (forall i | 0 <= i < |members| ::
              members[i].slot in {Who, Can, Did, Audit} && IsDigest(members[i].capsuleId) &&
              VerifiesAs(p, members[i].json, members[i].capsuleId)) &&
            (forall i, j | 0 <= i < j < |members| ::
              members[i].slot != members[j].slot && members[i].capsuleId != members[j].capsuleId)
  {
    forall i | 0 <= i < |members|
      ensures ValidMember(p, members[i]) <==>
              members[i].slot in {Who, Can, Did, Audit} && IsDigest(members[i].capsuleId) &&
              VerifiesAs(p, members[i].json, members[i].capsuleId)
    {
    }
    if Composable(p, members) {
      forall i | 0 <= i < |members| ensures ValidMember(p, members[i]) {
      }
    }
  }
}
