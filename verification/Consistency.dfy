/** The assumptions about foreign code can be met together: a platform on which stores admit originals. */
module Consistency {
  import opened Common
  import opened Json
  import opened Records
  import LineCodec
  import opened LineShape
  import opened Admission
  import opened Checksum
  import opened Lifecycle
  import opened Rewriting
  import opened SqlStore
  import Equivalence
  import JsonlRefinement
  import SqlRefinement

  function Insert(a: Artifact, s: seq<Artifact>): seq<Artifact> {
    if s == [] || !Less(s[0].name, a.name) then [a] + s else [s[0]] + Insert(a, s[1..])
  }

  function Sort(s: seq<Artifact>): seq<Artifact> {
    if s == [] then [] else Insert(s[0], Sort(s[1..]))
  }

  lemma {:induction false} Inserted(a: Artifact, s: seq<Artifact>)
    requires SortedByName(s)
    ensures SortedByName(Insert(a, s)) && multiset(Insert(a, s)) == multiset(s) + multiset{a}
  {
    if s == [] || !Less(s[0].name, a.name) {
      NoneBelow(a, s);
    } else {
      assert s == [s[0]] + s[1..];
      Inserted(a, s[1..]);
      Prefixed(s[0], a, s[1..], Insert(a, s[1..]));
    }
  }

  lemma NoneBelow(a: Artifact, s: seq<Artifact>)
    requires SortedByName(s) && (s == [] || !Less(s[0].name, a.name))
    ensures SortedByName([a] + s)
  {
    forall j | 0 <= j < |s| ensures !Less(s[j].name, a.name) {
      if Less(s[j].name, a.name) {
        LessTotal(s[0].name, a.name);
        LessTotal(s[0].name, s[j].name);
        if Less(a.name, s[0].name) {
          LessTransitive(s[j].name, a.name, s[0].name);
        }
      }
    }
  }

  lemma Prefixed(first: Artifact, a: Artifact, s: seq<Artifact>, all: seq<Artifact>)
    requires SortedByName([first] + s) && Less(first.name, a.name)
    requires SortedByName(all) && multiset(all) == multiset(s) + multiset{a}
    ensures SortedByName([first] + all)
  {
    forall j | 0 <= j < |all| ensures !Less(all[j].name, first.name) {
      assert all[j] in multiset(all);
      if all[j] == a {
        if Less(a.name, first.name) {
          LessTransitive(a.name, first.name, a.name);
          LessIrreflexive(a.name);
        }
      } else {
        assert all[j] in s;
        var i :| 0 <= i < |s| && s[i] == all[j];
        assert ([first] + s)[i + 1] == all[j] && ([first] + s)[0] == first;
      }
    }
  }

  lemma {:induction false} Sorted(s: seq<Artifact>)
    ensures SortedByName(Sort(s)) && multiset(Sort(s)) == multiset(s)
  {
    if s != [] {
      assert s == [s[0]] + s[1..];
      Sorted(s[1..]);
      Inserted(s[0], Sort(s[1..]));
    }
  }

  function Zeros(n: nat): (s: string)
    ensures |s| == n && forall i | 0 <= i < n :: s[i] == '0'
  {
    seq(n, i requires 0 <= i < n => '0')
  }

  function PeekOf(line: string): Peek {
    match LineCodec.Decode(line)
    case None => Peek("", false)
    case Some(r) => Peek(r.capsuleId, true)
  }

  /** A platform whose hash and signatures are constants, with the given JSON reader. */
  function Reading(unmarshal: string -> Option<Record>, peek: string -> Peek): Platform {
    Platform(
      s => Zeros(64),
      s => true,
      s => TokenStream([Open(Brace), Close(Brace)], true),
      m => Some(Zeros(64)),
      (id, envelope) => Some(Zeros(PUBLIC_KEY_SIZE)),
      s => Some(s),
      v => None,
      unmarshal,
      peek,
      s => Sort(s),
      s => Sort(s)
    )
  }

  /** Only the lines in the written form have a prescribed meaning. */
  lemma ReadingLawful(unmarshal: string -> Option<Record>, peek: string -> Peek)
    requires forall line | LineCodec.Decode(line).Some? ::
               unmarshal(line) == LineCodec.Decode(line) && peek(line) == PeekOf(line)
    ensures Lawful(Reading(unmarshal, peek))
  {
    forall s ensures SortedByName(Sort(s)) && multiset(Sort(s)) == multiset(s) {
      Sorted(s);
    }
  }

  /** The platform whose reader accepts nothing but lines in the written form. */
  function Sample(): Platform {
    Reading(line => LineCodec.Decode(line), line => PeekOf(line))
  }

  lemma SampleLawful()
    ensures Lawful(Sample())
  {
    ReadingLawful(line => LineCodec.Decode(line), line => PeekOf(line));
  }

  lemma SampleDecodes(data: string)
    ensures DecodePayload(Sample(), data) == Ok(map[])
  {
    assert DecodeStrict(TokenStream([Open(Brace), Close(Brace)], true)) == Some(Object(map[]));
  }

  /** The assumptions are consistent, and originals of any content that fits are admitted, empty ones included. */
  lemma Satisfiable(content: Bytes) returns (p: Platform, trusted: seq<string>, r: Record)
    requires |content| <= MAX_RECORD
    ensures Lawful(p) && Admit(p, trusted, r).Ok?
    ensures |r.artifacts| == 1 && r.artifacts[0].state == Present && r.artifacts[0].content == Some(content)
  {
    p, trusted := Sample(), [Zeros(PUBLIC_KEY_SIZE)];
    var a := Artifact("n", Unbound, Some(content), Present, "");
    r := Record(Zeros(64), "", "", [a]);
    SampleLawful();
    SampleDecodes("");
    var q := r.(artifacts := [a.(sha := Zeros(64))]);
    assert PrepareArtifact(p, a) == Ok(q.artifacts[0]);
    OnePrepared(p, a);
    assert Prepare(p, r) == Ok(q);
    VerifyExact(p, q, trusted);
    assert trusted[0] == Zeros(PUBLIC_KEY_SIZE);
    assert Verify(p, q, trusted).Ok?;
    SampleChecksum(q);
  }

  lemma OnePrepared(p: Platform, a: Artifact)
    requires PrepareArtifact(p, a).Ok?
    ensures PrepareArtifacts(p, [a]) == Ok([PrepareArtifact(p, a).value])
    ensures ContentSize([a]) == ContentLength(a)
  {
    var one := [a];
    assert one[..0] == [] && one[0] == a && |one| == 1;
    assert PrepareArtifacts(p, one[..0]) == Ok([]);
    assert one[1..] == [] && ContentSize(one[1..]) == 0;
    var b := PrepareArtifact(p, a).value;
    assert PrepareArtifacts(p, one) == Ok([] + [b]) && [] + [b] == [b];
  }

  lemma SampleChecksum(q: Record)
    requires q.artifacts != []
    ensures StorageChecksum(Sample(), q).Ok?
  {
  }

  // ---------------------------------------------------------------- an original of zero bytes

  /**
   * The failing input of the JSONL store: a present original of zero bytes is put into a new file, and
   * the Get that follows refuses it; from new tables it is returned.
   */
  lemma EmptyOriginalIsLost() returns (p: Platform, keys: seq<string>, r: Record)
    ensures Lawful(p) && |r.artifacts| == 1 && r.artifacts[0].state == Present && r.artifacts[0].content == Some("")
    ensures var ops := [Init, Put(r), Get(r.capsuleId)];
            JsonlRefinement.RunDisk(p, JsonlRefinement.Disk(Image(None, map[]), keys), ops).1 ==
            [Done, Done, Refused(Invalid)] &&
            var answers := SqlRefinement.RunSql(p, SqlRefinement.Sql(Tables(map[], []), "n", keys), ops).1;
            answers[0] == Done && answers[1] == Done && answers[2].Returned?
  {
    p, keys, r := Satisfiable("");
    var v := Vault(true, [], keys);
    var d := JsonlRefinement.Disk(Image(Some(""), map[]), keys);
    var s := SqlRefinement.Sql(Tables(map[], []), "n", keys);
    StartRepresented(p, keys);
    Equivalence.FileGetAfterPut(p, d, v, r);
    Equivalence.TablesGetAfterPut(p, s, v, r);
    ThreeOnDisk(p, keys, r);
    ThreeOnTables(p, s, r);
  }

  lemma StartRepresented(p: Platform, keys: seq<string>)
    ensures JsonlRefinement.Represents(p, JsonlRefinement.Disk(Image(Some(""), map[]), keys), Vault(true, [], keys))
    ensures SqlRefinement.Represents(p, SqlRefinement.Sql(Tables(map[], []), "n", keys), Vault(true, [], keys))
  {
  }

  lemma ThreeOnDisk(p: Platform, keys: seq<string>, r: Record)
    ensures var d := JsonlRefinement.Disk(Image(Some(""), map[]), keys);
            var put := JsonlRefinement.StepDisk(p, d, Put(r));
            var ops := [Init, Put(r), Get(r.capsuleId)];
            JsonlRefinement.RunDisk(p, JsonlRefinement.Disk(Image(None, map[]), keys), ops).1 ==
            [Done, put.1, JsonlRefinement.StepDisk(p, put.0, Get(r.capsuleId)).1]
  {
    var d, d0 := JsonlRefinement.Disk(Image(Some(""), map[]), keys), JsonlRefinement.Disk(Image(None, map[]), keys);
    DiskCons(p, JsonlRefinement.StepDisk(p, d, Put(r)).0, Get(r.capsuleId), []);
    DiskCons(p, d, Put(r), [Get(r.capsuleId)]);
    DiskCons(p, d0, Init, [Put(r), Get(r.capsuleId)]);
    assert [Init] + [Put(r), Get(r.capsuleId)] == [Init, Put(r), Get(r.capsuleId)];
    assert [Put(r)] + [Get(r.capsuleId)] == [Put(r), Get(r.capsuleId)] && [Get(r.capsuleId)] + [] == [Get(r.capsuleId)];
  }

  lemma DiskCons(p: Platform, d: JsonlRefinement.Disk, op: Op, ops: seq<Op>)
    ensures var (next, answer) := JsonlRefinement.StepDisk(p, d, op);
            JsonlRefinement.RunDisk(p, d, [op] + ops).1 == [answer] + JsonlRefinement.RunDisk(p, next, ops).1
  {
    assert ([op] + ops)[1..] == ops;
  }

  lemma ThreeOnTables(p: Platform, s: SqlRefinement.Sql, r: Record)
    ensures var put := SqlRefinement.StepSql(p, s, Put(r));
            SqlRefinement.RunSql(p, s, [Init, Put(r), Get(r.capsuleId)]).1 ==
            [Done, put.1, SqlRefinement.StepSql(p, put.0, Get(r.capsuleId)).1]
  {
    TablesCons(p, SqlRefinement.StepSql(p, s, Put(r)).0, Get(r.capsuleId), []);
    TablesCons(p, s, Put(r), [Get(r.capsuleId)]);
    TablesCons(p, s, Init, [Put(r), Get(r.capsuleId)]);
    assert [Init] + [Put(r), Get(r.capsuleId)] == [Init, Put(r), Get(r.capsuleId)];
    assert [Put(r)] + [Get(r.capsuleId)] == [Put(r), Get(r.capsuleId)] && [Get(r.capsuleId)] + [] == [Get(r.capsuleId)];
  }

  lemma TablesCons(p: Platform, s: SqlRefinement.Sql, op: Op, ops: seq<Op>)
    ensures var (next, answer) := SqlRefinement.StepSql(p, s, op);
            SqlRefinement.RunSql(p, s, [op] + ops).1 == [answer] + SqlRefinement.RunSql(p, next, ops).1
  {
    assert ([op] + ops)[1..] == ops;
  }
}
