/** Replacing the embeddings of a module (`write_module_embeddings` in
    `src/indexer/writer_pgvector.py`). */
module Embeddings {
  import opened Common
  import opened Names

  /** The unique key of the table. */
  datatype Key = Key(chunkType: Name, mod: Name, version: Name, entity: Name, file: Name, idx: nat)

  datatype Chunk = Chunk(key: Key, modelName: Option<Name>, content: Name)

  datatype Vec = Vec(values: seq<real>)

  datatype Row = Row(modelName: Option<Name>, content: Name, vec: Vec, indexedAt: real)

  type Table = map<Key, Row>

  /** The embedder maps each text on its own. */
  type Embedder = Name -> Vec

  predicate Of(k: Key, mod: Name, version: Name) {
    k.mod == mod && k.version == version
  }

  // ----- The statements -----

  /** DELETE of a module's rows. */
  function Cleared(t: Table, mod: Name, version: Name): Table {
    map k | k in t && !Of(k, mod, version) :: t[k]
  }

  /** INSERT ... ON CONFLICT DO UPDATE: a row that is there keeps its model name. */
  function Upserted(t: Table, c: Chunk, embed: Embedder, now: real): Table {
    t[c.key := Row(if c.key in t then t[c.key].modelName else c.modelName, c.content, embed(c.content), now)]
  }

  function UpsertedAll(t: Table, cs: seq<Chunk>, embed: Embedder, now: real): Table {
    if cs == [] then t else Upserted(UpsertedAll(t, cs[..|cs| - 1], embed, now), cs[|cs| - 1], embed, now)
  }

  /** The key the deduplication uses; the module and the version are not part of it. */
  function DedupKey(c: Chunk): (Name, Name, Name, nat) {
    (c.key.chunkType, c.key.entity, c.key.file, c.key.idx)
  }

  function IndexOf(cs: seq<Chunk>, c: Chunk): (i: nat)
    ensures i <= |cs|
    ensures i < |cs| ==> DedupKey(cs[i]) == DedupKey(c)
    ensures forall j :: 0 <= j < i ==> DedupKey(cs[j]) != DedupKey(c)
  {
    if cs == [] then 0 else if DedupKey(cs[0]) == DedupKey(c) then 0 else 1 + IndexOf(cs[1..], c)
  }

  /** A dict keeps the place of the first chunk of a key and the value of the last. */
  function DictSet(seen: seq<Chunk>, c: Chunk): seq<Chunk> {
    var i := IndexOf(seen, c);
    if i < |seen| then seen[i := c] else seen + [c]
  }

  function Deduplicated(cs: seq<Chunk>): seq<Chunk> {
    if cs == [] then [] else DictSet(Deduplicated(cs[..|cs| - 1]), cs[|cs| - 1])
  }

  function Written(t: Table, mod: Name, version: Name, cs: seq<Chunk>, embed: Embedder, now: real): Table {
    if cs == [] then t else UpsertedAll(Cleared(t, mod, version), Deduplicated(cs), embed, now)
  }

  class EmbeddingTable {
    var rows: Table

    constructor ()
      ensures rows == map[]
    {
      rows := map[];
    }

    /** Returns the number of calls made to the embedder. */
    method WriteModuleEmbeddings(mod: Name, version: Name, chunks: seq<Chunk>, embed: Embedder, now: real)
      returns (embedCalls: nat)
      modifies this
      ensures rows == Written(old(rows), mod, version, chunks, embed, now)
      ensures embedCalls == if chunks == [] then 0 else 1
    {
      if chunks == [] {
        return 0;
      }
      var seen: seq<Chunk> := [];
      for i := 0 to |chunks|
        invariant seen == Deduplicated(chunks[..i])
      {
        assert chunks[..i + 1][..i] == chunks[..i];
        seen := DictSet(seen, chunks[i]);
      }
      assert chunks[..|chunks|] == chunks;
      rows := Cleared(rows, mod, version);
      for i := 0 to |seen|
        invariant rows == UpsertedAll(Cleared(old(rows), mod, version), seen[..i], embed, now)
      {
        assert seen[..i + 1][..i] == seen[..i];
        rows := Upserted(rows, seen[i], embed, now);
      }
      assert seen[..|seen|] == seen;
      return 1;
    }
  }

  // ----- What a run of upserts leaves under a key -----

  function FirstOf(cs: seq<Chunk>, k: Key): Option<Chunk> {
    if cs == [] then None
    else
      var before := FirstOf(cs[..|cs| - 1], k);
      if before.Some? then before else if cs[|cs| - 1].key == k then Some(cs[|cs| - 1]) else None
  }

  function LastOf(cs: seq<Chunk>, k: Key): Option<Chunk> {
    if cs == [] then None
    else if cs[|cs| - 1].key == k then Some(cs[|cs| - 1])
    else LastOf(cs[..|cs| - 1], k)
  }

  lemma {:induction false} FirstIffLast(cs: seq<Chunk>, k: Key)
    ensures FirstOf(cs, k).Some? <==> LastOf(cs, k).Some?
    ensures LastOf(cs, k).Some? <==> exists c :: c in cs && c.key == k
  {
    if cs != [] {
      FirstIffLast(cs[..|cs| - 1], k);
      SplitLast(cs);
    }
  }

  /** The row of a key after upserts: the model name of the first chunk unless the row was
      there, everything else from the last. */
  function RowOf(t: Table, cs: seq<Chunk>, embed: Embedder, now: real, k: Key): Option<Row> {
    if LastOf(cs, k).Some? && FirstOf(cs, k).Some? then
      var last := LastOf(cs, k).value;
      Some(Row(if k in t then t[k].modelName else FirstOf(cs, k).value.modelName,
               last.content, embed(last.content), now))
    else if k in t then Some(t[k]) else None
  }

  lemma {:induction false} UpsertsRight(t: Table, cs: seq<Chunk>, embed: Embedder, now: real, k: Key)
    ensures var u := UpsertedAll(t, cs, embed, now);
            RowOf(t, cs, embed, now, k) == if k in u then Some(u[k]) else None
  {
    if cs != [] {
      UpsertsRight(t, cs[..|cs| - 1], embed, now, k);
      FirstIffLast(cs[..|cs| - 1], k);
    }
  }

  // ----- Deduplication -----

  ghost predicate OneModule(cs: seq<Chunk>, mod: Name, version: Name) {
    forall c :: c in cs ==> Of(c.key, mod, version)
  }

  /** After deduplication no key occurs twice, so the batch cannot touch a row twice. */
  ghost predicate KeysDistinct(cs: seq<Chunk>) {
    forall i, j :: 0 <= i < j < |cs| ==> DedupKey(cs[i]) != DedupKey(cs[j])
  }

  lemma {:induction false} DeduplicatedDistinct(cs: seq<Chunk>)
    ensures KeysDistinct(Deduplicated(cs))
    ensures forall c :: c in Deduplicated(cs) ==> c in cs
  {
    if cs != [] {
      DeduplicatedDistinct(cs[..|cs| - 1]);
      SplitLast(cs);
    }
  }

  /** In a list without repeated keys the only chunk of a key is its first and its last. */
  lemma {:induction false} DistinctSame(cs: seq<Chunk>, i: nat)
    requires KeysDistinct(cs) && i < |cs|
    ensures FirstOf(cs, cs[i].key) == Some(cs[i]) == LastOf(cs, cs[i].key)
  {
    var front, last := cs[..|cs| - 1], cs[|cs| - 1];
    if i < |front| {
      assert front[i] == cs[i];
      assert forall a, b :: 0 <= a < b < |front| ==> front[a] == cs[a] && front[b] == cs[b];
      DistinctSame(front, i);
      assert DedupKey(cs[i]) != DedupKey(last);
    } else {
      FirstIffLast(front, last.key);
      forall c | c in front ensures c.key != last.key {
        var j :| 0 <= j < |front| && front[j] == c;
        assert DedupKey(cs[j]) != DedupKey(cs[|cs| - 1]);
      }
    }
  }

  /** The deduplicated list holds, per key, the last chunk of the whole list. */
  lemma {:induction false} DeduplicatedKeepsLast(cs: seq<Chunk>, mod: Name, version: Name, k: Key)
    requires OneModule(cs, mod, version) && Of(k, mod, version)
    ensures LastOf(cs, k).Some? <==> exists c :: c in Deduplicated(cs) && c.key == k
    ensures LastOf(cs, k).Some? ==> LastOf(cs, k).value in Deduplicated(cs)
  {
    if cs != [] {
      var front, last := cs[..|cs| - 1], cs[|cs| - 1];
      SplitLast(cs);
      assert last in cs && forall c :: c in front ==> c in cs;
      DeduplicatedKeepsLast(front, mod, version, k);
      DeduplicatedDistinct(front);
      if LastOf(front, k).Some? {
        LastHasKey(front, k);
      }
      SetKeeps(Deduplicated(front), last, mod, version, k);
    }
  }

  lemma SetKeeps(seen: seq<Chunk>, c: Chunk, mod: Name, version: Name, k: Key)
    requires OneModule(seen, mod, version) && Of(c.key, mod, version) && Of(k, mod, version)
    ensures c in DictSet(seen, c)
    ensures c.key != k ==> forall x: Chunk :: x.key == k ==> (x in seen <==> x in DictSet(seen, c))
  {
    var i := IndexOf(seen, c);
    var r := DictSet(seen, c);
    if i < |seen| {
      assert r[i] == c;
      assert seen[i] in seen;
      assert seen[i].key == c.key;
      forall x: Chunk | x.key == k && c.key != k ensures x in seen <==> x in r {
        if x in seen {
          var j :| 0 <= j < |seen| && seen[j] == x;
          assert r[j] == x;
        }
      }
    } else {
      assert r[|seen|] == c;
    }
  }

  lemma DeduplicatedEnds(cs: seq<Chunk>, mod: Name, version: Name, k: Key)
    requires OneModule(cs, mod, version)
    ensures FirstOf(Deduplicated(cs), k) == LastOf(cs, k) == LastOf(Deduplicated(cs), k)
  {
    var ds := Deduplicated(cs);
    DeduplicatedDistinct(cs);
    FirstIffLast(ds, k);
    FirstIffLast(cs, k);
    if Of(k, mod, version) {
      DeduplicatedKeepsLast(cs, mod, version, k);
      if LastOf(cs, k).Some? {
        var i :| 0 <= i < |ds| && ds[i] == LastOf(cs, k).value;
        LastHasKey(cs, k);
        DistinctSame(ds, i);
      }
    }
  }

  lemma {:induction false} LastHasKey(cs: seq<Chunk>, k: Key)
    requires LastOf(cs, k).Some?
    ensures LastOf(cs, k).value.key == k && LastOf(cs, k).value in cs
  {
    SplitLast(cs);
    if cs[|cs| - 1].key != k { LastHasKey(cs[..|cs| - 1], k); }
  }

  // ----- The batch against one chunk at a time -----

  /** What a run leaves under each key: the last chunk for the module's own keys, the rows of
      before for all others, so a chunk list settles the module's rows alone. */
  lemma WrittenRows(t: Table, mod: Name, version: Name, cs: seq<Chunk>, embed: Embedder, now: real, k: Key)
    requires cs != [] && OneModule(cs, mod, version)
    ensures var u := Written(t, mod, version, cs, embed, now);
            && (!Of(k, mod, version) ==> (k in u <==> k in t) && (k in t ==> u[k] == t[k]))
            && (Of(k, mod, version) ==> (k in u <==> LastOf(cs, k).Some?))
            && (Of(k, mod, version) && LastOf(cs, k).Some? ==>
                  var last := LastOf(cs, k).value;
                  u[k] == Row(last.modelName, last.content, embed(last.content), now))
  {
    UpsertsRight(Cleared(t, mod, version), Deduplicated(cs), embed, now, k);
    DeduplicatedEnds(cs, mod, version, k);
    FirstIffLast(cs, k);
  }

  /** Main result. The batch leaves the table that deleting the module's rows and upserting
      its chunks one by one would leave, exactly when under every key the first and the last
      chunk have the same model name: an upsert does not set the model name again. */
  lemma BatchIsOneByOneIff(t: Table, mod: Name, version: Name, cs: seq<Chunk>, embed: Embedder, now: real)
    requires cs != [] && OneModule(cs, mod, version)
    ensures Written(t, mod, version, cs, embed, now) == UpsertedAll(Cleared(t, mod, version), cs, embed, now) <==>
              forall c :: c in cs ==> SameModelName(cs, c.key)
  {
    var batch := Written(t, mod, version, cs, embed, now);
    var single := UpsertedAll(Cleared(t, mod, version), cs, embed, now);
    forall k
      ensures k in batch <==> k in single
      ensures k in batch ==> (batch[k] == single[k] <==> SameModelName(cs, k))
    {
      BatchRow(t, mod, version, cs, embed, now, k);
    }
    forall c | c in cs ensures c.key in batch {
      WrittenRows(t, mod, version, cs, embed, now, c.key);
      FirstIffLast(cs, c.key);
    }
    forall k | k in batch && !SameModelName(cs, k) ensures exists c :: c in cs && c.key == k {
      LastHasKey(cs, k);
    }
  }

  /** The first and the last chunk of a key have the same model name. */
  predicate SameModelName(cs: seq<Chunk>, k: Key) {
    LastOf(cs, k).Some? && FirstOf(cs, k).Some? ==>
      LastOf(cs, k).value.modelName == FirstOf(cs, k).value.modelName
  }

  lemma BatchRow(t: Table, mod: Name, version: Name, cs: seq<Chunk>, embed: Embedder, now: real, k: Key)
    requires cs != [] && OneModule(cs, mod, version)
    ensures var batch, single := Written(t, mod, version, cs, embed, now),
                                 UpsertedAll(Cleared(t, mod, version), cs, embed, now);
            && (k in batch <==> k in single)
            && (k in batch ==> (batch[k] == single[k] <==> SameModelName(cs, k)))
  {
    UpsertsRight(Cleared(t, mod, version), cs, embed, now, k);
    WrittenRows(t, mod, version, cs, embed, now, k);
    FirstIffLast(cs, k);
  }

  lemma FirstAndLast(a: Chunk, b: Chunk)
    requires a.key == b.key
    ensures FirstOf([a, b], a.key) == Some(a) && LastOf([a, b], a.key) == Some(b)
  {
    assert [a, b][..1] == [a] && [a][..0] == [];
    assert FirstOf([a], a.key) == Some(a);
  }

  /** An input on which they differ: two view records of one id in one file, for two models. */
  lemma ModelNamesCanDiffer(embed: Embedder, now: real) returns (cs: seq<Chunk>, mod: Name, version: Name)
    ensures cs != [] && OneModule(cs, mod, version)
    ensures forall c :: c in cs ==> c.key.chunkType == Name("view") && c.modelName.Some? && c.modelName.value.text != ""
    ensures Written(map[], mod, version, cs, embed, now) != UpsertedAll(Cleared(map[], mod, version), cs, embed, now)
  {
    mod, version := Name("sale"), Name("17.0");
    var k := Key(Name("view"), mod, version, Name("sale.form"), Name("views.xml"), 0);
    var order, line := Name("sale.order"), Name("sale.order.line");
    var content := Name("[sale] sale.form (form)");
    var a, b := Chunk(k, Some(order), content), Chunk(k, Some(line), content);
    assert |order.text| != |line.text|;
    cs := [a, b];
    FirstAndLast(a, b);
    assert a in cs && !SameModelName(cs, k);
    BatchIsOneByOneIff(map[], mod, version, cs, embed, now);
  }

  /** Writing again changes nothing but the time of indexing. */
  lemma SecondRunOnlyRestamps(t: Table, mod: Name, version: Name, cs: seq<Chunk>, embed: Embedder,
                              first: real, second: real)
    requires OneModule(cs, mod, version)
    ensures var u := Written(t, mod, version, cs, embed, first);
            var v := Written(u, mod, version, cs, embed, second);
            && v.Keys == u.Keys
            && forall k :: k in u ==>
                 v[k] == if cs != [] && Of(k, mod, version) then u[k].(indexedAt := second) else u[k]
  {
    if cs != [] {
      var u := Written(t, mod, version, cs, embed, first);
      var v := Written(u, mod, version, cs, embed, second);
      forall k ensures (k in v <==> k in u)
        && (k in u ==> v[k] == if Of(k, mod, version) then u[k].(indexedAt := second) else u[k])
      {
        WrittenRows(t, mod, version, cs, embed, first, k);
        WrittenRows(u, mod, version, cs, embed, second, k);
      }
    }
  }

  /** Writing no chunk leaves the whole table; writing some takes away the module's rows that
      no chunk writes again. */
  lemma NothingToWrite(t: Table, mod: Name, version: Name, cs: seq<Chunk>, embed: Embedder, now: real)
    requires OneModule(cs, mod, version)
    ensures cs == [] ==> Written(t, mod, version, cs, embed, now) == t
    ensures cs != [] ==>
              forall k :: k in t && k.mod == mod && k.version == version && (forall c :: c in cs ==> c.key != k) ==>
                k !in Written(t, mod, version, cs, embed, now)
  {
    if cs != [] {
      forall k | k in t && k.mod == mod && k.version == version && forall c :: c in cs ==> c.key != k
        ensures k !in Written(t, mod, version, cs, embed, now)
      {
        WrittenRows(t, mod, version, cs, embed, now, k);
        FirstIffLast(cs, k);
      }
    }
  }
}
