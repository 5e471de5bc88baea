/** Whole histories of the schema cache, and the catalogue a server sends. */
module SchemaHistory {
  import opened Bytes
  import opened Wire
  import opened IndexParts
  import opened SchemaTuples
  import opened SchemaTables
  import opened Schema
  import opened SchemaCache

  datatype Command = AddSpaces(data: bytes) | AddIndexes(data: bytes) | Flush

  ghost function Step(m: Model, c: Command): Model {
    match c
    case AddSpaces(data) => SpaceBatch(m, data).0
    case AddIndexes(data) => IndexBatch(m, data).0
    case Flush => Flushed(m)
  }

  ghost function Replay(m: Model, history: seq<Command>): Model {
    if history == [] then m else Step(Replay(m, history[..|history| - 1]), history[|history| - 1])
  }

  /**
   * Any history at all leaves the cache in a valid state that says what the simple form says. A
   * flush at the end releases all memory exactly if none had gone out of reach on the way.
   */
  method Run(cache: Cache, history: seq<Command>)
    requires cache.Valid()
    modifies cache
    ensures cache.Valid() && cache.model == Replay(old(cache.model), history)
    ensures history != [] && history[|history| - 1].Flush? ==> (cache.live == map[] <==> cache.model.intact)
  {
    hide State, SpaceBatch, IndexBatch;
    for i := 0 to |history|
      invariant cache.Valid() && cache.model == Replay(old(cache.model), history[..i])
      invariant i > 0 && history[i - 1].Flush? ==> (cache.live == map[] <==> cache.model.intact)
    {
      assert history[..i + 1][..i] == history[..i];
      match history[i] {
        case AddSpaces(data) =>
          var ok := cache.AddSpaces(data);
        case AddIndexes(data) =>
          var ok := cache.AddIndexes(data);
        case Flush =>
          cache.Flush();
          IntactMeansNoOrphan(cache);
      }
    }
    assert history[..|history|] == history;
  }

  lemma IntactMeansNoOrphan(cache: Cache)
    requires cache.Valid()
    ensures cache.orphan.None? <==> cache.model.intact
  {
  }

  /** Every name that is the four bytes of an id belongs to that id. */
  ghost predicate NoClash(m: Model) {
    forall n :: n in m.spaces && LE32(n) in m.names ==> m.names[LE32(n)] == n
  }

  /** Then the name of a space that resolves is the name of a known id with a table of indexes. */
  lemma {:induction false} NamesResolve(cache: Cache, name: bytes)
    requires cache.Valid() && NoClash(cache.model) && name in cache.model.names
    ensures var n, v := cache.model.names[name], View(cache.spaces);
            && n in cache.model.spaces
            && name in v && v[name].number == n && LE32(n) in v && v[LE32(n)].number == n
            && v[LE32(n)].content in cache.indexes
  {
    hide View, OneEach, LE32, Agrees, Table;
    var m, v := cache.model, View(cache.spaces);
    LookupsExactly(v, cache.live, SpaceRecord, SpaceContent, m.names, m.spaces.Keys);
    KeysFound(v, m.names, m.spaces.Keys);
    HeldBy(v, cache.live, LE32(m.names[name]));
  }

  lemma KeysFound(v: Records, names: map<bytes, nat>, ids: set<nat>)
    requires Agrees(v, names, ids)
    ensures (forall q :: q in names ==> q in v) && (forall n :: n in ids ==> LE32(n) in v)
  {
    hide LE32;
  }

  /** Two spaces under one id: flushing does not release the record that was replaced. */
  method ReplacedIdLeaks() returns (cache: Cache)
    ensures cache.Valid() && cache.model.names == map[] && cache.live != map[]
  {
    hide State, View, OneEach, Table, Agrees, LE32;
    cache := new Cache();
    cache.InsertSpace(SpaceDef(1, [120]));
    cache.InsertSpace(SpaceDef(1, [121]));
    cache.Flush();
    IntactMeansNoOrphan(cache);
  }

  /** A space whose name is the four bytes of the id of another: asking for that id gives the wrong space. */
  method ClashingName() returns (r: int)
    ensures r == 2
  {
    hide State, View, OneEach, Table, Agrees;
    var cache := new Cache();
    cache.InsertSpace(SpaceDef(1, [120]));
    cache.InsertSpace(SpaceDef(2, LE32(1)));
    r := cache.GetSidByNumber(1);
  }

  // ---------------------------------------------------------------- names without NUL, small ids

  predicate PlainKey(name: bytes, id: nat) {
    0 !in name && id < 0x100_0000
  }

  ghost predicate PlainKeys(names: map<bytes, nat>, ids: set<nat>) {
    (forall q :: q in names ==> 0 !in q) && forall n :: n in ids ==> n < 0x100_0000
  }

  ghost predicate Plain(m: Model) {
    && PlainKeys(m.names, m.spaces.Keys)
    && forall n :: n in m.spaces ==> PlainKeys(m.spaces[n].names, m.spaces[n].ids)
  }

  lemma PlainKeepsApart(names: map<bytes, nat>, ids: set<nat>, name: bytes, id: nat)
    requires PlainKeys(names, ids) && PlainKey(name, id)
    ensures KeepsApart(names, ids, name, id)
    ensures PlainKeys(names[name := id], ids + {id})
  {
    hide LE32;
    ReasonableApart(names[name := id], ids + {id});
    forall n | n in ids
      ensures LE32(n) != name
    {
      assert LE32(n) !in names[name := id];
    }
    assert LE32(id) !in names[name := id];
  }

  lemma KeptOut(names: map<bytes, nat>, ids: set<nat>, id: nat)
    requires KeepsApart(names, ids, [], id)
    ensures LE32(id) !in names
  {
  }

  lemma PlainSpaceStep(m: Model, d: SpaceDef)
    requires Plain(m) && PlainKey(d.name, d.id)
    ensures Plain(SpaceStep(m, d)) && SpaceStep(m, d).apart == m.apart
  {
    hide LE32, KeepsApart;
    PlainKeepsApart(m.names, m.spaces.Keys, d.name, d.id);
    assert SpaceStep(m, d).spaces.Keys == m.spaces.Keys + {d.id};
  }

  lemma PlainIndexStep(m: Model, d: IndexDef)
    requires Plain(m) && PlainKey(d.name, d.id) && d.space < 0x100_0000
    ensures Plain(IndexStep(m, d).0) && IndexStep(m, d).0.apart == m.apart
  {
    hide LE32, KeepsApart;
    if d.space in m.spaces {
      var t := m.spaces[d.space];
      PlainKeepsApart(t.names, t.ids, d.name, d.id);
      assert IndexStep(m, d).0.spaces.Keys == m.spaces.Keys;
    } else {
      PlainKeepsApart(m.names, m.spaces.Keys, [], d.space);
      KeptOut(m.names, m.spaces.Keys, d.space);
    }
  }

  /** The definitions a batch reads, one after the other. */
  predicate PlainSpaces(ms: seq<Mp>, count: nat)
    requires count <= |ms|
    decreases count
  {
    count > 0 && SpaceDefOf(ms[0]).Some? ==>
      && PlainKey(SpaceDefOf(ms[0]).value.name, SpaceDefOf(ms[0]).value.id)
      && PlainSpaces(After(ms, SPACE_FIELDS), count - 1)
  }

  predicate PlainIndexes(ms: seq<Mp>, count: nat)
    requires count <= |ms|
    decreases count
  {
    count > 0 && IndexDefOf(ms[0]).Some? ==>
      && PlainKey(IndexDefOf(ms[0]).value.name, IndexDefOf(ms[0]).value.id)
      && IndexDefOf(ms[0]).value.space < 0x100_0000
      && PlainIndexes(After(ms, INDEX_FIELDS), count - 1)
  }

  predicate PlainCommand(c: Command) {
    match c
    case Flush => true
    case AddSpaces(data) =>
      Parse(data).Ok? && Parse(data).v.Arr? ==> PlainSpaces(Parse(data).v.items, |Parse(data).v.items|)
    case AddIndexes(data) =>
      Parse(data).Ok? && Parse(data).v.Arr? ==> PlainIndexes(Parse(data).v.items, |Parse(data).v.items|)
  }

  lemma {:induction false} PlainSpaceTuples(m: Model, ms: seq<Mp>, count: nat)
    requires count <= |ms| && Plain(m) && PlainSpaces(ms, count)
    ensures Plain(SpaceTuples(m, ms, count).0) && SpaceTuples(m, ms, count).0.apart == m.apart
    decreases count
  {
    hide SpaceDefOf, SpaceStep, After, Started, PlainKey;
    if count > 0 && SpaceDefOf(ms[0]).Some? {
      LongEnough(ms, SPACE_FIELDS);
      PlainSpaceStep(m, SpaceDefOf(ms[0]).value);
      PlainSpaceTuples(SpaceStep(m, SpaceDefOf(ms[0]).value), After(ms, SPACE_FIELDS), count - 1);
    }
  }

  lemma {:induction false} PlainIndexTuples(m: Model, ms: seq<Mp>, count: nat)
    requires count <= |ms| && Plain(m) && PlainIndexes(ms, count)
    ensures Plain(IndexTuples(m, ms, count).0) && IndexTuples(m, ms, count).0.apart == m.apart
    decreases count
  {
    hide IndexDefOf, IndexStep, After, Started, PlainKey;
    if count > 0 && IndexDefOf(ms[0]).Some? {
      LongEnough(ms, INDEX_FIELDS);
      PlainIndexStep(m, IndexDefOf(ms[0]).value);
      if IndexStep(m, IndexDefOf(ms[0]).value).1 {
        PlainIndexTuples(IndexStep(m, IndexDefOf(ms[0]).value).0, After(ms, INDEX_FIELDS), count - 1);
      }
    }
  }

  /** A history of NUL-free names and ids below 2^24 never mixes the two kinds of keys. */
  lemma {:induction false} PlainHistory(history: seq<Command>)
    requires forall i :: 0 <= i < |history| ==> PlainCommand(history[i])
    ensures Plain(Replay(NO_SCHEMA, history)) && Replay(NO_SCHEMA, history).apart
    decreases |history|
  {
    hide Parse, SpaceTuples, IndexTuples, PlainSpaces, PlainIndexes;
    if history != [] {
      var c := history[|history| - 1];
      var before := history[..|history| - 1];
      PlainHistory(before);
      var m := Replay(NO_SCHEMA, before);
      match c
      case Flush =>
      case AddSpaces(data) =>
        if Parse(data).Ok? && Parse(data).v.Arr? {
          PlainSpaceTuples(m, Parse(data).v.items, |Parse(data).v.items|);
        }
      case AddIndexes(data) =>
        if Parse(data).Ok? && Parse(data).v.Arr? {
          PlainIndexTuples(m, Parse(data).v.items, |Parse(data).v.items|);
        }
    }
  }

  // ---------------------------------------------------------------- a catalogue

  ghost function AllSpaces(m: Model, defs: seq<SpaceDef>): Model
    decreases |defs|
  {
    if defs == [] then m else AllSpaces(SpaceStep(m, defs[0]), defs[1..])
  }

  ghost function AllIndexes(m: Model, defs: seq<IndexDef>): (Model, bool)
    decreases |defs|
  {
    if defs == [] then (m, true)
    else
      var next := IndexStep(m, defs[0]);
      if next.1 then AllIndexes(next.0, defs[1..]) else next
  }

  /** Each tuple describes one space, in six fields or seven. */
  ghost predicate SpaceTuplesOf(ms: seq<Mp>, defs: seq<SpaceDef>) {
    |ms| == |defs| && forall i :: 0 <= i < |ms| ==> DescribesSpace(ms[i], defs[i]) && |ms[i].items| <= 7
  }

  /** Each tuple describes one index, in six fields. */
  ghost predicate IndexTuplesOf(ms: seq<Mp>, defs: seq<IndexDef>) {
    |ms| == |defs| && forall i :: 0 <= i < |ms| ==> DescribesIndex(ms[i], defs[i]) && |ms[i].items| == 6
  }

  lemma NarrowTuple(ms: seq<Mp>, width: nat)
    requires ms != [] && ms[0].Arr? && |ms[0].items| <= width
    ensures After(ms, width) == ms[1..]
  {
  }

  lemma {:induction false} SpaceTuplesAre(m: Model, ms: seq<Mp>, defs: seq<SpaceDef>)
    requires SpaceTuplesOf(ms, defs)
    ensures SpaceTuples(m, ms, |ms|) == (AllSpaces(m, defs), true)
    decreases |ms|
  {
    hide SpaceDefOf, SpaceStep, After, Started, Formats;
    if ms != [] {
      SpaceTupleExactly(ms[0], defs[0]);
      NarrowTuple(ms, SPACE_FIELDS);
      SpaceTuplesAre(SpaceStep(m, defs[0]), ms[1..], defs[1..]);
    }
  }

  lemma {:induction false} IndexTuplesAre(m: Model, ms: seq<Mp>, defs: seq<IndexDef>)
    requires IndexTuplesOf(ms, defs)
    ensures IndexTuples(m, ms, |ms|) == AllIndexes(m, defs)
    decreases |ms|
  {
    hide IndexDefOf, IndexStep, After, Started, DescribesParts;
    if ms != [] {
      IndexTupleExactly(ms[0], defs[0]);
      NarrowTuple(ms, INDEX_FIELDS);
      if IndexStep(m, defs[0]).1 {
        IndexTuplesAre(IndexStep(m, defs[0]).0, ms[1..], defs[1..]);
      }
    }
  }

  /**
   * A wider tuple is not skipped to its end: what stands behind the seventh field of a space, or the
   * sixth of an index, is taken for the next tuple, and a catalogue with more tuples is refused for it.
   */
  lemma WideTupleRefused(m: Model, ms: seq<Mp>)
    requires |ms| >= 2 && ms[0].Arr?
    ensures |ms[0].items| >= 8 && !(ms[0].items[7].Arr? && |ms[0].items[7].items| >= 6) ==>
              !SpaceTuples(m, ms, |ms|).1
    ensures |ms[0].items| >= 7 && !(ms[0].items[6].Arr? && |ms[0].items[6].items| >= 6) ==>
              !IndexTuples(m, ms, |ms|).1
  {
    hide SpaceStep, IndexStep, PartsOf, FormatOk;
    if |ms[0].items| >= 8 {
      assert After(ms, SPACE_FIELDS)[0] == ms[0].items[7];
    }
    if |ms[0].items| >= 7 {
      assert After(ms, INDEX_FIELDS)[0] == ms[0].items[6];
    }
  }

  /** No two spaces share a name or an id; names are NUL-free and ids below 2^24. */
  ghost predicate UniqueSpaces(defs: seq<SpaceDef>) {
    && (forall i :: 0 <= i < |defs| ==> PlainKey(defs[i].name, defs[i].id))
    && (forall i, j :: 0 <= i < j < |defs| ==> defs[i].name != defs[j].name && defs[i].id != defs[j].id)
  }

  /** No two indexes of one space share a name or an id. */
  ghost predicate UniqueIndexes(defs: seq<IndexDef>) {
    && (forall i :: 0 <= i < |defs| ==> PlainKey(defs[i].name, defs[i].id) && defs[i].space < 0x100_0000)
    && (forall i, j :: 0 <= i < j < |defs| && defs[i].space == defs[j].space ==>
          defs[i].name != defs[j].name && defs[i].id != defs[j].id)
  }

  ghost predicate SpacesApart(m: Model, defs: seq<SpaceDef>) {
    forall i :: 0 <= i < |defs| ==> defs[i].name !in m.names && defs[i].id !in m.spaces
  }

  ghost predicate NamedIn(defs: seq<SpaceDef>, q: bytes) {
    exists i :: 0 <= i < |defs| && defs[i].name == q
  }

  ghost predicate KnownIn(defs: seq<SpaceDef>, n: nat) {
    exists i :: 0 <= i < |defs| && defs[i].id == n
  }

  lemma {:induction false} AllSpacesPlain(m: Model, defs: seq<SpaceDef>)
    requires Plain(m) && UniqueSpaces(defs) && SpacesApart(m, defs)
    ensures var r := AllSpaces(m, defs); Plain(r) && r.apart == m.apart && r.intact == m.intact
    decreases |defs|
  {
    hide LE32, KeepsApart, Plain, PlainKey;
    if defs != [] {
      var d := defs[0];
      PlainSpaceStep(m, d);
      assert KeepsApart(m.names, m.spaces.Keys, d.name, d.id) by {
        PlainMeans(m);
        PlainKeepsApart(m.names, m.spaces.Keys, d.name, d.id);
      }
      AllSpacesPlain(SpaceStep(m, d), defs[1..]);
    }
  }

  lemma {:induction false} AllSpacesHeld(m: Model, defs: seq<SpaceDef>)
    requires UniqueSpaces(defs) && SpacesApart(m, defs)
    ensures var r := AllSpaces(m, defs);
            && (forall i :: 0 <= i < |defs| ==> defs[i].name in r.names && r.names[defs[i].name] == defs[i].id)
            && (forall i :: 0 <= i < |defs| ==> defs[i].id in r.spaces && r.spaces[defs[i].id] == NO_INDEXES)
            && (forall q :: q in m.names ==> q in r.names && r.names[q] == m.names[q])
            && (forall n :: n in m.spaces ==> n in r.spaces && r.spaces[n] == m.spaces[n])
    decreases |defs|
  {
    hide LE32, IsNew, KeepsApart, PlainKey;
    if defs != [] {
      AllSpacesHeld(SpaceStep(m, defs[0]), defs[1..]);
      forall i | 0 < i < |defs|
        ensures defs[i] == defs[1..][i - 1]
      {
      }
    }
  }

  lemma {:induction false} AllSpacesOnly(m: Model, defs: seq<SpaceDef>)
    ensures var r := AllSpaces(m, defs);
            && (forall q :: q in r.names ==> q in m.names || NamedIn(defs, q))
            && (forall n :: n in r.spaces ==> n in m.spaces || KnownIn(defs, n))
    decreases |defs|
  {
    hide LE32, IsNew, KeepsApart;
    if defs != [] {
      var d, rest := defs[0], defs[1..];
      AllSpacesOnly(SpaceStep(m, d), rest);
      forall q | NamedIn(rest, q)
        ensures NamedIn(defs, q)
      {
        var i :| 0 <= i < |rest| && rest[i].name == q;
        assert defs[i + 1].name == q;
      }
      forall n | KnownIn(rest, n)
        ensures KnownIn(defs, n)
      {
        var i :| 0 <= i < |rest| && rest[i].id == n;
        assert defs[i + 1].id == n;
      }
      assert NamedIn(defs, d.name) && KnownIn(defs, d.id);
    }
  }

  lemma PlainMeans(m: Model)
    requires Plain(m)
    ensures PlainKeys(m.names, m.spaces.Keys)
    ensures forall n :: n in m.spaces ==> PlainKeys(m.spaces[n].names, m.spaces[n].ids)
  {
  }

  /** The new indexes are not in their spaces yet. */
  ghost predicate IndexesApart(m: Model, defs: seq<IndexDef>) {
    forall i :: 0 <= i < |defs| ==>
      && defs[i].space in m.spaces
      && defs[i].name !in m.spaces[defs[i].space].names && defs[i].id !in m.spaces[defs[i].space].ids
  }

  ghost predicate IndexedIn(defs: seq<IndexDef>, n: nat, q: bytes) {
    exists i :: 0 <= i < |defs| && defs[i].space == n && defs[i].name == q
  }

  ghost predicate SameSpaces(m: Model, r: Model) {
    r.names == m.names && r.spaces.Keys == m.spaces.Keys
  }

  lemma {:induction false} AllIndexesPlain(m: Model, defs: seq<IndexDef>)
    requires Plain(m) && UniqueIndexes(defs) && IndexesApart(m, defs)
    ensures var r := AllIndexes(m, defs).0;
            AllIndexes(m, defs).1 && Plain(r) && r.apart == m.apart && r.intact == m.intact && SameSpaces(m, r)
    decreases |defs|
  {
    hide LE32, KeepsApart, Plain, PlainKey;
    if defs != [] {
      var d := defs[0];
      var t := m.spaces[d.space];
      PlainIndexStep(m, d);
      assert KeepsApart(t.names, t.ids, d.name, d.id) by {
        PlainMeans(m);
        PlainKeepsApart(t.names, t.ids, d.name, d.id);
      }
      AllIndexesPlain(IndexStep(m, d).0, defs[1..]);
    }
  }

  lemma {:induction false} AllIndexesHeld(m: Model, defs: seq<IndexDef>)
    requires UniqueIndexes(defs) && IndexesApart(m, defs)
    ensures var r := AllIndexes(m, defs).0;
            && SameSpaces(m, r)
            && (forall i :: 0 <= i < |defs| ==>
                  && defs[i].name in r.spaces[defs[i].space].names
                  && r.spaces[defs[i].space].names[defs[i].name] == defs[i].id)
            && (forall n, q :: n in m.spaces && q in m.spaces[n].names ==>
                  q in r.spaces[n].names && r.spaces[n].names[q] == m.spaces[n].names[q])
    decreases |defs|
  {
    hide LE32, IsNew, KeepsApart, PlainKey;
    if defs != [] {
      AllIndexesHeld(IndexStep(m, defs[0]).0, defs[1..]);
      forall i | 0 < i < |defs|
        ensures defs[i] == defs[1..][i - 1]
      {
      }
    }
  }

  lemma {:induction false} AllIndexesOnly(m: Model, defs: seq<IndexDef>)
    requires IndexesKnown(m, defs)
    ensures var r := AllIndexes(m, defs).0;
            && SameSpaces(m, r)
            && (forall n, q :: n in r.spaces && q in r.spaces[n].names ==>
                 q in m.spaces[n].names || IndexedIn(defs, n, q))
    decreases |defs|
  {
    hide LE32, IsNew, KeepsApart;
    if defs != [] {
      var d, rest := defs[0], defs[1..];
      AllIndexesOnly(IndexStep(m, d).0, rest);
      forall n, q | IndexedIn(rest, n, q)
        ensures IndexedIn(defs, n, q)
      {
        var i :| 0 <= i < |rest| && rest[i].space == n && rest[i].name == q;
        assert defs[i + 1].name == q;
      }
      assert IndexedIn(defs, d.space, d.name);
    }
  }

  ghost predicate IndexesKnown(m: Model, defs: seq<IndexDef>) {
    forall i :: 0 <= i < |defs| ==> defs[i].space in m.spaces
  }

  /** The simple form holds the catalogue and nothing else. */
  ghost predicate Holds(m: Model, spaces: seq<SpaceDef>, indexes: seq<IndexDef>) {
    && (forall i :: 0 <= i < |spaces| ==> spaces[i].name in m.names && m.names[spaces[i].name] == spaces[i].id)
    && (forall q :: q in m.names ==> NamedIn(spaces, q))
    && (forall i :: 0 <= i < |spaces| ==> spaces[i].id in m.spaces)
    && (forall n :: n in m.spaces ==> KnownIn(spaces, n))
    && (forall i :: 0 <= i < |indexes| ==>
          && indexes[i].space in m.spaces && indexes[i].name in m.spaces[indexes[i].space].names
          && m.spaces[indexes[i].space].names[indexes[i].name] == indexes[i].id)
    && (forall n, q :: n in m.spaces && q in m.spaces[n].names ==> IndexedIn(indexes, n, q))
  }

  /** What an empty cache holds after a whole catalogue has been added is that catalogue. */
  lemma {:induction false} CatalogHeld(m: Model, spaces: seq<SpaceDef>, indexes: seq<IndexDef>)
    requires m.names == map[] && m.spaces == map[]
    requires UniqueSpaces(spaces) && UniqueIndexes(indexes)
    requires forall i :: 0 <= i < |indexes| ==> KnownIn(spaces, indexes[i].space)
    ensures var r := AllIndexes(AllSpaces(m, spaces), indexes);
            r.1 && Holds(r.0, spaces, indexes) && r.0.apart == m.apart && r.0.intact == m.intact && Plain(r.0)
  {
    hide LE32, KeepsApart, PlainKey;
    AllSpacesPlain(m, spaces);
    AllSpacesHeld(m, spaces);
    AllSpacesOnly(m, spaces);
    var mid := AllSpaces(m, spaces);
    forall n | n in mid.spaces
      ensures mid.spaces[n] == NO_INDEXES
    {
      assert KnownIn(spaces, n);
    }
    hide Plain;
    AllIndexesPlain(mid, indexes);
    AllIndexesHeld(mid, indexes);
    AllIndexesOnly(mid, indexes);
  }

  // ---------------------------------------------------------------- what the cache then answers

  /** A key that is the four bytes of the id of a space. */
  ghost predicate IsIdKey(spaces: seq<SpaceDef>, q: bytes) {
    exists n: nat :: KnownIn(spaces, n) && LE32(n) == q
  }

  lemma OnlyKeysAnswer(cache: Cache, q: bytes)
    requires cache.Valid() && cache.model.apart && cache.NameAnswer(q) != -1
    ensures q in cache.model.names || exists n :: n in cache.model.spaces && LE32(n) == q
  {
    hide View, OneEach, Table, LE32, Agrees;
    var m := cache.model;
    Answers(View(cache.spaces), cache.live, SpaceRecord, SpaceContent, m.names, m.spaces.Keys, q);
  }

  /** Every lookup of a cache that holds a catalogue, and of nothing else. */
  ghost predicate AnswersBy(cache: Cache, spaces: seq<SpaceDef>, indexes: seq<IndexDef>)
    requires cache.Valid()
    reads cache
  {
    && (forall i :: 0 <= i < |spaces| ==>
          cache.NameAnswer(spaces[i].name) == spaces[i].id && cache.NumberAnswer(spaces[i].id) == spaces[i].id)
    && (forall i :: 0 <= i < |indexes| ==> cache.IndexAnswer(indexes[i].space, indexes[i].name) == indexes[i].id)
    && (forall q: bytes :: cache.NameAnswer(q) != -1 ==> NamedIn(spaces, q) || IsIdKey(spaces, q))
    && (forall q: bytes :: 0 !in q && !NamedIn(spaces, q) ==> cache.NameAnswer(q) == -1)
    && (forall n: nat :: n < 0x100_0000 && !KnownIn(spaces, n) ==> cache.NumberAnswer(n) == -1)
    && (forall n: nat, q: bytes :: n < 0x100_0000 && 0 !in q && !IndexedIn(indexes, n, q) ==>
         cache.IndexAnswer(n, q) == -1)
  }

  /** For a NUL-free key the name map alone answers. */
  lemma PlainNameAnswer(cache: Cache, q: bytes)
    requires cache.Valid() && cache.model.apart && Plain(cache.model) && 0 !in q
    ensures cache.NameAnswer(q) == if q in cache.model.names then ToInt32(cache.model.names[q]) else -1
  {
    hide View, OneEach, Table, LE32, Agrees, SchemaCache.Answer;
    var m := cache.model;
    Answers(View(cache.spaces), cache.live, SpaceRecord, SpaceContent, m.names, m.spaces.Keys, q);
    ReasonableAnswer(m.names, m.spaces.Keys, q);
  }

  /** For a number below 2^24 the ids alone answer. */
  lemma PlainNumberAnswer(cache: Cache, n: nat)
    requires cache.Valid() && cache.model.apart && Plain(cache.model) && n < 0x100_0000
    ensures cache.NumberAnswer(n) == if n in cache.model.spaces then n else -1
  {
    hide View, OneEach, Table, LE32, Agrees;
    var m := cache.model;
    PlainNoName(m, n);
    KnownOrNot(View(cache.spaces), cache.live, SpaceRecord, SpaceContent, m.names, m.spaces.Keys, n);
  }

  lemma PlainNoName(m: Model, n: nat)
    requires Plain(m) && n < 0x100_0000
    ensures LE32(n) !in m.names
  {
    hide LE32;
    LE32TopByte(n);
    assert LE32(n)[3] in LE32(n);
  }

  /** For such a number and a NUL-free name, the index names of the space alone answer. */
  lemma PlainIndexAnswer(cache: Cache, n: nat, q: bytes)
    requires cache.Valid() && cache.model.apart && Plain(cache.model) && n < 0x100_0000 && 0 !in q
    ensures cache.IndexAnswer(n, q) ==
            var m := cache.model;
            if n in m.spaces && q in m.spaces[n].names then ToInt32(m.spaces[n].names[q]) else -1
  {
    hide View, OneEach, Table, LE32, Agrees, SchemaCache.Answer;
    var m, v := cache.model, View(cache.spaces);
    PlainNoName(m, n);
    KnownOrNot(v, cache.live, SpaceRecord, SpaceContent, m.names, m.spaces.Keys, n);
    if n in m.spaces {
      var t := m.spaces[n];
      assert IndexMirror(v, cache.indexes, n, t);
      var c := v[LE32(n)].content;
      Answers(View(cache.indexes[c]), cache.live, IndexRecord(c), IndexContent(c), t.names, t.ids, q);
      ReasonableAnswer(t.names, t.ids, q);
    }
  }

  /** So a cache whose simple form holds a catalogue answers by it, whatever its history. */
  lemma {:induction false} CatalogAnswers(cache: Cache, spaces: seq<SpaceDef>, indexes: seq<IndexDef>)
    requires cache.Valid() && cache.model.apart && Plain(cache.model)
    requires UniqueSpaces(spaces) && UniqueIndexes(indexes) && Holds(cache.model, spaces, indexes)
    ensures AnswersBy(cache, spaces, indexes)
  {
    hide Cache.Valid, Cache.NameAnswer, Cache.NumberAnswer, Cache.IndexAnswer, Plain;
    forall q: bytes | cache.NameAnswer(q) != -1
      ensures NamedIn(spaces, q) || IsIdKey(spaces, q)
    {
      OnlyKeysAnswer(cache, q);
    }
    forall q: bytes | 0 !in q
      ensures cache.NameAnswer(q) == if q in cache.model.names then ToInt32(cache.model.names[q]) else -1
    {
      PlainNameAnswer(cache, q);
    }
    forall n: nat | n < 0x100_0000
      ensures cache.NumberAnswer(n) == if n in cache.model.spaces then n else -1
    {
      PlainNumberAnswer(cache, n);
    }
    forall n: nat, q: bytes | n < 0x100_0000 && 0 !in q
      ensures cache.IndexAnswer(n, q) ==
              var m := cache.model;
              if n in m.spaces && q in m.spaces[n].names then ToInt32(m.spaces[n].names[q]) else -1
    {
      PlainIndexAnswer(cache, n, q);
    }
  }
}
