/** The schema cache itself: filling it from catalogues, asking it, and flushing it. */
module SchemaCache {
  import opened Bytes
  import opened Wire
  import opened Unpacking
  import opened IndexParts
  import opened SchemaTuples
  import opened SchemaTables
  import opened Schema

  /** A `uint32_t` returned as `int32_t`. */
  function ToInt32(n: nat): int {
    if n < 0x8000_0000 then n else n - TWO_32
  }

  /** What a table of two maps answers to any key, named or not. */
  ghost function Answer(names: map<bytes, nat>, ids: set<nat>, key: bytes): Option<nat> {
    if key in names then Some(names[key])
    else if exists n :: n in ids && LE32(n) == key then
      var n :| n in ids && LE32(n) == key;
      Some(n)
    else None
  }

  function Code(n: Option<nat>): int {
    if n.Some? then ToInt32(n.value) else -1
  }

  lemma Answers(v: Records, live: Memory, rec: Owner, con: Owner, names: map<bytes, nat>, ids: set<nat>, key: bytes)
    requires Table(v, live, rec, con) && Agrees(v, names, ids) && Apart(names, ids)
    ensures Answer(names, ids, key) == if key in v then Some(v[key].number) else None
  {
    hide LE32, Table;
    ApartLookups(v, live, rec, con, names, ids);
    IdsBound(v, names, ids);
    var a := Answer(names, ids, key);
    if key !in names && key in v {
      assert v[key].number in ids && LE32(v[key].number) == key;
      assert a.Some? && LE32(a.value) == key;
      LE32Injective(a.value, v[key].number);
    }
  }

  /** The number of an index, by the four bytes of its space and by its own name. */
  ghost function FoundIndex(spaces: Slots, indexes: map<nat, Slots>, sid: nat, name: bytes): Option<nat>
    requires OneEach(spaces) && forall c :: c in indexes ==> OneEach(indexes[c])
  {
    if LE32(sid) !in View(spaces) || View(spaces)[LE32(sid)].content !in indexes then None
    else
      var v := View(indexes[View(spaces)[LE32(sid)].content]);
      if name in v then Some(v[name].number) else None
  }

  class Cache {
    var spaces: Slots
    /** The table of indexes in the content of each space. */
    var indexes: map<nat, Slots>
    var next: nat
    ghost var live: Memory
    /** A block that has gone out of reach, once there is one. */
    ghost var orphan: Option<nat>
    ghost var model: Model

    ghost predicate Valid()
      reads this
    {
      State(spaces, indexes, live, next, orphan, model)
    }

    constructor ()
      ensures Valid() && model == NO_SCHEMA && live == map[]
    {
      spaces := NEW_TABLE;
      indexes := map[];
      next := 0;
      live := map[];
      orphan := None;
      model := NO_SCHEMA;
      new;
      NewTable(live, 0);
    }

    /** The answers the lookups give, by the keys they use. */
    ghost function NameAnswer(name: bytes): int
      requires Valid()
      reads this
    {
      Code(if name in View(spaces) then Some(View(spaces)[name].number) else None)
    }

    ghost function NumberAnswer(sid: nat): int
      requires Valid()
      reads this
    {
      NameAnswer(LE32(sid))
    }

    ghost function IndexAnswer(sid: nat, name: bytes): int
      requires Valid()
      reads this
    {
      Code(FoundIndex(spaces, indexes, sid, name))
    }

    /** Memory taken for a tuple that does not decode is never released. */
    method Abandon()
      requires Valid()
      modifies this
      ensures Valid() && model == old(model).(intact := false)
      ensures unchanged(`spaces, `indexes)
    {
      hide State;
      AbandonedState(spaces, indexes, live, next, orphan, model);
      orphan := AnyOrphan(orphan, next);
      live := live[next := Stray];
      next := next + 1;
      model := model.(intact := false);
    }

    /** The storing part of `schema_add_space`. */
    method InsertSpace(d: SpaceDef)
      requires Valid() && d.id < TWO_32
      modifies this
      ensures Valid() && model == SpaceStep(old(model), d)
      ensures var v := View(spaces);
              && LE32(d.id) in v && v[LE32(d.id)].number == d.id && d.name in v && v[d.name].number == d.id
              && v[d.name].content == v[LE32(d.id)].content
              && indexes[v[LE32(d.id)].content] == NEW_TABLE
    {
      hide View, Table, OneEach, Mirrors, Kept, Gone, LE32, SpaceStep, NextOrphan, Taking;
      var s := Rec(next, true, d.name, d.id, next + 2);
      var n := Rec(next + 1, false, d.name, d.id, next + 2);
      assert d == SpaceDef(s.number, s.name);
      ghost var v := View(spaces);
      var t := PutTwins(spaces, s, n, live, SpaceRecord, SpaceContent);
      SpaceState(spaces, indexes, live, next, orphan, model, s, n, t);
      orphan := NextOrphan(orphan, v, s, n);
      live := Taking(live, s, n, SpaceRecord, SpaceContent);
      spaces := t;
      indexes := indexes[next + 2 := NEW_TABLE];
      next := next + 3;
      model := SpaceStep(model, d);
    }

    /** `tarantool_schema_add_spaces`. */
    method AddSpaces(data: bytes) returns (ok: bool)
      requires Valid()
      modifies this
      ensures Valid() && (model, ok) == SpaceBatch(old(model), data)
    {
      hide Head, Parse, ParseSeq, SpaceDefOf, Sound, Mirrors, Kept, Gone, View, SpaceStep, Started;
      if Parse(data).Fail? {
        return false;
      }
      var cur := new Cursor(data);
      ContainerParsed(data);
      assert cur.Rest() == data;
      var t := cur.DecodeHead();
      if !t.TArr? {
        return false;
      }
      var count: nat := t.size;
      ghost var ms := Parse(data).v.items;
      while count > 0
        invariant cur.Valid() && Valid()
        invariant count <= |ms| && ParseSeq(cur.Rest(), |ms|).Ok? && ParseSeq(cur.Rest(), |ms|).v == ms
        invariant SpaceTuples(model, ms, count) == SpaceBatch(old(model), data)
      {
        var d, started := ReadSpace(cur, |ms|);
        if d.None? {
          if started {
            Abandon();
          }
          return false;
        }
        SpaceIds(ms[0]);
        InsertSpace(d.value);
        ms := After(ms, SPACE_FIELDS);
        count := count - 1;
      }
      ok := true;
    }

    /** The storing part of `schema_add_index`. */
    method InsertIndex(d: IndexDef) returns (ok: bool)
      requires Valid() && d.id < TWO_32 && d.space < TWO_32
      modifies this
      ensures Valid() && (model, ok) == IndexStep(old(model), d)
      ensures spaces == old(spaces)
    {
      hide View, Table, OneEach, Mirrors, Kept, Gone, LE32, IndexStep, NextOrphan, Taking;
      TableReadable(spaces, live, SpaceRecord, SpaceContent);
      var i := Find(spaces, LE32(d.space), live);
      if i == |spaces| {
        UnknownState(spaces, indexes, live, next, orphan, model, d);
        orphan := AnyOrphan(orphan, next);
        live := live[next := Stray];
        next := next + 1;
        model := IndexStep(model, d).0;
        return false;
      }
      HeldBy(View(spaces), live, LE32(d.space));
      var c := spaces[i].value.content;
      var s := Rec(next, true, d.name, d.id, next + 2);
      var n := Rec(next + 1, false, d.name, d.id, next + 2);
      ghost var v := View(indexes[c]);
      var t := PutTwins(indexes[c], s, n, live, IndexRecord(c), IndexContent(c));
      IndexState(spaces, indexes, live, next, orphan, model, d, s, n, t);
      orphan := NextOrphan(orphan, v, s, n);
      live := Taking(live, s, n, IndexRecord(c), IndexContent(c));
      indexes := indexes[c := t];
      next := next + 3;
      model := IndexStep(model, d).0;
      ok := true;
    }

    /** `tarantool_schema_add_indexes`. */
    method AddIndexes(data: bytes) returns (ok: bool)
      requires Valid()
      modifies this
      ensures Valid() && (model, ok) == IndexBatch(old(model), data)
      ensures spaces == old(spaces)
    {
      hide Head, Parse, ParseSeq, IndexDefOf, State, View, IndexStep, Started;
      if Parse(data).Fail? {
        return false;
      }
      var cur := new Cursor(data);
      ContainerParsed(data);
      assert cur.Rest() == data;
      var t := cur.DecodeHead();
      if !t.TArr? {
        return false;
      }
      var count: nat := t.size;
      ghost var ms := Parse(data).v.items;
      while count > 0
        invariant cur.Valid() && Valid() && spaces == old(spaces)
        invariant count <= |ms| && ParseSeq(cur.Rest(), |ms|).Ok? && ParseSeq(cur.Rest(), |ms|).v == ms
        invariant IndexTuples(model, ms, count) == IndexBatch(old(model), data)
      {
        var d, started := ReadIndex(cur, |ms|);
        if d.None? {
          if started {
            Abandon();
          }
          return false;
        }
        IndexIds(ms[0]);
        ok := InsertIndex(d.value);
        if !ok {
          return;
        }
        ms := After(ms, INDEX_FIELDS);
        count := count - 1;
      }
      ok := true;
    }

    // -------------------------------------------------------------- flushing

    /** Releases a block, which must be live: no block is released twice. */
    method Free(ghost a: nat)
      requires a in live
      modifies `live
      ensures live == old(live) - {a}
    {
      live := live - {a};
    }

    /** The content shared by two records, then the records. */
    method Release(ghost content: nat, one: Option<Rec>, two: Option<Rec>)
      requires content in live && content !in BlockOf(one) + BlockOf(two) && BlockOf(one) !! BlockOf(two)
      requires forall a :: a in BlockOf(one) + BlockOf(two) ==> a in live
      modifies `live
      ensures live == old(live) - ({content} + (BlockOf(one) + BlockOf(two)))
    {
      Free(content);
      if one.Some? {
        Free(one.value.at);
      }
      if two.Some? {
        Free(two.value.at);
      }
    }

    /** `schema_index_free`, and the release of the table: what hangs on the content `c` of a space. */
    method FreeIndexes(c: nat)
      requires c in indexes && IndexTable(indexes[c], live, c)
      modifies `live, `indexes
      ensures indexes == old(indexes) - {c}
      ensures IndexesFreed(old(indexes[c]), old(live), live, c)
    {
      hide View, Table, OneEach, KeyOf, Complete, Without, Blocks, Trimmed;
      var table := indexes[c];
      ghost var was := View(table);
      NothingFreed(table, live, c);
      for pos := 0 to |table|
        invariant |table| == |old(indexes[c])| && indexes == old(indexes)
        invariant forall i :: 0 <= i < pos ==> table[i].None?
        invariant Draining(was, old(live), table, live, c)
      {
        if table[pos].Some? {
          var r := table[pos].value;
          var rest, one, two := Detach(table, pos, live, IndexRecord(c), IndexContent(c));
          DrainingStep(was, old(live), table, pos, rest, live, c);
          Release(r.content, one, two);
          table := rest;
        }
      }
      Drained(old(indexes[c]), old(live), table, live, c);
      indexes := indexes - {c};
    }

    /** `tarantool_schema_flush`: whatever the order of slots, all the table leads to is released once. */
    method Flush()
      requires Valid()
      modifies this
      ensures Valid() && model == Flushed(old(model))
      ensures View(spaces) == map[] && orphan == old(orphan) && (live == map[] <==> orphan.None?)
    {
      hide View, Table, OneEach, Kept, Gone, Mirrors, Without, Blocks, IndexesFreed, KeyOf;
      for pos := 0 to |spaces|
        invariant |spaces| == |old(spaces)| && orphan == old(orphan) && model == old(model)
        invariant Accounted(spaces, indexes, live, next, orphan)
        invariant forall i :: 0 <= i < pos ==> spaces[i].None?
      {
        if spaces[pos].Some? {
          var r := spaces[pos].value;
          ghost var v, tables, before := View(spaces), indexes, live;
          AtSlot(spaces, pos);
          HeldBy(v, live, KeyOf(r));
          ghost var slots := spaces;
          var rest, one, two := Detach(spaces, pos, live, SpaceRecord, SpaceContent);
          spaces := rest;
          FreeIndexes(r.content);
          ghost var less := live;
          StillLive(v, before, live, tables, r);
          Release(r.content, one, two);
          OutAccounted(slots, rest, tables, before, less, next, orphan, r);
        }
      }
      FlushedState(spaces, indexes, live, next, orphan, model);
      EmptyView(spaces);
      model := Flushed(model);
    }

    // -------------------------------------------------------------- lookups

    /** `tarantool_schema_get_sid_by_string`. */
    method GetSidByString(name: bytes) returns (r: int)
      requires Valid()
      ensures r == NameAnswer(name)
      ensures model.apart ==> r == Code(Answer(model.names, model.spaces.Keys, name))
    {
      hide View, OneEach, Table, Answer, Agrees, LE32;
      TableReadable(spaces, live, SpaceRecord, SpaceContent);
      if model.apart {
        Answers(View(spaces), live, SpaceRecord, SpaceContent, model.names, model.spaces.Keys, name);
      }
      var i := Find(spaces, name, live);
      r := if i == |spaces| then -1 else ToInt32(spaces[i].value.number);
    }

    /** `tarantool_schema_get_sid_by_number`: the key is the four bytes of the number. */
    method GetSidByNumber(sid: nat) returns (r: int)
      requires Valid() && sid < TWO_32
      ensures r == NumberAnswer(sid)
      ensures model.apart && (sid in model.spaces || LE32(sid) !in model.names) ==>
                r == if sid in model.spaces then ToInt32(sid) else -1
    {
      hide LE32, View, OneEach, Table, Agrees;
      if model.apart {
        KnownOrNot(View(spaces), live, SpaceRecord, SpaceContent, model.names, model.spaces.Keys, sid);
      }
      r := GetSidByString(LE32(sid));
    }

    /** `tarantool_schema_get_iid_by_string`. */
    method GetIidByString(sid: nat, name: bytes) returns (r: int)
      requires Valid() && sid < TWO_32
      ensures r == IndexAnswer(sid, name)
      ensures model.apart && (sid in model.spaces || LE32(sid) !in model.names) ==>
                r == if sid !in model.spaces then -1
                     else Code(Answer(model.spaces[sid].names, model.spaces[sid].ids, name))
    {
      hide View, OneEach, Table, Answer, Agrees, LE32, Kept, Gone;
      TableReadable(spaces, live, SpaceRecord, SpaceContent);
      if model.apart {
        KnownOrNot(View(spaces), live, SpaceRecord, SpaceContent, model.names, model.spaces.Keys, sid);
      }
      var i := Find(spaces, LE32(sid), live);
      if i == |spaces| {
        return -1;
      }
      HeldBy(View(spaces), live, LE32(sid));
      var c := spaces[i].value.content;
      if model.apart && sid in model.spaces {
        var t := model.spaces[sid];
        assert IndexMirror(View(spaces), indexes, sid, t);
        Answers(View(indexes[c]), live, IndexRecord(c), IndexContent(c), t.names, t.ids, name);
      }
      TableReadable(indexes[c], live, IndexRecord(c), IndexContent(c));
      var j := Find(indexes[c], name, live);
      r := if j == |indexes[c]| then -1 else ToInt32(indexes[c][j].value.number);
    }
  }

  /** Both records of a definition go to the table, the one keyed by name first. */
  method PutTwins(slots: Slots, s: Rec, n: Rec, ghost live: Memory, ghost rec: Owner, ghost con: Owner)
      returns (t: Slots)
    requires OneEach(slots) && Table(View(slots), live, rec, con) && Twins(s, n)
    ensures OneEach(t) && View(t) == Added(View(slots), s, n)
    ensures s.name in View(t) && View(t)[s.name].number == s.number && View(t)[s.name].content == s.content
    ensures LE32(s.number) in View(t) && View(t)[LE32(s.number)].number == s.number
            && View(t)[LE32(s.number)].content == s.content
  {
    hide View, Table, OneEach, LE32, Added;
    ghost var more := Taking(live, s, n, rec, con);
    TableReadable(slots, live, rec, con);
    t := Put(slots, s, live);
    StillReadable(slots, t, s, live, more);
    t := Put(t, n, more);
    AddedIs(View(slots), s, n);
  }

  lemma StillReadable(s: Slots, t: Slots, r: Rec, live: Memory, more: Memory)
    requires OneEach(s) && Readable(s, live) && OneEach(t) && View(t) == View(s)[KeyOf(r) := r]
    requires r.at in more && r.content in more && forall a :: a in live ==> a in more
    ensures Readable(t, more)
  {
    hide View, OneEach, KeyOf;
    forall i | 0 <= i < |t| && t[i].Some?
      ensures t[i].value.at in more && t[i].value.content in more
    {
      AtSlot(t, i);
      var k := KeyOf(t[i].value);
      if k != KeyOf(r) {
        ViewHas(s, k);
      }
    }
  }

  lemma AddedIs(v: Records, s: Rec, n: Rec)
    requires Twins(s, n)
    ensures var w := Added(v, s, n);
            && v[KeyOf(s) := s][KeyOf(n) := n] == w
            && s.name in w && w[s.name].number == s.number && w[s.name].content == s.content
            && LE32(s.number) in w && w[LE32(s.number)].number == s.number && w[LE32(s.number)].content == s.content
  {
    hide LE32;
  }

  /** Half way through a table of indexes that was `was` in memory `live`. */
  ghost predicate Draining(was: Records, live: Memory, table: Slots, less: Memory, c: nat) {
    && IndexTable(table, less, c) && Trimmed(live, less, c)
    && (forall k :: k in View(table) ==> k in was && View(table)[k] == was[k])
    && (forall a :: a in live && live[a] == IndexRecord(c) && Unreachable(a, was) ==> a in less)
    && (Complete(was, live, IndexRecord(c), IndexContent(c)) ==>
          Complete(View(table), less, IndexRecord(c), IndexContent(c)))
  }

  lemma NothingFreed(table: Slots, live: Memory, c: nat)
    requires IndexTable(table, live, c)
    ensures Draining(View(table), live, table, live, c)
  {
    hide View, Table, Complete;
  }

  lemma DrainingStep(was: Records, live: Memory, table: Slots, pos: nat, rest: Slots, less: Memory, c: nat)
    requires Draining(was, live, table, less, c) && pos < |table| && table[pos].Some?
    requires OneEach(rest) && View(rest) == Without(View(table), table[pos].value)
    ensures var r := table[pos].value;
            && r.content in less && r.content !in Blocks(View(table), r)
            && (forall a :: a in Blocks(View(table), r) ==> a in less)
            && Draining(was, live, rest, less - ({r.content} + Blocks(View(table), r)), c)
  {
    hide View, Table, Complete, OneEach, LE32;
    var v, r := View(table), table[pos].value;
    var left := less - ({r.content} + Blocks(v, r));
    AtSlot(table, pos);
    IndexBlocks(v, less, r, c);
    assert left == less - {r.content} - Blocks(v, r);
    WithoutTable(v, less, r, IndexRecord(c), IndexContent(c));
    if Complete(was, live, IndexRecord(c), IndexContent(c)) {
      WithoutComplete(v, less, r, IndexRecord(c), IndexContent(c));
    }
  }

  lemma IndexBlocks(v: Records, live: Memory, r: Rec, c: nat)
    requires Table(v, live, IndexRecord(c), IndexContent(c)) && KeyOf(r) in v && v[KeyOf(r)] == r
    ensures forall a :: a in Blocks(v, r) ==> a in live && live[a] == IndexRecord(c)
    ensures r.content in live && live[r.content] == IndexContent(c)
  {
    hide LE32, Separate;
  }

  lemma Drained(was: Slots, live: Memory, table: Slots, less: Memory, c: nat)
    requires OneEach(was) && Draining(View(was), live, table, less, c)
    requires forall i :: 0 <= i < |table| ==> table[i].None?
    ensures IndexesFreed(was, live, less, c)
  {
    hide View, Table, OneEach, Trimmed;
    EmptyView(table);
  }

  lemma StillLive(v: Records, live: Memory, less: Memory, indexes: map<nat, Slots>, r: Rec)
    requires Table(v, live, SpaceRecord, SpaceContent) && KeyOf(r) in v && v[KeyOf(r)] == r
    requires r.content in indexes && OneEach(indexes[r.content])
             && IndexesFreed(indexes[r.content], live, less, r.content)
    ensures r.content in less && r.content !in Blocks(v, r) && forall a :: a in Blocks(v, r) ==> a in less
  {
    hide Table, Blocks, View, OneEach, KeyOf;
    BlocksAre(v, live, r);
  }

  lemma HeldBy(v: Records, live: Memory, k: bytes)
    requires Table(v, live, SpaceRecord, SpaceContent) && k in v
    ensures v[k].content in live && live[v[k].content] == SpaceContent
  {
    hide LE32, Separate;
  }

  lemma SpaceIds(m: Mp)
    ensures SpaceDefOf(m).Some? ==> SpaceDefOf(m).value.id < TWO_32
  {
    hide FormatOk;
  }

  lemma IndexIds(m: Mp)
    ensures IndexDefOf(m).Some? ==> IndexDefOf(m).value.id < TWO_32 && IndexDefOf(m).value.space < TWO_32
  {
    hide PartsOf;
  }

  lemma LongEnough(ms: seq<Mp>, width: nat)
    requires ms != []
    ensures |After(ms, width)| >= |ms| - 1
  {
  }

  lemma KnownOrNot(v: Records, live: Memory, rec: Owner, con: Owner, names: map<bytes, nat>, ids: set<nat>, n: nat)
    requires Table(v, live, rec, con) && Agrees(v, names, ids) && Apart(names, ids) && n < TWO_32
    ensures n in ids ==> LE32(n) in v && v[LE32(n)].number == n
    ensures n !in ids && LE32(n) !in names ==> LE32(n) !in v
  {
    hide Table, LE32;
    ApartLookups(v, live, rec, con, names, ids);
    IdsBound(v, names, ids);
    if LE32(n) in v && LE32(n) !in names {
      LE32Injective(n, v[LE32(n)].number);
    }
  }

  /** With NUL-free names and ids below 2^24 an asked name is never taken for an id. */
  lemma ReasonableAnswer(names: map<bytes, nat>, ids: set<nat>, key: bytes)
    requires 0 !in key && forall n :: n in ids ==> n < 0x100_0000
    ensures Answer(names, ids, key) == if key in names then Some(names[key]) else None
  {
    hide LE32;
    forall n | n in ids
      ensures LE32(n) != key
    {
      LE32TopByte(n);
      assert LE32(n)[3] in LE32(n);
    }
  }
}
