/**
 * The schema cache: one byte-keyed table of spaces, each with a table of indexes, filled from
 * catalogue tuples, asked by name and by number, and flushed. `Model` is the simple form: a map
 * from names to ids, and for every known id a map from index names to index ids.
 */
module Schema {
  import opened Bytes
  import opened Wire
  import opened SchemaTuples
  import opened SchemaTables

  // ---------------------------------------------------------------- the simple form

  datatype IndexModel = IndexModel(names: map<bytes, nat>, ids: set<nat>)

  /**
   * `intact`: no block of memory has gone out of reach in all the history.
   * `apart`: since the last flush no key has been both a name and the four bytes of an id.
   */
  datatype Model = Model(names: map<bytes, nat>, spaces: map<nat, IndexModel>, intact: bool, apart: bool)

  const NO_INDEXES: IndexModel := IndexModel(map[], {})
  const NO_SCHEMA: Model := Model(map[], map[], true, true)

  /** A new name and id cannot be taken for an id and a name that are there. */
  ghost predicate KeepsApart(names: map<bytes, nat>, ids: set<nat>, name: bytes, id: nat) {
    LE32(id) != name && LE32(id) !in names && forall n :: n in ids ==> LE32(n) != name
  }

  ghost predicate IsNew(names: map<bytes, nat>, ids: set<nat>, name: bytes, id: nat) {
    name !in names && id !in ids && KeepsApart(names, ids, name, id)
  }

  ghost function SpaceStep(m: Model, d: SpaceDef): Model {
    Model(m.names[d.name := d.id], m.spaces[d.id := NO_INDEXES],
          m.intact && IsNew(m.names, m.spaces.Keys, d.name, d.id),
          m.apart && KeepsApart(m.names, m.spaces.Keys, d.name, d.id))
  }

  /** The space whose table an index goes to: a known id, or else the one whose name is its four bytes. */
  ghost function Target(m: Model, space: nat): Option<nat> {
    if space in m.spaces then Some(space)
    else if LE32(space) in m.names && m.names[LE32(space)] in m.spaces then Some(m.names[LE32(space)])
    else None
  }

  /** The flag tells whether there is such a space. */
  ghost function IndexStep(m: Model, d: IndexDef): (Model, bool) {
    match Target(m, d.space)
    case None => (m.(intact := false), false)
    case Some(n) =>
      var t := m.spaces[n];
      (Model(m.names, m.spaces[n := IndexModel(t.names[d.name := d.id], t.ids + {d.id})],
             m.intact && IsNew(t.names, t.ids, d.name, d.id),
             m.apart && d.space in m.spaces && KeepsApart(t.names, t.ids, d.name, d.id)),
       true)
  }

  /** Adding stops at the first tuple that does not decode; its memory is lost. */
  ghost function SpaceTuples(m: Model, ms: seq<Mp>, count: nat): (Model, bool)
    requires count <= |ms|
    decreases count
  {
    if count == 0 then (m, true)
    else if SpaceDefOf(ms[0]).None? then (m.(intact := m.intact && !Started(ms[0])), false)
    else SpaceTuples(SpaceStep(m, SpaceDefOf(ms[0]).value), After(ms, SPACE_FIELDS), count - 1)
  }

  ghost function IndexTuples(m: Model, ms: seq<Mp>, count: nat): (Model, bool)
    requires count <= |ms|
    decreases count
  {
    if count == 0 then (m, true)
    else if IndexDefOf(ms[0]).None? then (m.(intact := m.intact && !Started(ms[0])), false)
    else
      var next := IndexStep(m, IndexDefOf(ms[0]).value);
      if next.1 then IndexTuples(next.0, After(ms, INDEX_FIELDS), count - 1) else next
  }

  ghost function SpaceBatch(m: Model, data: bytes): (Model, bool) {
    var p := Parse(data);
    if p.Ok? && p.v.Arr? then SpaceTuples(m, p.v.items, |p.v.items|) else (m, false)
  }

  ghost function IndexBatch(m: Model, data: bytes): (Model, bool) {
    var p := Parse(data);
    if p.Ok? && p.v.Arr? then IndexTuples(m, p.v.items, |p.v.items|) else (m, false)
  }

  ghost function Flushed(m: Model): Model {
    m.(names := map[], spaces := map[], apart := true)
  }

  // ---------------------------------------------------------------- the state

  ghost predicate IndexTable(s: Slots, live: Memory, c: nat) {
    OneEach(s) && Table(View(s), live, IndexRecord(c), IndexContent(c))
  }

  /** Every pointer leads to live memory of the right kind. */
  ghost predicate Sound(spaces: Slots, indexes: map<nat, Slots>, live: Memory, next: nat) {
    && OneEach(spaces) && Table(View(spaces), live, SpaceRecord, SpaceContent)
    && (forall a :: a in live ==> a < next)
    && (forall c :: c in indexes <==> c in live && live[c] == SpaceContent)
    && (forall c :: c in indexes ==> IndexTable(indexes[c], live, c))
  }

  /** Every live block is reached from the table. */
  ghost predicate Kept(spaces: Slots, indexes: map<nat, Slots>, live: Memory)
    requires OneEach(spaces) && forall c :: c in indexes ==> OneEach(indexes[c])
  {
    && Complete(View(spaces), live, SpaceRecord, SpaceContent)
    && (forall c :: c in indexes ==> Complete(View(indexes[c]), live, IndexRecord(c), IndexContent(c)))
    && (forall a :: a in live ==> live[a] != Stray && (IndexBlock(live[a]) ==> live[a].space in indexes))
  }

  predicate IndexBlock(o: Owner) {
    o.IndexRecord? || o.IndexContent?
  }

  /** Block `o` is live, and nothing leads to it. */
  ghost predicate Gone(o: nat, spaces: Slots, indexes: map<nat, Slots>, live: Memory)
    requires OneEach(spaces) && forall c :: c in indexes ==> OneEach(indexes[c])
  {
    && o in live
    && match live[o] {
         case SpaceRecord => Unreachable(o, View(spaces))
         case IndexRecord(c) => c in indexes ==> Unreachable(o, View(indexes[c]))
         case Stray => true
         case _ => false
       }
  }

  ghost predicate IndexMirror(v: Records, indexes: map<nat, Slots>, n: nat, t: IndexModel) {
    && LE32(n) in v && v[LE32(n)].content in indexes
    && OneEach(indexes[v[LE32(n)].content])
    && Agrees(View(indexes[v[LE32(n)].content]), t.names, t.ids)
    && Apart(t.names, t.ids)
  }

  /** The tables of indexes follow the simple form: no key was read both ways, or no record was ever replaced. */
  predicate Tied(m: Model) {
    m.apart || m.intact
  }

  /** The tables and the simple form say the same. */
  ghost predicate Mirrors(v: Records, indexes: map<nat, Slots>, m: Model) {
    && Agrees(v, m.names, m.spaces.Keys)
    && (forall q :: q in m.names ==> m.names[q] in m.spaces)
    && (Tied(m) ==>
          && Apart(m.names, m.spaces.Keys)
          && forall n :: n in m.spaces ==> IndexMirror(v, indexes, n, m.spaces[n]))
  }

  /** `mh_new`: three free slots. */
  const NEW_TABLE: Slots := [None, None, None]

  // ---------------------------------------------------------------- adding a space

  predicate Allocated(next: nat, s: Rec, n: Rec) {
    s.at == next && n.at == next + 1 && s.content == next + 2
  }

  lemma SpaceSound(spaces: Slots, indexes: map<nat, Slots>, live: Memory, next: nat, s: Rec, n: Rec, t: Slots)
    requires Sound(spaces, indexes, live, next) && Twins(s, n) && s.number < TWO_32 && Allocated(next, s, n)
    requires OneEach(t) && View(t) == Added(View(spaces), s, n)
    ensures Sound(t, indexes[s.content := NEW_TABLE], Taking(live, s, n, SpaceRecord, SpaceContent), next + 3)
  {
    hide View, Table, OneEach, Added, LE32;
    var more := Taking(live, s, n, SpaceRecord, SpaceContent);
    AddedTable(View(spaces), live, s, n, SpaceRecord, SpaceContent);
    forall c | c in indexes
      ensures IndexTable(indexes[c], more, c)
    {
      TableFrame(View(indexes[c]), live, more, IndexRecord(c), IndexContent(c));
    }
    NewTable(more, s.content);
  }

  lemma NewTable(live: Memory, c: nat)
    ensures IndexTable(NEW_TABLE, live, c) && View(NEW_TABLE) == map[]
  {
    EmptyView(NEW_TABLE);
  }

  lemma SpaceKept(spaces: Slots, indexes: map<nat, Slots>, live: Memory, next: nat, s: Rec, n: Rec, t: Slots)
    requires Sound(spaces, indexes, live, next) && Twins(s, n) && Allocated(next, s, n)
    requires OneEach(t) && View(t) == Added(View(spaces), s, n)
    requires Kept(spaces, indexes, live) && NewKeys(View(spaces), s, n)
    ensures OneEach(NEW_TABLE)
            && Kept(t, indexes[s.content := NEW_TABLE], Taking(live, s, n, SpaceRecord, SpaceContent))
  {
    hide View, Table, OneEach, Added, LE32, Complete, NewKeys;
    var more, tables := Taking(live, s, n, SpaceRecord, SpaceContent), indexes[s.content := NEW_TABLE];
    AddedComplete(View(spaces), live, s, n, SpaceRecord, SpaceContent);
    NewTable(more, s.content);
    forall c | c in tables
      ensures Complete(View(tables[c]), more, IndexRecord(c), IndexContent(c))
    {
      if c == s.content {
        NewSpaceKeepsNothing(spaces, indexes, live, next, s, n);
      } else {
        SpaceKeepsIndexes(indexes, live, next, s, n, c);
      }
    }
  }

  /** Tables of indexes do not see the blocks of a new space. */
  lemma SpaceFrame(live: Memory, next: nat, s: Rec, n: Rec, c: nat)
    requires (forall a :: a in live ==> a < next) && Allocated(next, s, n)
    ensures SameBlocks(live, Taking(live, s, n, SpaceRecord, SpaceContent), IndexRecord(c), IndexContent(c))
  {
  }

  lemma SpaceKeepsIndexes(indexes: map<nat, Slots>, live: Memory, next: nat, s: Rec, n: Rec, c: nat)
    requires (forall a :: a in live ==> a < next) && Allocated(next, s, n)
    requires c in indexes && OneEach(indexes[c]) && Complete(View(indexes[c]), live, IndexRecord(c), IndexContent(c))
    ensures Complete(View(indexes[c]), Taking(live, s, n, SpaceRecord, SpaceContent), IndexRecord(c), IndexContent(c))
  {
    hide View, OneEach, Complete, SameBlocks, Taking;
    SpaceFrame(live, next, s, n, c);
    CompleteFrame(View(indexes[c]), live, Taking(live, s, n, SpaceRecord, SpaceContent), IndexRecord(c),
      IndexContent(c));
  }

  lemma NewSpaceKeepsNothing(spaces: Slots, indexes: map<nat, Slots>, live: Memory, next: nat, s: Rec, n: Rec)
    requires Sound(spaces, indexes, live, next) && Kept(spaces, indexes, live) && Allocated(next, s, n)
    ensures var c, more := s.content, Taking(live, s, n, SpaceRecord, SpaceContent);
            Complete(map[], more, IndexRecord(c), IndexContent(c))
  {
    hide View, Table, OneEach, Complete, SameBlocks, Taking;
    var c := s.content;
    NothingForNew(spaces, indexes, live, next, c);
    NothingComplete(live, IndexRecord(c), IndexContent(c));
    SpaceFrame(live, next, s, n, c);
    CompleteFrame(map[], live, Taking(live, s, n, SpaceRecord, SpaceContent), IndexRecord(c), IndexContent(c));
  }

  lemma NothingForNew(spaces: Slots, indexes: map<nat, Slots>, live: Memory, next: nat, c: nat)
    requires Sound(spaces, indexes, live, next) && Kept(spaces, indexes, live) && c >= next
    ensures forall a :: a in live ==> live[a] != IndexRecord(c) && live[a] != IndexContent(c)
  {
    hide View, Table, OneEach, Complete;
  }

  lemma NothingComplete(live: Memory, rec: Owner, con: Owner)
    requires forall a :: a in live ==> live[a] != rec && live[a] != con
    ensures Complete(map[], live, rec, con)
  {
  }

  lemma SpaceGone(o: nat, spaces: Slots, indexes: map<nat, Slots>, live: Memory, next: nat, s: Rec, n: Rec, t: Slots)
    requires Sound(spaces, indexes, live, next) && Twins(s, n) && Allocated(next, s, n)
    requires OneEach(t) && View(t) == Added(View(spaces), s, n)
    requires Gone(o, spaces, indexes, live)
    ensures OneEach(NEW_TABLE)
    ensures Gone(o, t, indexes[s.content := NEW_TABLE], Taking(live, s, n, SpaceRecord, SpaceContent))
  {
    hide View, Table, OneEach, Added, LE32;
    NewTable(live, s.content);
    if live[o].SpaceRecord? {
      AddedStillLost(View(spaces), live, s, n, o);
    }
  }

  lemma SpaceLoses(spaces: Slots, indexes: map<nat, Slots>, live: Memory, next: nat, s: Rec, n: Rec, t: Slots)
    requires Sound(spaces, indexes, live, next) && Twins(s, n) && Allocated(next, s, n)
    requires OneEach(t) && View(t) == Added(View(spaces), s, n)
    requires !NewKeys(View(spaces), s, n)
    ensures OneEach(NEW_TABLE)
    ensures Gone(Replaced(View(spaces), s, n), t, indexes[s.content := NEW_TABLE],
            Taking(live, s, n, SpaceRecord, SpaceContent))
  {
    hide View, Table, OneEach, Added, LE32, NewKeys, Replaced, KeyOf;
    AddedLoses(View(spaces), live, s, n, SpaceRecord, SpaceContent);
    NewTable(live, s.content);
  }

  lemma KeysAreNew(v: Records, live: Memory, rec: Owner, con: Owner, names: map<bytes, nat>, ids: set<nat>, s: Rec,
      n: Rec)
    requires Table(v, live, rec, con) && Agrees(v, names, ids) && Twins(s, n) && s.number < TWO_32
    ensures NewKeys(v, s, n) <==> IsNew(names, ids, s.name, s.number)
  {
    hide LE32, Separate;
    if KeyOf(s) in v && !v[KeyOf(s)].byName {
      assert LE32(v[KeyOf(s)].number) == s.name && v[KeyOf(s)].number in ids;
    }
    if KeyOf(n) in v && !v[KeyOf(n)].byName {
      LE32Injective(v[KeyOf(n)].number, n.number);
    }
  }

  lemma SpaceMirrors(spaces: Slots, indexes: map<nat, Slots>, live: Memory, next: nat, m: Model, s: Rec, n: Rec)
    requires Sound(spaces, indexes, live, next) && Twins(s, n) && s.number < TWO_32 && Allocated(next, s, n)
    requires Mirrors(View(spaces), indexes, m)
    ensures Mirrors(Added(View(spaces), s, n), indexes[s.content := NEW_TABLE],
            SpaceStep(m, SpaceDef(s.number, s.name)))
  {
    hide View, Table, OneEach, LE32, Agrees, IsNew;
    var v, w, m' := View(spaces), Added(View(spaces), s, n), SpaceStep(m, SpaceDef(s.number, s.name));
    var tables := indexes[s.content := NEW_TABLE];
    AddedAgrees(v, s, n, m.names, m.spaces.Keys);
    assert m.spaces.Keys + {s.number} == m'.spaces.Keys;
    NewTable(live, s.content);
    if Tied(m') {
      ApartBy(m, SpaceDef(s.number, s.name));
      forall i | i in m'.spaces
        ensures IndexMirror(w, tables, i, m'.spaces[i])
      {
        if i == s.number {
          NothingAgrees();
        } else {
          IdsBound(v, m.names, m.spaces.Keys);
          if LE32(i) == LE32(s.number) {
            LE32Injective(i, s.number);
          }
          assert IndexMirror(v, indexes, i, m.spaces[i]);
        }
      }
    }
  }

  lemma ApartBy(m: Model, d: SpaceDef)
    requires Tied(SpaceStep(m, d))
    ensures Tied(m) && KeepsApart(m.names, m.spaces.Keys, d.name, d.id)
  {
    hide LE32, KeepsApart;
  }

  lemma IdsBound(v: Records, names: map<bytes, nat>, ids: set<nat>)
    requires Agrees(v, names, ids)
    ensures forall n :: n in ids ==> n < TWO_32
  {
  }

  lemma NothingAgrees()
    ensures Agrees(map[], map[], {}) && Apart(map[], {})
  {
  }

  // ---------------------------------------------------------------- adding an index

  /** Other tables do not see the blocks of a new index. */
  lemma IndexFrame(live: Memory, next: nat, s: Rec, n: Rec, c: nat, rec: Owner, con: Owner)
    requires (forall a :: a in live ==> a < next) && Allocated(next, s, n)
    requires {IndexRecord(c), IndexContent(c)} !! {rec, con}
    ensures SameBlocks(live, Taking(live, s, n, IndexRecord(c), IndexContent(c)), rec, con)
  {
  }

  lemma IndexSound(spaces: Slots, indexes: map<nat, Slots>, live: Memory, next: nat, s: Rec, n: Rec, c: nat, t: Slots)
    requires Sound(spaces, indexes, live, next) && Twins(s, n) && s.number < TWO_32 && Allocated(next, s, n)
    requires c in indexes && OneEach(indexes[c]) && OneEach(t) && View(t) == Added(View(indexes[c]), s, n)
    ensures Sound(spaces, indexes[c := t], Taking(live, s, n, IndexRecord(c), IndexContent(c)), next + 3)
  {
    hide View, Table, OneEach, Added, LE32, SameBlocks;
    var more := Taking(live, s, n, IndexRecord(c), IndexContent(c));
    IndexFrame(live, next, s, n, c, SpaceRecord, SpaceContent);
    TableFrame(View(spaces), live, more, SpaceRecord, SpaceContent);
    forall x | x in indexes && x != c
      ensures IndexTable(indexes[x], more, x)
    {
      IndexFrame(live, next, s, n, c, IndexRecord(x), IndexContent(x));
      TableFrame(View(indexes[x]), live, more, IndexRecord(x), IndexContent(x));
    }
    AddedTable(View(indexes[c]), live, s, n, IndexRecord(c), IndexContent(c));
  }

  lemma IndexKept(spaces: Slots, indexes: map<nat, Slots>, live: Memory, next: nat, s: Rec, n: Rec, c: nat, t: Slots)
    requires Sound(spaces, indexes, live, next) && Twins(s, n) && Allocated(next, s, n)
    requires c in indexes && OneEach(t) && View(t) == Added(View(indexes[c]), s, n)
    requires Kept(spaces, indexes, live) && NewKeys(View(indexes[c]), s, n)
    ensures Kept(spaces, indexes[c := t], Taking(live, s, n, IndexRecord(c), IndexContent(c)))
  {
    hide View, Table, OneEach, Added, LE32, Complete, NewKeys, SameBlocks;
    var more, tables := Taking(live, s, n, IndexRecord(c), IndexContent(c)), indexes[c := t];
    IndexFrame(live, next, s, n, c, SpaceRecord, SpaceContent);
    CompleteFrame(View(spaces), live, more, SpaceRecord, SpaceContent);
    forall x | x in indexes
      ensures Complete(View(tables[x]), more, IndexRecord(x), IndexContent(x))
    {
      if x == c {
        AddedComplete(View(indexes[c]), live, s, n, IndexRecord(c), IndexContent(c));
      } else {
        IndexFrame(live, next, s, n, c, IndexRecord(x), IndexContent(x));
        CompleteFrame(View(indexes[x]), live, more, IndexRecord(x), IndexContent(x));
      }
    }
  }

  lemma IndexGone(o: nat, spaces: Slots, indexes: map<nat, Slots>, live: Memory, next: nat, s: Rec, n: Rec, c: nat,
      t: Slots)
    requires Sound(spaces, indexes, live, next) && Twins(s, n) && Allocated(next, s, n)
    requires c in indexes && OneEach(t) && View(t) == Added(View(indexes[c]), s, n)
    requires Gone(o, spaces, indexes, live)
    ensures Gone(o, spaces, indexes[c := t], Taking(live, s, n, IndexRecord(c), IndexContent(c)))
  {
    hide View, Table, OneEach, Added, LE32;
    if live[o] == IndexRecord(c) {
      AddedStillLost(View(indexes[c]), live, s, n, o);
    }
  }

  lemma IndexLoses(spaces: Slots, indexes: map<nat, Slots>, live: Memory, next: nat, s: Rec, n: Rec, c: nat, t: Slots)
    requires Sound(spaces, indexes, live, next) && Twins(s, n) && Allocated(next, s, n)
    requires c in indexes && OneEach(t) && View(t) == Added(View(indexes[c]), s, n)
    requires !NewKeys(View(indexes[c]), s, n)
    ensures var more := Taking(live, s, n, IndexRecord(c), IndexContent(c));
            Gone(Replaced(View(indexes[c]), s, n), spaces, indexes[c := t], more)
  {
    hide View, Table, OneEach, Added, LE32, NewKeys, Replaced, KeyOf;
    AddedLoses(View(indexes[c]), live, s, n, IndexRecord(c), IndexContent(c));
  }

  /** The record found for an index and its target lead to the same content. */
  ghost predicate Leads(v: Records, m: Model, d: IndexDef)
    requires LE32(d.space) in v
  {
    Target(m, d.space).Some? &&
    var n := Target(m, d.space).value;
    (m.intact || (m.apart && d.space in m.spaces)) ==>
      LE32(n) in v && v[LE32(n)].content == v[LE32(d.space)].content
  }

  lemma FoundLeads(v: Records, live: Memory, m: Model, d: IndexDef)
    requires Table(v, live, SpaceRecord, SpaceContent) && Agrees(v, m.names, m.spaces.Keys)
    requires forall q :: q in m.names ==> m.names[q] in m.spaces
    requires m.intact ==> Paired(v)
    requires LE32(d.space) in v && d.space < TWO_32
    ensures Leads(v, m, d)
  {
    hide LE32, Separate, Paired;
    var k := LE32(d.space);
    if !v[k].byName {
      LE32Injective(d.space, v[k].number);
    } else if m.intact && d.space !in m.spaces {
      PairedAt(v, k);
    }
  }

  lemma PairedAt(v: Records, k: bytes)
    requires Paired(v) && k in v
    ensures Matched(v, k)
  {
  }

  lemma {:induction false} IndexMirrors(spaces: Slots, indexes: map<nat, Slots>, live: Memory, next: nat, m: Model,
      d: IndexDef, s: Rec, n: Rec, t: Slots)
    requires Sound(spaces, indexes, live, next) && Mirrors(View(spaces), indexes, m)
    requires Twins(s, n) && s.name == d.name && s.number == d.id < TWO_32
    requires LE32(d.space) in View(spaces) && Leads(View(spaces), m, d)
             && View(spaces)[LE32(d.space)].content in indexes
    requires var c := View(spaces)[LE32(d.space)].content; OneEach(t) && View(t) == Added(View(indexes[c]), s, n)
    ensures Mirrors(View(spaces), indexes[View(spaces)[LE32(d.space)].content := t], IndexStep(m, d).0)
  {
    hide View, OneEach, LE32, Agrees, IsNew, Added, Table, Separate, IndexMirror;
    var v, m' := View(spaces), IndexStep(m, d).0;
    var c := v[LE32(d.space)].content;
    assert m'.spaces.Keys == m.spaces.Keys;
    if Tied(m') {
      forall i | i in m'.spaces
        ensures IndexMirror(v, indexes[c := t], i, m'.spaces[i])
      {
        IndexMirrorsOne(v, indexes, live, m, d, s, n, t, i);
      }
    }
  }

  lemma NewIsApart(names: map<bytes, nat>, ids: set<nat>, name: bytes, id: nat)
    requires IsNew(names, ids, name, id)
    ensures KeepsApart(names, ids, name, id)
  {
  }

  lemma IndexMirrorsOne(v: Records, indexes: map<nat, Slots>, live: Memory, m: Model, d: IndexDef, s: Rec, n: Rec,
      t: Slots, i: nat)
    requires Table(v, live, SpaceRecord, SpaceContent) && Mirrors(v, indexes, m) && Tied(m)
    requires Twins(s, n) && s.name == d.name && s.number == d.id < TWO_32
    requires LE32(d.space) in v && Leads(v, m, d) && v[LE32(d.space)].content in indexes
    requires OneEach(indexes[v[LE32(d.space)].content])
    requires Tied(IndexStep(m, d).0) && i in m.spaces
    requires OneEach(t) && View(t) == Added(View(indexes[v[LE32(d.space)].content]), s, n)
    ensures IndexMirror(v, indexes[v[LE32(d.space)].content := t], i, IndexStep(m, d).0.spaces[i])
  {
    hide View, OneEach, LE32, Agrees, IsNew, Added, Table;
    var target := Target(m, d.space).value;
    var k := m.spaces[target];
    var c := v[LE32(d.space)].content;
    assert IndexMirror(v, indexes, i, m.spaces[i]);
    assert IndexMirror(v, indexes, target, k);
    if i == target {
      if IsNew(k.names, k.ids, d.name, d.id) {
        NewIsApart(k.names, k.ids, d.name, d.id);
      }
      AddedAgrees(View(indexes[c]), s, n, k.names, k.ids);
    } else {
      OtherContent(v, live, m, i, target);
    }
  }

  /** Two known ids never share content. */
  lemma OtherContent(v: Records, live: Memory, m: Model, i: nat, j: nat)
    requires Table(v, live, SpaceRecord, SpaceContent) && Agrees(v, m.names, m.spaces.Keys)
             && Apart(m.names, m.spaces.Keys)
    requires i in m.spaces && j in m.spaces && i != j
    ensures LE32(i) in v && LE32(j) in v && v[LE32(i)].content != v[LE32(j)].content
  {
    hide LE32, Held;
    ApartLookups(v, live, SpaceRecord, SpaceContent, m.names, m.spaces.Keys);
    assert v[LE32(i)].number == i && v[LE32(j)].number == j;
  }

  // ---------------------------------------------------------------- losing a block, taking a space out

  lemma StraySound(spaces: Slots, indexes: map<nat, Slots>, live: Memory, next: nat)
    requires Sound(spaces, indexes, live, next)
    ensures Sound(spaces, indexes, live[next := Stray], next + 1)
    ensures Gone(next, spaces, indexes, live[next := Stray])
  {
    hide View, Table, OneEach;
    var more := live[next := Stray];
    assert SameBlocks(live, more, SpaceRecord, SpaceContent);
    TableFrame(View(spaces), live, more, SpaceRecord, SpaceContent);
    forall c | c in indexes
      ensures IndexTable(indexes[c], more, c)
    {
      assert SameBlocks(live, more, IndexRecord(c), IndexContent(c));
      TableFrame(View(indexes[c]), live, more, IndexRecord(c), IndexContent(c));
    }
  }

  lemma StrayGone(o: nat, spaces: Slots, indexes: map<nat, Slots>, live: Memory, next: nat)
    requires Sound(spaces, indexes, live, next) && Gone(o, spaces, indexes, live)
    ensures Gone(o, spaces, indexes, live[next := Stray])
  {
    hide View, Table, OneEach;
  }

  /** Only index blocks of space content `c` have been released. */
  ghost predicate Trimmed(live: Memory, less: Memory, c: nat) {
    && (forall a :: a in less ==> a in live && less[a] == live[a])
    && (forall a :: a in live && a !in less ==> live[a] == IndexRecord(c) || live[a] == IndexContent(c))
  }

  lemma TrimmedFrame(live: Memory, less: Memory, c: nat, freed: set<nat>, rec: Owner, con: Owner)
    requires Trimmed(live, less, c) && {IndexRecord(c), IndexContent(c)} !! {rec, con}
    requires forall a :: a in freed && a in live ==> live[a] != rec && live[a] != con
    ensures SameBlocks(live, less - freed, rec, con)
  {
  }

  lemma BlocksAre(v: Records, live: Memory, r: Rec)
    requires Table(v, live, SpaceRecord, SpaceContent) && KeyOf(r) in v && v[KeyOf(r)] == r
    ensures forall a :: a in {r.content} + Blocks(v, r) ==> a in live && (live[a].SpaceRecord? || live[a].SpaceContent?)
    ensures forall a :: a in Blocks(v, r) ==> live[a].SpaceRecord?
    ensures live[r.content].SpaceContent?
  {
    hide LE32, Separate;
  }

  lemma OutSound(spaces: Slots, rest: Slots, indexes: map<nat, Slots>, live: Memory, less: Memory, next: nat, r: Rec)
    requires Sound(spaces, indexes, live, next) && KeyOf(r) in View(spaces) && View(spaces)[KeyOf(r)] == r
    requires OneEach(rest) && View(rest) == Without(View(spaces), r) && Trimmed(live, less, r.content)
    ensures Sound(rest, indexes - {r.content}, less - ({r.content} + Blocks(View(spaces), r)), next)
  {
    hide View, Table, OneEach, Without, Blocks, SameBlocks, KeyOf;
    var v, c := View(spaces), r.content;
    var freed := {c} + Blocks(v, r);
    BlocksAre(v, live, r);
    TrimmedFrame(live, less, c, {}, SpaceRecord, SpaceContent);
    assert less - {} == less;
    TableFrame(v, live, less, SpaceRecord, SpaceContent);
    WithoutTable(v, less, r, SpaceRecord, SpaceContent);
    assert less - {c} - Blocks(v, r) == less - freed;
    forall x | x in indexes && x != c
      ensures IndexTable(indexes[x], less - freed, x)
    {
      TrimmedFrame(live, less, c, freed, IndexRecord(x), IndexContent(x));
      TableFrame(View(indexes[x]), live, less - freed, IndexRecord(x), IndexContent(x));
    }
  }

  lemma OutKept(spaces: Slots, rest: Slots, indexes: map<nat, Slots>, live: Memory, less: Memory, next: nat, r: Rec)
    requires Sound(spaces, indexes, live, next) && KeyOf(r) in View(spaces) && View(spaces)[KeyOf(r)] == r
    requires OneEach(rest) && View(rest) == Without(View(spaces), r) && Trimmed(live, less, r.content)
    requires forall a :: a in less ==> less[a] != IndexRecord(r.content) && less[a] != IndexContent(r.content)
    requires Kept(spaces, indexes, live)
    ensures Kept(rest, indexes - {r.content}, less - ({r.content} + Blocks(View(spaces), r)))
  {
    hide View, Table, OneEach, Without, Blocks, SameBlocks, KeyOf, Complete;
    var v, c := View(spaces), r.content;
    var freed := {c} + Blocks(v, r);
    BlocksAre(v, live, r);
    TrimmedFrame(live, less, c, {}, SpaceRecord, SpaceContent);
    assert less - {} == less;
    TableFrame(v, live, less, SpaceRecord, SpaceContent);
    CompleteFrame(v, live, less, SpaceRecord, SpaceContent);
    WithoutComplete(v, less, r, SpaceRecord, SpaceContent);
    assert less - {c} - Blocks(v, r) == less - freed;
    forall x | x in indexes && x != c
      ensures Complete(View(indexes[x]), less - freed, IndexRecord(x), IndexContent(x))
    {
      TrimmedFrame(live, less, c, freed, IndexRecord(x), IndexContent(x));
      CompleteFrame(View(indexes[x]), live, less - freed, IndexRecord(x), IndexContent(x));
    }
  }

  lemma OutGone(o: nat, spaces: Slots, rest: Slots, indexes: map<nat, Slots>, live: Memory, less: Memory, next: nat,
      r: Rec)
    requires Sound(spaces, indexes, live, next) && KeyOf(r) in View(spaces) && View(spaces)[KeyOf(r)] == r
    requires OneEach(rest) && View(rest) == Without(View(spaces), r) && Trimmed(live, less, r.content)
    requires Gone(o, spaces, indexes, live)
    requires r.content in indexes && live[o] == IndexRecord(r.content) && Unreachable(o, View(indexes[r.content])) ==>
               o in less
    ensures Gone(o, rest, indexes - {r.content}, less - ({r.content} + Blocks(View(spaces), r)))
  {
    hide View, Table, OneEach, KeyOf, LE32;
    BlocksAre(View(spaces), live, r);
  }

  lemma EverythingFreed(spaces: Slots, indexes: map<nat, Slots>, live: Memory, next: nat)
    requires Sound(spaces, indexes, live, next) && Kept(spaces, indexes, live)
    requires forall i :: 0 <= i < |spaces| ==> spaces[i].None?
    ensures live == map[]
  {
    EmptyView(spaces);
  }

  // ---------------------------------------------------------------- all of it

  /** What holds between any two calls; `orphan` is a block that is out of reach, once there is one. */
  ghost predicate State(spaces: Slots, indexes: map<nat, Slots>, live: Memory, next: nat, orphan: Option<nat>,
      m: Model) {
    && Accounted(spaces, indexes, live, next, orphan)
    && Mirrors(View(spaces), indexes, m)
    && (orphan.None? <==> m.intact)
  }

  /** Live memory is reached from the table, all of it or all but what includes the orphan. */
  ghost predicate Accounted(spaces: Slots, indexes: map<nat, Slots>, live: Memory, next: nat, orphan: Option<nat>) {
    && Sound(spaces, indexes, live, next)
    && (if orphan.None? then Kept(spaces, indexes, live) else Gone(orphan.value, spaces, indexes, live))
  }

  /** The block that is out of reach already, or else this one. */
  function AnyOrphan(orphan: Option<nat>, block: nat): Option<nat> {
    if orphan.None? then Some(block) else orphan
  }

  ghost function NextOrphan(orphan: Option<nat>, v: Records, s: Rec, n: Rec): Option<nat> {
    if orphan.None? && !NewKeys(v, s, n) then Some(Replaced(v, s, n)) else orphan
  }

  lemma AbandonedState(spaces: Slots, indexes: map<nat, Slots>, live: Memory, next: nat, orphan: Option<nat>, m: Model)
    requires State(spaces, indexes, live, next, orphan, m)
    ensures State(spaces, indexes, live[next := Stray], next + 1, AnyOrphan(orphan, next), m.(intact := false))
  {
    hide View, Table, OneEach, Kept, Gone, Sound, Agrees;
    StraySound(spaces, indexes, live, next);
    if orphan.Some? {
      StrayGone(orphan.value, spaces, indexes, live, next);
    }
  }

  lemma SpaceState(spaces: Slots, indexes: map<nat, Slots>, live: Memory, next: nat, orphan: Option<nat>, m: Model,
      s: Rec, n: Rec, t: Slots)
    requires State(spaces, indexes, live, next, orphan, m)
    requires Twins(s, n) && s.number < TWO_32 && Allocated(next, s, n)
    requires OneEach(t) && View(t) == Added(View(spaces), s, n)
    ensures State(t, indexes[s.content := NEW_TABLE], Taking(live, s, n, SpaceRecord, SpaceContent), next + 3,
                  NextOrphan(orphan, View(spaces), s, n), SpaceStep(m, SpaceDef(s.number, s.name)))
  {
    hide View, Table, OneEach, Mirrors, Kept, Gone, LE32, IsNew, Added, NewKeys, Replaced, Taking, Allocated;
    var v := View(spaces);
    SpaceSound(spaces, indexes, live, next, s, n, t);
    SpaceMirrors(spaces, indexes, live, next, m, s, n);
    KeysAreNewSpace(spaces, indexes, live, next, m, s, n);
    if orphan.Some? {
      SpaceGone(orphan.value, spaces, indexes, live, next, s, n, t);
    } else if NewKeys(v, s, n) {
      SpaceKept(spaces, indexes, live, next, s, n, t);
    } else {
      SpaceLoses(spaces, indexes, live, next, s, n, t);
    }
  }

  lemma KeysAreNewSpace(spaces: Slots, indexes: map<nat, Slots>, live: Memory, next: nat, m: Model, s: Rec, n: Rec)
    requires Sound(spaces, indexes, live, next) && Mirrors(View(spaces), indexes, m) && Twins(s, n) && s.number < TWO_32
    ensures NewKeys(View(spaces), s, n) <==> IsNew(m.names, m.spaces.Keys, s.name, s.number)
  {
    hide View, OneEach, Table, NewKeys, IsNew, Agrees;
    KeysAreNew(View(spaces), live, SpaceRecord, SpaceContent, m.names, m.spaces.Keys, s, n);
  }

  lemma IndexState(spaces: Slots, indexes: map<nat, Slots>, live: Memory, next: nat, orphan: Option<nat>, m: Model,
      d: IndexDef, s: Rec, n: Rec, t: Slots)
    requires State(spaces, indexes, live, next, orphan, m)
    requires Twins(s, n) && s.name == d.name && s.number == d.id < TWO_32 && d.space < TWO_32 && Allocated(next, s, n)
    requires LE32(d.space) in View(spaces) && View(spaces)[LE32(d.space)].content in indexes
    requires var c := View(spaces)[LE32(d.space)].content;
             OneEach(indexes[c]) && OneEach(t) && View(t) == Added(View(indexes[c]), s, n)
    ensures IndexStep(m, d).1
    ensures var c := View(spaces)[LE32(d.space)].content;
            State(spaces, indexes[c := t], Taking(live, s, n, IndexRecord(c), IndexContent(c)), next + 3,
                  NextOrphan(orphan, View(indexes[c]), s, n), IndexStep(m, d).0)
  {
    hide View, Table, OneEach, Mirrors, Gone, LE32, IsNew, Added, NewKeys, Replaced, IndexStep, Taking, Allocated,
         Leads;
    var c := View(spaces)[LE32(d.space)].content;
    StateLeads(spaces, indexes, live, next, orphan, m, d);
    IndexStepKeeps(m, d, View(spaces));
    IndexSound(spaces, indexes, live, next, s, n, c, t);
    IndexMirrors(spaces, indexes, live, next, m, d, s, n, t);
    hide Kept;
    if orphan.Some? {
      IndexGone(orphan.value, spaces, indexes, live, next, s, n, c, t);
    } else {
      KeysAreNewIndex(spaces, indexes, live, next, m, d, s, n);
      if NewKeys(View(indexes[c]), s, n) {
        IndexKept(spaces, indexes, live, next, s, n, c, t);
      } else {
        IndexLoses(spaces, indexes, live, next, s, n, c, t);
      }
    }
  }

  lemma StateLeads(spaces: Slots, indexes: map<nat, Slots>, live: Memory, next: nat, orphan: Option<nat>, m: Model,
      d: IndexDef)
    requires State(spaces, indexes, live, next, orphan, m) && d.space < TWO_32 && LE32(d.space) in View(spaces)
    ensures Leads(View(spaces), m, d)
  {
    hide View, Table, OneEach, Gone, LE32, Leads, Agrees, Paired;
    FoundLeads(View(spaces), live, m, d);
  }

  lemma UnknownState(spaces: Slots, indexes: map<nat, Slots>, live: Memory, next: nat, orphan: Option<nat>, m: Model,
      d: IndexDef)
    requires State(spaces, indexes, live, next, orphan, m) && LE32(d.space) !in View(spaces)
    ensures !IndexStep(m, d).1
    ensures State(spaces, indexes, live[next := Stray], next + 1, AnyOrphan(orphan, next), IndexStep(m, d).0)
  {
    hide View, Table, OneEach, LE32, Sound, Kept, Gone, Apart;
    AbandonedState(spaces, indexes, live, next, orphan, m);
  }

  lemma KeysAreNewIndex(spaces: Slots, indexes: map<nat, Slots>, live: Memory, next: nat, m: Model, d: IndexDef,
      s: Rec, n: Rec)
    requires Sound(spaces, indexes, live, next) && Mirrors(View(spaces), indexes, m) && m.intact
    requires Twins(s, n) && s.name == d.name && s.number == d.id < TWO_32
    requires LE32(d.space) in View(spaces) && Leads(View(spaces), m, d)
             && View(spaces)[LE32(d.space)].content in indexes
    ensures var t := indexes[View(spaces)[LE32(d.space)].content];
            OneEach(t) && (IndexStep(m, d).0.intact <==> NewKeys(View(t), s, n))
  {
    hide View, OneEach, Table, NewKeys, IsNew, Agrees, LE32;
    var c, target := View(spaces)[LE32(d.space)].content, Target(m, d.space).value;
    var t := m.spaces[target];
    assert IndexMirror(View(spaces), indexes, target, t);
    KeysAreNew(View(indexes[c]), live, IndexRecord(c), IndexContent(c), t.names, t.ids, s, n);
  }

  /** A target is there, and what was lost stays lost. */
  lemma IndexStepKeeps(m: Model, d: IndexDef, v: Records)
    requires LE32(d.space) in v && Leads(v, m, d)
    ensures IndexStep(m, d).1 && (IndexStep(m, d).0.intact ==> m.intact)
  {
    hide LE32;
  }

  // ---------------------------------------------------------------- flushing

  /** What emptying a table of indexes has done to the memory. */
  ghost predicate IndexesFreed(table: Slots, live: Memory, less: Memory, c: nat)
    requires OneEach(table)
  {
    && Trimmed(live, less, c)
    && (forall a :: a in live && live[a] == IndexRecord(c) && Unreachable(a, View(table)) ==> a in less)
    && (Complete(View(table), live, IndexRecord(c), IndexContent(c)) ==>
          forall a :: a in less ==> less[a] != IndexRecord(c) && less[a] != IndexContent(c))
  }

  lemma OutAccounted(spaces: Slots, rest: Slots, indexes: map<nat, Slots>, live: Memory, less: Memory, next: nat,
      orphan: Option<nat>, r: Rec)
    requires Accounted(spaces, indexes, live, next, orphan) && KeyOf(r) in View(spaces) && View(spaces)[KeyOf(r)] == r
    requires OneEach(rest) && View(rest) == Without(View(spaces), r)
    requires r.content in indexes && IndexesFreed(indexes[r.content], live, less, r.content)
    ensures Accounted(rest, indexes - {r.content}, less - ({r.content} + Blocks(View(spaces), r)), next, orphan)
  {
    hide View, Table, OneEach, Without, Blocks, KeyOf, Complete, Trimmed, Unreachable;
    OutSound(spaces, rest, indexes, live, less, next, r);
    if orphan.None? {
      OutKept(spaces, rest, indexes, live, less, next, r);
    } else {
      OutGone(orphan.value, spaces, rest, indexes, live, less, next, r);
    }
  }

  lemma FlushedState(spaces: Slots, indexes: map<nat, Slots>, live: Memory, next: nat, orphan: Option<nat>, m: Model)
    requires Accounted(spaces, indexes, live, next, orphan) && (orphan.None? <==> m.intact)
    requires forall i :: 0 <= i < |spaces| ==> spaces[i].None?
    ensures State(spaces, indexes, live, next, orphan, Flushed(m))
    ensures orphan.None? <==> live == map[]
  {
    hide View, Table, OneEach;
    EmptyView(spaces);
    NothingAgrees();
    assert Flushed(m).spaces.Keys == {};
    if orphan.None? {
      EverythingFreed(spaces, indexes, live, next);
    }
  }
}
