/**
 * The hash tables of the schema cache. A table holds two records for each definition, one keyed by
 * its name and one by the four bytes of its number, and both point to the same content. Blocks of
 * memory are numbered, and what is allocated is tracked so that every read and every release can
 * be shown to touch live memory.
 */
module SchemaTables {
  import opened Bytes

  /** `at` is the block of the record, `content` the blocks it shares with the other one. */
  datatype Rec = Rec(at: nat, byName: bool, name: bytes, number: nat, content: nat)

  /** What a live block is: index blocks belong to the content of one space. */
  datatype Owner =
    | SpaceRecord
    | SpaceContent
    | IndexRecord(space: nat)
    | IndexContent(space: nat)
    | Stray

  type Memory = map<nat, Owner>
  type Slots = seq<Option<Rec>>
  type Records = map<bytes, Rec>

  function KeyOf(r: Rec): bytes {
    if r.byName then r.name else LE32(r.number)
  }

  ghost predicate OneEach(s: Slots) {
    forall i, j :: 0 <= i < j < |s| && s[i].Some? && s[j].Some? ==> KeyOf(s[i].value) != KeyOf(s[j].value)
  }

  /** The table by key, whatever slots the records are in. */
  ghost function View(s: Slots): Records
    requires OneEach(s)
  {
    map i | 0 <= i < |s| && s[i].Some? :: KeyOf(s[i].value) := s[i].value
  }

  /** The number key of a record is in the record itself, the name key in its content. */
  ghost predicate Readable(s: Slots, live: Memory) {
    forall i :: 0 <= i < |s| && s[i].Some? ==> s[i].value.at in live && s[i].value.content in live
  }

  /** The slot of `key`, or the number of slots; looks at the keys of other records on the way. */
  method Find(s: Slots, key: bytes, ghost live: Memory) returns (i: nat)
    requires OneEach(s) && Readable(s, live)
    ensures i <= |s| && (i < |s| <==> key in View(s))
    ensures i < |s| ==> s[i].Some? && s[i].value == View(s)[key] && KeyOf(s[i].value) == key
  {
    i := 0;
    while i < |s|
      invariant i <= |s|
      invariant forall j :: 0 <= j < i && s[j].Some? ==> KeyOf(s[j].value) != key
    {
      if s[i].Some? && KeyOf(s[i].value) == key {
        return;
      }
      i := i + 1;
    }
  }

  /** Inserts or replaces; a new record goes to any free slot. */
  method Put(s: Slots, r: Rec, ghost live: Memory) returns (t: Slots)
    requires OneEach(s) && Readable(s, live)
    ensures OneEach(t) && View(t) == View(s)[KeyOf(r) := r]
  {
    hide KeyOf, View;
    var i := Find(s, KeyOf(r), live);
    if i < |s| {
      t := s[i := Some(r)];
    } else {
      var grown := s + [None];
      assert grown[|s|].None?;
      i :| 0 <= i < |grown| && grown[i].None?;
      t := grown[i := Some(r)];
    }
    PutView(s, i, r, t);
  }

  lemma ViewIs(s: Slots, v: Records)
    requires OneEach(s)
    requires forall i :: 0 <= i < |s| && s[i].Some? ==> KeyOf(s[i].value) in v && v[KeyOf(s[i].value)] == s[i].value
    requires forall k :: k in v ==> KeyOf(v[k]) == k && Some(v[k]) in s
    ensures View(s) == v
  {
    hide KeyOf;
    forall k | k in v
      ensures k in View(s)
    {
      var i :| 0 <= i < |s| && s[i] == Some(v[k]);
    }
  }

  lemma ViewHas(s: Slots, k: bytes)
    requires OneEach(s) && k in View(s)
    ensures KeyOf(View(s)[k]) == k && Some(View(s)[k]) in s
  {
    hide KeyOf;
    var i :| 0 <= i < |s| && s[i].Some? && KeyOf(s[i].value) == k;
    assert s[i] == Some(View(s)[k]);
  }

  lemma AtSlot(s: Slots, i: nat)
    requires OneEach(s) && i < |s| && s[i].Some?
    ensures KeyOf(s[i].value) in View(s) && View(s)[KeyOf(s[i].value)] == s[i].value
  {
    hide KeyOf;
  }

  lemma PutView(s: Slots, i: nat, r: Rec, t: Slots)
    requires OneEach(s)
    requires if i < |s| && s[i].Some? then KeyOf(s[i].value) == KeyOf(r) && t == s[i := Some(r)]
             else i <= |s| && KeyOf(r) !in View(s) && t == (s + [None])[i := Some(r)]
    ensures OneEach(t) && View(t) == View(s)[KeyOf(r) := r]
  {
    hide KeyOf, View;
    forall j | 0 <= j < |s| && s[j].Some?
      ensures KeyOf(s[j].value) in View(s) && View(s)[KeyOf(s[j].value)] == s[j].value
    {
      AtSlot(s, j);
    }
    assert t[i] == Some(r);
    forall k | k in View(s) && k != KeyOf(r)
      ensures KeyOf(View(s)[k]) == k && Some(View(s)[k]) in t
    {
      ViewHas(s, k);
      var j :| 0 <= j < |s| && s[j] == Some(View(s)[k]);
      assert t[j] == s[j];
    }
    ViewIs(t, View(s)[KeyOf(r) := r]);
  }

  lemma DeleteView(s: Slots, i: nat)
    requires OneEach(s) && i < |s| && s[i].Some?
    ensures OneEach(s[i := None]) && View(s[i := None]) == View(s) - {KeyOf(s[i].value)}
  {
    hide KeyOf, View;
    var t, key := s[i := None], KeyOf(s[i].value);
    forall j | 0 <= j < |s| && s[j].Some?
      ensures KeyOf(s[j].value) in View(s) && View(s)[KeyOf(s[j].value)] == s[j].value
    {
      AtSlot(s, j);
    }
    forall k | k in View(s) && k != key
      ensures KeyOf(View(s)[k]) == k && Some(View(s)[k]) in t
    {
      ViewHas(s, k);
      var j :| 0 <= j < |s| && s[j] == Some(View(s)[k]);
      assert t[j] == s[j];
    }
    ViewIs(t, View(s) - {key});
  }

  /** Finds the record with a key and takes it out of the table, if there is one. */
  method Delete(s: Slots, key: bytes, ghost live: Memory) returns (t: Slots, gone: Option<Rec>)
    requires OneEach(s) && Readable(s, live)
    ensures |t| == |s| && OneEach(t) && Readable(t, live)
    ensures View(t) == View(s) - {key}
    ensures gone == (if key in View(s) then Some(View(s)[key]) else None)
    ensures forall j :: 0 <= j < |s| ==> t[j] == s[j] || t[j].None?
  {
    hide KeyOf, View;
    var i := Find(s, key, live);
    if i == |s| {
      return s, None;
    }
    gone := s[i];
    t := s[i := None];
    DeleteView(s, i);
  }

  // ---------------------------------------------------------------- what a table owns

  /** Every record is live under its own key, and records share content only in pairs. */
  ghost predicate Table(v: Records, live: Memory, rec: Owner, con: Owner) {
    Held(v, live, rec, con) && Separate(v)
  }

  ghost predicate Held(v: Records, live: Memory, rec: Owner, con: Owner) {
    forall k :: k in v ==>
      && KeyOf(v[k]) == k && v[k].number < TWO_32
      && v[k].at in live && live[v[k].at] == rec
      && v[k].content in live && live[v[k].content] == con
  }

  ghost predicate Separate(v: Records) {
    forall j, k :: j in v && k in v && j != k ==>
      && v[j].at != v[k].at
      && (v[j].content == v[k].content ==> v[j].name == v[k].name && v[j].number == v[k].number)
  }

  /** Both records of every content are there, and nothing of the table's memory is out of reach. */
  ghost predicate Complete(v: Records, live: Memory, rec: Owner, con: Owner) {
    Paired(v) && RecordsReached(v, live, rec) && ContentsReached(v, live, con)
  }

  ghost predicate Paired(v: Records) {
    forall k {:trigger Matched(v, k)} :: k in v ==> Matched(v, k)
  }

  /** Both keys of the definition lead to its content. */
  ghost predicate Matched(v: Records, k: bytes)
    requires k in v
  {
    && v[k].name in v && v[v[k].name].content == v[k].content
    && LE32(v[k].number) in v && v[LE32(v[k].number)].content == v[k].content
  }

  ghost predicate RecordsReached(v: Records, live: Memory, rec: Owner) {
    forall a :: a in live && live[a] == rec ==> exists k :: k in v && v[k].at == a
  }

  ghost predicate ContentsReached(v: Records, live: Memory, con: Owner) {
    forall a :: a in live && live[a] == con ==> exists k :: k in v && v[k].content == a
  }

  /** A live record that no slot of the table leads to. */
  ghost predicate Unreachable(a: nat, v: Records) {
    forall k :: k in v ==> v[k].at != a
  }

  lemma TableReadable(s: Slots, live: Memory, rec: Owner, con: Owner)
    requires OneEach(s) && Table(View(s), live, rec, con)
    ensures Readable(s, live)
  {
    forall i | 0 <= i < |s| && s[i].Some?
      ensures s[i].value.at in live && s[i].value.content in live
    {
      assert KeyOf(s[i].value) in View(s);
    }
  }

  function BlockOf(r: Option<Rec>): set<nat> {
    if r.Some? then {r.value.at} else {}
  }

  /** What is left of a table when the definition of `r` has been taken out. */
  ghost function Without(v: Records, r: Rec): Records {
    v - {LE32(r.number)} - {r.name}
  }

  /** The blocks of the one or two records that were under the keys of `r`. */
  ghost function Blocks(v: Records, r: Rec): set<nat> {
    (if LE32(r.number) in v then {v[LE32(r.number)].at} else {})
    + (if r.name in v then {v[r.name].at} else {})
  }

  /** The records that stay have other content. */
  lemma OthersStay(v: Records, live: Memory, r: Rec, k: bytes, rec: Owner, con: Owner)
    requires Table(v, live, rec, con) && KeyOf(r) in v && v[KeyOf(r)] == r
    requires k in v && k != LE32(r.number) && k != r.name
    ensures v[k].content != r.content
  {
    hide LE32;
    assert k != KeyOf(r) && KeyOf(v[k]) == k;
  }

  /** Both keys of `r` leave the table, the number first; what was found is still to be released. */
  method Detach(table: Slots, pos: nat, ghost live: Memory, ghost rec: Owner, ghost con: Owner)
    returns (rest: Slots, one: Option<Rec>, two: Option<Rec>)
    requires OneEach(table) && Table(View(table), live, rec, con)
    requires pos < |table| && table[pos].Some?
    ensures var v, r := View(table), table[pos].value;
            && OneEach(rest) && View(rest) == Without(v, r)
            && BlockOf(one) + BlockOf(two) == Blocks(v, r) && BlockOf(one) !! BlockOf(two)
    ensures |rest| == |table| && rest[pos].None?
    ensures forall i :: 0 <= i < |table| && table[i].None? ==> rest[i].None?
  {
    hide View, OneEach, LE32, Table;
    var r := table[pos].value;
    TableReadable(table, live, rec, con);
    rest, one := Delete(table, LE32(r.number), live);
    rest, two := Delete(rest, r.name, live);
    OneSlotLess(table, rest, pos, live, rec, con);
  }

  lemma OneSlotLess(table: Slots, rest: Slots, pos: nat, live: Memory, rec: Owner, con: Owner)
    requires OneEach(table) && Table(View(table), live, rec, con) && pos < |table| == |rest| && table[pos].Some?
    requires OneEach(rest) && View(rest) == Without(View(table), table[pos].value)
    requires rest[pos] == table[pos] || rest[pos].None?
    ensures rest[pos].None?
    ensures var v, r := View(table), table[pos].value;
            LE32(r.number) in v && r.name in v && LE32(r.number) != r.name ==> v[LE32(r.number)].at != v[r.name].at
  {
    hide View, OneEach, LE32;
    if rest[pos].Some? {
      AtSlot(rest, pos);
    }
  }

  /** Taking out the definition of one record leaves a table whose memory is live. */
  lemma {:induction false} WithoutTable(v: Records, live: Memory, r: Rec, rec: Owner, con: Owner)
    requires rec != con && Table(v, live, rec, con) && KeyOf(r) in v && v[KeyOf(r)] == r
    ensures Table(Without(v, r), live - {r.content} - Blocks(v, r), rec, con)
  {
    hide KeyOf, LE32;
    var w, left := Without(v, r), live - {r.content} - Blocks(v, r);
    forall k | k in w
      ensures v[k].at in left && v[k].content in left
    {
      OthersStay(v, live, r, k, rec, con);
    }
  }

  lemma WithoutPaired(v: Records, live: Memory, r: Rec, rec: Owner, con: Owner)
    requires Table(v, live, rec, con) && KeyOf(r) in v && v[KeyOf(r)] == r && Paired(v)
    ensures Paired(Without(v, r))
  {
    hide KeyOf, LE32;
    var w := Without(v, r);
    forall k | k in w
      ensures Matched(w, k)
    {
      OthersStay(v, live, r, k, rec, con);
      assert Matched(v, k) && Matched(v, KeyOf(r));
    }
  }

  lemma WithoutReached(v: Records, live: Memory, r: Rec, rec: Owner, con: Owner)
    requires KeyOf(r) in v && v[KeyOf(r)] == r && Complete(v, live, rec, con)
    ensures RecordsReached(Without(v, r), live - {r.content} - Blocks(v, r), rec)
    ensures ContentsReached(Without(v, r), live - {r.content} - Blocks(v, r), con)
  {
    hide KeyOf, LE32;
    var w, left := Without(v, r), live - {r.content} - Blocks(v, r);
    assert Matched(v, KeyOf(r));
    forall a | a in left && left[a] == rec
      ensures exists k :: k in w && w[k].at == a
    {
      var k :| k in v && v[k].at == a;
      assert k in w;
    }
    forall a | a in left && left[a] == con
      ensures exists k :: k in w && w[k].content == a
    {
      var k :| k in v && v[k].content == a;
      assert k in w;
    }
  }

  /** If nothing was out of reach before, nothing is after. */
  lemma {:induction false} WithoutComplete(v: Records, live: Memory, r: Rec, rec: Owner, con: Owner)
    requires Table(v, live, rec, con) && KeyOf(r) in v && v[KeyOf(r)] == r && Complete(v, live, rec, con)
    ensures Complete(Without(v, r), live - {r.content} - Blocks(v, r), rec, con)
  {
    hide Paired, RecordsReached, ContentsReached, Table, Without;
    WithoutPaired(v, live, r, rec, con);
    WithoutReached(v, live, r, rec, con);
  }

  lemma EmptyView(s: Slots)
    requires forall i :: 0 <= i < |s| ==> s[i].None?
    ensures OneEach(s) && View(s) == map[]
  {
  }

  // ---------------------------------------------------------------- adding a definition

  /** The two records of one definition. */
  predicate Twins(s: Rec, n: Rec) {
    s.byName && !n.byName && s.at != n.at && s.name == n.name && s.number == n.number && s.content == n.content
  }

  function Added(v: Records, s: Rec, n: Rec): Records {
    v[KeyOf(s) := s][KeyOf(n) := n]
  }

  /** Memory with the blocks of a definition. */
  function Taking(live: Memory, s: Rec, n: Rec, rec: Owner, con: Owner): Memory {
    live[s.at := rec][n.at := rec][s.content := con]
  }

  predicate Unused(live: Memory, s: Rec, n: Rec) {
    && s.at !in live && n.at !in live && s.content !in live
    && s.content != s.at && s.content != n.at
  }

  /** No record is under either key, and the keys differ. */
  predicate NewKeys(v: Records, s: Rec, n: Rec) {
    KeyOf(s) !in v && KeyOf(n) !in v && KeyOf(s) != KeyOf(n)
  }

  lemma AddedTable(v: Records, live: Memory, s: Rec, n: Rec, rec: Owner, con: Owner)
    requires rec != con && Table(v, live, rec, con) && Twins(s, n) && s.number < TWO_32 && Unused(live, s, n)
    ensures Table(Added(v, s, n), Taking(live, s, n, rec, con), rec, con)
  {
    hide LE32;
    AddedHeld(v, live, s, n, rec, con);
    assert Separate(Added(v, s, n)) by {
      hide KeyOf;
    }
  }

  lemma AddedHeld(v: Records, live: Memory, s: Rec, n: Rec, rec: Owner, con: Owner)
    requires Held(v, live, rec, con) && Twins(s, n) && s.number < TWO_32 && Unused(live, s, n)
    ensures Held(Added(v, s, n), Taking(live, s, n, rec, con), rec, con)
  {
    hide KeyOf;
  }

  lemma AddedPaired(v: Records, s: Rec, n: Rec)
    requires Paired(v) && Twins(s, n) && NewKeys(v, s, n)
    ensures Paired(Added(v, s, n))
  {
    hide LE32;
    forall k | k in Added(v, s, n)
      ensures Matched(Added(v, s, n), k)
    {
      assert k in v ==> Matched(v, k);
    }
  }

  lemma AddedReached(v: Records, live: Memory, s: Rec, n: Rec, rec: Owner, con: Owner)
    requires rec != con && Twins(s, n) && Unused(live, s, n) && NewKeys(v, s, n)
    requires RecordsReached(v, live, rec) && ContentsReached(v, live, con)
    ensures RecordsReached(Added(v, s, n), Taking(live, s, n, rec, con), rec)
    ensures ContentsReached(Added(v, s, n), Taking(live, s, n, rec, con), con)
  {
    hide KeyOf;
    var w, more := Added(v, s, n), Taking(live, s, n, rec, con);
    assert KeyOf(s) in w && w[KeyOf(s)] == s && KeyOf(n) in w && w[KeyOf(n)] == n;
    forall a | a in more && more[a] == rec
      ensures exists k :: k in w && w[k].at == a
    {
      if a in live {
        var k :| k in v && v[k].at == a;
        assert k in w;
      }
    }
    forall a | a in more && more[a] == con
      ensures exists k :: k in w && w[k].content == a
    {
      if a in live {
        var k :| k in v && v[k].content == a;
        assert k in w;
      }
    }
  }

  lemma AddedComplete(v: Records, live: Memory, s: Rec, n: Rec, rec: Owner, con: Owner)
    requires rec != con && Twins(s, n) && Unused(live, s, n)
    requires Complete(v, live, rec, con) && NewKeys(v, s, n)
    ensures Complete(Added(v, s, n), Taking(live, s, n, rec, con), rec, con)
  {
    hide Paired, RecordsReached, ContentsReached, Added, Taking, NewKeys, Twins, Unused;
    AddedPaired(v, s, n);
    AddedReached(v, live, s, n, rec, con);
  }

  /** A replaced record: no slot leads to its block any more. */
  function Replaced(v: Records, s: Rec, n: Rec): nat {
    if KeyOf(s) in v then v[KeyOf(s)].at else if KeyOf(n) in v then v[KeyOf(n)].at else s.at
  }

  lemma AddedLoses(v: Records, live: Memory, s: Rec, n: Rec, rec: Owner, con: Owner)
    requires Table(v, live, rec, con) && Twins(s, n) && Unused(live, s, n)
    requires !NewKeys(v, s, n)
    ensures Unreachable(Replaced(v, s, n), Added(v, s, n))
    ensures var more := Taking(live, s, n, rec, con);
            Replaced(v, s, n) in more && more[Replaced(v, s, n)] == rec
  {
    hide LE32;
  }

  lemma AddedStillLost(v: Records, live: Memory, s: Rec, n: Rec, a: nat)
    requires a in live && Unreachable(a, v) && Unused(live, s, n)
    ensures Unreachable(a, Added(v, s, n))
  {
  }

  // ---------------------------------------------------------------- other memory

  /** The same blocks of the two kinds. */
  ghost predicate SameBlocks(a: Memory, b: Memory, rec: Owner, con: Owner) {
    && (forall x :: x in a && (a[x] == rec || a[x] == con) ==> x in b && b[x] == a[x])
    && (forall x :: x in b && (b[x] == rec || b[x] == con) ==> x in a && b[x] == a[x])
  }

  lemma TableFrame(v: Records, a: Memory, b: Memory, rec: Owner, con: Owner)
    requires SameBlocks(a, b, rec, con) && Table(v, a, rec, con)
    ensures Table(v, b, rec, con)
  {
    hide KeyOf, Separate;
  }

  lemma CompleteFrame(v: Records, a: Memory, b: Memory, rec: Owner, con: Owner)
    requires SameBlocks(a, b, rec, con) && Complete(v, a, rec, con)
    ensures Complete(v, b, rec, con)
  {
    hide Paired;
  }

  // ---------------------------------------------------------------- the two maps behind a table

  /** The table holds what two maps hold: `names` from names to numbers, and the known `ids`. */
  ghost predicate Agrees(v: Records, names: map<bytes, nat>, ids: set<nat>) {
    && (forall q :: q in names ==> q in v)
    && (forall n :: n in ids ==> n < TWO_32 && LE32(n) in v)
    && (forall k :: k in v ==> if v[k].byName then k in names && names[k] == v[k].number else v[k].number in ids)
  }

  /** No name is the four bytes of an id. */
  ghost predicate Apart(names: map<bytes, nat>, ids: set<nat>) {
    forall n :: n in ids ==> LE32(n) !in names
  }

  lemma AddedAgrees(v: Records, s: Rec, n: Rec, names: map<bytes, nat>, ids: set<nat>)
    requires Agrees(v, names, ids) && Twins(s, n) && s.number < TWO_32
    ensures Agrees(Added(v, s, n), names[s.name := s.number], ids + {s.number})
  {
    hide LE32;
  }

  /**
   * The one table answers every lookup by name and by number as the two maps do exactly when
   * every name that is the four bytes of an id belongs to that id.
   */
  lemma LookupsExactly(v: Records, live: Memory, rec: Owner, con: Owner, names: map<bytes, nat>, ids: set<nat>)
    requires Table(v, live, rec, con) && Agrees(v, names, ids)
    ensures (forall q :: q in names ==> v[q].number == names[q]) && (forall n :: n in ids ==> v[LE32(n)].number == n)
            <==> (forall n :: n in ids && LE32(n) in names ==> names[LE32(n)] == n)
  {
    hide LE32;
    forall k | k in v && !v[k].byName
      ensures LE32(v[k].number) == k && v[k].number in ids
    {
    }
    forall n | n in ids && !v[LE32(n)].byName
      ensures v[LE32(n)].number == n
    {
      LE32Injective(n, v[LE32(n)].number);
    }
  }

  /** When the keys stay apart, a key is found exactly if it is a name or the four bytes of an id. */
  lemma ApartLookups(v: Records, live: Memory, rec: Owner, con: Owner, names: map<bytes, nat>, ids: set<nat>)
    requires Table(v, live, rec, con) && Agrees(v, names, ids) && Apart(names, ids)
    ensures forall q :: q in names ==> q in v && v[q].byName && v[q].number == names[q]
    ensures forall n :: n in ids ==> LE32(n) in v && !v[LE32(n)].byName && v[LE32(n)].number == n
    ensures forall k :: k in v && k !in names ==> v[k].number in ids && LE32(v[k].number) == k
  {
    hide LE32;
    forall n | n in ids
      ensures v[LE32(n)].number == n
    {
      LE32Injective(n, v[LE32(n)].number);
    }
  }

  /** NUL-free names and ids below 2^24 are always apart. */
  lemma ReasonableApart(names: map<bytes, nat>, ids: set<nat>)
    requires forall q :: q in names ==> 0 !in q
    requires forall n :: n in ids ==> n < 0x100_0000
    ensures Apart(names, ids)
  {
    hide LE32;
    forall n | n in ids
      ensures LE32(n) !in names
    {
      LE32TopByte(n);
      assert LE32(n)[3] in LE32(n);
    }
  }
}
