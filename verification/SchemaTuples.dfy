/**
 * The tuples of the space and index catalogues. A definition is read straight from the bytes;
 * `SpaceDefOf` and `IndexDefOf` say which trees have one.
 */
module SchemaTuples {
  import opened Bytes
  import opened Wire
  import opened Unpacking
  import opened IndexParts

  datatype SpaceDef = SpaceDef(id: nat, name: bytes)
  datatype IndexDef = IndexDef(space: nat, id: nat, name: bytes, parts: seq<Part>)

  /** Fields of a tuple that are looked at or stepped over; the cursor stays before later ones. */
  const SPACE_FIELDS: nat := 7
  const INDEX_FIELDS: nat := 6

  function Least(a: nat, b: nat): nat {
    if a < b then a else b
  }

  // ---------------------------------------------------------------- the format of a space

  predicate FormatEntryOk(key: Mp, val: Mp) {
    && key.Str?
    && (key.s == Text("name") || key.s == Text("type") ==> val.Str?)
    && (key.s == Text("is_nullable") ==> val.Bool?)
  }

  predicate FormatFieldOk(m: Mp) {
    m.Map? && forall i :: 0 <= i < |m.kvs| / 2 ==> FormatEntryOk(m.kvs[2 * i..][0], m.kvs[2 * i..][1])
  }

  predicate FormatOk(m: Mp) {
    m.Arr? && forall i :: 0 <= i < |m.items| ==> FormatFieldOk(m.items[i])
  }

  /** `parse_schema_space_value_value`, with `left` elements still to be read. */
  method ReadFormatEntry(cur: Cursor, ghost left: nat) returns (ok: bool)
    requires cur.Valid() && left >= 2 && ParseSeq(cur.Rest(), left).Ok?
    modifies cur`pos
    ensures cur.Valid()
    ensures var p := old(ParseSeq(cur.Rest(), left));
            && ok == FormatEntryOk(p.v[0], p.v[1])
            && (ok ==> ParseSeq(cur.Rest(), left - 2) == Ok(p.v[2..], p.rest))
  {
    hide Head, Parse, ParseSeq, Text;
    ghost var all := ParseSeq(cur.Rest(), left);
    KeyTexts();
    assert all.v[0..] == all.v;
    FirstParsed(cur.Rest(), left, 0, all.v);
    var key := cur.DecodeHead();
    if !key.TStr? {
      return false;
    }
    FirstParsed(cur.Rest(), left - 1, 1, all.v);
    if key.s == Text("name") || key.s == Text("type") {
      var val := cur.DecodeHead();
      ok := val.TStr?;
    } else if key.s == Text("is_nullable") {
      var val := cur.DecodeHead();
      ok := val.TBool?;
    } else {
      cur.Next();
      ok := true;
    }
  }

  lemma KeyTexts()
    ensures Text("name") != Text("is_nullable") && Text("type") != Text("is_nullable")
  {
    assert |Text("name")| == 4 && |Text("type")| == 4 && |Text("is_nullable")| == 11;
  }

  method ReadFormatField(cur: Cursor, size: nat) returns (ok: bool)
    requires cur.Valid() && ParseSeq(cur.Rest(), 2 * size).Ok?
    modifies cur`pos
    ensures cur.Valid()
    ensures var p := old(ParseSeq(cur.Rest(), 2 * size));
            ok == FormatFieldOk(Map(p.v)) && (ok ==> cur.Rest() == p.rest)
  {
    hide Head, Parse, ParseSeq, FormatEntryOk;
    ghost var all := ParseSeq(cur.Rest(), 2 * size);
    assert all.v[0..] == all.v;
    for i := 0 to size
      invariant cur.Valid() && ParseSeq(cur.Rest(), 2 * (size - i)) == Ok(all.v[2 * i..], all.rest)
      invariant forall j :: 0 <= j < i ==> FormatEntryOk(all.v[2 * j..][0], all.v[2 * j..][1])
    {
      assert all.v[2 * i..][2..] == all.v[2 * (i + 1)..];
      ok := ReadFormatEntry(cur, 2 * (size - i));
      if !ok {
        return;
      }
    }
    ParseSeqNone(cur.Rest());
    ok := true;
  }

  /** `parse_schema_space_value`, with `left` elements still to be read. */
  method ReadFormat(cur: Cursor, ghost left: nat) returns (ok: bool)
    requires cur.Valid() && left > 0 && ParseSeq(cur.Rest(), left).Ok?
    modifies cur`pos
    ensures cur.Valid()
    ensures var p := old(ParseSeq(cur.Rest(), left));
            && ok == FormatOk(p.v[0])
            && (ok ==> ParseSeq(cur.Rest(), left - 1) == Ok(p.v[1..], p.rest))
  {
    hide Head, Parse, ParseSeq, FormatFieldOk;
    ghost var whole := ParseSeq(cur.Rest(), left);
    assert whole.v[0..] == whole.v;
    FirstParsed(cur.Rest(), left, 0, whole.v);
    ContainerParsed(cur.Rest());
    ghost var next := Parse(cur.Rest()).rest;
    var t := cur.DecodeHead();
    if !t.TArr? {
      return false;
    }
    ok := ReadFormatFields(cur, t.size);
  }

  method ReadFormatFields(cur: Cursor, size: nat) returns (ok: bool)
    requires cur.Valid() && ParseSeq(cur.Rest(), size).Ok?
    modifies cur`pos
    ensures cur.Valid()
    ensures var p := old(ParseSeq(cur.Rest(), size));
            ok == FormatOk(Arr(p.v)) && (ok ==> cur.Rest() == p.rest)
  {
    hide Head, Parse, ParseSeq, FormatFieldOk;
    ghost var all := ParseSeq(cur.Rest(), size);
    assert all.v[0..] == all.v;
    for i := 0 to size
      invariant cur.Valid() && ParseSeq(cur.Rest(), size - i) == Ok(all.v[i..], all.rest)
      invariant forall j :: 0 <= j < i ==> FormatFieldOk(all.v[j])
    {
      FirstParsed(cur.Rest(), size - i, i, all.v);
      ContainerParsed(cur.Rest());
      ghost var next := Parse(cur.Rest()).rest;
      var t := cur.DecodeHead();
      if !t.TMap? {
        OnlyMapsOk(all.v[i]);
        return false;
      }
      ok := ReadFormatField(cur, t.size);
      if !ok {
        return;
      }
      assert cur.Rest() == next;
    }
    ParseSeqNone(cur.Rest());
    ok := true;
  }

  lemma OnlyMapsOk(m: Mp)
    requires !m.Map?
    ensures !FormatFieldOk(m)
  {
  }

  // ---------------------------------------------------------------- tuples

  function SpaceDefOf(m: Mp): Option<SpaceDef> {
    if m.Arr? && |m.items| >= 6 && SpaceFieldsOk(m.items, Least(|m.items|, SPACE_FIELDS)) then
      Some(SpaceDef(U32(m.items[0].n), m.items[2].s))
    else None
  }

  predicate SpaceFieldsOk(fields: seq<Mp>, n: nat)
    requires n <= |fields|
  {
    && (n > 0 ==> fields[0].UInt?)
    && (n > 2 ==> fields[2].Str?)
    && (n > 6 ==> FormatOk(fields[6]))
  }

  function IndexDefOf(m: Mp): Option<IndexDef> {
    if m.Arr? && |m.items| >= 6 && IndexFieldsOk(m.items, INDEX_FIELDS) then
      Some(IndexDef(U32(m.items[0].n), U32(m.items[1].n), m.items[2].s, PartsOf(m.items[5].items).value))
    else None
  }

  predicate IndexFieldsOk(fields: seq<Mp>, n: nat)
    requires n <= |fields|
  {
    && (n > 0 ==> fields[0].UInt?)
    && (n > 1 ==> fields[1].UInt?)
    && (n > 2 ==> fields[2].Str?)
    && (n > 5 ==> fields[5].Arr? && PartsOf(fields[5].items).Some?)
  }

  /** The tuple is long enough for memory to be taken for it. */
  predicate Started(m: Mp) {
    m.Arr? && |m.items| >= 6
  }

  /** What follows the tuple at the head of `ms`: its unread fields come first. */
  function After(ms: seq<Mp>, width: nat): seq<Mp>
    requires ms != []
  {
    (if ms[0].Arr? && |ms[0].items| > width then ms[0].items[width..] else []) + ms[1..]
  }

  /** A tuple has been entered: its fields, then the other elements. */
  lemma EnterTuple(b: bytes, left: nat)
    requires left > 0 && ParseSeq(b, left).Ok? && Head(b).Ok? && Head(b).v.TArr?
    ensures var p, n, rest := ParseSeq(b, left), Head(b).v.size, Head(b).rest;
            p.v[0].Arr? && |p.v[0].items| == n && ParseSeq(rest, n + left - 1) == Ok(p.v[0].items + p.v[1..], p.rest)
  {
    hide Head, Parse, ParseSeq;
    SeqParsed(b, left);
    ContainerParsed(b);
    var n, rest := Head(b).v.size, Head(b).rest;
    ParseSeqJoin(rest, n, left - 1);
  }

  /** One field that is looked at or stepped over, with `left` elements still to be read. */
  method ReadSpaceField(cur: Cursor, pos: nat, id: nat, name: bytes, ghost left: nat)
      returns (ok: bool, id': nat, name': bytes)
    requires cur.Valid() && left > 0 && ParseSeq(cur.Rest(), left).Ok? && pos < SPACE_FIELDS
    modifies cur`pos
    ensures cur.Valid()
    ensures var p := old(ParseSeq(cur.Rest(), left));
            && (ok <==> (pos == 0 ==> p.v[0].UInt?) && (pos == 2 ==> p.v[0].Str?) && (pos == 6 ==> FormatOk(p.v[0])))
            && (ok ==> ParseSeq(cur.Rest(), left - 1) == Ok(p.v[1..], p.rest))
            && (ok ==>
                  id' == (if pos == 0 then U32(p.v[0].n) else id) &&
                  name' == (if pos == 2 then p.v[0].s else name))
  {
    hide Head, Parse, ParseSeq, FormatOk;
    ghost var p := ParseSeq(cur.Rest(), left);
    assert p.v[0..] == p.v;
    FirstParsed(cur.Rest(), left, 0, p.v);
    ok, id', name' := true, id, name;
    if pos == 0 {
      var f := cur.DecodeHead();
      ok := f.TUInt?;
      id' := if ok then U32(f.n) else id;
    } else if pos == 2 {
      var f := cur.DecodeHead();
      ok := f.TStr?;
      name' := if ok then f.s else name;
    } else if pos == 6 {
      ok := ReadFormat(cur, left);
    } else {
      cur.Next();
    }
  }

  /** The reading part of `schema_add_space`, with `left` elements still to be read. */
  method ReadSpace(cur: Cursor, ghost left: nat) returns (r: Option<SpaceDef>, started: bool)
    requires cur.Valid() && left > 0 && ParseSeq(cur.Rest(), left).Ok?
    modifies cur`pos
    ensures cur.Valid()
    ensures var p := old(ParseSeq(cur.Rest(), left));
            && r == SpaceDefOf(p.v[0]) && started == Started(p.v[0])
            && (r.Some? ==> ParseSeq(cur.Rest(), |After(p.v, SPACE_FIELDS)|) == Ok(After(p.v, SPACE_FIELDS), p.rest))
  {
    hide Head, Parse, ParseSeq, FormatOk;
    ghost var p := ParseSeq(cur.Rest(), left);
    assert p.v[0..] == p.v;
    FirstParsed(cur.Rest(), left, 0, p.v);
    var t := cur.DecodeHead();
    if !t.TArr? || t.size < 6 {
      return None, false;
    }
    started := true;
    EnterTuple(old(cur.Rest()), left);
    ghost var fields := p.v[0].items;
    ghost var all := fields + p.v[1..];
    var n := t.size;
    var id: nat := 0;
    var name: bytes := [];
    assert all[0..] == all;
    for pos := 0 to n
      invariant cur.Valid()
      invariant var done := Least(pos, SPACE_FIELDS); ParseSeq(cur.Rest(), |all| - done) == Ok(all[done..], p.rest)
      invariant SpaceFieldsOk(fields, Least(pos, SPACE_FIELDS))
      invariant pos > 0 ==> id == U32(fields[0].n)
      invariant pos > 2 ==> name == fields[2].s
    {
      if pos < SPACE_FIELDS {
        assert all[pos..][0] == fields[pos] && all[pos..][1..] == all[pos + 1..];
        var ok;
        ok, id, name := ReadSpaceField(cur, pos, id, name, |all| - pos);
        if !ok {
          return None, true;
        }
      }
    }
    AfterIs(p.v, SPACE_FIELDS);
    r := Some(SpaceDef(id, name));
  }

  lemma AfterIs(ms: seq<Mp>, width: nat)
    requires ms != [] && ms[0].Arr?
    ensures After(ms, width) == (ms[0].items + ms[1..])[Least(|ms[0].items|, width)..]
  {
  }

  /** The reading part of `schema_add_index`. */
  method ReadIndex(cur: Cursor, ghost left: nat) returns (r: Option<IndexDef>, started: bool)
    requires cur.Valid() && left > 0 && ParseSeq(cur.Rest(), left).Ok?
    modifies cur`pos
    ensures cur.Valid()
    ensures var p := old(ParseSeq(cur.Rest(), left));
            && r == IndexDefOf(p.v[0]) && started == Started(p.v[0])
            && (r.Some? ==> ParseSeq(cur.Rest(), |After(p.v, INDEX_FIELDS)|) == Ok(After(p.v, INDEX_FIELDS), p.rest))
  {
    hide Head, Parse, ParseSeq, PartsOf;
    ghost var p := ParseSeq(cur.Rest(), left);
    assert p.v[0..] == p.v;
    FirstParsed(cur.Rest(), left, 0, p.v);
    var t := cur.DecodeHead();
    if !t.TArr? || t.size < 6 {
      return None, false;
    }
    started := true;
    EnterTuple(old(cur.Rest()), left);
    ghost var fields := p.v[0].items;
    ghost var all := fields + p.v[1..];
    var n := t.size;
    var space: nat, id: nat := 0, 0;
    var name: bytes := [];
    var parts: seq<Part> := [];
    assert all[0..] == all;
    for pos := 0 to n
      invariant cur.Valid()
      invariant var done := Least(pos, INDEX_FIELDS); ParseSeq(cur.Rest(), |all| - done) == Ok(all[done..], p.rest)
      invariant IndexFieldsOk(fields, Least(pos, INDEX_FIELDS))
      invariant pos > 0 ==> space == U32(fields[0].n)
      invariant pos > 1 ==> id == U32(fields[1].n)
      invariant pos > 2 ==> name == fields[2].s
      invariant pos > 5 ==> Some(parts) == PartsOf(fields[5].items)
    {
      if pos < INDEX_FIELDS {
        FirstParsed(cur.Rest(), |all| - pos, pos, all);
      }
      if pos == 0 {
        var f := cur.DecodeHead();
        if !f.TUInt? {
          return None, true;
        }
        space := U32(f.n);
      } else if pos == 1 {
        var f := cur.DecodeHead();
        if !f.TUInt? {
          return None, true;
        }
        id := U32(f.n);
      } else if pos == 2 {
        var f := cur.DecodeHead();
        if !f.TStr? {
          return None, true;
        }
        name := f.s;
      } else if pos == 3 || pos == 4 {
        cur.Next();
      } else if pos == 5 {
        var q := ParseIndexParts(cur);
        if q.None? {
          return None, true;
        }
        parts := q.value;
      }
    }
    AfterIs(p.v, INDEX_FIELDS);
    r := Some(IndexDef(space, id, name, parts));
  }

  // ---------------------------------------------------------------- tuples by their fields

  /** One key and value of a field: every key is text, names and types are texts, and so on. */
  predicate FormatPair(key: Mp, val: Mp) {
    match key
    case Str(s) =>
      && (s == Text("name") ==> val.Str?) && (s == Text("type") ==> val.Str?)
      && (s == Text("is_nullable") ==> val.Bool?)
    case _ => false
  }

  /** The format of a space: a list of fields, each a map. */
  predicate Formats(m: Mp) {
    && m.Arr? && (forall i :: 0 <= i < |m.items| ==> m.items[i].Map?)
    && forall i, j :: 0 <= i < |m.items| && 0 <= j < |m.items[i].kvs| / 2 ==>
         FormatPair(m.items[i].kvs[2 * j], m.items[i].kvs[2 * j + 1])
  }

  /** A tuple of a space: the id first, the name third, and a format, if there is one, seventh. */
  predicate DescribesSpace(m: Mp, d: SpaceDef) {
    && m.Arr? && |m.items| >= 6
    && m.items[0].UInt? && d.id == U32(m.items[0].n) && m.items[2] == Str(d.name)
    && (|m.items| >= 7 ==> Formats(m.items[6]))
  }

  /** A tuple of an index: the id of its space first, its own second, the name third, the parts sixth. */
  predicate DescribesIndex(m: Mp, d: IndexDef) {
    && m.Arr? && |m.items| >= 6
    && m.items[0].UInt? && d.space == U32(m.items[0].n) && m.items[1].UInt? && d.id == U32(m.items[1].n)
    && m.items[2] == Str(d.name) && m.items[5].Arr? && DescribesParts(m.items[5].items, d.parts)
  }

  lemma FormatsIs(m: Mp)
    ensures Formats(m) <==> FormatOk(m)
  {
    hide Text, FormatPair, FormatEntryOk;
    if m.Arr? {
      forall i | 0 <= i < |m.items|
        ensures FormatFieldOk(m.items[i]) <==>
                m.items[i].Map? &&
                forall j :: 0 <= j < |m.items[i].kvs| / 2 ==>
                  FormatPair(m.items[i].kvs[2 * j], m.items[i].kvs[2 * j + 1])
      {
        FormatFieldIs(m.items[i]);
      }
    }
  }

  lemma FormatFieldIs(m: Mp)
    ensures FormatFieldOk(m) <==>
            m.Map? && forall j :: 0 <= j < |m.kvs| / 2 ==> FormatPair(m.kvs[2 * j], m.kvs[2 * j + 1])
  {
    hide Text, FormatPair, FormatEntryOk;
    if m.Map? {
      forall j | 0 <= j < |m.kvs| / 2
        ensures FormatEntryOk(m.kvs[2 * j..][0], m.kvs[2 * j..][1]) <==> FormatPair(m.kvs[2 * j], m.kvs[2 * j + 1])
      {
        FormatPairIs(m.kvs[2 * j], m.kvs[2 * j + 1]);
      }
    }
  }

  lemma FormatPairIs(key: Mp, val: Mp)
    ensures FormatPair(key, val) <==> FormatEntryOk(key, val)
  {
    hide Text;
  }

  /** A tuple is taken for a space exactly when its fields describe one. */
  lemma SpaceTupleExactly(m: Mp, d: SpaceDef)
    ensures SpaceDefOf(m) == Some(d) <==> DescribesSpace(m, d)
  {
    hide Formats, FormatOk;
    if m.Arr? && |m.items| >= 7 {
      FormatsIs(m.items[6]);
    }
  }

  /** And for an index. */
  lemma IndexTupleExactly(m: Mp, d: IndexDef)
    ensures IndexDefOf(m) == Some(d) <==> DescribesIndex(m, d)
  {
    hide DescribesParts, PartsOf;
    if m.Arr? && |m.items| >= 6 && m.items[5].Arr? {
      PartsExactly(m.items[5].items, d.parts);
      if PartsOf(m.items[5].items).Some? {
        PartsExactly(m.items[5].items, PartsOf(m.items[5].items).value);
      }
    }
  }

  /** The six fields of an index tuple, in order. */
  lemma IndexTupleRead(space: nat, id: nat, name: bytes, kind: Mp, options: Mp, parts: seq<Mp>, ps: seq<Part>)
    requires space < TWO_32 && id < TWO_32 && DescribesParts(parts, ps)
    ensures IndexDefOf(Arr([UInt(space), UInt(id), Str(name), kind, options, Arr(parts)])) ==
            Some(IndexDef(space, id, name, ps))
  {
    hide DescribesParts, PartsOf;
    IndexTupleExactly(Arr([UInt(space), UInt(id), Str(name), kind, options, Arr(parts)]),
      IndexDef(space, id, name, ps));
  }

  /** The six fields of a space tuple, in order, or seven with a format. */
  lemma SpaceTupleRead(id: nat, owner: Mp, name: bytes, engine: Mp, count: Mp, flags: Mp, format: Mp)
    requires id < TWO_32
    ensures SpaceDefOf(Arr([UInt(id), owner, Str(name), engine, count, flags])) == Some(SpaceDef(id, name))
    ensures SpaceDefOf(Arr([UInt(id), owner, Str(name), engine, count, flags, format])) ==
            if Formats(format) then Some(SpaceDef(id, name)) else None
  {
    hide Formats, FormatOk;
    FormatsIs(format);
  }
}
