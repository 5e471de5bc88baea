/** Decoding the parts of an index, in the old array form and in the new map form. */
module IndexParts {
  import opened Bytes
  import opened Wire
  import opened Unpacking

  const FIELD_TYPE_UNSIGNED: int := 1
  const FIELD_TYPE_STRING: int := 2
  const FIELD_TYPE_SCALAR: int := 8
  /** Unknown type. */
  const FIELD_TYPE_MAX: int := 13
  const COLL_NONE: int := 0xFFFF_FFFF

  const TYPE_NAMES: seq<string> := [
    "any", "unsigned", "string", "number", "double", "integer", "boolean",
    "varbinary", "scalar", "decimal", "uuid", "array", "map"
  ]

  /** The index of a part in a tuple and how it is compared. */
  datatype Part = Part(fieldNumber: nat, fieldType: nat, collation: nat, nullable: bool)

  const PART_DEFAULT: Part := Part(0, FIELD_TYPE_MAX, COLL_NONE, false)

  // ---------------------------------------------------------------- type names

  function Lower(c: int): int {
    if 65 <= c <= 90 then c + 32 else c
  }

  predicate EqualFold(a: seq<int>, b: seq<int>) {
    |a| == |b| && forall i :: 0 <= i < |a| ==> Lower(a[i]) == Lower(b[i])
  }

  /** `strncasecmp(name, literal, |name|) == 0`: a prefix, or the literal with its final NUL. */
  predicate PrefixFold(name: bytes, literal: seq<int>) {
    if |name| <= |literal| then EqualFold(name, literal[..|name|])
    else EqualFold(name[..|literal|], literal) && name[|literal|] == 0
  }

  function NameIndex(name: bytes, i: nat): (r: nat)
    requires i <= |TYPE_NAMES|
    decreases |TYPE_NAMES| - i
  {
    if i == |TYPE_NAMES| then FIELD_TYPE_MAX
    else if EqualFold(Text(TYPE_NAMES[i]), name) then i
    else NameIndex(name, i + 1)
  }

  /** `field_type_by_name`, with the deprecated spellings tried last. */
  function FieldTypeByName(name: bytes): nat {
    if name != [] && NameIndex(name, 0) != FIELD_TYPE_MAX then NameIndex(name, 0)
    else if PrefixFold(name, Text("num")) then FIELD_TYPE_UNSIGNED
    else if PrefixFold(name, Text("str")) then FIELD_TYPE_STRING
    else if name == Text("*") then 0
    else FIELD_TYPE_MAX
  }

  // ---------------------------------------------------------------- the two forms

  /** A part as an array: field number, type, and whatever else, which is skipped. */
  function OldPart(m: Mp): Option<Part> {
    if m.Arr? && |m.items| >= 2 && m.items[0].UInt? && m.items[1].Str? then
      Some(PART_DEFAULT.(fieldNumber := U32(m.items[0].n), fieldType := FieldTypeByName(m.items[1].s)))
    else None
  }

  /** One key and value of a part given as a map. */
  function SetPart(p: Part, key: Mp, val: Mp): Option<Part> {
    if !key.Str? then None
    else if key.s == Text("type") then
      if val.Str? then Some(p.(fieldType := FieldTypeByName(val.s))) else None
    else if key.s == Text("field") then
      if val.UInt? then Some(p.(fieldNumber := U32(val.n))) else None
    else if key.s == Text("collation") then
      if val.UInt? then Some(p.(collation := U32(val.n))) else None
    else if key.s == Text("is_nullable") then
      if val.Bool? then Some(p.(nullable := val.b)) else None
    else Some(p)
  }

  function PartFold(kvs: seq<Mp>, n: nat): Option<Part>
    requires 2 * n <= |kvs|
  {
    if n == 0 then Some(PART_DEFAULT)
    else
      match PartFold(kvs, n - 1)
      case None => None
      case Some(p) => SetPart(p, kvs[2 * n - 2], kvs[2 * n - 1])
  }

  /** A collation is accepted on string and scalar parts, and on no others. */
  predicate CollationFits(p: Part) {
    p.collation == COLL_NONE || p.fieldType == FIELD_TYPE_STRING || p.fieldType == FIELD_TYPE_SCALAR
  }

  function NewPart(m: Mp): Option<Part> {
    if !m.Map? then None
    else
      match PartFold(m.kvs, |m.kvs| / 2)
      case None => None
      case Some(p) => if CollationFits(p) then Some(p) else None
  }

  /** The parts of an index: the first one tells the form. */
  function PartsOf(ms: seq<Mp>): Option<seq<Part>> {
    if ms != [] && ms[0].Arr? then OldParts(ms, |ms|) else NewParts(ms, |ms|)
  }

  function OldParts(ms: seq<Mp>, n: nat): Option<seq<Part>>
    requires n <= |ms|
  {
    if n == 0 then Some([])
    else
      match (OldParts(ms, n - 1), OldPart(ms[n - 1]))
      case (Some(ps), Some(p)) => Some(ps + [p])
      case _ => None
  }

  function NewParts(ms: seq<Mp>, n: nat): Option<seq<Part>>
    requires n <= |ms|
  {
    if n == 0 then Some([])
    else
      match (NewParts(ms, n - 1), NewPart(ms[n - 1]))
      case (Some(ps), Some(p)) => Some(ps + [p])
      case _ => None
  }

  // ---------------------------------------------------------------- the decoders

  lemma {:induction false} OldPartsFail(ms: seq<Mp>, i: nat, n: nat)
    requires i <= n <= |ms| && OldParts(ms, i).None?
    ensures OldParts(ms, n).None?
    decreases n
  {
    hide OldPart;
    if i < n { OldPartsFail(ms, i, n - 1); }
  }

  lemma {:induction false} NewPartsFail(ms: seq<Mp>, i: nat, n: nat)
    requires i <= n <= |ms| && NewParts(ms, i).None?
    ensures NewParts(ms, n).None?
    decreases n
  {
    hide NewPart;
    if i < n { NewPartsFail(ms, i, n - 1); }
  }

  lemma {:induction false} PartFoldFails(kvs: seq<Mp>, i: nat, n: nat)
    requires i <= n && 2 * n <= |kvs| && PartFold(kvs, i).None?
    ensures PartFold(kvs, n).None?
    decreases n
  {
    hide SetPart;
    if i < n { PartFoldFails(kvs, i, n - 1); }
  }

  lemma FirstParsed(b: bytes, k: nat, i: nat, all: seq<Mp>)
    requires k > 0 && i + k == |all| && ParseSeq(b, k).Ok? && ParseSeq(b, k).v == all[i..]
    ensures Parse(b).Ok? && Parse(b).v == all[i]
    ensures ParseSeq(Parse(b).rest, k - 1) == Ok(all[i + 1..], ParseSeq(b, k).rest)
    ensures Head(b).Ok? && TokenKind(Head(b).v, all[i])
    ensures !Head(b).v.TArr? && !Head(b).v.TMap? ==> all[i] == Leaf(Head(b).v) && Parse(b).rest == Head(b).rest
  {
    hide Parse, Head;
    SeqParsed(b, k);
    assert all[i..][1..] == all[i + 1..];
    ContainerParsed(b);
  }

  predicate TokenKind(t: Token, m: Mp) {
    && (t.TUInt? <==> m.UInt?) && (t.TStr? <==> m.Str?) && (t.TBool? <==> m.Bool?)
    && (t.TArr? <==> m.Arr?) && (t.TMap? <==> m.Map?)
    && (m.Arr? ==> t.TArr? && t.size == |m.items|)
    && (m.Map? ==> t.TMap? && 2 * t.size == |m.kvs|)
  }

  /** One part in the old form, at a cursor that has just read the head of its array. */
  method DecodeOldItems(cur: Cursor, count: nat) returns (r: Option<Part>)
    requires cur.Valid() && ParseSeq(cur.Rest(), count).Ok?
    modifies cur`pos
    ensures cur.Valid()
    ensures var p := old(ParseSeq(cur.Rest(), count));
            r == OldPart(Arr(p.v)) && (r.Some? ==> cur.Rest() == p.rest)
  {
    hide Head, Parse, ParseSeq, FieldTypeByName;
    ghost var all := ParseSeq(cur.Rest(), count);
    if count < 2 {
      return None;
    }
    assert all.v[0..] == all.v;
    FirstParsed(cur.Rest(), count, 0, all.v);
    var t := cur.DecodeHead();
    if !t.TUInt? {
      return None;
    }
    var number := U32(t.n);
    FirstParsed(cur.Rest(), count - 1, 1, all.v);
    t := cur.DecodeHead();
    if !t.TStr? {
      return None;
    }
    r := Some(PART_DEFAULT.(fieldNumber := number, fieldType := FieldTypeByName(t.s)));
    for j := 2 to count
      invariant cur.Valid() && ParseSeq(cur.Rest(), count - j) == Ok(all.v[j..], all.rest)
    {
      FirstParsed(cur.Rest(), count - j, j, all.v);
      cur.Next();
    }
    ParseSeqNone(cur.Rest());
  }

  /** `decode_index_parts_166`. */
  method DecodeOldParts(cur: Cursor, count: nat) returns (r: Option<seq<Part>>)
    requires cur.Valid() && ParseSeq(cur.Rest(), count).Ok?
    modifies cur`pos
    ensures cur.Valid()
    ensures var p := old(ParseSeq(cur.Rest(), count));
            r == OldParts(p.v, count) && (r.Some? ==> cur.Rest() == p.rest)
  {
    hide Head, Parse, ParseSeq, OldPart;
    ghost var all := ParseSeq(cur.Rest(), count);
    var parts := [];
    assert all.v[0..] == all.v;
    for i := 0 to count
      invariant cur.Valid() && ParseSeq(cur.Rest(), count - i) == Ok(all.v[i..], all.rest)
      invariant OldParts(all.v, i) == Some(parts)
    {
      FirstParsed(cur.Rest(), count - i, i, all.v);
      ContainerParsed(cur.Rest());
      ghost var next := Parse(cur.Rest()).rest;
      var t := cur.DecodeHead();
      if !t.TArr? {
        OldPartOnlyArrays(all.v[i]);
        OldPartsFail(all.v, i + 1, count);
        return None;
      }
      var part := DecodeOldItems(cur, t.size);
      if part.None? {
        OldPartsFail(all.v, i + 1, count);
        return None;
      }
      assert cur.Rest() == next;
      parts := parts + [part.value];
    }
    ParseSeqNone(cur.Rest());
    r := Some(parts);
  }

  lemma OldPartOnlyArrays(m: Mp)
    requires !m.Arr?
    ensures OldPart(m).None?
  {
  }

  /** The keys a part knows; others are skipped with their value. */
  predicate Known(key: bytes) {
    key == Text("type") || key == Text("field") || key == Text("collation") || key == Text("is_nullable")
  }

  lemma SetPartCases(p: Part, key: Mp, val: Mp)
    ensures !key.Str? ==> SetPart(p, key, val).None?
    ensures key.Str? && Known(key.s) && (val.Arr? || val.Map?) ==> SetPart(p, key, val).None?
    ensures key.Str? && !Known(key.s) ==> SetPart(p, key, val) == Some(p)
  {
    hide FieldTypeByName;
  }

  /** One key of a part and its value, out of `left` elements still to be read. */
  method DecodeEntry(cur: Cursor, part: Part, ghost left: nat) returns (r: Option<Part>)
    requires cur.Valid() && left >= 2 && ParseSeq(cur.Rest(), left).Ok?
    modifies cur`pos
    ensures cur.Valid()
    ensures var p := old(ParseSeq(cur.Rest(), left));
            && r == SetPart(part, p.v[0], p.v[1])
            && (r.Some? ==> ParseSeq(cur.Rest(), left - 2) == Ok(p.v[2..], p.rest))
  {
    hide Head, Parse, ParseSeq, SetPart, Known;
    ghost var all := ParseSeq(cur.Rest(), left);
    assert all.v[0..] == all.v;
    FirstParsed(cur.Rest(), left, 0, all.v);
    var key := cur.DecodeHead();
    if !key.TStr? {
      SetPartCases(part, all.v[0], all.v[1]);
      return None;
    }
    FirstParsed(cur.Rest(), left - 1, 1, all.v);
    SetPartCases(part, Str(key.s), all.v[1]);
    if Known(key.s) {
      var val := cur.DecodeHead();
      r := if val.TArr? || val.TMap? then None else SetPart(part, Str(key.s), Leaf(val));
    } else {
      cur.Next();
      r := Some(part);
    }
  }

  lemma PartFoldNone(kvs: seq<Mp>)
    ensures PartFold(kvs, 0) == Some(PART_DEFAULT)
  {
  }

  lemma PartFoldStep(kvs: seq<Mp>, i: nat, p: Part)
    requires 2 * (i + 1) <= |kvs| && PartFold(kvs, i) == Some(p)
    ensures PartFold(kvs, i + 1) == SetPart(p, kvs[2 * i..][0], kvs[2 * i..][1])
    ensures kvs[2 * i..][2..] == kvs[2 * (i + 1)..]
  {
    hide SetPart;
  }

  /** `decode_index_part`, at a cursor that has just read the head of the map. */
  method DecodePartMap(cur: Cursor, size: nat) returns (r: Option<Part>)
    requires cur.Valid() && ParseSeq(cur.Rest(), 2 * size).Ok?
    modifies cur`pos
    ensures cur.Valid()
    ensures var p := old(ParseSeq(cur.Rest(), 2 * size));
            r == NewPart(Map(p.v)) && (r.Some? ==> cur.Rest() == p.rest)
  {
    hide Head, Parse, ParseSeq, SetPart, PartFold;
    ghost var all := ParseSeq(cur.Rest(), 2 * size);
    var part := PART_DEFAULT;
    assert all.v[0..] == all.v;
    PartFoldNone(all.v);
    for i := 0 to size
      invariant cur.Valid() && ParseSeq(cur.Rest(), 2 * (size - i)) == Ok(all.v[2 * i..], all.rest)
      invariant PartFold(all.v, i) == Some(part)
    {
      PartFoldStep(all.v, i, part);
      var updated := DecodeEntry(cur, part, 2 * (size - i));
      if updated.None? {
        PartFoldFails(all.v, i + 1, size);
        return None;
      }
      part := updated.value;
    }
    ParseSeqNone(cur.Rest());
    r := if CollationFits(part) then Some(part) else None;
  }

  /** `decode_index_parts`. */
  method DecodeNewParts(cur: Cursor, count: nat) returns (r: Option<seq<Part>>)
    requires cur.Valid() && ParseSeq(cur.Rest(), count).Ok?
    modifies cur`pos
    ensures cur.Valid()
    ensures var p := old(ParseSeq(cur.Rest(), count));
            r == NewParts(p.v, count) && (r.Some? ==> cur.Rest() == p.rest)
  {
    hide Head, Parse, ParseSeq, PartFold;
    ghost var all := ParseSeq(cur.Rest(), count);
    var parts := [];
    assert all.v[0..] == all.v;
    for i := 0 to count
      invariant cur.Valid() && ParseSeq(cur.Rest(), count - i) == Ok(all.v[i..], all.rest)
      invariant NewParts(all.v, i) == Some(parts)
    {
      FirstParsed(cur.Rest(), count - i, i, all.v);
      ContainerParsed(cur.Rest());
      ghost var next := Parse(cur.Rest()).rest;
      var t := cur.DecodeHead();
      if !t.TMap? {
        NewPartsFail(all.v, i + 1, count);
        return None;
      }
      var part := DecodePartMap(cur, t.size);
      if part.None? {
        NewPartsFail(all.v, i + 1, count);
        return None;
      }
      assert cur.Rest() == next;
      parts := parts + [part.value];
    }
    ParseSeqNone(cur.Rest());
    r := Some(parts);
  }

  /** `parse_schema_index_value`: with no parts at all both forms read nothing. */
  method ParseIndexParts(cur: Cursor) returns (r: Option<seq<Part>>)
    requires cur.Valid() && Parse(cur.Rest()).Ok?
    modifies cur`pos
    ensures cur.Valid()
    ensures var p := old(Parse(cur.Rest()));
            r == (if p.v.Arr? then PartsOf(p.v.items) else None) && (r.Some? ==> cur.Rest() == p.rest)
  {
    hide Head, Parse, ParseSeq, OldParts, NewParts;
    ContainerParsed(cur.Rest());
    var t := cur.DecodeHead();
    if !t.TArr? {
      return None;
    }
    ghost var all := ParseSeq(cur.Rest(), t.size);
    assert all.v[0..] == all.v;
    var old166 := false;
    if t.size > 0 {
      FirstParsed(cur.Rest(), t.size, 0, all.v);
      old166 := Head(cur.Rest()).v.TArr?;
    }
    if old166 {
      r := DecodeOldParts(cur, t.size);
    } else {
      r := DecodeNewParts(cur, t.size);
    }
  }

  // ---------------------------------------------------------------- the two forms agree

  /** The last value under text key `name` among the first `n` pairs. */
  function LastText(kvs: seq<Mp>, name: seq<int>, n: nat): Option<Mp>
    requires 2 * n <= |kvs|
  {
    if n == 0 then None
    else if kvs[2 * n - 2].Str? && kvs[2 * n - 2].s == name then Some(kvs[2 * n - 1])
    else LastText(kvs, name, n - 1)
  }

  predicate EntryOk(key: Mp, val: Mp) {
    SetPart(PART_DEFAULT, key, val).Some?
  }

  /** The map form read as four independent lookups. */
  function PartFromLasts(kvs: seq<Mp>, n: nat): Part
    requires 2 * n <= |kvs|
  {
    var ty, no := LastText(kvs, Text("type"), n), LastText(kvs, Text("field"), n);
    var co, nu := LastText(kvs, Text("collation"), n), LastText(kvs, Text("is_nullable"), n);
    Part(
      if no.Some? && no.value.UInt? then U32(no.value.n) else 0,
      if ty.Some? && ty.value.Str? then FieldTypeByName(ty.value.s) else FIELD_TYPE_MAX,
      if co.Some? && co.value.UInt? then U32(co.value.n) else COLL_NONE,
      nu.Some? && nu.value.Bool? && nu.value.b)
  }

  lemma KeysDiffer()
    ensures Text("type") != Text("field") && Text("type") != Text("collation") && Text("type") != Text("is_nullable")
    ensures Text("field") != Text("collation") && Text("field") != Text("is_nullable")
    ensures Text("collation") != Text("is_nullable")
  {
    assert |Text("type")| == 4 && |Text("field")| == 5 && |Text("collation")| == 9 && |Text("is_nullable")| == 11;
  }

  lemma {:induction false} PartFoldExactly(kvs: seq<Mp>, n: nat)
    requires 2 * n <= |kvs|
    ensures PartFold(kvs, n).Some? <==> forall i :: 0 <= i < n ==> EntryOk(kvs[2 * i], kvs[2 * i + 1])
    ensures PartFold(kvs, n).Some? ==> PartFold(kvs, n).value == PartFromLasts(kvs, n)
    decreases n
  {
    hide FieldTypeByName, Text;
    if n > 0 {
      PartFoldExactly(kvs, n - 1);
      KeysDiffer();
      assert kvs[2 * n - 2] == kvs[2 * (n - 1)] && kvs[2 * n - 1] == kvs[2 * (n - 1) + 1];
    }
  }

  predicate DistinctKeys(kvs: seq<Mp>) {
    |kvs| % 2 == 0 && forall i, j :: 0 <= i < j < |kvs| / 2 ==> kvs[2 * i] != kvs[2 * j]
  }

  predicate HasPair(kvs: seq<Mp>, key: Mp, val: Mp) {
    exists i :: 0 <= i < |kvs| / 2 && kvs[2 * i] == key && kvs[2 * i + 1] == val
  }

  /** Every pair of `a` is one of `b`. */
  predicate PairsWithin(a: seq<Mp>, b: seq<Mp>) {
    forall i :: 0 <= i < |a| / 2 ==> HasPair(b, a[2 * i], a[2 * i + 1])
  }

  lemma {:induction false} LastTextFound(kvs: seq<Mp>, name: seq<int>, n: nat, i: nat)
    requires DistinctKeys(kvs) && i < n <= |kvs| / 2 && kvs[2 * i].Str? && kvs[2 * i].s == name
    ensures LastText(kvs, name, n) == Some(kvs[2 * i + 1])
    decreases n
  {
    if i < n - 1 {
      assert kvs[2 * i] != kvs[2 * (n - 1)];
      LastTextFound(kvs, name, n - 1, i);
    }
  }

  lemma {:induction false} LastTextMissing(kvs: seq<Mp>, name: seq<int>, n: nat)
    requires n <= |kvs| / 2
    ensures LastText(kvs, name, n).Some? ==>
              exists i :: 0 <= i < n && kvs[2 * i].Str? && kvs[2 * i].s == name
    decreases n
  {
    if n > 0 {
      LastTextMissing(kvs, name, n - 1);
      assert kvs[2 * n - 2] == kvs[2 * (n - 1)];
    }
  }

  lemma LastTextSame(a: seq<Mp>, b: seq<Mp>, name: seq<int>)
    requires DistinctKeys(a) && DistinctKeys(b) && PairsWithin(a, b) && PairsWithin(b, a)
    ensures LastText(a, name, |a| / 2) == LastText(b, name, |b| / 2)
  {
    LastTextMissing(a, name, |a| / 2);
    LastTextMissing(b, name, |b| / 2);
    if LastText(a, name, |a| / 2).Some? {
      LastTextMoves(a, b, name);
    } else if LastText(b, name, |b| / 2).Some? {
      LastTextMoves(b, a, name);
    }
  }

  lemma LastTextMoves(a: seq<Mp>, b: seq<Mp>, name: seq<int>)
    requires DistinctKeys(a) && DistinctKeys(b) && PairsWithin(a, b)
    requires exists i :: 0 <= i < |a| / 2 && a[2 * i].Str? && a[2 * i].s == name
    ensures LastText(a, name, |a| / 2).Some?
    ensures LastText(a, name, |a| / 2) == LastText(b, name, |b| / 2)
  {
    var i :| 0 <= i < |a| / 2 && a[2 * i].Str? && a[2 * i].s == name;
    LastTextFound(a, name, |a| / 2, i);
    assert HasPair(b, a[2 * i], a[2 * i + 1]);
    var j :| 0 <= j < |b| / 2 && b[2 * j] == a[2 * i] && b[2 * j + 1] == a[2 * i + 1];
    LastTextFound(b, name, |b| / 2, j);
  }

  lemma AllOkMoves(a: seq<Mp>, b: seq<Mp>)
    requires PairsWithin(b, a)
    requires forall i :: 0 <= i < |a| / 2 ==> EntryOk(a[2 * i], a[2 * i + 1])
    ensures forall j :: 0 <= j < |b| / 2 ==> EntryOk(b[2 * j], b[2 * j + 1])
  {
    hide EntryOk;
    forall j | 0 <= j < |b| / 2
      ensures EntryOk(b[2 * j], b[2 * j + 1])
    {
      assert HasPair(a, b[2 * j], b[2 * j + 1]);
    }
  }

  /** The order in which the distinct keys of a part come does not matter, the collation check included. */
  lemma PartOrderIrrelevant(a: seq<Mp>, b: seq<Mp>)
    requires DistinctKeys(a) && DistinctKeys(b) && PairsWithin(a, b) && PairsWithin(b, a)
    ensures NewPart(Map(a)) == NewPart(Map(b))
  {
    hide PartFold, EntryOk, LastText, HasPair, Text;
    PartFoldExactly(a, |a| / 2);
    PartFoldExactly(b, |b| / 2);
    LastTextSame(a, b, Text("type"));
    LastTextSame(a, b, Text("field"));
    LastTextSame(a, b, Text("collation"));
    LastTextSame(a, b, Text("is_nullable"));
    if PartFold(a, |a| / 2).Some? {
      AllOkMoves(a, b);
    }
    if PartFold(b, |b| / 2).Some? {
      AllOkMoves(b, a);
    }
  }

  /** `old` and `kvs` describe the same field: number and type, no collation, not nullable. */
  predicate SameField(old166: Mp, kvs: seq<Mp>) {
    && OldPart(old166).Some?
    && |kvs| % 2 == 0
    && LastText(kvs, Text("field"), |kvs| / 2) == Some(old166.items[0])
    && LastText(kvs, Text("type"), |kvs| / 2) == Some(old166.items[1])
    && LastText(kvs, Text("collation"), |kvs| / 2).None?
    && LastText(kvs, Text("is_nullable"), |kvs| / 2).None?
    && forall i :: 0 <= i < |kvs| / 2 ==> kvs[2 * i].Str?
  }

  lemma OnlyKnownFail(kvs: seq<Mp>, n: nat)
    requires 2 * n <= |kvs|
    requires forall i :: 0 <= i < n ==> kvs[2 * i].Str?
    requires forall i :: 0 <= i < n && Known(kvs[2 * i].s) ==> EntryOk(kvs[2 * i], kvs[2 * i + 1])
    ensures forall i :: 0 <= i < n ==> EntryOk(kvs[2 * i], kvs[2 * i + 1])
  {
    hide SetPart, Known;
    forall i | 0 <= i < n
      ensures EntryOk(kvs[2 * i], kvs[2 * i + 1])
    {
      SetPartCases(PART_DEFAULT, kvs[2 * i], kvs[2 * i + 1]);
    }
  }

  /** A field described in the old form and in the new one decodes to the same part. */
  lemma PartFormsAgree(old166: Mp, kvs: seq<Mp>)
    requires SameField(old166, kvs) && DistinctKeys(kvs)
    ensures NewPart(Map(kvs)) == OldPart(old166)
  {
    hide PartFold, LastText, Text, FieldTypeByName;
    var n := |kvs| / 2;
    PartFoldExactly(kvs, n);
    forall i | 0 <= i < n && Known(kvs[2 * i].s)
      ensures EntryOk(kvs[2 * i], kvs[2 * i + 1])
    {
      LastTextFound(kvs, kvs[2 * i].s, n, i);
    }
    OnlyKnownFail(kvs, n);
  }

  lemma {:induction false} PartListsAgree(olds: seq<Mp>, news: seq<Mp>, n: nat)
    requires n <= |olds| == |news|
    requires forall i :: 0 <= i < n ==> news[i].Map? && SameField(olds[i], news[i].kvs) && DistinctKeys(news[i].kvs)
    ensures OldParts(olds, n).Some? && NewParts(news, n) == OldParts(olds, n)
    decreases n
  {
    hide OldPart, NewPart;
    if n > 0 {
      PartListsAgree(olds, news, n - 1);
      PartFormsAgree(olds[n - 1], news[n - 1].kvs);
    }
  }

  /** So an index described in either form gets the same list of parts. */
  lemma FormsAgree(olds: seq<Mp>, news: seq<Mp>)
    requires |olds| == |news|
    requires forall i :: 0 <= i < |olds| ==>
             news[i].Map? && SameField(olds[i], news[i].kvs) && DistinctKeys(news[i].kvs)
    ensures PartsOf(olds).Some? && PartsOf(news) == PartsOf(olds)
  {
    hide OldParts, NewParts, LastText;
    PartListsAgree(olds, news, |olds|);
    if olds == [] {
      assert olds == news;
    }
  }

  // ---------------------------------------------------------------- parts by their fields

  /** Two names that differ in their length, first or second letter are never the same in any case. */
  lemma NamesDiffer(a: seq<int>, b: seq<int>, name: seq<int>)
    requires |a| >= 2 && |b| >= 2 && forall i :: 0 <= i < 2 ==> Lower(a[i]) == a[i] && Lower(b[i]) == b[i]
    requires |a| != |b| || a[0] != b[0] || a[1] != b[1]
    ensures !(EqualFold(a, name) && EqualFold(b, name))
  {
  }

  lemma TypeNamesApart(j: nat, k: nat)
    requires j < k < |TYPE_NAMES|
    ensures var a, b := Text(TYPE_NAMES[j]), Text(TYPE_NAMES[k]);
            && |a| >= 2 && |b| >= 2 && (forall i :: 0 <= i < 2 ==> Lower(a[i]) == a[i] && Lower(b[i]) == b[i])
            && (|a| != |b| || a[0] != b[0] || a[1] != b[1])
  {
  }

  lemma {:induction false} NameIndexIs(name: bytes, i: nat, k: nat)
    requires i <= k < |TYPE_NAMES| && EqualFold(Text(TYPE_NAMES[k]), name)
    ensures NameIndex(name, i) == k
    decreases k - i
  {
    hide EqualFold, Text;
    if i < k {
      TypeNamesApart(i, k);
      NamesDiffer(Text(TYPE_NAMES[i]), Text(TYPE_NAMES[k]), name);
      NameIndexIs(name, i + 1, k);
    }
  }

  /** Every type name, in any case, stands for its place among the types of the server. */
  lemma TypeNamed(name: bytes, k: nat)
    requires k < |TYPE_NAMES| && EqualFold(Text(TYPE_NAMES[k]), name)
    ensures FieldTypeByName(name) == k
  {
    hide Text, PrefixFold, NameIndex;
    NameIndexIs(name, 0, k);
    assert |Text(TYPE_NAMES[k])| > 0;
  }

  /** A value under one of the names a part knows has the type that belongs to the name. */
  predicate EntryTyped(key: Mp, val: Mp) {
    && key.Str?
    && (key.s == Text("field") || key.s == Text("collation") ==> val.UInt?)
    && (key.s == Text("type") ==> val.Str?)
    && (key.s == Text("is_nullable") ==> val.Bool?)
  }

  /** The number under a name, if there is one. */
  predicate NumberUnder(kvs: seq<Mp>, name: seq<int>, n: nat, otherwise: nat) {
    match LastText(kvs, name, |kvs| / 2)
    case None => n == otherwise
    case Some(v) => v.UInt? && n == U32(v.n)
  }

  predicate TypeUnder(kvs: seq<Mp>, t: nat) {
    match LastText(kvs, Text("type"), |kvs| / 2)
    case None => t == FIELD_TYPE_MAX
    case Some(v) => v.Str? && t == FieldTypeByName(v.s)
  }

  predicate NullableUnder(kvs: seq<Mp>, b: bool) {
    match LastText(kvs, Text("is_nullable"), |kvs| / 2)
    case None => !b
    case Some(v) => v == Bool(b)
  }

  /** A part in the new form: each field under its name, the last one counting, and a collation only on text. */
  predicate DescribesNew(m: Mp, p: Part) {
    && m.Map? && (forall i :: 0 <= i < |m.kvs| / 2 ==> EntryTyped(m.kvs[2 * i], m.kvs[2 * i + 1]))
    && NumberUnder(m.kvs, Text("field"), p.fieldNumber, 0) && TypeUnder(m.kvs, p.fieldType)
    && NumberUnder(m.kvs, Text("collation"), p.collation, 0xFFFF_FFFF) && NullableUnder(m.kvs, p.nullable)
    && (p.collation != 0xFFFF_FFFF ==> p.fieldType == 2 || p.fieldType == 8)
  }

  /** A part in the old form: the number of the field, then its type. */
  predicate DescribesOld(m: Mp, p: Part) {
    && m.Arr? && |m.items| >= 2 && m.items[0].UInt? && m.items[1].Str?
    && p == Part(U32(m.items[0].n), FieldTypeByName(m.items[1].s), 0xFFFF_FFFF, false)
  }

  /** All parts are in one form, and these are they, in this order. */
  predicate DescribesParts(ms: seq<Mp>, ps: seq<Part>) {
    && |ms| == |ps|
    && ((forall i :: 0 <= i < |ms| ==> DescribesOld(ms[i], ps[i]))
        || (forall i :: 0 <= i < |ms| ==> DescribesNew(ms[i], ps[i])))
  }

  lemma EntryTypedIs(key: Mp, val: Mp)
    ensures EntryTyped(key, val) <==> EntryOk(key, val)
  {
    hide FieldTypeByName, Text;
    KeysDiffer();
  }

  lemma {:induction false} LastTyped(kvs: seq<Mp>, name: bytes, n: nat)
    requires 2 * n <= |kvs| && forall i :: 0 <= i < n ==> EntryTyped(kvs[2 * i], kvs[2 * i + 1])
    ensures LastText(kvs, name, n).Some? ==> EntryTyped(Str(name), LastText(kvs, name, n).value)
    decreases n
  {
    hide EntryTyped;
    if n > 0 {
      assert kvs[2 * (n - 1)] == kvs[2 * n - 2] && kvs[2 * (n - 1) + 1] == kvs[2 * n - 1];
      LastTyped(kvs, name, n - 1);
    }
  }

  /** The map form gives exactly the part it describes. */
  lemma NewPartExactly(m: Mp, p: Part)
    ensures NewPart(m) == Some(p) <==> DescribesNew(m, p)
  {
    hide PartFold, EntryOk, EntryTyped, FieldTypeByName, LastText, Text;
    if m.Map? {
      var kvs, n := m.kvs, |m.kvs| / 2;
      PartFoldExactly(kvs, n);
      forall i | 0 <= i < n
        ensures EntryTyped(kvs[2 * i], kvs[2 * i + 1]) <==> EntryOk(kvs[2 * i], kvs[2 * i + 1])
      {
        EntryTypedIs(kvs[2 * i], kvs[2 * i + 1]);
      }
      if forall i :: 0 <= i < n ==> EntryTyped(kvs[2 * i], kvs[2 * i + 1]) {
        LastsTyped(kvs);
        TypedMeans(kvs);
      }
    }
  }

  lemma TypedMeans(kvs: seq<Mp>)
    requires LastIs(kvs, Text("field")) && LastIs(kvs, Text("type")) && LastIs(kvs, Text("collation"))
             && LastIs(kvs, Text("is_nullable"))
    ensures var n := |kvs| / 2;
            && (LastText(kvs, Text("field"), n).Some? ==> LastText(kvs, Text("field"), n).value.UInt?)
            && (LastText(kvs, Text("type"), n).Some? ==> LastText(kvs, Text("type"), n).value.Str?)
            && (LastText(kvs, Text("collation"), n).Some? ==> LastText(kvs, Text("collation"), n).value.UInt?)
            && (LastText(kvs, Text("is_nullable"), n).Some? ==> LastText(kvs, Text("is_nullable"), n).value.Bool?)
  {
    hide LastText, Text;
  }

  /** What stands last under a name is a number, a text or a truth value, as the name wants it. */
  lemma LastsTyped(kvs: seq<Mp>)
    requires forall i :: 0 <= i < |kvs| / 2 ==> EntryTyped(kvs[2 * i], kvs[2 * i + 1])
    ensures LastIs(kvs, Text("field")) && LastIs(kvs, Text("type")) && LastIs(kvs, Text("collation"))
            && LastIs(kvs, Text("is_nullable"))
  {
    hide LastText, Text, EntryTyped;
    LastTyped(kvs, Text("field"), |kvs| / 2);
    LastTyped(kvs, Text("type"), |kvs| / 2);
    LastTyped(kvs, Text("collation"), |kvs| / 2);
    LastTyped(kvs, Text("is_nullable"), |kvs| / 2);
  }

  predicate LastIs(kvs: seq<Mp>, name: bytes) {
    var v := LastText(kvs, name, |kvs| / 2); v.Some? ==> EntryTyped(Str(name), v.value)
  }

  lemma OldPartExactly(m: Mp, p: Part)
    ensures OldPart(m) == Some(p) <==> DescribesOld(m, p)
  {
    hide FieldTypeByName;
  }

  lemma {:induction false} OldPartsExactly(ms: seq<Mp>, ps: seq<Part>)
    ensures OldParts(ms, |ms|) == Some(ps) <==>
            |ms| == |ps| && forall i :: 0 <= i < |ms| ==> DescribesOld(ms[i], ps[i])
  {
    OldPartsAt(ms, |ms|);
    hide OldPart, OldParts, DescribesOld;
    forall m, p
      ensures OldPart(m) == Some(p) <==> DescribesOld(m, p)
    {
      OldPartExactly(m, p);
    }
    if |ms| == |ps| && (forall i :: 0 <= i < |ms| ==> DescribesOld(ms[i], ps[i])) {
      forall i | 0 <= i < |ms|
        ensures OldPart(ms[i]).Some?
      {
        assert OldPart(ms[i]) == Some(ps[i]);
      }
      assert OldParts(ms, |ms|).value == ps;
    }
  }

  lemma {:induction false} OldPartsAt(ms: seq<Mp>, n: nat)
    requires n <= |ms|
    ensures OldParts(ms, n).Some? <==> forall i :: 0 <= i < n ==> OldPart(ms[i]).Some?
    ensures OldParts(ms, n).Some? ==>
              |OldParts(ms, n).value| == n
              && forall i :: 0 <= i < n ==> OldPart(ms[i]) == Some(OldParts(ms, n).value[i])
    decreases n
  {
    hide OldPart;
    if n > 0 {
      OldPartsAt(ms, n - 1);
    }
  }

  lemma {:induction false} NewPartsExactly(ms: seq<Mp>, ps: seq<Part>)
    ensures NewParts(ms, |ms|) == Some(ps) <==>
            |ms| == |ps| && forall i :: 0 <= i < |ms| ==> DescribesNew(ms[i], ps[i])
  {
    NewPartsAt(ms, |ms|);
    hide NewPart, NewParts, DescribesNew;
    forall m, p
      ensures NewPart(m) == Some(p) <==> DescribesNew(m, p)
    {
      NewPartExactly(m, p);
    }
    if |ms| == |ps| && (forall i :: 0 <= i < |ms| ==> DescribesNew(ms[i], ps[i])) {
      forall i | 0 <= i < |ms|
        ensures NewPart(ms[i]).Some?
      {
        assert NewPart(ms[i]) == Some(ps[i]);
      }
      assert NewParts(ms, |ms|).value == ps;
    }
  }

  lemma {:induction false} NewPartsAt(ms: seq<Mp>, n: nat)
    requires n <= |ms|
    ensures NewParts(ms, n).Some? <==> forall i :: 0 <= i < n ==> NewPart(ms[i]).Some?
    ensures NewParts(ms, n).Some? ==>
              |NewParts(ms, n).value| == n
              && forall i :: 0 <= i < n ==> NewPart(ms[i]) == Some(NewParts(ms, n).value[i])
    decreases n
  {
    hide NewPart;
    if n > 0 {
      NewPartsAt(ms, n - 1);
    }
  }

  /** A list of parts is accepted exactly when all are in one form, and gives what they describe, in order. */
  lemma PartsExactly(ms: seq<Mp>, ps: seq<Part>)
    ensures PartsOf(ms) == Some(ps) <==> DescribesParts(ms, ps)
  {
    OldPartsExactly(ms, ps);
    NewPartsExactly(ms, ps);
    if ms != [] && |ms| == |ps| {
      FormsApart(ms, ps);
    }
    hide OldParts, NewParts, DescribesOld, DescribesNew;
  }

  /** The first part tells which of the two forms can fit. */
  lemma FormsApart(ms: seq<Mp>, ps: seq<Part>)
    requires |ms| == |ps| && ms != []
    ensures (forall i :: 0 <= i < |ms| ==> DescribesOld(ms[i], ps[i])) ==> ms[0].Arr?
    ensures (forall i :: 0 <= i < |ms| ==> DescribesNew(ms[i], ps[i])) ==> ms[0].Map?
  {
  }
}
