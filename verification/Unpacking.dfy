/** Building PHP values from received bytes. */
module Unpacking {
  import opened Bytes
  import opened Wire
  import opened Php

  /** An unpacked value: a tree, since unpacking never shares arrays. */
  datatype PVal =
    | PNull
    | PBool(b: bool)
    | PLong(n: int)
    | PDouble(bits: bytes)
    | PStr(s: bytes)
    | PArr(ht: HashTable<PVal>)

  // ---------------------------------------------------------------- string keys

  predicate IsDigit(c: int) {
    48 <= c <= 57
  }

  /** The value of a non-empty run of decimal digits. */
  function DigitsValue(s: bytes): Option<nat> {
    if s == [] || !IsDigit(s[|s| - 1]) then None
    else if |s| == 1 then Some(s[0] - 48)
    else
      match DigitsValue(s[..|s| - 1])
      case None => None
      case Some(v) => Some(10 * v + (s[|s| - 1] - 48))
  }

  /** The integer whose canonical decimal form is `s`; the engine stores such a key as that integer. */
  function IntegerLike(s: bytes): (r: Option<int>)
    ensures r.Some? ==> -TWO_63 <= r.value <= LONG_MAX
  {
    if s == [48] then Some(0)
    else if s != [] && s[0] == 45 then
      (match DigitsValue(s[1..])
       case None => None
       case Some(v) =>
         var i: int := v;
         if s[1] != 48 && v <= TWO_63 then Some(-i) else None)
    else
      match DigitsValue(s)
      case None => None
      case Some(v) => if s[0] != 48 && v <= LONG_MAX then Some(v) else None
  }

  /** The C string at the start of `s`. */
  function CString(s: bytes): (c: bytes)
    ensures 0 !in c && |c| <= |s|
  {
    if s == [] || s[0] == 0 then [] else [s[0]] + CString(s[1..])
  }

  /** The key under which `add_assoc_zval` stores a value for string `s`. */
  function SymbolKey(s: bytes): Key {
    var c := CString(s);
    match IntegerLike(c)
    case Some(i) => IntKey(i)
    case None => StrKey(c)
  }

  // ---------------------------------------------------------------- decimal text

  /** `n` in decimal, by division by ten. */
  function Digits(n: nat): (s: bytes)
    ensures s != []
  {
    if n < 10 then [48 + n] else Digits(n / 10) + [48 + n % 10]
  }

  /** The text of an integer: a minus sign if it is negative, and no zero in front. */
  function Decimal(i: int): bytes {
    if i < 0 then [45] + Digits(-i) else Digits(i)
  }

  /** Reading the digits of a number gives the number back; only zero starts with a zero. */
  lemma {:induction false} DigitsRead(n: nat)
    ensures DigitsValue(Digits(n)) == Some(n)
    ensures IsDigit(Digits(n)[0]) && (Digits(n)[0] == 48 <==> n == 0)
    ensures 0 !in Digits(n)
  {
    if n >= 10 {
      DigitsRead(n / 10);
      var s := Digits(n);
      assert s[..|s| - 1] == Digits(n / 10);
    }
  }

  /** A run of digits that does not start with a zero is the text of its value. */
  lemma {:induction false} DigitsWritten(s: bytes)
    requires DigitsValue(s).Some? && (s[0] != 48 || |s| == 1)
    ensures s == Digits(DigitsValue(s).value)
    ensures s[0] != 48 ==> DigitsValue(s).value > 0
    decreases |s|
  {
    if |s| == 1 {
      assert s == [s[0]];
    } else {
      DigitsWritten(s[..|s| - 1]);
      assert s == s[..|s| - 1] + [s[|s| - 1]];
    }
  }

  lemma FirstDigit(s: bytes)
    requires DigitsValue(s).Some?
    ensures s != [] && IsDigit(s[0])
    decreases |s|
  {
    if |s| > 1 {
      FirstDigit(s[..|s| - 1]);
    }
  }

  /** A string counts as an integer exactly when it is the text of one that PHP can hold. */
  lemma IntegerLikeExactly(s: bytes, i: int)
    ensures IntegerLike(s) == Some(i) <==> -TWO_63 <= i <= LONG_MAX && s == Decimal(i)
  {
    hide DigitsValue, Digits;
    if -TWO_63 <= i <= LONG_MAX && s == Decimal(i) {
      DigitsRead(if i < 0 then -i else i);
      assert Digits(0) == [48] by { ZeroText(); }
      if i < 0 {
        assert s[1..] == Digits(-i);
      }
    }
    if IntegerLike(s) == Some(i) {
      ZeroText();
      if s != [] && s[0] == 45 {
        FirstDigit(s[1..]);
        DigitsWritten(s[1..]);
        assert s == [45] + s[1..];
      } else if s != [48] {
        FirstDigit(s);
        DigitsWritten(s);
      }
    }
  }

  lemma ZeroText()
    ensures Digits(0) == [48]
  {
  }

  /** `c` is what a C function sees of `s`: everything before the first NUL. */
  predicate IsCString(c: bytes, s: bytes) {
    c <= s && 0 !in c && (|c| < |s| ==> s[|c|] == 0)
  }

  lemma {:induction false} CStringIs(s: bytes, c: bytes)
    requires IsCString(c, s)
    ensures CString(s) == c
    decreases |s|
  {
    if c != [] {
      assert c[0] == s[0] && c[1..] <= s[1..];
      CStringIs(s[1..], c[1..]);
    }
  }

  // ---------------------------------------------------------------- filling arrays

  const EMPTY: HashTable<PVal> := HashTable([], 0)

  function BumpFree(nextFree: int, k: Key): int {
    if k.IntKey? && k.i >= nextFree then (if k.i < LONG_MAX then k.i + 1 else LONG_MAX) else nextFree
  }

  /** Replaces the value under `k` in its place, or appends a new entry. */
  function Insert<V>(ht: HashTable<V>, k: Key, v: V): HashTable<V> {
    match IndexOf(ht.entries, k)
    case Some(i) => HashTable(ht.entries[i := Entry(k, v)], ht.nextFree)
    case None => HashTable(ht.entries + [Entry(k, v)], BumpFree(ht.nextFree, k))
  }

  // ---------------------------------------------------------------- what a tree becomes

  /** The value a tree is unpacked to; `None` is the failure the extension reports. */
  function ToPhp(m: Mp): Option<PVal>
    decreases m, 0
  {
    match m
    case Nil => Some(PNull)
    case Bool(b) => Some(PBool(b))
    case UInt(n) => Some(PLong(ToLong(n)))
    case SInt(i) => Some(PLong(i))
    case Float(bits) => Some(PDouble(bits))
    case Double(bits) => Some(PDouble(bits))
    case Str(s) => Some(PStr(s))
    case Bin(s) => Some(PStr(s))
    case Arr(items) =>
      (match ListFrom(items, |items|)
       case None => None
       case Some(ht) => Some(PArr(ht)))
    case Map(kvs) =>
      (match HashFrom(kvs, |kvs| / 2)
       case None => None
       case Some(ht) => Some(PArr(ht)))
    case Ext => None
  }

  /** The array after the first `n` elements. */
  function ListFrom(items: seq<Mp>, n: nat): Option<HashTable<PVal>>
    requires n <= |items|
    decreases items, n
  {
    if n == 0 then Some(EMPTY)
    else
      match ListFrom(items, n - 1)
      case None => None
      case Some(ht) =>
        match ToPhp(items[n - 1])
        case None => None
        case Some(v) => Some(Insert(ht, IntKey(ht.nextFree), v))
  }

  /** The array after the first `n` pairs; only integers and strings can be keys. */
  function HashFrom(kvs: seq<Mp>, n: nat): Option<HashTable<PVal>>
    requires 2 * n <= |kvs|
    decreases kvs, n
  {
    if n == 0 then Some(EMPTY)
    else
      match HashFrom(kvs, n - 1)
      case None => None
      case Some(ht) =>
        match (ToPhp(kvs[2 * n - 2]), ToPhp(kvs[2 * n - 1]))
        case (Some(PLong(i)), Some(v)) => Some(Insert(ht, IntKey(i), v))
        case (Some(PStr(s)), Some(v)) => Some(Insert(ht, SymbolKey(s), v))
        case _ => None
  }

  /**
   * The key a text is stored under: the integer whose decimal text it is, if PHP can hold that, and
   * otherwise the text itself up to its first NUL.
   */
  lemma TextKeyExactly(s: bytes, c: bytes, m: Mp)
    requires IsCString(c, s) && ToPhp(m).Some?
    ensures var r := ToPhp(Map([Str(s), m]));
            && r.Some? && r.value.PArr? && |r.value.ht.entries| == 1
            && var e := r.value.ht.entries[0];
               && e.val == ToPhp(m).value
               && (forall i :: e.key == IntKey(i) <==> -TWO_63 <= i <= LONG_MAX && c == Decimal(i))
               && (e.key.StrKey? ==> e.key.s == c)
  {
    hide IntegerLike, CString, Decimal;
    CStringIs(s, c);
    OnePair(Str(s), m);
    forall i
      ensures IntegerLike(c) == Some(i) <==> -TWO_63 <= i <= LONG_MAX && c == Decimal(i)
    {
      IntegerLikeExactly(c, i);
    }
  }

  /** So the text of an integer and the integer are the same key. */
  lemma DecimalKey(i: int, m: Mp)
    requires -TWO_63 <= i <= LONG_MAX && ToPhp(m).Some?
    ensures ToPhp(Map([Str(Decimal(i)), m])) == ToPhp(Map([if i < 0 then SInt(i) else UInt(i), m]))
    ensures var r := ToPhp(Map([Str(Decimal(i)), m]));
            r.Some? && r.value.PArr? && r.value.ht.entries == [Entry(IntKey(i), ToPhp(m).value)]
  {
    hide Digits;
    DigitsRead(if i < 0 then -i else i);
    TextKeyExactly(Decimal(i), Decimal(i), m);
    OnePair(Str(Decimal(i)), m);
    OnePair(if i < 0 then SInt(i) else UInt(i), m);
  }

  lemma OnePair(k: Mp, m: Mp)
    requires ToPhp(k).Some? && (ToPhp(k).value.PLong? || ToPhp(k).value.PStr?) && ToPhp(m).Some?
    ensures var key := if ToPhp(k).value.PLong? then IntKey(ToPhp(k).value.n) else SymbolKey(ToPhp(k).value.s);
            ToPhp(Map([k, m])) ==
            Some(PArr(HashTable([Entry(key, ToPhp(m).value)], BumpFree(0, key))))
  {
    hide SymbolKey, ToPhp;
    var key := if ToPhp(k).value.PLong? then IntKey(ToPhp(k).value.n) else SymbolKey(ToPhp(k).value.s);
    assert HashFrom([k, m], 0) == Some(EMPTY);
    assert HashFrom([k, m], 1) == Some(Insert(EMPTY, key, ToPhp(m).value));
    assert EMPTY.entries + [Entry(key, ToPhp(m).value)] == [Entry(key, ToPhp(m).value)];
    MapToPhp([k, m]);
  }

  lemma MapToPhp(kvs: seq<Mp>)
    ensures ToPhp(Map(kvs)) ==
            var ht := HashFrom(kvs, |kvs| / 2); if ht.None? then None else Some(PArr(ht.value))
  {
  }

  lemma {:induction false} ListFromFails(items: seq<Mp>, n: nat, m: nat)
    requires n <= m <= |items| && ListFrom(items, n).None?
    ensures ListFrom(items, m).None?
    decreases m
  {
    hide ToPhp;
    if n < m {
      ListFromFails(items, n, m - 1);
    }
  }

  lemma {:induction false} HashFromFails(kvs: seq<Mp>, n: nat, m: nat)
    requires n <= m && 2 * m <= |kvs| && HashFrom(kvs, n).None?
    ensures HashFrom(kvs, m).None?
    decreases m
  {
    hide ToPhp;
    if n < m {
      HashFromFails(kvs, n, m - 1);
    }
  }

  // ---------------------------------------------------------------- the routines

  lemma SeqParsed(b: bytes, k: nat)
    requires k > 0 && ParseSeq(b, k).Ok?
    ensures Parse(b).Ok? && ParseSeq(Parse(b).rest, k - 1).Ok?
    ensures ParseSeq(b, k).v[0] == Parse(b).v && ParseSeq(b, k).v[1..] == ParseSeq(Parse(b).rest, k - 1).v
    ensures ParseSeq(b, k).rest == ParseSeq(Parse(b).rest, k - 1).rest
  {
    hide Parse;
  }

  lemma ContainerParsed(b: bytes)
    requires Parse(b).Ok?
    ensures Head(b).Ok?
    ensures var t, rest := Head(b).v, Head(b).rest;
            && (t.TArr? ==>
                  ParseSeq(rest, t.size).Ok? &&
                  Parse(b) == Ok(Arr(ParseSeq(rest, t.size).v), ParseSeq(rest, t.size).rest))
            && (t.TMap? ==>
                  ParseSeq(rest, 2 * t.size).Ok? &&
                  Parse(b) == Ok(Map(ParseSeq(rest, 2 * t.size).v), ParseSeq(rest, 2 * t.size).rest))
            && (!t.TArr? && !t.TMap? ==> Parse(b) == Ok(Leaf(t), rest))
  {
    hide Head, ParseSeq;
  }

  /** `php_mp_unpack`: the value of the tree at the cursor, which ends up just behind it. */
  method Unpack(cur: Cursor) returns (r: Option<PVal>)
    requires cur.Valid() && Parse(cur.Rest()).Ok?
    modifies cur`pos
    ensures cur.Valid()
    ensures r == ToPhp(old(Parse(cur.Rest()).v))
    ensures r.Some? ==> cur.Rest() == old(Parse(cur.Rest()).rest)
    decreases |cur.Rest()|, 1, 0
  {
    hide Head, Parse, ParseSeq, ListFrom, HashFrom;
    ContainerParsed(cur.Rest());
    var t := cur.DecodeHead();
    match t {
      case TArr(n) =>
        var ht := UnpackArray(cur, n);
        r := if ht.Some? then Some(PArr(ht.value)) else None;
      case TMap(n) =>
        var ht := UnpackMap(cur, n);
        r := if ht.Some? then Some(PArr(ht.value)) else None;
      case TNil => r := Some(PNull);
      case TBool(b) => r := Some(PBool(b));
      case TUInt(n) => r := Some(PLong(ToLong(n)));
      case TSInt(i) => r := Some(PLong(i));
      case TFloat(bits) => r := Some(PDouble(bits));
      case TDouble(bits) => r := Some(PDouble(bits));
      case TStr(s) => r := Some(PStr(s));
      case TBin(s) => r := Some(PStr(s));
      case TExt => r := None;
    }
  }

  method UnpackArray(cur: Cursor, size: nat) returns (r: Option<HashTable<PVal>>)
    requires cur.Valid() && ParseSeq(cur.Rest(), size).Ok?
    modifies cur`pos
    ensures cur.Valid()
    ensures var p := old(ParseSeq(cur.Rest(), size));
            r == ListFrom(p.v, size) && (r.Some? ==> cur.Rest() == p.rest)
    decreases |cur.Rest()|, 2, 0
  {
    hide Parse, ParseSeq, ToPhp;
    ghost var all := ParseSeq(cur.Rest(), size);
    var oval := EMPTY;
    var len: nat := size;
    while len > 0
      invariant cur.Valid() && len <= size && |cur.Rest()| <= old(|cur.Rest()|)
      invariant ParseSeq(cur.Rest(), len) == Ok(all.v[size - len..], all.rest)
      invariant ListFrom(all.v, size - len) == Some(oval)
    {
      SeqParsed(cur.Rest(), len);
      ghost var i := size - len;
      assert all.v[i..][1..] == all.v[i + 1..];
      assert Parse(cur.Rest()).v == all.v[i];
      var value := Unpack(cur);
      if value.None? {
        ListFromFails(all.v, i + 1, size);
        return None;
      }
      oval := Insert(oval, IntKey(oval.nextFree), value.value);
      len := len - 1;
    }
    ParseSeqNone(cur.Rest());
    r := Some(oval);
  }

  lemma ParseSeqNone(b: bytes)
    ensures ParseSeq(b, 0) == Ok([], b)
  {
  }

  method UnpackMap(cur: Cursor, size: nat) returns (r: Option<HashTable<PVal>>)
    requires cur.Valid() && ParseSeq(cur.Rest(), 2 * size).Ok?
    modifies cur`pos
    ensures cur.Valid()
    ensures var p := old(ParseSeq(cur.Rest(), 2 * size));
            r == HashFrom(p.v, size) && (r.Some? ==> cur.Rest() == p.rest)
    decreases |cur.Rest()|, 2, 0
  {
    hide Parse, ParseSeq, ToPhp, SymbolKey, Insert;
    ghost var all := ParseSeq(cur.Rest(), 2 * size);
    var oval := EMPTY;
    var len: nat := size;
    while len > 0
      invariant cur.Valid() && len <= size && |cur.Rest()| <= old(|cur.Rest()|)
      invariant ParseSeq(cur.Rest(), 2 * len) == Ok(all.v[2 * (size - len)..], all.rest)
      invariant HashFrom(all.v, size - len) == Some(oval)
    {
      ghost var i := size - len;
      SeqParsed(cur.Rest(), 2 * len);
      SeqParsed(Parse(cur.Rest()).rest, 2 * len - 1);
      assert all.v[2 * i..][1..] == all.v[2 * i + 1..] && all.v[2 * i + 1..][1..] == all.v[2 * i + 2..];
      assert Parse(cur.Rest()).v == all.v[2 * i];
      var key := Unpack(cur);
      if key.None? {
        HashFromFails(all.v, i + 1, size);
        return None;
      }
      assert Parse(cur.Rest()).v == all.v[2 * i + 1];
      var value := Unpack(cur);
      if value.None? {
        HashFromFails(all.v, i + 1, size);
        return None;
      }
      if key.value.PLong? {
        oval := Insert(oval, IntKey(key.value.n), value.value);
      } else if key.value.PStr? {
        oval := Insert(oval, SymbolKey(key.value.s), value.value);
      } else {
        HashFromFails(all.v, i + 1, size);
        return None;
      }
      len := len - 1;
    }
    ParseSeqNone(cur.Rest());
    r := Some(oval);
  }
}
