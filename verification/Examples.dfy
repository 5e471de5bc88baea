/**
 * Small inputs: on which a promise of the extension fails, each condition proved elsewhere shutting its
 * kind out; and single values and requests as bytes.
 */
module Examples {
  import opened Bytes
  import opened Wire
  import opened Php
  import opened Unpacking
  import opened RoundTrip
  import opened Protocol
  import opened IndexParts

  /** An array that is taken for a list although its keys are -1 and 1: it does not come back as it was. */
  lemma NegativeKeyIsLost()
    ensures var ht := HashTable([Entry(IntKey(-1), ZLong(7)), Entry(IntKey(1), ZLong(8))], 2);
            var h: Heap := map[0 := ht];
            ValidHeap(h) && NoRefCycle(h) && !IsHash(ht) && !DenseKeys(ht) && !Lossless(h, ZArray(0))
  {
    var ht := HashTable([Entry(IntKey(-1), ZLong(7)), Entry(IntKey(1), ZLong(8))], 2);
    var h: Heap := map[0 := ht];
    assert ht.entries[0].key == IntKey(-1);
    assert HasNegativeKey(ht);
    NoEdges(h);
    assert !Faithful(h[0]);
    assert IsBelow(h, ZArray(0), 0);
  }

  lemma NoEdges(h: Heap)
    requires forall a, i :: a in h && 0 <= i < |h[a].entries| ==> h[a].entries[i].val.ZLong?
    ensures NoRefCycle(h)
  {
    forall p: seq<nat> | |p| >= 2
      ensures !Path(h, p, true)
    {
      assert !Edge(h, p[0], p[1], true);
    }
  }

  /** An array that holds a reference to itself: no mark is ever set on the way round. */
  lemma SelfReferenceIsSilent()
    ensures var h: Heap := map[0 := HashTable([Entry(IntKey(0), ZRef(ZArray(0)))], 1)];
            ValidHeap(h) && !NoRefCycle(h)
  {
    var h: Heap := map[0 := HashTable([Entry(IntKey(0), ZRef(ZArray(0)))], 1)];
    assert Leads(h[0].entries[0].val, 0, true);
    EdgeReaches(h, 0, 0, true);
  }

  /** Numbers at the edges of the formats, as bytes. */
  lemma Numbers()
    ensures EncUInt(0x7f) == [0x7f] && EncUInt(0x80) == [0xcc, 0x80] && EncUInt(0x1234) == [0xcd, 0x12, 0x34]
    ensures EncUInt(0x1_0000) == [0xce, 0, 1, 0, 0] && EncUInt(0x1_0000_0000) == [0xcf, 0, 0, 0, 1, 0, 0, 0, 0]
  {
    hide BE;
    One(0x80);
    One(0x12);
    Wider(0x12, 0x34, 1);
    FourBytes(0, 1, 0, 0);
    LongNumber();
  }

  lemma LongNumber()
    ensures BE(0x1_0000_0000, 8) == [0, 0, 0, 1, 0, 0, 0, 0]
  {
    hide BE;
    FourBytes(0, 0, 0, 1);
    Wider(1, 0, 4);
    Wider(0x100, 0, 5);
    Wider(0x1_0000, 0, 6);
    Wider(0x100_0000, 0, 7);
  }

  lemma NegativeNumbers()
    ensures EncSInt(-1) == [0xff] && EncSInt(-0x20) == [0xe0] && EncSInt(-0x21) == [0xd0, 0xdf]
    ensures EncSInt(-0x81) == [0xd1, 0xff, 0x7f]
  {
    hide BE;
    One(0xdf);
    One(0xff);
    Wider(0xff, 0x7f, 1);
  }

  lemma Wider(n: nat, lo: byte, w: nat)
    ensures BE(0x100 * n + lo, w + 1) == BE(n, w) + [lo]
  {
  }

  lemma One(n: byte)
    ensures BE(n, 1) == [n]
  {
    assert BE(0, 0) == [];
  }

  lemma FourBytes(a: byte, b: byte, c: byte, d: byte)
    ensures BE(0x100_0000 * a + 0x1_0000 * b + 0x100 * c + d, 4) == [a, b, c, d]
  {
    hide BE;
    One(a);
    Wider(a, b, 1);
    Wider(0x100 * a + b, c, 2);
    Wider(0x1_0000 * a + 0x100 * b + c, d, 3);
  }

  lemma Heads()
    ensures EncHead(TNil) == [0xc0] && EncHead(TBool(false)) == [0xc2] && EncHead(TBool(true)) == [0xc3]
    ensures EncHead(TStr([])) == [0xa0] && EncHead(TArr(3)) == [0x93] && EncHead(TMap(3)) == [0x83]
    ensures EncHead(TArr(16)) == [0xdc, 0, 16] && EncHead(TMap(16)) == [0xde, 0, 16]
  {
    hide BE;
    One(0);
    Wider(0, 16, 1);
  }

  /** The smallest request, whole: the length, the header with its code and sync. */
  lemma PingFrame()
    ensures Frame(Enc(HeaderTree(0x40, 5))) == [0xce, 0, 0, 0, 5, 0x82, 0x00, 0x40, 0x01, 0x05]
  {
    hide Enc, EncSeq, BE, WF;
    var kvs := [UInt(0), UInt(0x40), UInt(1), UInt(5)];
    assert HeaderTree(0x40, 5) == Map(kvs) by { assert HeaderTree(0x40, 5).kvs == kvs; }
    assert [UInt(0), UInt(0x40)] + [UInt(1), UInt(5)] == kvs;
    TwoSmall(0, 0x40);
    TwoSmall(1, 5);
    EncSeqConcat([UInt(0), UInt(0x40)], [UInt(1), UInt(5)]);
    EncMap(kvs);
    assert EncHead(TMap(2)) == [0x82];
    FourBytes(0, 0, 0, 5);
  }

  lemma TwoSmall(a: nat, b: nat)
    requires a < 0x80 && b < 0x80
    ensures AllWF([UInt(a), UInt(b)]) && EncSeq([UInt(a), UInt(b)]) == [a, b]
  {
    assert [UInt(a), UInt(b)][1..] == [UInt(b)];
    assert EncSeq([UInt(b)]) == Enc(UInt(b)) + EncSeq([]);
  }

  /** Text keys that PHP takes for integers, and some that it does not. */
  lemma TextKeys()
    ensures Decimal(12) == Text("12") && Decimal(-7) == Text("-7") && Decimal(0) == Text("0")
    ensures forall i :: Decimal(i) != Text("012") && Decimal(i) != Text("-0") && Decimal(i) != Text("+1")
  {
    assert Digits(12) == Digits(1) + [50];
    forall i
      ensures Decimal(i) != Text("012") && Decimal(i) != Text("-0") && Decimal(i) != Text("+1")
    {
      var n := if i < 0 then -i else i;
      DigitsRead(n);
      assert Digits(n)[0] == 48 ==> Digits(n) == [48];
      if i < 0 {
        assert Decimal(i)[1] == Digits(n)[0];
      }
    }
  }

  /** Names of types from older servers, and what a prefix or no name at all stands for. */
  lemma OldTypeNames()
    ensures FieldTypeByName(Text("num")) == 1 && FieldTypeByName(Text("NUM")) == 1
    ensures FieldTypeByName(Text("str")) == 2 && FieldTypeByName(Text("*")) == 0
    ensures FieldTypeByName([]) == 1
  {
    hide NameIndex, Text, PrefixFold, Odd;
    OddNames();
    NoTypeName(Text("num"), 0);
    NoTypeName(Text("NUM"), 0);
    NoTypeName(Text("str"), 0);
    NoTypeName(Text("*"), 0);
    OldNames();
  }

  lemma OddNames()
    ensures Odd(Text("num")) && Odd(Text("NUM")) && Odd(Text("str")) && Odd(Text("*"))
  {
    var t := Text("uUt");
    assert Text("num")[1] == t[0] && Text("NUM")[1] == t[1] && Text("str")[1] == t[2];
  }

  lemma OldNames()
    ensures PrefixFold(Text("num"), Text("num")) && PrefixFold(Text("NUM"), Text("num")) && PrefixFold([], Text("num"))
    ensures !PrefixFold(Text("str"), Text("num")) && PrefixFold(Text("str"), Text("str"))
    ensures !PrefixFold(Text("*"), Text("num")) && !PrefixFold(Text("*"), Text("str"))
  {
    var num, star, str := Text("num"), Text("*"), Text("str");
    assert Lower(str[0]) != Lower(num[0]) && Lower(star[0]) != Lower(num[0]) && Lower(star[0]) != Lower(str[0]);
    assert str[..3][0] == str[0] && num[..3][0] == num[0] && num[..1][0] == num[0] && str[..1][0] == str[0];
  }

  predicate Odd(name: bytes) {
    |name| == 1 || (|name| == 3 && name[1] in Text("uUt"))
  }

  lemma {:induction false} NoTypeName(name: bytes, i: nat)
    requires Odd(name) && i <= |TYPE_NAMES|
    ensures NameIndex(name, i) == FIELD_TYPE_MAX
    decreases |TYPE_NAMES| - i
  {
    hide Text, EqualFold, Odd;
    if i < |TYPE_NAMES| {
      NotNamed(name, i);
      NoTypeName(name, i + 1);
    }
  }

  lemma NotNamed(name: bytes, k: nat)
    requires Odd(name) && k < |TYPE_NAMES|
    ensures !EqualFold(Text(TYPE_NAMES[k]), name)
  {
    var t := Text(TYPE_NAMES[k]);
    if |name| == 3 && |t| == 3 {
      assert Lower(t[1]) != Lower(name[1]);
    }
  }
}
