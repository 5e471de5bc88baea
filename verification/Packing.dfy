/**
 * Serialising PHP values: what the recursion guard lets through, the packing and the sizing
 * routines over a heap of arrays that may be shared and cyclic, and how deep they recurse.
 */
module Packing {
  import opened Bytes
  import opened Wire
  import opened Php
  import SmartString

  /** Where a zval lives when it is a bucket: the array and the bucket's index. */
  type Place = Option<(nat, nat)>

  // ---------------------------------------------------------------- the guard

  /** The buckets met while serialising an array; `None` is an index with no bucket. */
  function VisitAt<V>(ht: HashTable<V>, i: nat): (j: Option<nat>)
    requires i < |ht.entries|
    ensures j.Some? ==> j.value < |ht.entries| && Visited(ht, j.value)
  {
    if IsHash(ht) then Some(i) else IndexOf(ht.entries, IntKey(i))
  }

  /** Element `j` of array `a` is written as nil: it is the value being packed itself, or is marked. */
  predicate Guarded(marks: set<nat>, data: Zval, a: nat, j: nat, at: Place) {
    at == Some((a, j)) || (data.ZArray? && data.id in marks)
  }

  /** Only an array held directly gets marked. */
  function Enter(marks: set<nat>, data: Zval): set<nat> {
    if data.ZArray? then marks + {data.id} else marks
  }

  function PlaceOf(v: Zval, at: Place): Place {
    if v.ZRef? then None else at
  }

  /** `at` really is a bucket that holds `v`. */
  ghost predicate PlaceOk(h: Heap, v: Zval, at: Place) {
    at.Some? ==> at.value.0 in h && at.value.1 < |h[at.value.0].entries| && h[at.value.0].entries[at.value.1].val == v
  }

  // ---------------------------------------------------------------- the termination measure

  ghost function Unmarked(h: Heap, marks: set<nat>): nat {
    |h.Keys - marks|
  }

  ghost function Height(h: Heap, v: Zval): nat {
    match Target(v)
    case None => 0
    case Some(a) => 1 + Rank(h, a)
  }

  lemma UnmarkedDecreases(h: Heap, marks: set<nat>, a: nat)
    requires a in h && a !in marks
    ensures Unmarked(h, marks + {a}) < Unmarked(h, marks)
  {
    SubsetSize(h.Keys - (marks + {a}), h.Keys - marks);
    assert a in h.Keys - marks;
  }

  /** Entering an element the guard lets through lowers (unmarked arrays, height). */
  lemma EnterDecreases(h: Heap, marks: set<nat>, a: nat, j: nat, at: Place)
    requires ValidHeap(h) && NoRefCycle(h) && a in h && j < |h[a].entries| && Visited(h[a], j)
    requires !Guarded(marks, h[a].entries[j].val, a, j, at)
    ensures var data := h[a].entries[j].val;
            && Sane(h, data)
            && (Unmarked(h, Enter(marks, data)) < Unmarked(h, marks) ||
                (Enter(marks, data) == marks && Height(h, data) < 1 + Rank(h, a)))
  {
    var data := h[a].entries[j].val;
    assert ValidArray(h, h[a]);
    if data.ZArray? {
      UnmarkedDecreases(h, marks, data.id);
    } else if Target(data).Some? {
      assert Leads(data, Target(data).value, true);
      RankDecreases(h, a, Target(data).value);
    }
  }

  // ---------------------------------------------------------------- what is written

  function KeyImage(k: Key): Mp {
    match k
    case IntKey(i) => LongImage(i)
    case StrKey(s) => Str(s)
  }

  function LongImage(n: int): Mp {
    if n >= 0 then UInt(n) else SInt(n)
  }

  function SizeofLong(n: int): (r: nat)
    requires -TWO_63 <= n <= LONG_MAX
    ensures r == |Enc(LongImage(n))|
  {
    if n >= 0 then SizeofUInt(n) else SizeofInt(n)
  }

  function SizeofKey(k: Key): (r: nat)
    requires ValidKey(k)
    ensures r == |Enc(KeyImage(k))|
  {
    match k
    case IntKey(i) => SizeofLong(i)
    case StrKey(s) => SizeofStr(|s|)
  }

  lemma KeyImageWF(k: Key)
    requires ValidKey(k)
    ensures WF(KeyImage(k))
  {
  }

  lemma AllWFConcat(a: seq<Mp>, b: seq<Mp>)
    requires AllWF(a) && AllWF(b)
    ensures AllWF(a + b)
  {
    hide WF;
  }

  lemma AllWFOne(m: Mp)
    requires WF(m)
    ensures AllWF([m])
  {
    hide WF;
  }

  lemma ArrayFacts(h: Heap, a: nat)
    requires ValidHeap(h) && a in h
    ensures |h[a].entries| < 0x8000_0000
    ensures forall i :: 0 <= i < |h[a].entries| ==> ValidKey(h[a].entries[i].key) && Sane(h, h[a].entries[i].val)
  {
    assert ValidArray(h, h[a]);
  }

  /** The MessagePack tree written for `v` while the arrays in `marks` are being written. */
  ghost function Image(h: Heap, marks: set<nat>, v: Zval, at: Place): (m: Mp)
    requires ValidHeap(h) && NoRefCycle(h) && Sane(h, v)
    ensures WF(m)
    decreases Unmarked(h, marks), Height(h, v), 4, 0
  {
    match Deref(v)
    case ZNull => Nil
    case ZBool(b) => Bool(b)
    case ZLong(n) => LongImage(n)
    case ZDouble(bits) => Double(bits)
    case ZStr(s) => Str(s)
    case ZArray(a) =>
      ArrayFacts(h, a);
      var items := Items(h, marks, a, PlaceOf(v, at), |h[a].entries|);
      ContainerWF(items);
      if IsHash(h[a]) then Map(items) else Arr(items)
    case ZRef(_) => Nil
    case ZOther => Nil
  }

  /** What the first `n` steps over array `a` write: elements of a list, keys and values of a hash. */
  ghost function Items(h: Heap, marks: set<nat>, a: nat, at: Place, n: nat): (ms: seq<Mp>)
    requires ValidHeap(h) && NoRefCycle(h) && a in h && n <= |h[a].entries|
    ensures AllWF(ms)
    ensures |ms| == if IsHash(h[a]) then 2 * n else n
    decreases Unmarked(h, marks), 1 + Rank(h, a), 3, n
  {
    if n == 0 then [] else
      var before := Items(h, marks, a, at, n - 1);
      var step := Step(h, marks, a, at, n - 1);
      AllWFConcat(before, step);
      before + step
  }

  /** One step over array `a`: in a hash, the key goes first. */
  ghost function Step(h: Heap, marks: set<nat>, a: nat, at: Place, i: nat): (ms: seq<Mp>)
    requires ValidHeap(h) && NoRefCycle(h) && a in h && i < |h[a].entries|
    ensures AllWF(ms)
    ensures |ms| == if IsHash(h[a]) then 2 else 1
    decreases Unmarked(h, marks), 1 + Rank(h, a), 2, 0
  {
    var x := Element(h, marks, a, at, VisitAt(h[a], i));
    AllWFOne(x);
    if IsHash(h[a]) then
      var k := KeyImage(h[a].entries[i].key);
      ArrayFacts(h, a);
      KeyImageWF(h[a].entries[i].key);
      AllWFOne(k);
      AllWFConcat([k], [x]);
      [k] + [x]
    else [x]
  }

  ghost function Element(h: Heap, marks: set<nat>, a: nat, at: Place, j: Option<nat>): (m: Mp)
    requires ValidHeap(h) && NoRefCycle(h) && a in h
    requires j.Some? ==> j.value < |h[a].entries| && Visited(h[a], j.value)
    ensures WF(m)
    decreases Unmarked(h, marks), 1 + Rank(h, a), 1, 0
  {
    if j.None? then Nil
    else
      var data := h[a].entries[j.value].val;
      if Guarded(marks, data, a, j.value, at) then Nil
      else
        EnterDecreases(h, marks, a, j.value, at);
        Image(h, Enter(marks, data), data, Some((a, j.value)))
  }

  // ---------------------------------------------------------------- the routines

  lemma ScalarImage(h: Heap, marks: set<nat>, v: Zval, at: Place)
    requires ValidHeap(h) && NoRefCycle(h) && Sane(h, v)
    requires !Deref(v).ZArray?
    ensures Enc(Image(h, marks, v, at)) == EncHead(TokenOf(Image(h, marks, v, at)))
    ensures Image(h, marks, v, at) ==
            match Deref(v)
            case ZBool(b) => Bool(b)
            case ZLong(n) => LongImage(n)
            case ZDouble(bits) => Double(bits)
            case ZStr(s) => Str(s)
            case _ => Nil
  {
    hide EncHead, WF;
  }

  function HeadOf<V>(ht: HashTable<V>): Token {
    if IsHash(ht) then TMap(|ht.entries|) else TArr(|ht.entries|)
  }

  /** The bytes of array `a` after its first `n` steps. */
  ghost function Written(h: Heap, marks: set<nat>, a: nat, at: Place, n: nat): bytes
    requires ValidHeap(h) && NoRefCycle(h) && a in h && n <= |h[a].entries|
  {
    ArrayFacts(h, a);
    EncHead(HeadOf(h[a])) + EncSeq(Items(h, marks, a, at, n))
  }

  lemma WrittenStart(h: Heap, marks: set<nat>, a: nat, at: Place)
    requires ValidHeap(h) && NoRefCycle(h) && a in h
    ensures |h[a].entries| < 0x8000_0000
    ensures Written(h, marks, a, at, 0) == EncHead(HeadOf(h[a]))
  {
    hide EncHead, WF;
    ArrayFacts(h, a);
    assert EncSeq([]) == [];
  }

  lemma WrittenAll(h: Heap, marks: set<nat>, v: Zval, at: Place, a: nat)
    requires ValidHeap(h) && NoRefCycle(h) && Sane(h, v)
    requires Deref(v) == ZArray(a)
    ensures Enc(Image(h, marks, v, at)) == Written(h, marks, a, PlaceOf(v, at), |h[a].entries|)
  {
    hide EncHead, WF, EncSeq, Items;
    ArrayFacts(h, a);
  }

  lemma EncSeqOne(m: Mp)
    requires WF(m)
    ensures AllWF([m]) && EncSeq([m]) == Enc(m)
  {
    hide Enc, WF;
    assert EncSeq([m]) == Enc(m) + EncSeq([]);
  }

  /** The bytes one step appends. */
  ghost function StepBytes(h: Heap, marks: set<nat>, a: nat, at: Place, i: nat): bytes
    requires ValidHeap(h) && NoRefCycle(h) && a in h && i < |h[a].entries|
  {
    ArrayFacts(h, a);
    KeyImageWF(h[a].entries[i].key);
    (if IsHash(h[a]) then Enc(KeyImage(h[a].entries[i].key)) else []) +
    Enc(Element(h, marks, a, at, VisitAt(h[a], i)))
  }

  lemma StepEncoding(h: Heap, marks: set<nat>, a: nat, at: Place, i: nat)
    requires ValidHeap(h) && NoRefCycle(h) && a in h && i < |h[a].entries|
    ensures EncSeq(Step(h, marks, a, at, i)) == StepBytes(h, marks, a, at, i)
  {
    hide Enc, WF, EncSeq, Element;
    ArrayFacts(h, a);
    var k := KeyImage(h[a].entries[i].key);
    KeyImageWF(h[a].entries[i].key);
    var x := Element(h, marks, a, at, VisitAt(h[a], i));
    EncSeqOne(k);
    EncSeqOne(x);
    EncSeqConcat([k], [x]);
  }

  lemma WrittenStep(h: Heap, marks: set<nat>, a: nat, at: Place, i: nat)
    requires ValidHeap(h) && NoRefCycle(h) && a in h && i < |h[a].entries|
    ensures Written(h, marks, a, at, i + 1) == Written(h, marks, a, at, i) + StepBytes(h, marks, a, at, i)
  {
    hide Enc, WF, EncSeq, Element, EncHead, StepBytes, Step;
    ArrayFacts(h, a);
    var before := Items(h, marks, a, at, i);
    var step := Step(h, marks, a, at, i);
    EncSeqConcat(before, step);
    StepEncoding(h, marks, a, at, i);
    assert Items(h, marks, a, at, i + 1) == before + step;
  }

  /** The serialiser's side of the engine: the arrays, and the recursion marks on them. */
  class Serializer {
    const heap: Heap
    var marked: set<nat>

    constructor (h: Heap)
      ensures heap == h && marked == {}
    {
      heap := h;
      marked := {};
    }

    ghost predicate Ready()
    {
      ValidHeap(heap) && NoRefCycle(heap)
    }

    method PackLong(str: SmartString.SmartString, val: int)
      requires -TWO_63 <= val <= LONG_MAX && str.Valid()
      modifies str, str.c
      ensures str.Valid() && (str.c == old(str.c) || fresh(str.c))
      ensures str.Contents() == old(str.Contents()) + Enc(LongImage(val))
    {
      if val >= 0 {
        str.Append(EncUInt(val));
      } else {
        str.Append(EncSInt(val));
      }
    }

    method PackString(str: SmartString.SmartString, s: bytes)
      requires |s| < TWO_32 - 5 && str.Valid()
      modifies str, str.c
      ensures str.Valid() && (str.c == old(str.c) || fresh(str.c))
      ensures str.Contents() == old(str.Contents()) + Enc(Str(s))
    {
      str.Append(EncStrHead(|s|) + s);
    }

    method PackKey(str: SmartString.SmartString, k: Key)
      requires ValidKey(k) && str.Valid()
      modifies str, str.c
      ensures str.Valid() && (str.c == old(str.c) || fresh(str.c))
      ensures str.Contents() == old(str.Contents()) + Enc(KeyImage(k))
    {
      hide Enc;
      match k {
        case IntKey(i) => PackLong(str, i);
        case StrKey(s) => PackString(str, s);
      }
    }

    /**
     * `php_mp_pack`: appends the encoding of the value's image, leaves every recursion mark as it
     * found it, and terminates although the arrays may form cycles.
     */
    method Pack(str: SmartString.SmartString, val: Zval, at: Place)
      requires Ready() && Sane(heap, val) && str.Valid()
      modifies `marked, str, str.c
      ensures marked == old(marked)
      ensures str.Valid() && (str.c == old(str.c) || fresh(str.c))
      ensures str.Contents() == old(str.Contents()) + Enc(Image(heap, old(marked), val, at))
      decreases Unmarked(heap, marked), Height(heap, val), 4
    {
      hide ValidHeap, NoRefCycle, Unmarked, Rank, Image, EncSeq, WF, Written, Items;
      var v := Deref(val);
      if v.ZArray? {
        WrittenAll(heap, marked, val, at, v.id);
        var isHash := PhpMpIsHash(heap[v.id]);
        if isHash {
          PackHashRecursively(str, v.id, PlaceOf(val, at));
        } else {
          PackArrayRecursively(str, v.id, PlaceOf(val, at));
        }
      } else {
        ScalarImage(heap, marked, val, at);
        if v.ZLong? {
          PackLong(str, v.n);
        } else if v.ZDouble? {
          str.Append([0xcb] + v.bits);
        } else if v.ZBool? {
          str.Append([if v.b then 0xc3 else 0xc2]);
        } else if v.ZStr? {
          PackString(str, v.s);
        } else {
          str.Append([0xc0]);
        }
      }
    }

    /** One element: nil where the guard fires, otherwise the value, packed under its mark. */
    method PackElement(str: SmartString.SmartString, a: nat, at: Place, j: Option<nat>)
      requires Ready() && a in heap && str.Valid()
      requires j.Some? ==> j.value < |heap[a].entries| && Visited(heap[a], j.value)
      modifies `marked, str, str.c
      ensures marked == old(marked)
      ensures str.Valid() && (str.c == old(str.c) || fresh(str.c))
      ensures str.Contents() == old(str.Contents()) + Enc(Element(heap, old(marked), a, at, j))
      decreases Unmarked(heap, marked), 1 + Rank(heap, a), 1
    {
      hide ValidHeap, NoRefCycle, Unmarked, Rank, Image, EncSeq, WF, IsHash, Items;
      if j == None || Guarded(marked, heap[a].entries[j.value].val, a, j.value, at) {
        str.Append([0xc0]);
      } else {
        var data := heap[a].entries[j.value].val;
        EnterDecreases(heap, marked, a, j.value, at);
        if data.ZArray? {
          marked := marked + {data.id};
        }
        Pack(str, data, Some((a, j.value)));
        if data.ZArray? {
          marked := marked - {data.id};
        }
      }
    }

    method PackArrayRecursively(str: SmartString.SmartString, a: nat, at: Place)
      requires Ready() && a in heap && !IsHash(heap[a]) && str.Valid()
      modifies `marked, str, str.c
      ensures marked == old(marked)
      ensures str.Valid() && (str.c == old(str.c) || fresh(str.c))
      ensures str.Contents() == old(str.Contents()) + Written(heap, old(marked), a, at, |heap[a].entries|)
      decreases Unmarked(heap, marked), 1 + Rank(heap, a), 2
    {
      hide ValidHeap, NoRefCycle, Unmarked, Rank, EncHead, Written, Element, Enc, WF, IsHash, IndexOf, Items, Image;
      WrittenStart(heap, marked, a, at);
      var ht := heap[a];
      var n := |ht.entries|;
      str.Append(EncHead(TArr(n)));
      for keyIndex := 0 to n
        invariant marked == old(marked)
        invariant str.Valid() && (str.c == old(str.c) || fresh(str.c))
        invariant str.Contents() == old(str.Contents()) + Written(heap, marked, a, at, keyIndex)
      {
        WrittenStep(heap, marked, a, at, keyIndex);
        PackElement(str, a, at, IndexOf(ht.entries, IntKey(keyIndex)));
      }
    }

    method PackHashRecursively(str: SmartString.SmartString, a: nat, at: Place)
      requires Ready() && a in heap && IsHash(heap[a]) && str.Valid()
      modifies `marked, str, str.c
      ensures marked == old(marked)
      ensures str.Valid() && (str.c == old(str.c) || fresh(str.c))
      ensures str.Contents() == old(str.Contents()) + Written(heap, old(marked), a, at, |heap[a].entries|)
      decreases Unmarked(heap, marked), 1 + Rank(heap, a), 2
    {
      hide ValidHeap, NoRefCycle, Unmarked, Rank, EncHead, Written, Element, Enc, WF, IsHash, IndexOf, Items, Image;
      WrittenStart(heap, marked, a, at);
      ArrayFacts(heap, a);
      var ht := heap[a];
      var n := |ht.entries|;
      str.Append(EncHead(TMap(n)));
      for pos := 0 to n
        invariant marked == old(marked)
        invariant str.Valid() && (str.c == old(str.c) || fresh(str.c))
        invariant str.Contents() == old(str.Contents()) + Written(heap, marked, a, at, pos)
      {
        WrittenStep(heap, marked, a, at, pos);
        KeyImageWF(ht.entries[pos].key);
        Regroup(str.Contents(), Enc(KeyImage(ht.entries[pos].key)), Enc(Element(heap, marked, a, at, Some(pos))));
        Regroup(old(str.Contents()), Written(heap, marked, a, at, pos), StepBytes(heap, marked, a, at, pos));
        PackKey(str, ht.entries[pos].key);
        PackElement(str, a, at, Some(pos));
      }
    }

    /** `php_mp_sizeof`: exactly the number of bytes `Pack` would append, without writing any. */
    method Sizeof(val: Zval, at: Place) returns (needed: nat)
      requires Ready() && Sane(heap, val)
      modifies `marked
      ensures marked == old(marked)
      ensures needed == |Enc(Image(heap, old(marked), val, at))|
      decreases Unmarked(heap, marked), Height(heap, val), 4
    {
      hide ValidHeap, NoRefCycle, Unmarked, Rank, Image, EncSeq, WF, Written, Items;
      var v := Deref(val);
      if v.ZArray? {
        WrittenAll(heap, marked, val, at, v.id);
        var isHash := PhpMpIsHash(heap[v.id]);
        if isHash {
          needed := SizeofHashRecursively(v.id, PlaceOf(val, at));
        } else {
          needed := SizeofArrayRecursively(v.id, PlaceOf(val, at));
        }
      } else {
        ScalarImage(heap, marked, val, at);
        if v.ZLong? {
          needed := SizeofLong(v.n);
        } else if v.ZDouble? {
          needed := 9;
        } else if v.ZStr? {
          needed := SizeofStr(|v.s|);
        } else {
          needed := 1;
        }
      }
    }

    method SizeofElement(a: nat, at: Place, j: Option<nat>) returns (needed: nat)
      requires Ready() && a in heap
      requires j.Some? ==> j.value < |heap[a].entries| && Visited(heap[a], j.value)
      modifies `marked
      ensures marked == old(marked)
      ensures needed == |Enc(Element(heap, old(marked), a, at, j))|
      decreases Unmarked(heap, marked), 1 + Rank(heap, a), 1
    {
      hide ValidHeap, NoRefCycle, Unmarked, Rank, Image, EncSeq, WF, IsHash, Items;
      if j == None || Guarded(marked, heap[a].entries[j.value].val, a, j.value, at) {
        needed := 1;
      } else {
        var data := heap[a].entries[j.value].val;
        EnterDecreases(heap, marked, a, j.value, at);
        if data.ZArray? {
          marked := marked + {data.id};
        }
        needed := Sizeof(data, Some((a, j.value)));
        if data.ZArray? {
          marked := marked - {data.id};
        }
      }
    }

    method SizeofArrayRecursively(a: nat, at: Place) returns (needed: nat)
      requires Ready() && a in heap && !IsHash(heap[a])
      modifies `marked
      ensures marked == old(marked)
      ensures needed == |Written(heap, old(marked), a, at, |heap[a].entries|)|
      decreases Unmarked(heap, marked), 1 + Rank(heap, a), 2
    {
      hide ValidHeap, NoRefCycle, Unmarked, Rank, EncHead, Written, Element, Enc, WF, IsHash, IndexOf, Items, Image;
      WrittenStart(heap, marked, a, at);
      var ht := heap[a];
      var n := |ht.entries|;
      needed := SizeofArray(n);
      for keyIndex := 0 to n
        invariant marked == old(marked)
        invariant needed == |Written(heap, marked, a, at, keyIndex)|
      {
        WrittenStep(heap, marked, a, at, keyIndex);
        var size := SizeofElement(a, at, IndexOf(ht.entries, IntKey(keyIndex)));
        needed := needed + size;
      }
    }

    method SizeofHashRecursively(a: nat, at: Place) returns (needed: nat)
      requires Ready() && a in heap && IsHash(heap[a])
      modifies `marked
      ensures marked == old(marked)
      ensures needed == |Written(heap, old(marked), a, at, |heap[a].entries|)|
      decreases Unmarked(heap, marked), 1 + Rank(heap, a), 2
    {
      hide ValidHeap, NoRefCycle, Unmarked, Rank, EncHead, Written, Element, Enc, WF, IsHash, IndexOf, Items, Image;
      WrittenStart(heap, marked, a, at);
      ArrayFacts(heap, a);
      var ht := heap[a];
      var n := |ht.entries|;
      needed := SizeofMap(n);
      for pos := 0 to n
        invariant marked == old(marked)
        invariant needed == |Written(heap, marked, a, at, pos)|
      {
        WrittenStep(heap, marked, a, at, pos);
        var size := SizeofElement(a, at, Some(pos));
        needed := needed + SizeofKey(ht.entries[pos].key) + size;
      }
    }
  }
}
