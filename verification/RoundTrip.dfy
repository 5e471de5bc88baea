/**
 * Packing followed by unpacking: when the result is the same key-to-value mapping as the source,
 * for every value over every heap that packing terminates on.
 */
module RoundTrip {
  import opened Bytes
  import opened Wire
  import opened Php
  import opened Packing
  import opened Unpacking
  import opened Recursion

  // ---------------------------------------------------------------- the statement

  /** A key that unpacking gives back unchanged: an integer, or a NUL-free string that is no text of an integer. */
  ghost predicate DecodableKey(k: Key) {
    k.StrKey? ==> 0 !in k.s && forall i :: -TWO_63 <= i <= LONG_MAX ==> k.s != Decimal(i)
  }

  ghost predicate DecodableKeys<V>(ht: HashTable<V>) {
    forall i :: 0 <= i < |ht.entries| ==> DecodableKey(ht.entries[i].key)
  }

  /** Every entry of the array is written, under a key that is read back unchanged. */
  ghost predicate Faithful<V>(ht: HashTable<V>) {
    DecodableKeys(ht) && (IsHash(ht) || !HasNegativeKey(ht))
  }

  /** `p` is `v` as a mapping: references followed, unsupported types as null, arrays by key. */
  ghost predicate Same(h: Heap, v: Zval, p: PVal)
    decreases p
  {
    match Deref(v)
    case ZBool(b) => p == PBool(b)
    case ZLong(n) => p == PLong(n)
    case ZDouble(bits) => p == PDouble(bits)
    case ZStr(s) => p == PStr(s)
    case ZArray(a) =>
      && p.PArr? && a in h
      && (forall k :: HasKey(h[a], k) <==> HasKey(p.ht, k))
      && (forall i :: 0 <= i < |h[a].entries| && HasKey(p.ht, h[a].entries[i].key) ==>
                        Same(h, h[a].entries[i].val, Get(p, h[a].entries[i].key)))
    case _ => p == PNull
  }

  function Get(p: PVal, k: Key): (q: PVal)
    requires p.PArr? && HasKey(p.ht, k)
    ensures q < p
  {
    p.ht.entries[IndexOf(p.ht.entries, k).value].val
  }

  // ---------------------------------------------------------------- packed without loss

  /** Nothing below `v` is written as a guard nil or under a key that changes. */
  ghost predicate Clean(h: Heap, marks: set<nat>, v: Zval, at: Place)
    requires ValidHeap(h) && NoRefCycle(h) && Sane(h, v)
    decreases Unmarked(h, marks), Height(h, v), 2
  {
    Deref(v).ZArray? ==>
      Faithful(h[Deref(v).id]) &&
      forall j | 0 <= j < |h[Deref(v).id].entries| && Visited(h[Deref(v).id], j) ::
        CleanElement(h, marks, Deref(v).id, PlaceOf(v, at), j)
  }

  ghost predicate CleanElement(h: Heap, marks: set<nat>, a: nat, at: Place, j: nat)
    requires ValidHeap(h) && NoRefCycle(h) && a in h && j < |h[a].entries| && Visited(h[a], j)
    decreases Unmarked(h, marks), 1 + Rank(h, a), 1
  {
    var data := h[a].entries[j].val;
    !Guarded(marks, data, a, j, at) &&
    (EnterDecreases(h, marks, a, j, at);
     Clean(h, Enter(marks, data), data, Some((a, j))))
  }

  // ---------------------------------------------------------------- unpacking the elements

  /** Pairwise: `xs` are the values the trees at the given stride unpack to. */
  predicate Unpacked(ms: seq<Mp>, xs: seq<PVal>, hash: bool) {
    && |ms| == (if hash then 2 * |xs| else |xs|)
    && forall i :: 0 <= i < |xs| ==> ToPhp(ms[if hash then 2 * i + 1 else i]) == Some(xs[i])
  }

  function ListTable(xs: seq<PVal>): (ht: HashTable<PVal>)
    ensures |ht.entries| == |xs|
    ensures forall i :: 0 <= i < |xs| ==> ht.entries[i] == Entry(IntKey(i), xs[i])
  {
    HashTable(seq(|xs|, i requires 0 <= i < |xs| => Entry(IntKey(i), xs[i])), |xs|)
  }

  lemma {:induction false} ListFromTable(ms: seq<Mp>, xs: seq<PVal>, n: nat)
    requires Unpacked(ms, xs, false) && n <= |xs| < LONG_MAX
    ensures ListFrom(ms, n) == Some(ListTable(xs[..n]))
    decreases n
  {
    hide ToPhp, IndexOf;
    if n == 0 {
      assert ListTable(xs[..0]).entries == [];
    } else {
      ListFromTable(ms, xs, n - 1);
      ListTableSnoc(xs, n - 1);
    }
  }

  lemma ListTableSnoc(xs: seq<PVal>, n: nat)
    requires n < |xs| < LONG_MAX
    ensures Insert(ListTable(xs[..n]), IntKey(n), xs[n]) == ListTable(xs[..n + 1])
  {
    hide IndexOf;
    var before, after := ListTable(xs[..n]), ListTable(xs[..n + 1]);
    assert IndexOf(before.entries, IntKey(n)).None?;
    forall i | 0 <= i < n + 1
      ensures (before.entries + [Entry(IntKey(n), xs[n])])[i] == after.entries[i]
    {
    }
    assert before.entries + [Entry(IntKey(n), xs[n])] == after.entries;
  }

  /** The key under which the image of `k` is read back. */
  function ReadKey(k: Key): Key {
    match k
    case IntKey(i) => IntKey(i)
    case StrKey(s) => SymbolKey(s)
  }

  lemma {:induction false} CStringWhole(s: bytes)
    requires 0 !in s
    ensures CString(s) == s
  {
    if s != [] {
      assert 0 !in s[1..];
      CStringWhole(s[1..]);
      assert s == [s[0]] + s[1..];
    }
  }

  /** A key is read back unchanged exactly when it is decodable, and what is read is always decodable. */
  lemma ReadKeyExactly(k: Key)
    ensures ReadKey(k) == k <==> DecodableKey(k)
    ensures DecodableKey(ReadKey(k))
  {
    hide IntegerLike, Decimal;
    if k.StrKey? {
      if 0 !in k.s {
        CStringWhole(k.s);
      }
      var c := CString(k.s);
      forall i
        ensures IntegerLike(c) == Some(i) <==> -TWO_63 <= i <= LONG_MAX && c == Decimal(i)
      {
        IntegerLikeExactly(c, i);
      }
    }
  }

  predicate KeysAre<V>(es: seq<Entry<V>>, ms: seq<Mp>) {
    |ms| == 2 * |es| && forall i :: 0 <= i < |es| ==> ValidKey(es[i].key) && ms[2 * i] == KeyImage(es[i].key)
  }

  lemma KeyUnpacks(k: Key)
    requires ValidKey(k)
    ensures ToPhp(KeyImage(k)) == match k case IntKey(i) => Some(PLong(i)) case StrKey(s) => Some(PStr(s))
  {
  }

  /** One pair of a packed hash. */
  lemma HashFromStep(ms: seq<Mp>, xs: seq<PVal>, k: Key, n: nat)
    requires Unpacked(ms, xs, true) && n < |xs| && ValidKey(k) && ms[2 * n] == KeyImage(k)
    requires HashFrom(ms, n).Some?
    ensures HashFrom(ms, n + 1) == Some(Insert(HashFrom(ms, n).value, ReadKey(k), xs[n]))
  {
    hide ToPhp, SymbolKey, Insert;
    KeyUnpacks(k);
    assert ToPhp(ms[2 * n + 1]) == Some(xs[n]);
  }

  lemma InsertKeys<V>(ht: HashTable<V>, k: Key, v: V)
    requires DecodableKeys(ht) && DecodableKey(k)
    ensures DecodableKeys(Insert(ht, k, v))
  {
    hide IndexOf;
  }

  lemma {:induction false} HashFromDecodable(es: seq<Entry<Zval>>, ms: seq<Mp>, xs: seq<PVal>, n: nat)
    requires KeysAre(es, ms) && Unpacked(ms, xs, true) && n <= |xs|
    ensures HashFrom(ms, n).Some? && DecodableKeys(HashFrom(ms, n).value)
    decreases n
  {
    hide ToPhp, SymbolKey, Insert, ReadKey, DecodableKey, ValidKey;
    if n > 0 {
      HashFromDecodable(es, ms, xs, n - 1);
      HashFromStep(ms, xs, es[n - 1].key, n - 1);
      ReadKeyExactly(es[n - 1].key);
      InsertKeys(HashFrom(ms, n - 1).value, ReadKey(es[n - 1].key), xs[n - 1]);
    }
  }

  lemma {:induction false} HashFromTable(es: seq<Entry<Zval>>, ms: seq<Mp>, xs: seq<PVal>, n: nat)
    requires KeysAre(es, ms) && Unpacked(ms, xs, true) && n <= |xs|
    requires Distinct(es) && forall i :: 0 <= i < |es| ==> DecodableKey(es[i].key)
    ensures HashFrom(ms, n).Some? && |HashFrom(ms, n).value.entries| == n
    ensures forall i :: 0 <= i < n ==> HashFrom(ms, n).value.entries[i] == Entry(es[i].key, xs[i])
    decreases n
  {
    hide ToPhp, SymbolKey, ReadKey, DecodableKey, IndexOf, ValidKey;
    if n > 0 {
      HashFromTable(es, ms, xs, n - 1);
      HashFromStep(ms, xs, es[n - 1].key, n - 1);
      ReadKeyExactly(es[n - 1].key);
      assert IndexOf(HashFrom(ms, n - 1).value.entries, es[n - 1].key).None?;
    }
  }

  // ---------------------------------------------------------------- one array

  /** `xs[i]` is what step `i` over array `a` comes back as, and agrees with the element iff it is clean. */
  ghost predicate StepsReadBack(h: Heap, marks: set<nat>, a: nat, at: Place, xs: seq<PVal>)
    requires ValidHeap(h) && NoRefCycle(h) && a in h
  {
    |xs| == |h[a].entries| &&
    forall i :: 0 <= i < |xs| ==>
      var j := VisitAt(h[a], i);
      && ToPhp(Element(h, marks, a, at, j)) == Some(xs[i])
      && (j.Some? ==> (Same(h, h[a].entries[j.value].val, xs[i]) <==> CleanElement(h, marks, a, at, j.value)))
  }

  ghost predicate AllClean(h: Heap, marks: set<nat>, a: nat, at: Place)
    requires ValidHeap(h) && NoRefCycle(h) && a in h
  {
    forall j | 0 <= j < |h[a].entries| && Visited(h[a], j) :: CleanElement(h, marks, a, at, j)
  }

  lemma {:induction false} ItemsAt(h: Heap, marks: set<nat>, a: nat, at: Place, n: nat, i: nat)
    requires ValidHeap(h) && NoRefCycle(h) && a in h && i < n <= |h[a].entries|
    ensures Items(h, marks, a, at, n)[if IsHash(h[a]) then 2 * i + 1 else i] ==
            Element(h, marks, a, at, VisitAt(h[a], i))
    ensures IsHash(h[a]) ==> Items(h, marks, a, at, n)[2 * i] == KeyImage(h[a].entries[i].key)
    decreases n
  {
    hide Element, IsHash, KeyImage, WF, ValidHeap, NoRefCycle;
    var before, step := Items(h, marks, a, at, n - 1), Step(h, marks, a, at, n - 1);
    assert Items(h, marks, a, at, n) == before + step;
    if i < n - 1 {
      ItemsAt(h, marks, a, at, n - 1, i);
    }
  }

  /**
   * An array is written as an array exactly when it is empty, or as long as its next free index and
   * without text keys; then the elements go by their numbers, and otherwise in order with their keys.
   */
  lemma ShapeExactly(h: Heap, marks: set<nat>, v: Zval, at: Place, a: nat)
    requires ValidHeap(h) && NoRefCycle(h) && Sane(h, v) && Deref(v) == ZArray(a)
    ensures var m, es, here := Image(h, marks, v, at), h[a].entries, PlaceOf(v, at);
            && (m.Arr? <==>
                  es == [] || (|es| == h[a].nextFree && forall i :: 0 <= i < |es| ==> es[i].key.IntKey?))
            && (m.Arr? ==>
                  |m.items| == |es| &&
                  forall i :: 0 <= i < |es| ==> m.items[i] == Element(h, marks, a, here, IndexOf(es, IntKey(i))))
            && (!m.Arr? ==>
                  && m.Map? && |m.kvs| == 2 * |es|
                  && forall i :: 0 <= i < |es| ==>
                       && m.kvs[2 * i] == (match es[i].key
                                           case IntKey(n) => if n >= 0 then UInt(n) else SInt(n)
                                           case StrKey(s) => Str(s))
                       && m.kvs[2 * i + 1] == Element(h, marks, a, here, Some(i)))
  {
    hide Element, WF, NoRefCycle, ValidHeap, Items, IndexOf, KeyImage;
    var es, here, n := h[a].entries, PlaceOf(v, at), |h[a].entries|;
    var ms := Items(h, marks, a, here, n);
    if IsHash(h[a]) {
      forall i | 0 <= i < n
        ensures ms[2 * i] == KeyImage(es[i].key) && ms[2 * i + 1] == Element(h, marks, a, here, Some(i))
      {
        ItemsAt(h, marks, a, here, n, i);
      }
      forall k: Key
        ensures KeyImage(k) == match k case IntKey(n) => (if n >= 0 then UInt(n) else SInt(n)) case StrKey(s) => Str(s)
      {
        KeyImageIs(k);
      }
    } else {
      forall i | 0 <= i < n
        ensures ms[i] == Element(h, marks, a, here, IndexOf(es, IntKey(i)))
      {
        ItemsAt(h, marks, a, here, n, i);
      }
    }
  }

  lemma KeyImageIs(k: Key)
    ensures KeyImage(k) == match k
                           case IntKey(n) => if n >= 0 then UInt(n) else SInt(n)
                           case StrKey(s) => Str(s)
  {
  }

  lemma ItemsUnpacked(h: Heap, marks: set<nat>, a: nat, at: Place, xs: seq<PVal>)
    requires ValidHeap(h) && NoRefCycle(h) && a in h
    requires StepsReadBack(h, marks, a, at, xs)
    ensures Unpacked(Items(h, marks, a, at, |xs|), xs, IsHash(h[a]))
    ensures IsHash(h[a]) ==> KeysAre(h[a].entries, Items(h, marks, a, at, |xs|))
  {
    hide ToPhp, Element, IsHash, Same, CleanElement, KeyImage, ValidKey, Items, WF, NoRefCycle;
    ArrayFacts(h, a);
    forall i | 0 <= i < |xs|
      ensures ToPhp(Items(h, marks, a, at, |xs|)[if IsHash(h[a]) then 2 * i + 1 else i]) == Some(xs[i])
      ensures IsHash(h[a]) ==> Items(h, marks, a, at, |xs|)[2 * i] == KeyImage(h[a].entries[i].key)
    {
      ItemsAt(h, marks, a, at, |xs|, i);
    }
  }

  lemma KeysOfSameEntries<V, W>(es: seq<Entry<V>>, fs: seq<Entry<W>>, k: Key)
    requires |es| == |fs| && forall i :: 0 <= i < |es| ==> es[i].key == fs[i].key
    ensures IndexOf(es, k).Some? <==> IndexOf(fs, k).Some?
  {
    hide IndexOf;
  }

  lemma IndexUnique<V>(es: seq<Entry<V>>, i: nat)
    requires Distinct(es) && i < |es|
    ensures IndexOf(es, es[i].key) == Some(i)
  {
    hide IndexOf;
  }

  lemma SameArray(h: Heap, a: nat, ht: HashTable<PVal>, xs: seq<PVal>)
    requires a in h && |xs| == |h[a].entries|
    requires forall k :: HasKey(h[a], k) <==> HasKey(ht, k)
    requires forall i :: 0 <= i < |xs| ==>
             HasKey(ht, h[a].entries[i].key) && Get(PArr(ht), h[a].entries[i].key) == xs[i]
    ensures Same(h, ZArray(a), PArr(ht)) <==> forall i :: 0 <= i < |xs| ==> Same(h, h[a].entries[i].val, xs[i])
  {
    hide HasKey, IndexOf;
  }

  lemma NotSameArray(h: Heap, a: nat, ht: HashTable<PVal>, k: Key)
    requires a in h && HasKey(h[a], k) && !HasKey(ht, k)
    ensures !Same(h, ZArray(a), PArr(ht))
  {
    hide HasKey, IndexOf;
  }

  /** An array written as a hash. */
  lemma HashReadBack(h: Heap, marks: set<nat>, a: nat, at: Place, xs: seq<PVal>)
    requires ValidHeap(h) && NoRefCycle(h) && a in h && IsHash(h[a])
    requires StepsReadBack(h, marks, a, at, xs)
    ensures var r := HashFrom(Items(h, marks, a, at, |xs|), |xs|);
            r.Some? && (Same(h, ZArray(a), PArr(r.value)) <==> Faithful(h[a]) && AllClean(h, marks, a, at))
  {
    hide ToPhp, Element, IsHash, CleanElement, KeyImage, Items, WF, NoRefCycle, HashFrom, DecodableKey, IndexOf,
         ValidKey, Same;
    var es, ms := h[a].entries, Items(h, marks, a, at, |xs|);
    ItemsUnpacked(h, marks, a, at, xs);
    assert ValidArray(h, h[a]);
    HashFromDecodable(es, ms, xs, |xs|);
    var ht := HashFrom(ms, |xs|).value;
    if DecodableKeys(h[a]) {
      HashFromTable(es, ms, xs, |xs|);
      forall k
        ensures HasKey(h[a], k) <==> HasKey(ht, k)
      {
        KeysOfSameEntries(es, ht.entries, k);
      }
      forall i | 0 <= i < |es|
        ensures HasKey(ht, es[i].key) && Get(PArr(ht), es[i].key) == xs[i]
      {
        assert Distinct(ht.entries);
        IndexUnique(ht.entries, i);
      }
      SameArray(h, a, ht, xs);
      forall i | 0 <= i < |es|
        ensures Visited(h[a], i) && (Same(h, es[i].val, xs[i]) <==> CleanElement(h, marks, a, at, i))
      {
        assert VisitAt(h[a], i) == Some(i);
      }
      assert Faithful(h[a]);
      assert Same(h, ZArray(a), PArr(ht)) <==> AllClean(h, marks, a, at);
    } else {
      var i :| 0 <= i < |es| && !DecodableKey(es[i].key);
      assert !HasKey(ht, es[i].key);
      NotSameArray(h, a, ht, es[i].key);
      assert !Faithful(h[a]);
    }
  }

  /** An array written as a list. */
  lemma ListReadBack(h: Heap, marks: set<nat>, a: nat, at: Place, xs: seq<PVal>)
    requires ValidHeap(h) && NoRefCycle(h) && a in h && !IsHash(h[a])
    requires StepsReadBack(h, marks, a, at, xs)
    ensures var r := ListFrom(Items(h, marks, a, at, |xs|), |xs|);
            r.Some? && (Same(h, ZArray(a), PArr(r.value)) <==> Faithful(h[a]) && AllClean(h, marks, a, at))
  {
    hide ToPhp, Element, IsHash, CleanElement, KeyImage, Items, WF, NoRefCycle, ListFrom, DecodableKey, IndexOf, Same;
    var es, ms := h[a].entries, Items(h, marks, a, at, |xs|);
    ItemsUnpacked(h, marks, a, at, xs);
    assert ValidArray(h, h[a]);
    ListFromTable(ms, xs, |xs|);
    assert xs[..|xs|] == xs;
    var ht := ListTable(xs);
    ListKeys(h[a]);
    ListKeysDense(h[a]);
    if HasNegativeKey(h[a]) {
      var i :| 0 <= i < |es| && es[i].key.IntKey? && es[i].key.i < 0;
      assert !HasKey(ht, es[i].key);
      NotSameArray(h, a, ht, es[i].key);
      assert !Faithful(h[a]);
    } else {
      DenseReadBack(h, marks, a, at, xs);
      assert Faithful(h[a]);
    }
  }

  lemma ListKeys<V>(ht: HashTable<V>)
    requires !IsHash(ht)
    ensures DecodableKeys(ht)
  {
  }

  lemma DenseReadBack(h: Heap, marks: set<nat>, a: nat, at: Place, xs: seq<PVal>)
    requires ValidHeap(h) && NoRefCycle(h) && a in h && !IsHash(h[a])
    requires StepsReadBack(h, marks, a, at, xs) && DenseKeys(h[a])
    ensures Same(h, ZArray(a), PArr(ListTable(xs))) <==> AllClean(h, marks, a, at)
  {
    hide ToPhp, Element, IsHash, CleanElement, NoRefCycle, IndexOf, Same;
    var es, ht := h[a].entries, ListTable(xs);
    assert ValidArray(h, h[a]);
    forall k
      ensures HasKey(h[a], k) <==> HasKey(ht, k)
    {
      if HasKey(h[a], k) {
        var j := IndexOf(es, k).value;
        assert ht.entries[es[j].key.i].key == k;
      }
      if HasKey(ht, k) {
        var i := IndexOf(ht.entries, k).value;
        assert HasKey(h[a], IntKey(i));
      }
    }
    // ys[j] is what entry j comes back as: entry j has key i, and step i wrote it.
    var ys := seq(|xs|, j requires 0 <= j < |xs| => xs[es[j].key.i]);
    forall j | 0 <= j < |es|
      ensures HasKey(ht, es[j].key) && Get(PArr(ht), es[j].key) == ys[j]
      ensures Visited(h[a], j) && (Same(h, es[j].val, ys[j]) <==> CleanElement(h, marks, a, at, j))
    {
      var i := es[j].key.i;
      assert ht.entries[i].key == es[j].key;
      assert Distinct(ht.entries);
      IndexUnique(ht.entries, i);
      IndexUnique(es, j);
      assert VisitAt(h[a], i) == Some(j);
    }
    SameArray(h, a, ht, ys);
  }

  // ---------------------------------------------------------------- every value

  /** Whatever is packed unpacks, and to the same mapping exactly when nothing was lost below it. */
  lemma {:induction false} ReadBack(h: Heap, marks: set<nat>, v: Zval, at: Place)
    requires ValidHeap(h) && NoRefCycle(h) && Sane(h, v) && PlaceOk(h, v, at)
    ensures var r := ToPhp(Image(h, marks, v, at));
            r.Some? && (Same(h, v, r.value) <==> Clean(h, marks, v, at))
    decreases Unmarked(h, marks), Height(h, v), 2
  {
    if Deref(v).ZArray? {
      var a := Deref(v).id;
      var xs := ArrayReadBack(h, marks, a, PlaceOf(v, at));
      hide ToPhp, IsHash, Items, CleanElement, NoRefCycle;
      ArrayToPhp(h, marks, v, at, a);
      if IsHash(h[a]) {
        HashReadBack(h, marks, a, PlaceOf(v, at), xs);
      } else {
        ListReadBack(h, marks, a, PlaceOf(v, at), xs);
      }
      SameDeref(h, v, ToPhp(Image(h, marks, v, at)).value);
    }
  }

  lemma SameDeref(h: Heap, v: Zval, p: PVal)
    requires Deref(v).ZArray?
    ensures Same(h, v, p) <==> Same(h, Deref(v), p)
  {
    hide HasKey;
  }

  lemma ArrayToPhp(h: Heap, marks: set<nat>, v: Zval, at: Place, a: nat)
    requires ValidHeap(h) && NoRefCycle(h) && Sane(h, v) && Deref(v) == ZArray(a)
    ensures var n := |h[a].entries|;
            var ms := Items(h, marks, a, PlaceOf(v, at), n);
            var r := if IsHash(h[a]) then HashFrom(ms, n) else ListFrom(ms, n);
            ToPhp(Image(h, marks, v, at)) == if r.Some? then Some(PArr(r.value)) else None
  {
    hide Items, HashFrom, ListFrom, WF, IsHash;
  }

  lemma {:induction false} ArrayReadBack(h: Heap, marks: set<nat>, a: nat, at: Place) returns (xs: seq<PVal>)
    requires ValidHeap(h) && NoRefCycle(h) && a in h && PlaceOk(h, ZArray(a), at)
    ensures StepsReadBack(h, marks, a, at, xs)
    decreases Unmarked(h, marks), 1 + Rank(h, a), 1
  {
    hide ToPhp, Same, IsHash, Element, CleanElement, NoRefCycle;
    xs := [];
    while |xs| < |h[a].entries|
      invariant |xs| <= |h[a].entries|
      invariant forall i :: 0 <= i < |xs| ==>
                  var j := VisitAt(h[a], i);
                  && ToPhp(Element(h, marks, a, at, j)) == Some(xs[i])
                  && (j.Some? ==> (Same(h, h[a].entries[j.value].val, xs[i]) <==>
                       CleanElement(h, marks, a, at, j.value)))
    {
      var x := StepReadBack(h, marks, a, at, VisitAt(h[a], |xs|));
      xs := xs + [x];
    }
  }

  lemma {:induction false} StepReadBack(h: Heap, marks: set<nat>, a: nat, at: Place, j: Option<nat>) returns (x: PVal)
    requires ValidHeap(h) && NoRefCycle(h) && a in h && PlaceOk(h, ZArray(a), at)
    requires j.Some? ==> j.value < |h[a].entries| && Visited(h[a], j.value)
    ensures ToPhp(Element(h, marks, a, at, j)) == Some(x)
    ensures j.Some? ==> (Same(h, h[a].entries[j.value].val, x) <==> CleanElement(h, marks, a, at, j.value))
    decreases Unmarked(h, marks), 1 + Rank(h, a), 0
  {
    hide IsHash, NoRefCycle;
    if j.Some? && !Guarded(marks, h[a].entries[j.value].val, a, j.value, at) {
      var data := h[a].entries[j.value].val;
      EnterDecreases(h, marks, a, j.value, at);
      ReadBack(h, Enter(marks, data), data, Some((a, j.value)));
      x := ToPhp(Image(h, Enter(marks, data), data, Some((a, j.value)))).value;
    } else {
      x := PNull;
    }
  }

  // ---------------------------------------------------------------- in terms of the array graph

  /** Array `b` is the value or lies below it. */
  ghost predicate IsBelow(h: Heap, v: Zval, b: nat) {
    Target(v).Some? && (b == Target(v).value || Reaches(h, Target(v).value, b, false))
  }

  /** What a caller can look at: the keys of every array below the value, and that none is cyclic. */
  ghost predicate Lossless(h: Heap, v: Zval) {
    forall b :: b in h && IsBelow(h, v, b) ==> Faithful(h[b]) && !OnCycle(h, b, false)
  }

  ghost predicate CleanFrame(h: Heap, f: Frame)
    requires ValidHeap(h) && NoRefCycle(h)
  {
    f.arr in h && Faithful(h[f.arr]) && AllClean(h, f.marks, f.arr, f.at)
  }

  lemma CleanStep(h: Heap, f: Frame, b: nat) returns (g: Frame)
    requires ValidHeap(h) && NoRefCycle(h) && CleanFrame(h, f) && Edge(h, f.arr, b, false)
    ensures Calls(h, f, g) && g.arr == b && CleanFrame(h, g)
  {
    hide Faithful, NoRefCycle, IsHash;
    var j :| 0 <= j < |h[f.arr].entries| && Visited(h[f.arr], j) && Leads(h[f.arr].entries[j].val, b, false);
    var data := h[f.arr].entries[j].val;
    assert CleanElement(h, f.marks, f.arr, f.at, j);
    EnterDecreases(h, f.marks, f.arr, j, f.at);
    g := Frame(Enter(f.marks, data), b, PlaceOf(data, Some((f.arr, j))));
    assert CallsAt(h, f, g, j);
  }

  lemma {:induction false} CleanAlong(h: Heap, f: Frame, p: seq<nat>, b: nat) returns (g: Frame)
    requires ValidHeap(h) && NoRefCycle(h) && CleanFrame(h, f) && PathBetween(h, p, f.arr, b, false)
    ensures g.arr == b && CleanFrame(h, g)
    ensures if |p| == 1 then g == f else Measure(h, g) < Measure(h, f)
    decreases |p|
  {
    hide CleanFrame, NoRefCycle, ValidHeap, Measure, Calls;
    if |p| == 1 {
      g := f;
    } else {
      PathTail(h, p, f.arr, b);
      var next := CleanStep(h, f, p[1]);
      CallLowersMeasure(h, f, next);
      g := CleanAlong(h, next, p[1..], b);
    }
  }

  /** Clean all the way down, a value has no cycle: going round one would lower the measure for ever. */
  lemma {:induction false} CleanNoCycle(h: Heap, f: Frame)
    requires ValidHeap(h) && NoRefCycle(h) && CleanFrame(h, f)
    ensures !OnCycle(h, f.arr, false)
    decreases Measure(h, f)
  {
    if OnCycle(h, f.arr, false) {
      var p :| |p| >= 2 && PathBetween(h, p, f.arr, f.arr, false);
      var g := CleanAlong(h, f, p, f.arr);
      CleanNoCycle(h, g);
    }
  }

  lemma CleanIsLossless(h: Heap, v: Zval, at: Place)
    requires ValidHeap(h) && NoRefCycle(h) && Sane(h, v) && Clean(h, {}, v, at)
    ensures Lossless(h, v)
  {
    hide Faithful, NoRefCycle, Measure;
    forall b | b in h && IsBelow(h, v, b)
      ensures Faithful(h[b]) && !OnCycle(h, b, false)
    {
      var f := Frame({}, Target(v).value, PlaceOf(v, at));
      assert CleanFrame(h, f);
      var p :| PathBetween(h, p, f.arr, b, false) by {
        if b == f.arr {
          assert PathBetween(h, [b], f.arr, b, false);
        }
      }
      var g := CleanAlong(h, f, p, b);
      CleanNoCycle(h, g);
    }
  }

  /** Everything marked is the array being written or leads to it. */
  ghost predicate MarksAbove(h: Heap, marks: set<nat>, v: Zval) {
    Target(v).Some? ==> forall m :: m in marks ==> m == Target(v).value || Reaches(h, m, Target(v).value, false)
  }

  lemma BelowElement(h: Heap, v: Zval, a: nat, j: nat)
    requires Target(v) == Some(a) && a in h && j < |h[a].entries| && Visited(h[a], j)
    requires Lossless(h, v)
    ensures Lossless(h, h[a].entries[j].val)
  {
    hide Faithful;
    var data := h[a].entries[j].val;
    if Target(data).Some? {
      var c := Target(data).value;
      assert Leads(data, c, false);
      EdgeReaches(h, a, c, false);
      forall b | b in h && IsBelow(h, data, b)
        ensures IsBelow(h, v, b)
      {
        if b != c {
          ReachesTransitive(h, a, c, b, false);
        }
      }
    }
  }

  /** Below a lossless value the guard never fires. */
  lemma NeverGuarded(h: Heap, marks: set<nat>, v: Zval, at: Place, a: nat, j: nat)
    requires ValidHeap(h) && Lossless(h, v) && PlaceOk(h, ZArray(a), at) && MarksAbove(h, marks, v)
    requires Target(v) == Some(a) && a in h && j < |h[a].entries| && Visited(h[a], j)
    ensures var data := h[a].entries[j].val;
            !Guarded(marks, data, a, j, at) && MarksAbove(h, Enter(marks, data), data)
  {
    hide Faithful;
    var data := h[a].entries[j].val;
    if Target(data).Some? {
      var b := Target(data).value;
      assert Leads(data, b, false);
      EdgeReaches(h, a, b, false);
      assert ValidArray(h, h[a]);
      assert IsBelow(h, v, a) && IsBelow(h, v, b);
      forall m | m in marks
        ensures Reaches(h, m, b, false)
      {
        if m != a {
          ReachesTransitive(h, m, a, b, false);
        }
      }
    }
  }

  lemma {:induction false} LosslessIsClean(h: Heap, marks: set<nat>, v: Zval, at: Place)
    requires ValidHeap(h) && NoRefCycle(h) && Sane(h, v) && PlaceOk(h, v, at)
    requires Lossless(h, v) && MarksAbove(h, marks, v)
    ensures Clean(h, marks, v, at)
    decreases Unmarked(h, marks), Height(h, v)
  {
    hide Faithful, NoRefCycle, Lossless, MarksAbove, IsHash;
    if Deref(v).ZArray? {
      var a := Deref(v).id;
      assert Faithful(h[a]) by { LosslessHere(h, v); }
      forall j | 0 <= j < |h[a].entries| && Visited(h[a], j)
        ensures CleanElement(h, marks, a, PlaceOf(v, at), j)
      {
        var data := h[a].entries[j].val;
        NeverGuarded(h, marks, v, PlaceOf(v, at), a, j);
        EnterDecreases(h, marks, a, j, PlaceOf(v, at));
        BelowElement(h, v, a, j);
        LosslessIsClean(h, Enter(marks, data), data, Some((a, j)));
      }
    }
  }

  lemma LosslessHere(h: Heap, v: Zval)
    requires Lossless(h, v) && Target(v).Some? && Target(v).value in h
    ensures Faithful(h[Target(v).value])
  {
    assert IsBelow(h, v, Target(v).value);
  }

  /**
   * Round trip. Whatever follows it, a packed value unpacks and the cursor stops just behind it;
   * and it comes back as the same key-to-value mapping if and only if no array below it is cyclic,
   * has a key that is read back differently, or is taken for a list although a key is negative.
   */
  lemma {:induction false} RoundTripExactly(h: Heap, v: Zval, rest: bytes)
    requires ValidHeap(h) && NoRefCycle(h) && Sane(h, v)
    ensures var m := Image(h, {}, v, None);
            && Parse(Enc(m) + rest) == Ok(m, rest)
            && ToPhp(m).Some?
            && (Same(h, v, ToPhp(m).value) <==> Lossless(h, v))
  {
    hide Parse, Enc, ToPhp, Same, Clean, Lossless;
    ParseInverts(Image(h, {}, v, None), rest);
    ReadBack(h, {}, v, None);
    if Clean(h, {}, v, None) {
      CleanIsLossless(h, v, None);
    }
    if Lossless(h, v) {
      LosslessIsClean(h, {}, v, None);
    }
  }
}
