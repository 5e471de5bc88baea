/**
 * PHP values as the extension sees them: ordered hash tables, zvals that name arrays by id so
 * that arrays can be shared and cyclic, and the graph those arrays form.
 */
module Php {
  import opened Bytes

  const LONG_MAX: int := TWO_63 - 1

  datatype Key = IntKey(i: int) | StrKey(s: bytes)

  datatype Entry<+V> = Entry(key: Key, val: V)

  /** A PHP array: its entries in insertion order and `nNextFreeElement`. */
  datatype HashTable<+V> = HashTable(entries: seq<Entry<V>>, nextFree: int)

  /** The bucket that holds key `k`. */
  function IndexOf<V>(es: seq<Entry<V>>, k: Key): (i: Option<nat>)
    ensures i.Some? ==> i.value < |es| && es[i.value].key == k
    ensures i.None? <==> forall j :: 0 <= j < |es| ==> es[j].key != k
  {
    if es == [] then None
    else
      match IndexOf(es[..|es| - 1], k)
      case Some(j) => Some(j)
      case None => if es[|es| - 1].key == k then Some(|es| - 1) else None
  }

  function Lookup<V>(ht: HashTable<V>, k: Key): Option<V> {
    match IndexOf(ht.entries, k)
    case None => None
    case Some(i) => Some(ht.entries[i].val)
  }

  predicate HasKey<V>(ht: HashTable<V>, k: Key) {
    IndexOf(ht.entries, k).Some?
  }

  predicate Distinct<V>(es: seq<Entry<V>>) {
    forall i, j :: 0 <= i < j < |es| ==> es[i].key != es[j].key
  }

  predicate ValidKey(k: Key) {
    match k
    case IntKey(i) => -TWO_63 <= i <= LONG_MAX
    case StrKey(s) => |s| < TWO_32 - 5
  }

  /** What the engine keeps true of every array. */
  predicate ValidTable<V>(ht: HashTable<V>) {
    && |ht.entries| < 0x8000_0000
    && Distinct(ht.entries)
    && forall i :: 0 <= i < |ht.entries| ==>
         var k := ht.entries[i].key;
         ValidKey(k) && (k.IntKey? ==> k.i < ht.nextFree || ht.nextFree == LONG_MAX)
  }

  // ---------------------------------------------------------------- list or hash

  /** `php_mp_is_hash`: an array is a list when its size is its next free index and no key is a string. */
  predicate IsHash<V>(ht: HashTable<V>) {
    |ht.entries| != 0 &&
    (|ht.entries| != ht.nextFree || exists i :: 0 <= i < |ht.entries| && ht.entries[i].key.StrKey?)
  }

  method PhpMpIsHash<V>(ht: HashTable<V>) returns (r: bool)
    ensures r == IsHash(ht)
  {
    var count := |ht.entries|;
    if count == 0 {
      return false;
    } else if count != ht.nextFree {
      return true;
    }
    var pos := 0;
    for i := 0 to count
      invariant pos == i
      invariant forall j :: 0 <= j < i ==> ht.entries[j].key.IntKey?
    {
      if !ht.entries[pos].key.IntKey? {
        return true;
      }
      pos := pos + 1;
    }
    return false;
  }

  predicate HasNegativeKey<V>(ht: HashTable<V>) {
    exists i :: 0 <= i < |ht.entries| && ht.entries[i].key.IntKey? && ht.entries[i].key.i < 0
  }

  /** The keys are 0, 1, ..., n - 1 in some order. */
  ghost predicate DenseKeys<V>(ht: HashTable<V>) {
    && (forall i :: 0 <= i < |ht.entries| ==> HasKey(ht, IntKey(i)))
    && (forall i :: 0 <= i < |ht.entries| ==>
          ht.entries[i].key.IntKey? && 0 <= ht.entries[i].key.i < |ht.entries|)
  }

  function IntKeys<V>(es: seq<Entry<V>>): (s: set<int>)
    requires forall i :: 0 <= i < |es| ==> es[i].key.IntKey?
    ensures forall k :: k in s <==> exists i :: 0 <= i < |es| && es[i].key == IntKey(k)
  {
    if es == [] then {} else IntKeys(es[..|es| - 1]) + {es[|es| - 1].key.i}
  }

  lemma {:induction false} IntKeysCount<V>(es: seq<Entry<V>>)
    requires forall i :: 0 <= i < |es| ==> es[i].key.IntKey?
    requires Distinct(es)
    ensures |IntKeys(es)| == |es|
  {
    if es != [] {
      IntKeysCount(es[..|es| - 1]);
      assert es[|es| - 1].key.i !in IntKeys(es[..|es| - 1]);
    }
  }

  function Below(n: nat): (s: set<int>)
    ensures |s| == n
    ensures forall k :: k in s <==> 0 <= k < n
  {
    if n == 0 then {} else Below(n - 1) + {n - 1}
  }

  lemma FullSubset(s: set<int>, t: set<int>)
    requires s <= t && |s| == |t|
    ensures s == t
  {
    assert |t - s| == 0;
  }

  lemma NonNegativeIsDense<V>(ht: HashTable<V>)
    requires ValidTable(ht) && !IsHash(ht) && !HasNegativeKey(ht)
    ensures DenseKeys(ht)
  {
    hide IndexOf, IntKeys, Below;
    var es := ht.entries;
    var n := |es|;
    forall i | 0 <= i < n
      ensures es[i].key.IntKey? && 0 <= es[i].key.i < n
    {
    }
    IntKeysCount(es);
    FullSubset(IntKeys(es), Below(n));
    forall i | 0 <= i < n
      ensures HasKey(ht, IntKey(i))
    {
      assert i in IntKeys(es);
    }
  }

  /**
   * A list-classified array has exactly the keys 0..n-1 if and only if it has no negative key:
   * indexing it from 0 to n-1 then misses nothing, and otherwise does.
   */
  lemma ListKeysDense<V>(ht: HashTable<V>)
    requires ValidTable(ht) && !IsHash(ht)
    ensures DenseKeys(ht) <==> !HasNegativeKey(ht)
  {
    hide IndexOf;
    if !HasNegativeKey(ht) {
      NonNegativeIsDense(ht);
    }
  }

  // ---------------------------------------------------------------- zvals and the heap

  /** A zval; `ZOther` is any type the extension cannot serialise (objects, resources, ...). */
  datatype Zval =
    | ZNull
    | ZBool(b: bool)
    | ZLong(n: int)
    | ZDouble(bits: bytes)
    | ZStr(s: bytes)
    | ZArray(id: nat)
    | ZRef(target: Zval)
    | ZOther

  type Heap = map<nat, HashTable<Zval>>

  function Deref(v: Zval): Zval {
    if v.ZRef? then v.target else v
  }

  /** The array a value leads to, directly or through one reference. */
  function Target(v: Zval): Option<nat> {
    if Deref(v).ZArray? then Some(Deref(v).id) else None
  }

  predicate Sane(h: Heap, v: Zval) {
    match Deref(v)
    case ZLong(n) => -TWO_63 <= n <= LONG_MAX
    case ZDouble(bits) => |bits| == 8
    case ZStr(s) => |s| < TWO_32 - 5
    case ZArray(id) => id in h
    case _ => true
  }

  predicate ValidArray(h: Heap, ht: HashTable<Zval>) {
    ValidTable(ht) && forall i :: 0 <= i < |ht.entries| ==> Sane(h, ht.entries[i].val)
  }

  ghost predicate ValidHeap(h: Heap) {
    forall a :: a in h ==> ValidArray(h, h[a])
  }

  // ---------------------------------------------------------------- the array graph

  predicate Leads(v: Zval, b: nat, refOnly: bool) {
    Target(v) == Some(b) && (refOnly ==> v.ZRef?)
  }

  /** Bucket `i` is met when the array is serialised: a list is indexed from 0 to n - 1. */
  predicate Visited<V>(ht: HashTable<V>, i: nat)
    requires i < |ht.entries|
  {
    IsHash(ht) || (ht.entries[i].key.IntKey? && 0 <= ht.entries[i].key.i < |ht.entries|)
  }

  /** A visited element of `a` leads to `b`; with `refOnly`, through a reference. */
  ghost predicate Edge(h: Heap, a: nat, b: nat, refOnly: bool) {
    a in h && exists i :: 0 <= i < |h[a].entries| && Visited(h[a], i) && Leads(h[a].entries[i].val, b, refOnly)
  }

  ghost predicate Path(h: Heap, p: seq<nat>, refOnly: bool) {
    |p| >= 1 && forall i :: 0 <= i < |p| - 1 ==> Edge(h, p[i], p[i + 1], refOnly)
  }

  ghost predicate PathBetween(h: Heap, p: seq<nat>, a: nat, b: nat, refOnly: bool) {
    Path(h, p, refOnly) && p[0] == a && p[|p| - 1] == b
  }

  /** `b` is reached from `a` in one or more steps. */
  ghost predicate Reaches(h: Heap, a: nat, b: nat, refOnly: bool) {
    exists p :: |p| >= 2 && PathBetween(h, p, a, b, refOnly)
  }

  ghost predicate OnCycle(h: Heap, a: nat, refOnly: bool) {
    Reaches(h, a, a, refOnly)
  }

  /** Every cycle passes through an array held directly, not by reference. */
  ghost predicate NoRefCycle(h: Heap) {
    forall a :: a in h ==> !OnCycle(h, a, true)
  }

  lemma EdgeReaches(h: Heap, a: nat, b: nat, refOnly: bool)
    requires Edge(h, a, b, refOnly)
    ensures Reaches(h, a, b, refOnly)
  {
    assert PathBetween(h, [a, b], a, b, refOnly);
  }

  lemma PathsConcat(h: Heap, p: seq<nat>, q: seq<nat>, a: nat, b: nat, c: nat, refOnly: bool)
    requires PathBetween(h, p, a, b, refOnly) && PathBetween(h, q, b, c, refOnly)
    ensures PathBetween(h, p + q[1..], a, c, refOnly)
  {
    var r := p + q[1..];
    forall i | 0 <= i < |r| - 1
      ensures Edge(h, r[i], r[i + 1], refOnly)
    {
      if i < |p| - 1 {
        assert Edge(h, p[i], p[i + 1], refOnly);
      } else {
        var j := i - (|p| - 1);
        assert Edge(h, q[j], q[j + 1], refOnly);
        assert r[i] == q[j] && r[i + 1] == q[j + 1];
      }
    }
  }

  lemma ReachesTransitive(h: Heap, a: nat, b: nat, c: nat, refOnly: bool)
    requires Reaches(h, a, b, refOnly) && Reaches(h, b, c, refOnly)
    ensures Reaches(h, a, c, refOnly)
  {
    var p :| |p| >= 2 && PathBetween(h, p, a, b, refOnly);
    var q :| |q| >= 2 && PathBetween(h, q, b, c, refOnly);
    PathsConcat(h, p, q, a, b, c, refOnly);
  }

  /** The arrays reached from `a` through references alone. */
  ghost function RefReach(h: Heap, a: nat): set<nat> {
    set b | b in h && Reaches(h, a, b, true)
  }

  ghost function Rank(h: Heap, a: nat): nat {
    |RefReach(h, a)|
  }

  lemma SubsetSize<T>(s: set<T>, t: set<T>)
    requires s <= t
    ensures |s| <= |t|
    ensures s != t ==> |s| < |t|
  {
    assert t == s + (t - s);
  }

  lemma RankBound(h: Heap, a: nat)
    ensures Rank(h, a) <= |h|
  {
    SubsetSize(RefReach(h, a), h.Keys);
  }

  /** Without reference-only cycles, every reference leads to an array of smaller rank. */
  lemma RankDecreases(h: Heap, a: nat, b: nat)
    requires NoRefCycle(h) && b in h && Edge(h, a, b, true)
    ensures Rank(h, b) < Rank(h, a)
  {
    EdgeReaches(h, a, b, true);
    forall c | c in RefReach(h, b)
      ensures c in RefReach(h, a)
    {
      ReachesTransitive(h, a, b, c, true);
    }
    assert b in RefReach(h, a) && b !in RefReach(h, b);
    SubsetSize(RefReach(h, b), RefReach(h, a));
  }
}
