/**
 * Update and upsert: the operations of the caller are checked and written one by one, the length
 * is patched in afterwards at a remembered offset, and a bad operation rolls everything back.
 */
module Updates {
  import opened Bytes
  import opened Wire
  import opened Php
  import opened Packing
  import opened Protocol
  import opened Requests
  import SmartString

  const OP: bytes := Text("op")
  const FIELD: bytes := Text("field")
  const ARG: bytes := Text("arg")
  const SPLICE_OFFSET: bytes := Text("offset")
  const SPLICE_LENGTH: bytes := Text("length")
  const SPLICE_LIST: bytes := Text("list")

  /** Cached field numbers of a space, by name. */
  type FieldCache = bytes -> Option<u32>

  // ---------------------------------------------------------------- what one operation means

  /** `Raised` is a reported error after which the call goes on; `Rejected` ends it. */
  datatype Outcome = Op(tree: Mp) | Rejected | Raised

  predicate IsArithmetic(c: int) {
    c == '+' as int || c == '-' as int || c == '&' as int || c == '|' as int || c == '^' as int
  }

  predicate Serializable(v: Zval) {
    !v.ZOther?
  }

  /** The argument an operation other than splice accepts. */
  predicate ArgFits(c: int, v: Zval) {
    if IsArithmetic(c) then v.ZLong? || v.ZDouble?
    else if c == '#' as int then v.ZLong?
    else (c == '=' as int || c == '!' as int) && Serializable(v)
  }

  function ValueOf(ht: HashTable<Zval>, name: bytes): Option<Zval> {
    Lookup(ht, StrKey(name))
  }

  /** The field an operation names: a number as given, a name through the cache; -1 is no field. */
  function FieldNumber(cache: FieldCache, v: Option<Zval>): Option<u32> {
    match v
    case Some(ZLong(n)) => if U32(n) == TWO_32 - 1 then None else Some(U32(n))
    case Some(ZStr(s)) => (match cache(s) case None => None case Some(f) => Some(U32(f + 1)))
    case _ => None
  }

  function OpChar(ht: HashTable<Zval>): Option<byte> {
    match ValueOf(ht, OP)
    case Some(ZStr(s)) => if |s| == 1 then Some(s[0]) else None
    case _ => None
  }

  /** The three numbers and the text of a splice. */
  datatype Splice = Splice(field: u32, position: u32, length: u32, text: bytes)

  function SpliceOf(ht: HashTable<Zval>, field: u32): (r: Option<Splice>) {
    if |ht.entries| != 5 then None
    else
      match (ValueOf(ht, SPLICE_OFFSET), ValueOf(ht, SPLICE_LENGTH), ValueOf(ht, SPLICE_LIST))
      case (Some(ZLong(o)), Some(ZLong(l)), Some(ZStr(s))) => Some(Splice(field, U32(o), U32(l), s))
      case _ => None
  }

  function SpliceTree(p: Splice): (m: Mp)
    requires |p.text| < TWO_32 - 5
    ensures WF(m) && m.Arr? && |m.items| == 5
  {
    Arr([Str([':' as int]), UInt(p.field), UInt(p.position), UInt(p.length), Str(p.text)])
  }

  function OtherTree(c: byte, field: u32, arg: Mp): (m: Mp)
    requires WF(arg)
    ensures WF(m) && m.Arr? && |m.items| == 3
  {
    Arr([Str([c]), UInt(field), arg])
  }

  /** What `tarantool_uwrite_op` makes of one operation. */
  ghost function OpOutcome(h: Heap, cache: FieldCache, op: Zval): (o: Outcome)
    requires ValidHeap(h) && NoRefCycle(h) && Sane(h, op)
    ensures o.Op? ==> WF(o.tree) && o.tree.Arr? && (|o.tree.items| == 3 || |o.tree.items| == 5)
  {
    if !op.ZArray? || !IsHash(h[op.id]) then Raised
    else
      var ht := h[op.id];
      ArrayFacts(h, op.id);
      match (OpChar(ht), FieldNumber(cache, ValueOf(ht, FIELD)))
      case (Some(c), Some(field)) =>
        if c == ':' as int then
          match SpliceOf(ht, field)
          case None => Rejected
          case Some(p) => SpliceText(h, op.id, field); Op(SpliceTree(p))
        else
          (match IndexOf(ht.entries, StrKey(ARG))
           case None => Rejected
           case Some(j) =>
             var arg := ht.entries[j].val;
             if |ht.entries| == 3 && ArgFits(c, arg) then
               Op(OtherTree(c, field, Image(h, {}, arg, Some((op.id, j)))))
             else Rejected)
      case _ => Rejected
  }

  // ---------------------------------------------------------------- operations by their entries

  /** The entry of the map under a text key. */
  ghost predicate Holds(ht: HashTable<Zval>, name: bytes, v: Zval) {
    exists i :: 0 <= i < |ht.entries| && ht.entries[i] == Entry(StrKey(name), v)
  }

  /** A field number as given, or one more than the cached number of a field name; 2^32 - 1 is no field. */
  predicate NamesField(cache: FieldCache, v: Zval, field: u32) {
    match v
    case ZLong(n) => field == U32(n) && field != 0xFFFF_FFFF
    case ZStr(s) => cache(s).Some? && field == U32(cache(s).value + 1)
    case _ => false
  }

  /** What an operation may be applied with. */
  predicate Accepts(c: byte, v: Zval) {
    || (c in Text("+-&|^") && (v.ZLong? || v.ZDouble?))
    || (c in Text("#") && v.ZLong?)
    || (c in Text("=!") && v != ZOther)
  }

  /** The map names an operation and a field. */
  ghost predicate Named(cache: FieldCache, ht: HashTable<Zval>, c: byte, field: u32) {
    Holds(ht, Text("op"), ZStr([c])) && exists v :: Holds(ht, Text("field"), v) && NamesField(cache, v, field)
  }

  lemma {:induction false} HoldsIs(ht: HashTable<Zval>, name: bytes, v: Zval)
    requires Distinct(ht.entries)
    ensures Holds(ht, name, v) <==> ValueOf(ht, name) == Some(v)
  {
    hide IndexOf, Text;
    if Holds(ht, name, v) {
      var i :| 0 <= i < |ht.entries| && ht.entries[i] == Entry(StrKey(name), v);
      assert ht.entries[i].key == StrKey(name);
    }
    if ValueOf(ht, name) == Some(v) {
      var i := IndexOf(ht.entries, StrKey(name)).value;
      assert ht.entries[i] == Entry(StrKey(name), v);
    }
  }

  /** Five entries that make a splice. */
  ghost predicate IsSplice(cache: FieldCache, ht: HashTable<Zval>, field: u32, o: int, l: int, s: bytes) {
    && |ht.entries| == 5 && Named(cache, ht, 58, field)
    && Holds(ht, Text("offset"), ZLong(o)) && Holds(ht, Text("length"), ZLong(l)) && Holds(ht, Text("list"), ZStr(s))
  }

  /** Three entries that make any other operation. */
  ghost predicate IsOther(cache: FieldCache, ht: HashTable<Zval>, c: byte, field: u32, v: Zval) {
    |ht.entries| == 3 && Named(cache, ht, c, field) && Holds(ht, Text("arg"), v) && Accepts(c, v)
  }

  lemma NamedIs(cache: FieldCache, ht: HashTable<Zval>, c: byte, field: u32)
    requires Distinct(ht.entries)
    ensures Named(cache, ht, c, field) <==>
            OpChar(ht) == Some(c) && FieldNumber(cache, ValueOf(ht, FIELD)) == Some(field)
    ensures Named(cache, ht, c, field) ==> IsHash(ht)
  {
    hide ValueOf, Text;
    HoldsIs(ht, Text("op"), ZStr([c]));
    forall v
      ensures Holds(ht, Text("field"), v) <==> ValueOf(ht, FIELD) == Some(v)
    {
      HoldsIs(ht, Text("field"), v);
    }
    if OpChar(ht) == Some(c) {
      var op := ValueOf(ht, OP).value.s;
      assert op == [c];
    }
  }

  lemma SpliceIs(ht: HashTable<Zval>, field: u32, o: int, l: int, s: bytes)
    requires Distinct(ht.entries)
    requires |ht.entries| == 5
    requires Holds(ht, Text("offset"), ZLong(o)) && Holds(ht, Text("length"), ZLong(l))
    requires Holds(ht, Text("list"), ZStr(s))
    ensures SpliceOf(ht, field) == Some(Splice(field, U32(o), U32(l), s))
  {
    hide ValueOf, Text;
    HoldsIs(ht, Text("offset"), ZLong(o));
    HoldsIs(ht, Text("length"), ZLong(l));
    HoldsIs(ht, Text("list"), ZStr(s));
  }

  lemma AcceptsIs(c: byte, v: Zval)
    requires c != 58
    ensures Accepts(c, v) <==> ArgFits(c, v)
  {
    assert Text("+-&|^") == [43, 45, 38, 124, 94] && Text("#") == [35] && Text("=!") == [61, 33];
  }

  /** A splice is written as its sign, field, offset, length and text, in this order. */
  lemma SpliceWritten(h: Heap, cache: FieldCache, a: nat, field: u32, o: int, l: int, s: bytes)
    requires ValidHeap(h) && NoRefCycle(h) && a in h && IsSplice(cache, h[a], field, o, l, s)
    ensures OpOutcome(h, cache, ZArray(a)) ==
            Op(Arr([Str([58]), UInt(field), UInt(U32(o)), UInt(U32(l)), Str(s)]))
  {
    hide ValueOf, Text, Named, IsHash, NoRefCycle, FieldNumber, OpChar, SpliceOf;
    ArrayFacts(h, a);
    NamedIs(cache, h[a], 58, field);
    SpliceIs(h[a], field, o, l, s);
  }

  /** Any other operation is written as its sign, field and packed argument. */
  lemma OtherWritten(h: Heap, cache: FieldCache, a: nat, c: byte, field: u32, j: nat)
    requires ValidHeap(h) && NoRefCycle(h) && a in h && j < |h[a].entries|
    requires h[a].entries[j].key == StrKey(Text("arg")) && IsOther(cache, h[a], c, field, h[a].entries[j].val)
    ensures Sane(h, h[a].entries[j].val)
    ensures OpOutcome(h, cache, ZArray(a)) ==
            Op(Arr([Str([c]), UInt(field), Image(h, {}, h[a].entries[j].val, Some((a, j)))]))
  {
    hide Text, Named, IsHash, NoRefCycle, FieldNumber, OpChar, SpliceOf, Accepts, ArgFits, Image;
    ArrayFacts(h, a);
    NamedIs(cache, h[a], c, field);
    OtherSign(c, h[a].entries[j].val);
    AcceptsIs(c, h[a].entries[j].val);
    assert Distinct(h[a].entries);
    var i := IndexOf(h[a].entries, StrKey(ARG)).value;
    assert i == j;
  }

  lemma OtherSign(c: byte, v: Zval)
    requires Accepts(c, v)
    ensures c != 58
  {
    assert Text("+-&|^") == [43, 45, 38, 124, 94] && Text("#") == [35] && Text("=!") == [61, 33];
  }

  /** Nothing else is written: a map is good exactly when its entries make a splice or another operation. */
  lemma OpExactly(h: Heap, cache: FieldCache, a: nat)
    requires ValidHeap(h) && NoRefCycle(h) && a in h
    ensures OpOutcome(h, cache, ZArray(a)).Op? <==>
            || (exists field: u32, o: int, l: int, s: bytes :: IsSplice(cache, h[a], field, o, l, s))
            || (exists c: byte, field: u32, v: Zval :: IsOther(cache, h[a], c, field, v))
    ensures OpOutcome(h, cache, ZArray(a)).Raised? <==> !IsHash(h[a])
  {
    hide Text, IsHash, NoRefCycle, FieldNumber, OpChar, SpliceOf, Accepts, ArgFits, Image, Named;
    var ht := h[a];
    ArrayFacts(h, a);
    if field: u32, o: int, l: int, s: bytes :| IsSplice(cache, ht, field, o, l, s) {
      SpliceWritten(h, cache, a, field, o, l, s);
    }
    if c: byte, field: u32, v: Zval :| IsOther(cache, ht, c, field, v) {
      var j :| 0 <= j < |ht.entries| && ht.entries[j] == Entry(StrKey(Text("arg")), v);
      OtherWritten(h, cache, a, c, field, j);
    }
    if OpOutcome(h, cache, ZArray(a)).Op? {
      GoodIs(h, cache, a);
    }
  }

  lemma GoodIs(h: Heap, cache: FieldCache, a: nat)
    requires ValidHeap(h) && NoRefCycle(h) && a in h && OpOutcome(h, cache, ZArray(a)).Op?
    ensures || (exists field: u32, o: int, l: int, s: bytes :: IsSplice(cache, h[a], field, o, l, s))
            || (exists c: byte, field: u32, v: Zval :: IsOther(cache, h[a], c, field, v))
  {
    hide Text, IsHash, NoRefCycle, FieldNumber, OpChar, Accepts, ArgFits, Image, Named;
    var ht := h[a];
    ArrayFacts(h, a);
    var c, field := OpChar(ht).value, FieldNumber(cache, ValueOf(ht, FIELD)).value;
    NamedIs(cache, ht, c, field);
    if c == 58 {
      var o, l := ValueOf(ht, SPLICE_OFFSET).value, ValueOf(ht, SPLICE_LENGTH).value;
      var s := ValueOf(ht, SPLICE_LIST).value;
      HoldsIs(ht, Text("offset"), o);
      HoldsIs(ht, Text("length"), l);
      HoldsIs(ht, Text("list"), s);
      assert IsSplice(cache, ht, field, o.n, l.n, s.s);
    } else {
      var j := IndexOf(ht.entries, StrKey(ARG)).value;
      HoldsIs(ht, Text("arg"), ht.entries[j].val);
      AcceptsIs(c, ht.entries[j].val);
      assert IsOther(cache, ht, c, field, ht.entries[j].val);
    }
  }

  // ---------------------------------------------------------------- writing one operation

  lemma OtherEncoding(c: byte, field: u32, arg: Mp)
    requires WF(arg)
    ensures Enc(OtherTree(c, field, arg)) == EncHead(TArr(3)) + Enc(Str([c])) + Enc(LongImage(field)) + Enc(arg)
  {
    hide Enc, EncHead, WF;
    var ms := [Str([c]), UInt(field), arg];
    assert WF(ms[0]) && WF(ms[1]) by { LeavesWF([c], field); }
    EncSeqOne(ms[0]);
    EncSeqSnoc([ms[0]], ms[1]);
    EncSeqSnoc([ms[0]] + [ms[1]], ms[2]);
    assert [ms[0]] + [ms[1]] + [ms[2]] == ms;
    EncArr(ms);
    Regroup(EncHead(TArr(3)), Enc(ms[0]) + Enc(ms[1]), Enc(ms[2]));
    Regroup(EncHead(TArr(3)), Enc(ms[0]), Enc(ms[1]));
  }

  lemma LeavesWF(s: bytes, n: u32)
    requires |s| < TWO_32 - 5
    ensures WF(Str(s)) && WF(UInt(n))
  {
  }

  /** `php_tp_encode_uother`: operation character, field and packed value, in an array of three. */
  method EncodeOther(ser: Serializer, str: Buffer, c: byte, field: u32, value: Zval, at: Place)
    requires ser.Ready() && Sane(ser.heap, value) && ser.marked == {} && str.Valid()
    modifies ser`marked, str, str.c
    ensures ser.marked == {}
    ensures str.Valid() && (str.c == old(str.c) || fresh(str.c))
    ensures str.Contents() == old(str.Contents()) + Enc(OtherTree(c, field, Image(ser.heap, {}, value, at)))
  {
    hide Enc, EncHead, Image, WF, ValidHeap, NoRefCycle, OtherTree;
    ghost var c0, arg := str.Contents(), Image(ser.heap, {}, value, at);
    OtherEncoding(c, field, arg);
    str.Append(EncHead(TArr(3)));
    ser.PackString(str, [c]);
    ser.PackLong(str, field);
    ser.Pack(str, value, at);
    LeavesWF([c], field);
    ghost var a, b := Enc(Str([c])), Enc(LongImage(field));
    Chain4(c0, EncHead(TArr(3)), a, b, Enc(arg));
    Regroup(EncHead(TArr(3)), a + b, Enc(arg));
    Regroup(EncHead(TArr(3)), a, b);
  }

  lemma SpliceEncoding(p: Splice)
    requires |p.text| < TWO_32 - 5
    ensures Enc(SpliceTree(p)) ==
            EncHead(TArr(5)) + Enc(Str([':' as int])) + EncSeq(Longs([p.field, p.position, p.length])) +
              Enc(Str(p.text))
  {
    hide Enc, EncHead, WF, EncSeq, Longs;
    var colon, longs, text := Str([':' as int]), Longs([p.field, p.position, p.length]), Str(p.text);
    LeavesWF(p.text, 0);
    LeavesWF([':' as int], 0);
    EncSeqOne(colon);
    EncSeqConcat([colon], longs);
    EncSeqSnoc([colon] + longs, text);
    assert [colon] + longs + [text] == SpliceTree(p).items;
    EncArr([colon] + longs + [text]);
    Regroup(EncHead(TArr(5)), Enc(colon) + EncSeq(longs), Enc(text));
    Regroup(EncHead(TArr(5)), Enc(colon), EncSeq(longs));
  }

  /** `php_tp_encode_usplice`: an array of five. */
  method EncodeSplice(ser: Serializer, str: Buffer, p: Splice)
    requires |p.text| < TWO_32 - 5 && str.Valid()
    modifies str, str.c
    ensures str.Valid() && (str.c == old(str.c) || fresh(str.c))
    ensures str.Contents() == old(str.Contents()) + Enc(SpliceTree(p))
  {
    hide Enc, EncHead, WF, EncSeq, Longs, SpliceTree;
    ghost var c0 := str.Contents();
    SpliceEncoding(p);
    LeavesWF([':' as int], 0);
    LeavesWF(p.text, 0);
    str.Append(EncHead(TArr(5)));
    ser.PackString(str, [':' as int]);
    PackLongs(ser, str, [p.field, p.position, p.length]);
    ser.PackString(str, p.text);
    ghost var a, b := Enc(Str([':' as int])), EncSeq(Longs([p.field, p.position, p.length]));
    Chain4(c0, EncHead(TArr(5)), a, b, Enc(Str(p.text)));
    Regroup(EncHead(TArr(5)), a + b, Enc(Str(p.text)));
    Regroup(EncHead(TArr(5)), a, b);
  }

  datatype Status = Done | Failed | Threw

  function StatusOf(o: Outcome): Status {
    match o
    case Op(_) => Done
    case Rejected => Failed
    case Raised => Threw
  }

  /** `tarantool_uwrite_op`: checks everything first, so nothing is written unless the operation is good. */
  method WriteOp(ser: Serializer, str: Buffer, cache: FieldCache, op: Zval) returns (r: Status)
    requires ser.Ready() && Sane(ser.heap, op) && ser.marked == {} && str.Valid()
    modifies ser`marked, str, str.c
    ensures ser.marked == {}
    ensures str.Valid() && (str.c == old(str.c) || fresh(str.c))
    ensures var o := OpOutcome(ser.heap, cache, op);
            r == StatusOf(o) &&
            str.Contents() == old(str.Contents()) + if o.Op? then Enc(o.tree) else []
  {
    hide Enc, Image, WF, ValidHeap, NoRefCycle, OtherTree, SpliceTree, SpliceOf, FieldNumber, OpChar, IndexOf,
         ArgFits;
    if !op.ZArray? {
      return Threw;
    }
    var isHash := PhpMpIsHash(ser.heap[op.id]);
    if !isHash {
      return Threw;
    }
    var ht := ser.heap[op.id];
    ArrayFacts(ser.heap, op.id);
    var opstr, field := OpChar(ht), FieldNumber(cache, ValueOf(ht, FIELD));
    if opstr.None? || field.None? {
      return Failed;
    }
    var c := opstr.value;
    if c == ':' as int {
      var p := SpliceOf(ht, field.value);
      if p.None? {
        return Failed;
      }
      SpliceText(ser.heap, op.id, field.value);
      EncodeSplice(ser, str, p.value);
    } else {
      var j := IndexOf(ht.entries, StrKey(ARG));
      if j.None? || |ht.entries| != 3 || !ArgFits(c, ht.entries[j.value].val) {
        return Failed;
      }
      EncodeOther(ser, str, c, field.value, ht.entries[j.value].val, Some((op.id, j.value)));
    }
    r := Done;
  }

  lemma SpliceText(h: Heap, a: nat, field: u32)
    requires ValidHeap(h) && a in h && SpliceOf(h[a], field).Some?
    ensures |SpliceOf(h[a], field).value.text| < TWO_32 - 5
  {
    hide IndexOf;
    ArrayFacts(h, a);
    var i := IndexOf(h[a].entries, StrKey(SPLICE_LIST)).value;
    assert Sane(h, h[a].entries[i].val);
  }

  // ---------------------------------------------------------------- the list of operations

  /** Operation `i` of the list; an index with no element counts as rejected. */
  ghost function OutcomeAt(h: Heap, cache: FieldCache, a: nat, i: nat): (o: Outcome)
    requires ValidHeap(h) && NoRefCycle(h) && a in h && i < |h[a].entries|
    ensures o.Op? ==> WF(o.tree) && o.tree.Arr? && (|o.tree.items| == 3 || |o.tree.items| == 5)
  {
    match IndexOf(h[a].entries, IntKey(i))
    case None => Rejected
    case Some(j) => ArrayFacts(h, a); OpOutcome(h, cache, h[a].entries[j].val)
  }

  /** The trees of the first `n` operations, when each of them is good. */
  ghost function OpTrees(h: Heap, cache: FieldCache, a: nat, n: nat): (ms: Option<seq<Mp>>)
    requires ValidHeap(h) && NoRefCycle(h) && a in h && n <= |h[a].entries|
    ensures ms.Some? ==> |ms.value| == n && AllWF(ms.value)
  {
    if n == 0 then Some([])
    else
      var o := OutcomeAt(h, cache, a, n - 1);
      match OpTrees(h, cache, a, n - 1)
      case None => None
      case Some(ms) =>
        if o.Op? then
          AllWFOne(o.tree);
          AllWFConcat(ms, [o.tree]);
          Some(ms + [o.tree])
        else None
  }

  lemma {:induction false} OpTreesAre(h: Heap, cache: FieldCache, a: nat, n: nat)
    requires ValidHeap(h) && NoRefCycle(h) && a in h && n <= |h[a].entries|
    ensures var ms := OpTrees(h, cache, a, n);
            && (ms.Some? ==> forall i :: 0 <= i < n ==> OutcomeAt(h, cache, a, i) == Op(ms.value[i]))
            && (ms.None? ==> exists i :: 0 <= i < n && !OutcomeAt(h, cache, a, i).Op?)
    decreases n
  {
    hide OutcomeAt, ValidHeap, NoRefCycle, WF;
    if n > 0 {
      OpTreesAre(h, cache, a, n - 1);
    }
  }

  /** Every operation is an array of three or five, in the order of the list. */
  lemma OpTreesShape(h: Heap, cache: FieldCache, a: nat, i: nat)
    requires ValidHeap(h) && NoRefCycle(h) && a in h && i < |h[a].entries|
    requires OpTrees(h, cache, a, |h[a].entries|).Some?
    ensures var ms := OpTrees(h, cache, a, |h[a].entries|).value;
            && |ms| == |h[a].entries|
            && OutcomeAt(h, cache, a, i) == Op(ms[i])
            && ms[i].Arr? && (|ms[i].items| == 3 || |ms[i].items| == 5)
  {
    hide OutcomeAt, OpTrees, WF;
    OpTreesAre(h, cache, a, |h[a].entries|);
    assert OutcomeAt(h, cache, a, i).Op?;
  }

  method WriteOpAt(ser: Serializer, str: Buffer, cache: FieldCache, a: nat, i: nat) returns (r: Status)
    requires ser.Ready() && a in ser.heap && i < |ser.heap[a].entries| && ser.marked == {} && str.Valid()
    modifies ser`marked, str, str.c
    ensures ser.marked == {}
    ensures str.Valid() && (str.c == old(str.c) || fresh(str.c))
    ensures var o := OutcomeAt(ser.heap, cache, a, i);
            r == StatusOf(o) &&
            str.Contents() == old(str.Contents()) + if o.Op? then Enc(o.tree) else []
  {
    hide Enc, WF, ValidHeap, NoRefCycle, OpOutcome, IndexOf;
    var ht := ser.heap[a];
    ArrayFacts(ser.heap, a);
    var j := IndexOf(ht.entries, IntKey(i));
    if j.None? {
      return Failed;
    }
    r := WriteOp(ser, str, cache, ht.entries[j.value].val);
  }

  /**
   * `tarantool_uwrite_ops`. Failing means some operation was rejected; finishing with nothing raised
   * means the whole list was written, in order.
   */
  method WriteOps(ser: Serializer, str: Buffer, cache: FieldCache, ops: Zval) returns (failed: bool, raised: bool)
    requires ser.Ready() && Sane(ser.heap, ops) && ser.marked == {} && str.Valid()
    modifies ser`marked, str, str.c
    ensures ser.marked == {}
    ensures str.Valid() && (str.c == old(str.c) || fresh(str.c))
    ensures old(str.Contents()) <= str.Contents()
    ensures !ops.ZArray? || IsHash(ser.heap[ops.id]) ==> raised && !failed
    ensures ops.ZArray? && !IsHash(ser.heap[ops.id]) ==>
              var h, a := ser.heap, ops.id;
              var n := |h[a].entries|;
              && (failed <==> exists i :: 0 <= i < n && OutcomeAt(h, cache, a, i).Rejected?)
              && (!failed ==> (raised <==> exists i :: 0 <= i < n && OutcomeAt(h, cache, a, i).Raised?))
              && (!failed && !raised ==>
                    && OpTrees(h, cache, a, n).Some?
                    && WF(Arr(OpTrees(h, cache, a, n).value))
                    && str.Contents() == old(str.Contents()) + Enc(Arr(OpTrees(h, cache, a, n).value)))
  {
    hide Enc, EncSeq, EncHead, WF, ValidHeap, NoRefCycle, OutcomeAt, OpTrees;
    failed, raised := false, false;
    if !ops.ZArray? {
      raised := true;
      return;
    }
    var isHash := PhpMpIsHash(ser.heap[ops.id]);
    if isHash {
      raised := true;
      return;
    }
    var ht := ser.heap[ops.id];
    var n := |ht.entries|;
    ArrayFacts(ser.heap, ops.id);
    str.Append(EncHead(TArr(n)));
    ghost var start := str.Contents();
    ghost var h, a := ser.heap, ops.id;
    NoTrees(h, cache, a);
    for keyIndex := 0 to n
      invariant ser.marked == {} && !failed
      invariant str.Valid() && (str.c == old(str.c) || fresh(str.c))
      invariant start <= str.Contents()
      invariant forall i :: 0 <= i < keyIndex ==> !OutcomeAt(h, cache, a, i).Rejected?
      invariant raised <==> exists i :: 0 <= i < keyIndex && OutcomeAt(h, cache, a, i).Raised?
      invariant !raised ==> OpTrees(h, cache, a, keyIndex).Some? &&
                            str.Contents() == start + EncSeq(OpTrees(h, cache, a, keyIndex).value)
    {
      ghost var o := OutcomeAt(h, cache, a, keyIndex);
      var r := WriteOpAt(ser, str, cache, ops.id, keyIndex);
      if r.Failed? {
        failed := true;
        return;
      }
      if r.Threw? {
        raised := true;
      } else if !raised {
        TreesStep(h, cache, a, keyIndex);
        Regroup(start, EncSeq(OpTrees(h, cache, a, keyIndex).value), Enc(o.tree));
      }
    }
    if !raised {
      var ms := OpTrees(h, cache, a, n).value;
      EncArr(ms);
      Regroup(old(str.Contents()), EncHead(TArr(n)), EncSeq(ms));
    }
  }

  lemma NoTrees(h: Heap, cache: FieldCache, a: nat)
    requires ValidHeap(h) && NoRefCycle(h) && a in h
    ensures OpTrees(h, cache, a, 0) == Some([]) && EncSeq([]) == []
  {
  }

  lemma TreesStep(h: Heap, cache: FieldCache, a: nat, i: nat)
    requires ValidHeap(h) && NoRefCycle(h) && a in h && i < |h[a].entries|
    requires OpTrees(h, cache, a, i).Some? && OutcomeAt(h, cache, a, i).Op?
    ensures OpTrees(h, cache, a, i + 1) == Some(OpTrees(h, cache, a, i).value + [OutcomeAt(h, cache, a, i).tree])
    ensures EncSeq(OpTrees(h, cache, a, i + 1).value) ==
            EncSeq(OpTrees(h, cache, a, i).value) + Enc(OutcomeAt(h, cache, a, i).tree)
  {
    hide Enc, EncSeq, WF, OutcomeAt;
    EncSeqSnoc(OpTrees(h, cache, a, i).value, OutcomeAt(h, cache, a, i).tree);
  }

  // ---------------------------------------------------------------- update and upsert

  /** The body of an update or an upsert before the operations: integers, a value, one more key. */
  function OpsFront(ns: seq<u32>, first: Mp, key: u32): (ms: seq<Mp>)
    requires WF(first) && |ns| % 2 == 1 && |ns| < 100
    ensures AllWF(ms) && |ms| == |ns| + 2
  {
    LeavesWF([], key);
    AllWFOne(first);
    AllWFOne(UInt(key));
    AllWFConcat(Longs(ns), [first]);
    AllWFConcat(Longs(ns) + [first], [UInt(key)]);
    Longs(ns) + [first] + [UInt(key)]
  }

  function OpsBody(ns: seq<u32>, first: Mp, key: u32, ops: seq<Mp>): (m: Mp)
    requires WF(first) && AllWF(ops) && |ops| < TWO_32 && |ns| % 2 == 1 && |ns| < 100
    ensures WF(m)
  {
    var kvs := OpsFront(ns, first, key) + [Arr(ops)];
    ContainerWF(ops);
    AllWFOne(Arr(ops));
    AllWFConcat(OpsFront(ns, first, key), [Arr(ops)]);
    ContainerWF(kvs);
    Map(kvs)
  }

  /** The bytes of the body before the operations. */
  function OpsStart(ns: seq<u32>, first: Mp, key: u32): bytes
    requires WF(first) && |ns| % 2 == 1 && |ns| < 100
  {
    LeavesWF([], key);
    EncHead(TMap((|ns| + 3) / 2)) + EncSeq(Longs(ns)) + Enc(first) + Enc(UInt(key))
  }

  lemma OpsFrontEncoding(ns: seq<u32>, first: Mp, key: u32)
    requires WF(first) && |ns| % 2 == 1 && |ns| < 100
    ensures EncHead(TMap((|ns| + 3) / 2)) + EncSeq(OpsFront(ns, first, key)) == OpsStart(ns, first, key)
  {
    hide WF, Longs, EncHead, Enc, EncSeq;
    LeavesWF([], key);
    var a := Longs(ns);
    EncSeqSnoc(a, first);
    EncSeqSnoc(a + [first], UInt(key));
    var head := EncHead(TMap((|ns| + 3) / 2));
    Regroup(head, EncSeq(a) + Enc(first), Enc(UInt(key)));
    Regroup(head, EncSeq(a), Enc(first));
  }

  lemma OpsBodyEncoding(ns: seq<u32>, first: Mp, key: u32, ops: seq<Mp>)
    requires WF(first) && AllWF(ops) && |ops| < TWO_32 && |ns| % 2 == 1 && |ns| < 100
    ensures WF(Arr(ops)) && Enc(OpsBody(ns, first, key, ops)) == OpsStart(ns, first, key) + Enc(Arr(ops))
  {
    hide WF, EncHead, Enc, EncSeq, OpsFront, OpsStart;
    ContainerWF(ops);
    var front := OpsFront(ns, first, key);
    EncSeqSnoc(front, Arr(ops));
    EncMap(front + [Arr(ops)]);
    OpsFrontEncoding(ns, first, key);
    Regroup(EncHead(TMap((|ns| + 3) / 2)), EncSeq(front), Enc(Arr(ops)));
  }

  /** `php_tp_encode_update` and `php_tp_encode_upsert`: a length of zero, and no operations yet. */
  method EncodeStart(ser: Serializer, str: Buffer, request: u32, sync: u32, ns: seq<u32>, first: Zval, key: u32)
    requires ser.Ready() && Sane(ser.heap, first) && ser.marked == {} && str.Valid()
    requires |ns| % 2 == 1 && |ns| < 100
    modifies ser`marked, str, str.c
    ensures ser.marked == {}
    ensures str.Valid() && (str.c == old(str.c) || fresh(str.c))
    ensures str.Contents() == old(str.Contents()) +
            (Prefix(0) + Enc(HeaderTree(request, sync)) + OpsStart(ns, ValueTree(ser, first), key))
  {
    hide Longs, EncSeq, Enc, EncHead, Image, Prefix, WF, ValidHeap, NoRefCycle, Rank, Unmarked;
    ghost var c0 := str.Contents();
    ghost var header := Prefix(0) + Enc(HeaderTree(request, sync));
    ghost var value := ValueTree(ser, first);
    PackHeader(ser, str, 0, request, sync);
    str.Append(EncHead(TMap((|ns| + 3) / 2)));
    PackLongs(ser, str, ns);
    ser.Pack(str, first, None);
    ser.PackLong(str, key);
    LeavesWF([], key);
    StartChain(c0, header, EncHead(TMap((|ns| + 3) / 2)), EncSeq(Longs(ns)), Enc(value), Enc(LongImage(key)));
  }

  lemma StartChain(c0: bytes, h: bytes, m: bytes, a: bytes, b: bytes, c: bytes)
    ensures c0 + h + m + a + b + c == c0 + (h + (m + a + b + c))
  {
    Chain4(c0, h, m + a, b, c);
    Regroup(c0 + h, m, a);
  }

  /** `php_tp_reencode_length`: the real length goes over the five bytes at `origLen`, wherever the buffer now lives. */
  method ReencodeLength(str: Buffer, origLen: nat)
    requires str.Valid() && str.len - origLen > 5
    modifies str.c
    ensures str.Valid()
    ensures str.Contents() ==
            old(str.Contents()[..origLen]) + Prefix(str.len - origLen - 5) + old(str.Contents()[origLen + 5..])
  {
    hide Prefix;
    var packageSize := str.len - origLen - 5;
    str.Patch(origLen, Prefix(packageSize));
  }

  /** The two requests that carry operations. */
  datatype OpsCall = Update(spaceNo: u32, indexNo: u32) | Upsert(space: u32)
  {
    function Code(): u32 {
      if Update? then TNT_UPDATE else TNT_UPSERT
    }

    /** Keys and values before the key or tuple of the call. */
    function Front(): (ns: seq<u32>)
      ensures |ns| % 2 == 1 && |ns| < 100
    {
      match this
      case Update(s, i) => [TNT_SPACE, s, TNT_INDEX, i, TNT_KEY]
      case Upsert(s) => [TNT_SPACE, s, TNT_TUPLE]
    }

    function OpsKey(): u32 {
      if Update? then TNT_TUPLE else TNT_OPS
    }
  }

  /** Every operation of the list is good. */
  ghost predicate AllGood(h: Heap, cache: FieldCache, ops: Zval)
    requires ValidHeap(h) && NoRefCycle(h)
  {
    ops.ZArray? && ops.id in h && !IsHash(h[ops.id]) && OpTrees(h, cache, ops.id, |h[ops.id].entries|).Some?
  }

  /** The frame of an update or upsert whose operations are all good. */
  ghost function OpsFrame(ser: Serializer, cache: FieldCache, call: OpsCall, sync: u32, first: Zval, ops: Zval): bytes
    requires ser.Ready() && Sane(ser.heap, first) && AllGood(ser.heap, cache, ops)
  {
    ArrayFacts(ser.heap, ops.id);
    var trees := OpTrees(ser.heap, cache, ops.id, |ser.heap[ops.id].entries|).value;
    Frame(Payload(call.Code(), sync, OpsBody(call.Front(), ValueTree(ser, first), call.OpsKey(), trees)))
  }

  /** The operations are a list, and each of them a map. */
  ghost predicate NoneRaised(h: Heap, cache: FieldCache, ops: Zval)
    requires ValidHeap(h) && NoRefCycle(h)
  {
    && ops.ZArray? && ops.id in h && !IsHash(h[ops.id])
    && forall i :: 0 <= i < |h[ops.id].entries| ==> !OutcomeAt(h, cache, ops.id, i).Raised?
  }

  /** Some operation of the list is rejected. */
  ghost predicate SomeRejected(h: Heap, cache: FieldCache, ops: Zval)
    requires ValidHeap(h) && NoRefCycle(h)
  {
    ops.ZArray? && ops.id in h && !IsHash(h[ops.id]) &&
    exists i :: 0 <= i < |h[ops.id].entries| && OutcomeAt(h, cache, ops.id, i).Rejected?
  }

  /**
   * The sequence the update and upsert calls share. It fails exactly when an operation is rejected,
   * and then leaves the buffer as it was; with nothing raised, the buffer gains one frame whose
   * length is right and whose body holds exactly the operations, in order.
   */
  method EncodeWithOps(ser: Serializer, str: Buffer, cache: FieldCache, call: OpsCall, sync: u32, first: Zval,
      ops: Zval)
    returns (ok: bool, raised: bool)
    requires ser.Ready() && Sane(ser.heap, first) && Sane(ser.heap, ops) && ser.marked == {} && str.Valid()
    modifies ser`marked, str, str.c
    ensures ser.marked == {}
    ensures str.Valid() && (str.c == old(str.c) || fresh(str.c))
    ensures !ok <==> SomeRejected(ser.heap, cache, ops)
    ensures !ok ==> str.Contents() == old(str.Contents())
    ensures NoneRaised(ser.heap, cache, ops) && ok ==> !raised
    ensures ok && !raised ==> AllGood(ser.heap, cache, ops)
    ensures ok && !raised ==>
              str.Contents() == old(str.Contents()) + OpsFrame(ser, cache, call, sync, first, ops)
  {
    hide Longs, EncSeq, Enc, EncHead, Image, Prefix, WF, ValidHeap, NoRefCycle, OpsStart, OpsBody, OutcomeAt, OpTrees,
         IsHash, OpsCall.Code, OpsCall.Front, OpsCall.OpsKey, OpsFrame;
    var request, ns, key := call.Code(), call.Front(), call.OpsKey();
    var beforeLen := str.len;
    ghost var c0 := str.Contents();
    ghost var value := ValueTree(ser, first);
    EncodeStart(ser, str, request, sync, ns, first, key);
    var failed;
    failed, raised := WriteOps(ser, str, cache, ops);
    if failed {
      str.Truncate(beforeLen);
      return false, raised;
    }
    ghost var written := str.Contents();
    OpsStartLong(ns, value, key);
    ghost var start := Enc(HeaderTree(request, sync)) + OpsStart(ns, value, key);
    Regroup(Prefix(0), Enc(HeaderTree(request, sync)), OpsStart(ns, value, key));
    assert |written| >= |c0| + 5 + |start| && |start| > 0;
    ReencodeLength(str, beforeLen);
    ok := true;
    if !raised {
      OpsFrameIs(ser, cache, call, sync, first, ops, c0);
    }
  }

  /** The patched bytes are the frame. */
  lemma OpsFrameIs(ser: Serializer, cache: FieldCache, call: OpsCall, sync: u32, first: Zval, ops: Zval, c0: bytes)
    requires ser.Ready() && Sane(ser.heap, first) && AllGood(ser.heap, cache, ops)
    ensures var ms := OpTrees(ser.heap, cache, ops.id, |ser.heap[ops.id].entries|).value;
            && AllWF(ms) && WF(Arr(ms))
            && var front := OpsStart(call.Front(), ValueTree(ser, first), call.OpsKey());
               var start := Enc(HeaderTree(call.Code(), sync)) + front;
               var w := c0 + (Prefix(0) + start) + Enc(Arr(ms));
               w[..|c0|] + Prefix(|w| - |c0| - 5) + w[|c0| + 5..] == c0 + OpsFrame(ser, cache, call, sync, first, ops)
  {
    hide Longs, EncSeq, Enc, EncHead, Image, Prefix, WF, ValidHeap, NoRefCycle, OpsStart, OpsBody, OutcomeAt, OpTrees,
         IsHash, OpsCall.Code, OpsCall.Front, OpsCall.OpsKey;
    ArrayFacts(ser.heap, ops.id);
    var value, header := ValueTree(ser, first), Enc(HeaderTree(call.Code(), sync));
    var ms := OpTrees(ser.heap, cache, ops.id, |ser.heap[ops.id].entries|).value;
    var start := OpsStart(call.Front(), value, call.OpsKey());
    OpsBodyEncoding(call.Front(), value, call.OpsKey(), ms);
    Regroup(header, start, Enc(Arr(ms)));
    PatchedFrame(c0, header + start, Enc(Arr(ms)));
  }

  lemma GoodIsNotRejected(h: Heap, cache: FieldCache, ops: Zval)
    requires ValidHeap(h) && NoRefCycle(h) && AllGood(h, cache, ops)
    ensures !SomeRejected(h, cache, ops)
  {
    hide ValidHeap, NoRefCycle, OutcomeAt, OpTrees;
    forall i | 0 <= i < |h[ops.id].entries|
      ensures !OutcomeAt(h, cache, ops.id, i).Rejected?
    {
      OpTreesShape(h, cache, ops.id, i);
    }
  }

  lemma OpsStartLong(ns: seq<u32>, first: Mp, key: u32)
    requires WF(first) && |ns| % 2 == 1 && |ns| < 100
    ensures |OpsStart(ns, first, key)| > 0
  {
    hide EncHead, EncSeq, Enc, Longs;
  }

  /** Overwriting the zero length of what was appended to `c0` gives a frame appended to `c0`. */
  lemma PatchedFrame(c0: bytes, start: bytes, ops: bytes)
    ensures var w := c0 + (Prefix(0) + start) + ops;
            w[..|c0|] + Prefix(|w| - |c0| - 5) + w[|c0| + 5..] == c0 + Frame(start + ops)
  {
    hide Prefix;
    var w := c0 + (Prefix(0) + start) + ops;
    assert w[..|c0|] == c0;
    assert w[|c0| + 5..] == start + ops;
    Regroup(c0, Prefix(|start + ops|), start + ops);
  }

  /** An update says its space, index, key and operations; an upsert its space, tuple and operations. */
  function OpsFields(call: OpsCall, first: Mp, ops: seq<Mp>): map<nat, Mp> {
    match call
    case Update(s, i) => map[0x10 := UInt(s), 0x11 := UInt(i), 0x20 := first, 0x21 := Arr(ops)]
    case Upsert(s) => map[0x10 := UInt(s), 0x21 := first, 0x28 := Arr(ops)]
  }

  lemma LastTwo(k: u32, first: Mp, key: u32, ops: Mp)
    requires key != k
    ensures Fields(Longs([k]) + [first] + [UInt(key)] + [ops]) == Some(map[key := ops][k := first])
  {
    hide Fields;
    NoField();
    OneField(key, ops, []);
    OneField(k, first, [UInt(key), ops] + []);
    assert Longs([k]) + [first] + [UInt(key)] + [ops] == [UInt(k), first] + ([UInt(key), ops] + []);
  }

  lemma FrontField(k: u32, v: u32, rest: seq<u32>, end: seq<Mp>)
    requires Fields(Longs(rest) + end).Some? && k !in Fields(Longs(rest) + end).value
    ensures Fields(Longs([k, v] + rest) + end) == Some(Fields(Longs(rest) + end).value[k := UInt(v)])
  {
    hide Fields;
    OneField(k, UInt(v), Longs(rest) + end);
    assert Longs([k, v] + rest) + end == [UInt(k), UInt(v)] + (Longs(rest) + end);
  }

  lemma OpsFieldsAre(call: OpsCall, first: Mp, ops: seq<Mp>)
    ensures var kvs := Longs(call.Front()) + [first] + [UInt(call.OpsKey())] + [Arr(ops)];
            Fields(kvs).Some? && Fields(kvs).value == OpsFields(call, first, ops)
  {
    hide Fields, Longs;
    var ns, end := call.Front(), [first] + [UInt(call.OpsKey())] + [Arr(ops)];
    var last := ns[|ns| - 1];
    LastTwo(last, first, call.OpsKey(), Arr(ops));
    Ends(Longs([last]), first, UInt(call.OpsKey()), Arr(ops));
    Ends(Longs(ns), first, UInt(call.OpsKey()), Arr(ops));
    match call {
      case Update(s, i) =>
        FrontField(0x11, i, [last], end);
        FrontField(0x10, s, [0x11, i] + [last], end);
        assert ns == [0x10, s] + ([0x11, i] + [last]);
      case Upsert(s) =>
        FrontField(0x10, s, [last], end);
        assert ns == [0x10, s] + [last];
    }
  }

  lemma Ends(a: seq<Mp>, x: Mp, y: Mp, z: Mp)
    ensures a + [x] + [y] + [z] == a + ([x] + [y] + [z])
  {
  }

  /** Reading such a request back gives its arguments and operations, each under its own key, and nothing else. */
  lemma OpsReads(call: OpsCall, sync: u32, first: Mp, ops: seq<Mp>)
    requires WF(first) && AllWF(ops) && |ops| < TWO_32
    ensures Reads(Payload(call.Code(), sync, OpsBody(call.Front(), first, call.OpsKey(), ops)),
              if call.Update? then 0x04 else 0x09, sync, Some(OpsFields(call, first, ops)))
  {
    hide Fields, Longs, Payload, Reads, WF, OpsFields;
    OpsFieldsAre(call, first, ops);
    var kvs := Longs(call.Front()) + [first] + [UInt(call.OpsKey())] + [Arr(ops)];
    assert OpsBody(call.Front(), first, call.OpsKey(), ops) == Map(kvs);
    PayloadReads(call.Code(), sync, kvs, OpsFields(call, first, ops));
  }

  /**
   * Such a frame reads back as the request with its arguments and its operations: as many as the list
   * has, each written from the element under its number, and each an array of three or five.
   */
  lemma {:induction false} OpsFrameDecodes(ser: Serializer, cache: FieldCache, call: OpsCall, sync: u32, first: Zval,
      ops: Zval)
    requires ser.Ready() && Sane(ser.heap, first) && AllGood(ser.heap, cache, ops)
    ensures var h, ht := ser.heap, ser.heap[ops.id];
            var items := OpTrees(h, cache, ops.id, |ht.entries|).value;
            && Reads(OpsFrame(ser, cache, call, sync, first, ops)[5..], if call.Update? then 0x04 else 0x09, sync,
                 Some(OpsFields(call, ValueTree(ser, first), items)))
            && |items| == |ht.entries|
            && forall i :: 0 <= i < |items| ==>
                 && OpAt(h, cache, ops.id, i, items[i])
                 && items[i].Arr? && (|items[i].items| == 3 || |items[i].items| == 5)
  {
    hide Parse, Enc, WF, OpTrees, OutcomeAt, ValidHeap, NoRefCycle, Image, IsHash, Longs, OpsCall.Code, OpsCall.Front,
         OpsCall.OpsKey, Reads, OpsFields, OpAt;
    ArrayFacts(ser.heap, ops.id);
    var ms := OpTrees(ser.heap, cache, ops.id, |ser.heap[ops.id].entries|).value;
    var body := OpsBody(call.Front(), ValueTree(ser, first), call.OpsKey(), ms);
    OpsReads(call, sync, ValueTree(ser, first), ms);
    FrameBody(Payload(call.Code(), sync, body));
    forall i | 0 <= i < |ms|
      ensures OpAt(ser.heap, cache, ops.id, i, ms[i]) && ms[i].Arr? && (|ms[i].items| == 3 || |ms[i].items| == 5)
    {
      OpTreesShape(ser.heap, cache, ops.id, i);
      OutcomeIsAt(ser.heap, cache, ops.id, i);
    }
  }

  /** The element under number `i` is an operation, written as this tree. */
  ghost predicate OpAt(h: Heap, cache: FieldCache, a: nat, i: nat, tree: Mp)
    requires ValidHeap(h) && NoRefCycle(h) && a in h
  {
    exists j :: 0 <= j < |h[a].entries| && h[a].entries[j].key == IntKey(i) && Sane(h, h[a].entries[j].val)
      && OpOutcome(h, cache, h[a].entries[j].val) == Op(tree)
  }

  lemma OutcomeIsAt(h: Heap, cache: FieldCache, a: nat, i: nat)
    requires ValidHeap(h) && NoRefCycle(h) && a in h && i < |h[a].entries| && OutcomeAt(h, cache, a, i).Op?
    ensures OpAt(h, cache, a, i, OutcomeAt(h, cache, a, i).tree)
  {
    hide OpOutcome, NoRefCycle;
    ArrayFacts(h, a);
    var j := IndexOf(h[a].entries, IntKey(i)).value;
    assert Sane(h, h[a].entries[j].val);
  }

  lemma FrameBody(payload: bytes)
    ensures Frame(payload)[5..] == payload
  {
    hide Prefix;
  }
}
