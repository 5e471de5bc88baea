/** The request encoders: sizes computed up front, or patched in afterwards at a remembered offset. */
module Requests {
  import opened Bytes
  import opened Wire
  import opened Php
  import opened Packing
  import opened Protocol
  import SmartString

  type Buffer = SmartString.SmartString

  // ---------------------------------------------------------------- pieces

  /** The body of a request: integer keys and values, then one packed value. */
  function Body(ns: seq<u32>, last: Mp): (m: Mp)
    requires WF(last) && |ns| % 2 == 1 && |ns| < 100
    ensures WF(m)
  {
    var kvs := Longs(ns) + [last];
    AllWFOne(last);
    AllWFConcat(Longs(ns), [last]);
    ContainerWF(kvs);
    Map(kvs)
  }

  lemma BodyEncoding(ns: seq<u32>, last: Mp)
    requires WF(last) && |ns| % 2 == 1 && |ns| < 100
    ensures Enc(Body(ns, last)) == EncHead(TMap((|ns| + 1) / 2)) + EncSeq(Longs(ns)) + Enc(last)
  {
    hide WF, Longs, EncHead;
    EncSeqSnoc(Longs(ns), last);
    var m := Body(ns, last);
    assert Enc(m) == EncHead(TokenOf(m)) + EncSeq(m.kvs);
    Regroup(EncHead(TokenOf(m)), EncSeq(Longs(ns)), Enc(last));
  }

  lemma HeaderEncoding(code: u32, sync: u32)
    ensures Enc(HeaderTree(code, sync)) == EncHead(TMap(2)) + EncSeq(Longs([TNT_CODE, code, TNT_SYNC, sync]))
  {
    hide Longs, EncHead, EncSeq, WF;
  }

  lemma LongsSnoc(ns: seq<u32>, n: u32)
    ensures EncSeq(Longs(ns + [n])) == EncSeq(Longs(ns)) + Enc(LongImage(n))
  {
    hide Enc;
    assert Longs(ns + [n]) == Longs(ns) + [UInt(n)];
    EncSeqSnoc(Longs(ns), UInt(n));
  }

  /** Consecutive `php_mp_sizeof_long`. */
  method SizeofLongs(ns: seq<u32>) returns (size: nat)
    ensures size == |EncSeq(Longs(ns))|
  {
    hide Longs, Enc, EncSeq;
    NoLongs();
    size := 0;
    for i := 0 to |ns|
      invariant size == |EncSeq(Longs(ns[..i]))|
    {
      assert ns[..i + 1] == ns[..i] + [ns[i]];
      LongsSnoc(ns[..i], ns[i]);
      size := size + SizeofLong(ns[i]);
    }
    assert ns[..|ns|] == ns;
  }

  lemma NoLongs()
    ensures EncSeq(Longs([])) == []
  {
    assert Longs([]) == [];
  }

  /** Consecutive `php_mp_pack_long`. */
  method PackLongs(ser: Serializer, str: Buffer, ns: seq<u32>)
    requires str.Valid()
    modifies str, str.c
    ensures str.Valid() && (str.c == old(str.c) || fresh(str.c))
    ensures str.Contents() == old(str.Contents()) + EncSeq(Longs(ns))
  {
    hide Longs, Enc, EncSeq;
    NoLongs();
    for i := 0 to |ns|
      invariant str.Valid() && (str.c == old(str.c) || fresh(str.c))
      invariant str.Contents() == old(str.Contents()) + EncSeq(Longs(ns[..i]))
    {
      assert ns[..i + 1] == ns[..i] + [ns[i]];
      LongsSnoc(ns[..i], ns[i]);
      Regroup(old(str.Contents()), EncSeq(Longs(ns[..i])), Enc(LongImage(ns[i])));
      ser.PackLong(str, ns[i]);
    }
    assert ns[..|ns|] == ns;
  }

  method SizeofHeader(request: u32, sync: u32) returns (size: nat)
    ensures size == |Enc(HeaderTree(request, sync))|
  {
    HeaderEncoding(request, sync);
    hide Longs, EncSeq, Enc;
    var longs := SizeofLongs([TNT_CODE, request, TNT_SYNC, sync]);
    size := SizeofMap(2) + longs;
  }

  /** `php_tp_pack_header`: the length prefix as given, and the header map. */
  method PackHeader(ser: Serializer, str: Buffer, size: nat, request: u32, sync: u32)
    requires str.Valid()
    modifies str, str.c
    ensures str.Valid() && (str.c == old(str.c) || fresh(str.c))
    ensures str.Contents() == old(str.Contents()) + (Prefix(size) + Enc(HeaderTree(request, sync)))
  {
    HeaderEncoding(request, sync);
    hide Longs, EncSeq, Enc, Prefix, EncHead;
    var longs: seq<u32> := [TNT_CODE, request, TNT_SYNC, sync];
    str.Append(Prefix(size));
    str.Append(EncHead(TMap(2)));
    PackLongs(ser, str, longs);
    ghost var c0 := old(str.Contents());
    Regroup(c0 + Prefix(size), EncHead(TMap(2)), EncSeq(Longs(longs)));
    Regroup(c0, Prefix(size), Enc(HeaderTree(request, sync)));
  }

  /** The image of a value that is no bucket, packed with nothing marked. */
  ghost function ValueTree(ser: Serializer, v: Zval): (m: Mp)
    requires ser.Ready() && Sane(ser.heap, v)
    ensures WF(m)
  {
    Image(ser.heap, {}, v, None)
  }

  /** Size of a request whose body is integers and one value, from the value's size. */
  method SizeofRequest(ser: Serializer, request: u32, sync: u32, ns: seq<u32>, last: Zval) returns (size: nat)
    requires ser.Ready() && Sane(ser.heap, last) && ser.marked == {}
    requires |ns| % 2 == 1 && |ns| < 100
    modifies ser`marked
    ensures ser.marked == {}
    ensures size == |Payload(request, sync, Body(ns, ValueTree(ser, last)))|
  {
    hide Longs, EncSeq, Enc, EncHead, Body, Image, WF, ValidHeap, NoRefCycle;
    BodyEncoding(ns, ValueTree(ser, last));
    var header := SizeofHeader(request, sync);
    var longs := SizeofLongs(ns);
    var value := ser.Sizeof(last, None);
    size := header + SizeofMap((|ns| + 1) / 2) + longs + value;
  }

  /** Prefix, header, integers and value of such a request. */
  method PackRequest(ser: Serializer, str: Buffer, size: nat, request: u32, sync: u32, ns: seq<u32>, last: Zval)
    requires ser.Ready() && Sane(ser.heap, last) && ser.marked == {} && str.Valid()
    requires |ns| % 2 == 1 && |ns| < 100
    modifies ser`marked, str, str.c
    ensures ser.marked == {}
    ensures str.Valid() && (str.c == old(str.c) || fresh(str.c))
    ensures str.Contents() ==
            old(str.Contents()) + (Prefix(size) + Payload(request, sync, Body(ns, ValueTree(ser, last))))
  {
    hide Longs, EncSeq, Enc, EncHead, Body, Image, Prefix, WF, ValidHeap, NoRefCycle;
    ghost var c0 := str.Contents();
    ghost var header := Prefix(size) + Enc(HeaderTree(request, sync));
    ghost var value := ValueTree(ser, last);
    BodyEncoding(ns, value);
    PackHeader(ser, str, size, request, sync);
    str.Append(EncHead(TMap((|ns| + 1) / 2)));
    PackLongs(ser, str, ns);
    ser.Pack(str, last, None);
    ghost var a, b := EncHead(TMap((|ns| + 1) / 2)), EncSeq(Longs(ns));
    Chain4(c0, header, a, b, Enc(value));
    Regroup(Prefix(size), Enc(HeaderTree(request, sync)), Enc(Body(ns, value)));
  }

  lemma Chain4(c0: bytes, h: bytes, a: bytes, b: bytes, v: bytes)
    ensures c0 + h + a + b + v == c0 + (h + (a + b + v))
  {
    Regroup(c0 + h, a, b);
    Regroup(c0 + h, a + b, v);
    Regroup(c0, h, a + b + v);
  }

  // ---------------------------------------------------------------- fixed-size requests

  method SizeofPing(sync: u32) returns (size: nat)
    ensures size == |Enc(HeaderTree(TNT_PING, sync))|
  {
    size := SizeofHeader(TNT_PING, sync);
  }

  /** A ping has a header and no body. */
  method EncodePing(ser: Serializer, str: Buffer, sync: u32)
    requires str.Valid()
    modifies str, str.c
    ensures str.Valid() && (str.c == old(str.c) || fresh(str.c))
    ensures str.Contents() == old(str.Contents()) + Frame(Enc(HeaderTree(TNT_PING, sync)))
  {
    hide Enc;
    var packetSize := SizeofPing(sync);
    str.Ensure(packetSize + 5);
    PackHeader(ser, str, packetSize, TNT_PING, sync);
  }

  function SelectBody(spaceNo: u32, indexNo: u32, limit: u32, offset: u32, iter: u32): (ns: seq<u32>) {
    [TNT_SPACE, spaceNo, TNT_INDEX, indexNo, TNT_OFFSET, offset, TNT_LIMIT, limit, TNT_ITERATOR, iter, TNT_KEY]
  }

  method SizeofSelect(ser: Serializer, sync: u32, spaceNo: u32, indexNo: u32, limit: u32, offset: u32, iter: u32,
      key: Zval)
    returns (size: nat)
    requires ser.Ready() && Sane(ser.heap, key) && ser.marked == {}
    modifies ser`marked
    ensures ser.marked == {}
    ensures size == |Payload(TNT_SELECT, sync,
            Body(SelectBody(spaceNo, indexNo, limit, offset, iter), ValueTree(ser, key)))|
  {
    hide Payload, Body, ValueTree;
    size := SizeofRequest(ser, TNT_SELECT, sync, SelectBody(spaceNo, indexNo, limit, offset, iter), key);
  }

  /** The size does not depend on which of the two numbers is called the limit and which the offset. */
  lemma SelectSizeSymmetric(sync: u32, spaceNo: u32, indexNo: u32, limit: u32, offset: u32, iter: u32, key: Mp)
    requires WF(key)
    ensures |Payload(TNT_SELECT, sync, Body(SelectBody(spaceNo, indexNo, limit, offset, iter), key))| ==
            |Payload(TNT_SELECT, sync, Body(SelectBody(spaceNo, indexNo, offset, limit, iter), key))|
  {
    hide Enc, EncHead, Longs, Body;
    var ns := SelectBody(spaceNo, indexNo, limit, offset, iter);
    var ms := SelectBody(spaceNo, indexNo, offset, limit, iter);
    BodyEncoding(ns, key);
    BodyEncoding(ms, key);
    SelectBodyParts(spaceNo, indexNo, limit, offset, iter);
    hide SelectBody;
    SwapSize(ns[..5], offset, TNT_LIMIT, limit, ns[8..]);
  }

  lemma SelectBodyParts(spaceNo: u32, indexNo: u32, limit: u32, offset: u32, iter: u32)
    ensures var ns := SelectBody(spaceNo, indexNo, limit, offset, iter);
            && ns == ns[..5] + [offset] + [TNT_LIMIT] + [limit] + ns[8..]
            && SelectBody(spaceNo, indexNo, offset, limit, iter) == ns[..5] + [limit] + [TNT_LIMIT] + [offset] + ns[8..]
  {
  }

  lemma LongsConcat(a: seq<u32>, b: seq<u32>)
    ensures EncSeq(Longs(a + b)) == EncSeq(Longs(a)) + EncSeq(Longs(b))
  {
    assert Longs(a + b) == Longs(a) + Longs(b);
    EncSeqConcat(Longs(a), Longs(b));
  }

  lemma SwapSize(a: seq<u32>, x: u32, m: u32, y: u32, b: seq<u32>)
    ensures |EncSeq(Longs(a + [x] + [m] + [y] + b))| == |EncSeq(Longs(a + [y] + [m] + [x] + b))|
  {
    hide EncSeq, Longs;
    forall p, q | (p == x && q == y) || (p == y && q == x)
      ensures |EncSeq(Longs(a + [p] + [m] + [q] + b))| ==
              |EncSeq(Longs(a))| + |EncSeq(Longs([p]))| + |EncSeq(Longs([m]))| + |EncSeq(Longs([q]))| +
                |EncSeq(Longs(b))|
    {
      LongsConcat(a + [p] + [m] + [q], b);
      LongsConcat(a + [p] + [m], [q]);
      LongsConcat(a + [p], [m]);
      LongsConcat(a, [p]);
    }
  }

  /** The size is asked for with limit and offset exchanged; the frame is right all the same. */
  method EncodeSelect(ser: Serializer, str: Buffer, sync: u32, spaceNo: u32, indexNo: u32, limit: u32, offset: u32,
                      iter: u32, key: Zval)
    requires ser.Ready() && Sane(ser.heap, key) && ser.marked == {} && str.Valid()
    modifies ser`marked, str, str.c
    ensures ser.marked == {}
    ensures str.Valid() && (str.c == old(str.c) || fresh(str.c))
    ensures str.Contents() == old(str.Contents()) +
            Frame(Payload(TNT_SELECT, sync,
              Body(SelectBody(spaceNo, indexNo, limit, offset, iter), ValueTree(ser, key))))
  {
    hide Payload, Body, ValueTree, SelectBody, Prefix;
    var packetSize := SizeofSelect(ser, sync, spaceNo, indexNo, offset, limit, iter, key);
    SelectSizeSymmetric(sync, spaceNo, indexNo, limit, offset, iter, ValueTree(ser, key));
    str.Ensure(packetSize + 5);
    SelectBodyLength(spaceNo, indexNo, limit, offset, iter);
    PackRequest(ser, str, packetSize, TNT_SELECT, sync, SelectBody(spaceNo, indexNo, limit, offset, iter), key);
  }

  lemma SelectBodyLength(spaceNo: u32, indexNo: u32, limit: u32, offset: u32, iter: u32)
    ensures |SelectBody(spaceNo, indexNo, limit, offset, iter)| == 11
  {
  }

  method EncodeInsertOrReplace(ser: Serializer, str: Buffer, sync: u32, spaceNo: u32, tuple: Zval, kind: u32)
    requires kind == TNT_INSERT || kind == TNT_REPLACE
    requires ser.Ready() && Sane(ser.heap, tuple) && ser.marked == {} && str.Valid()
    modifies ser`marked, str, str.c
    ensures ser.marked == {}
    ensures str.Valid() && (str.c == old(str.c) || fresh(str.c))
    ensures str.Contents() == old(str.Contents()) +
            Frame(Payload(kind, sync, Body([TNT_SPACE, spaceNo, TNT_TUPLE], ValueTree(ser, tuple))))
  {
    hide Payload, Body, ValueTree, Prefix;
    var ns: seq<u32> := [TNT_SPACE, spaceNo, TNT_TUPLE];
    var packetSize := SizeofRequest(ser, kind, sync, ns, tuple);
    str.Ensure(packetSize + 5);
    PackRequest(ser, str, packetSize, kind, sync, ns, tuple);
  }

  method EncodeDelete(ser: Serializer, str: Buffer, sync: u32, spaceNo: u32, indexNo: u32, key: Zval)
    requires ser.Ready() && Sane(ser.heap, key) && ser.marked == {} && str.Valid()
    modifies ser`marked, str, str.c
    ensures ser.marked == {}
    ensures str.Valid() && (str.c == old(str.c) || fresh(str.c))
    ensures str.Contents() == old(str.Contents()) +
            Frame(Payload(TNT_DELETE, sync,
              Body([TNT_SPACE, spaceNo, TNT_INDEX, indexNo, TNT_KEY], ValueTree(ser, key))))
  {
    hide Payload, Body, ValueTree, Prefix;
    var ns: seq<u32> := [TNT_SPACE, spaceNo, TNT_INDEX, indexNo, TNT_KEY];
    var packetSize := SizeofRequest(ser, TNT_DELETE, sync, ns, key);
    str.Ensure(packetSize + 5);
    PackRequest(ser, str, packetSize, TNT_DELETE, sync, ns, key);
  }

  // ---------------------------------------------------------------- call and eval

  function ProcArgs(name: u32, proc: bytes): (ms: seq<Mp>)
    requires |proc| < TWO_32 - 5
    ensures AllWF(ms) && |ms| == 3
  {
    [UInt(name), Str(proc), UInt(TNT_TUPLE)]
  }

  /** The body of a call or an eval: a string under `name`, the arguments under TUPLE. */
  function ProcBody(name: u32, proc: bytes, args: Mp): (m: Mp)
    requires WF(args) && |proc| < TWO_32 - 5
    ensures WF(m)
  {
    var kvs := ProcArgs(name, proc) + [args];
    AllWFOne(args);
    AllWFConcat(ProcArgs(name, proc), [args]);
    ContainerWF(kvs);
    Map(kvs)
  }

  /** What stands before the arguments. */
  function ProcStart(name: u32, proc: bytes): bytes
    requires |proc| < TWO_32 - 5
  {
    EncHead(TMap(2)) + EncUInt(name) + Enc(Str(proc)) + EncUInt(TNT_TUPLE)
  }

  lemma ProcArgsEncoding(name: u32, proc: bytes)
    requires |proc| < TWO_32 - 5
    ensures EncHead(TMap(2)) + EncSeq(ProcArgs(name, proc)) == ProcStart(name, proc)
  {
    hide EncHead, Enc, WF;
    var ms := ProcArgs(name, proc);
    NumberEncoding(name);
    NumberEncoding(TNT_TUPLE);
    EncSeqOne(ms[0]);
    EncSeqSnoc([ms[0]], ms[1]);
    EncSeqSnoc([ms[0]] + [ms[1]], ms[2]);
    assert [ms[0]] + [ms[1]] + [ms[2]] == ms;
    Regroup(EncHead(TMap(2)), Enc(ms[0]) + Enc(ms[1]), Enc(ms[2]));
    Regroup(EncHead(TMap(2)), Enc(ms[0]), Enc(ms[1]));
  }

  lemma NumberEncoding(n: u32)
    ensures Enc(UInt(n)) == EncUInt(n)
  {
  }

  lemma ProcBodyEncoding(name: u32, proc: bytes, args: Mp)
    requires WF(args) && |proc| < TWO_32 - 5
    ensures Enc(ProcBody(name, proc, args)) == ProcStart(name, proc) + Enc(args)
  {
    hide EncHead, WF, ProcStart, ProcArgs;
    EncSeqSnoc(ProcArgs(name, proc), args);
    var m := ProcBody(name, proc, args);
    assert Enc(m) == EncHead(TokenOf(m)) + EncSeq(m.kvs);
    Regroup(EncHead(TokenOf(m)), EncSeq(ProcArgs(name, proc)), Enc(args));
    ProcArgsEncoding(name, proc);
  }

  method PackProcStart(ser: Serializer, str: Buffer, name: u32, proc: bytes)
    requires |proc| < TWO_32 - 5 && str.Valid()
    modifies str, str.c
    ensures str.Valid() && (str.c == old(str.c) || fresh(str.c))
    ensures str.Contents() == old(str.Contents()) + ProcStart(name, proc)
  {
    hide EncHead, EncUInt, Enc;
    ghost var c0 := str.Contents();
    NumberEncoding(name);
    NumberEncoding(TNT_TUPLE);
    str.Append(EncHead(TMap(2)));
    ser.PackLong(str, name);
    ser.PackString(str, proc);
    ser.PackLong(str, TNT_TUPLE);
    Chain4(c0, EncHead(TMap(2)), EncUInt(name), Enc(Str(proc)), EncUInt(TNT_TUPLE));
    Regroup(EncHead(TMap(2)), EncUInt(name) + Enc(Str(proc)), EncUInt(TNT_TUPLE));
    Regroup(EncHead(TMap(2)), EncUInt(name), Enc(Str(proc)));
  }

  method SizeofProc(ser: Serializer, request: u32, sync: u32, name: u32, proc: bytes, tuple: Zval) returns (size: nat)
    requires ser.Ready() && Sane(ser.heap, tuple) && ser.marked == {} && |proc| < TWO_32 - 5
    modifies ser`marked
    ensures ser.marked == {}
    ensures size == |Payload(request, sync, ProcBody(name, proc, ValueTree(ser, tuple)))|
  {
    hide Enc, EncHead, EncUInt, Image, WF, ValidHeap, NoRefCycle, ProcBody;
    ProcBodyEncoding(name, proc, ValueTree(ser, tuple));
    var header := SizeofHeader(request, sync);
    var value := ser.Sizeof(tuple, None);
    var start := SizeofMap(2) + SizeofUInt(name) + SizeofKey(StrKey(proc)) + SizeofUInt(TNT_TUPLE);
    assert start == |ProcStart(name, proc)|;
    size := header + start + value;
  }

  /** `php_tp_encode_call`, `php_tp_encode_call_16` and `php_tp_encode_eval`. */
  method EncodeProc(ser: Serializer, str: Buffer, sync: u32, request: u32, name: u32, proc: bytes, tuple: Zval)
    requires request == TNT_CALL || request == TNT_CALL_16 || request == TNT_EVAL
    requires name == if request == TNT_EVAL then TNT_EXPRESSION else TNT_FUNCTION
    requires ser.Ready() && Sane(ser.heap, tuple) && ser.marked == {} && |proc| < TWO_32 - 5 && str.Valid()
    modifies ser`marked, str, str.c
    ensures ser.marked == {}
    ensures str.Valid() && (str.c == old(str.c) || fresh(str.c))
    ensures str.Contents() == old(str.Contents()) +
            Frame(Payload(request, sync, ProcBody(name, proc, ValueTree(ser, tuple))))
  {
    hide Enc, Image, Prefix, WF, ValidHeap, NoRefCycle, ProcBody, ProcStart;
    ghost var c0 := str.Contents();
    ghost var value := ValueTree(ser, tuple);
    var packetSize := SizeofProc(ser, request, sync, name, proc, tuple);
    str.Ensure(packetSize + 5);
    PackHeader(ser, str, packetSize, request, sync);
    ProcBodyEncoding(name, proc, value);
    PackProcStart(ser, str, name, proc);
    ser.Pack(str, tuple, None);
    ghost var header := Prefix(packetSize) + Enc(HeaderTree(request, sync));
    Regroup(c0 + header, ProcStart(name, proc), Enc(value));
    Regroup(c0, header, Enc(ProcBody(name, proc, value)));
    Regroup(Prefix(packetSize), Enc(HeaderTree(request, sync)), Enc(ProcBody(name, proc, value)));
  }

  // ---------------------------------------------------------------- what the requests say

  /** One more field in front. */
  lemma NumberField(k: u32, v: u32, rest: seq<u32>, last: Mp)
    requires Fields(Longs(rest) + [last]).Some? && k !in Fields(Longs(rest) + [last]).value
    ensures Fields(Longs([k, v] + rest) + [last]) == Some(Fields(Longs(rest) + [last]).value[k := UInt(v)])
  {
    hide Fields;
    OneField(k, UInt(v), Longs(rest) + [last]);
    assert Longs([k, v] + rest) + [last] == [UInt(k), UInt(v)] + (Longs(rest) + [last]);
  }

  lemma LastField(k: u32, last: Mp)
    ensures Fields(Longs([k]) + [last]) == Some(map[k := last])
  {
    hide Fields;
    NoField();
    OneField(k, last, []);
    assert Longs([k]) + [last] == [UInt(k), last] + [];
  }

  lemma BodyReads(code: u32, sync: u32, ns: seq<u32>, last: Mp, fields: map<nat, Mp>)
    requires WF(last) && |ns| % 2 == 1 && |ns| < 100
    requires Fields(Longs(ns) + [last]).Some? && Fields(Longs(ns) + [last]).value == fields
    ensures Reads(Payload(code, sync, Body(ns, last)), code, sync, Some(fields))
  {
    hide Reads, Payload, Fields, Longs, WF;
    assert Body(ns, last) == Map(Longs(ns) + [last]);
    PayloadReads(code, sync, Longs(ns) + [last], fields);
  }

  lemma SelectFields(s: u32, i: u32, limit: u32, offset: u32, iter: u32, key: Mp)
    ensures Fields(Longs(SelectBody(s, i, limit, offset, iter)) + [key]) ==
            Some(map[][0x20 := key][0x14 := UInt(iter)][0x12 := UInt(limit)][0x13 := UInt(offset)][0x11 := UInt(i)]
                 [0x10 := UInt(s)])
  {
    hide Fields, Longs;
    LastField(0x20, key);
    var e: seq<u32> := [0x14, iter] + [0x20];
    var d: seq<u32> := [0x12, limit] + e;
    var c: seq<u32> := [0x13, offset] + d;
    var b: seq<u32> := [0x11, i] + c;
    NumberField(0x14, iter, [0x20], key);
    NumberField(0x12, limit, e, key);
    NumberField(0x13, offset, d, key);
    NumberField(0x11, i, c, key);
    NumberField(0x10, s, b, key);
    assert SelectBody(s, i, limit, offset, iter) == [0x10, s] + b;
  }

  /** A select says its space, index, limit, offset, iterator and key, each under its own key, and nothing else. */
  lemma SelectReads(sync: u32, spaceNo: u32, indexNo: u32, limit: u32, offset: u32, iter: u32, key: Mp)
    requires WF(key)
    ensures Reads(Payload(TNT_SELECT, sync, Body(SelectBody(spaceNo, indexNo, limit, offset, iter), key)), 0x01, sync,
              Some(map[0x10 := UInt(spaceNo), 0x11 := UInt(indexNo), 0x12 := UInt(limit), 0x13 := UInt(offset),
                       0x14 := UInt(iter), 0x20 := key]))
  {
    hide Payload, Reads, Fields, Longs, WF, Body, SelectBody;
    SelectFields(spaceNo, indexNo, limit, offset, iter, key);
    SelectBodyLength(spaceNo, indexNo, limit, offset, iter);
    BodyReads(TNT_SELECT, sync, SelectBody(spaceNo, indexNo, limit, offset, iter), key,
      map[0x10 := UInt(spaceNo), 0x11 := UInt(indexNo), 0x12 := UInt(limit), 0x13 := UInt(offset),
          0x14 := UInt(iter), 0x20 := key]);
  }

  /** An insert or a replace says its space and tuple. */
  lemma TupleReads(kind: u32, sync: u32, spaceNo: u32, tuple: Mp)
    requires WF(tuple)
    ensures Reads(Payload(kind, sync, Body([TNT_SPACE, spaceNo, TNT_TUPLE], tuple)), kind, sync,
              Some(map[0x10 := UInt(spaceNo), 0x21 := tuple]))
  {
    hide Payload, Reads, Fields, Longs, WF, Body;
    var ns: seq<u32> := [TNT_SPACE, spaceNo, TNT_TUPLE];
    LastField(0x21, tuple);
    NumberField(0x10, spaceNo, [0x21], tuple);
    assert ns == [0x10, spaceNo] + [0x21];
    BodyReads(kind, sync, ns, tuple, map[0x10 := UInt(spaceNo), 0x21 := tuple]);
  }

  /** A delete says its space, index and key. */
  lemma DeleteReads(sync: u32, spaceNo: u32, indexNo: u32, key: Mp)
    requires WF(key)
    ensures Reads(Payload(TNT_DELETE, sync, Body([TNT_SPACE, spaceNo, TNT_INDEX, indexNo, TNT_KEY], key)), 0x05, sync,
              Some(map[0x10 := UInt(spaceNo), 0x11 := UInt(indexNo), 0x20 := key]))
  {
    hide Payload, Reads, Fields, Longs, WF, Body;
    var ns: seq<u32> := [TNT_SPACE, spaceNo, TNT_INDEX, indexNo, TNT_KEY];
    LastField(0x20, key);
    NumberField(0x11, indexNo, [0x20], key);
    NumberField(0x10, spaceNo, [0x11, indexNo] + [0x20], key);
    assert ns == [0x10, spaceNo] + ([0x11, indexNo] + [0x20]);
    BodyReads(TNT_DELETE, sync, ns, key, map[0x10 := UInt(spaceNo), 0x11 := UInt(indexNo), 0x20 := key]);
  }

  /** A call or an eval says its function or expression and its arguments. */
  lemma ProcReads(request: u32, sync: u32, name: u32, proc: bytes, args: Mp)
    requires WF(args) && |proc| < TWO_32 - 5 && name != 0x21
    ensures Reads(Payload(request, sync, ProcBody(name, proc, args)), request, sync,
              Some(map[name := Str(proc), 0x21 := args]))
  {
    hide Payload, Reads, Fields, WF;
    NoField();
    OneField(0x21, args, []);
    OneField(name, Str(proc), [UInt(0x21), args] + []);
    var kvs, fields := ProcArgs(name, proc) + [args], map[name := Str(proc), 0x21 := args];
    assert kvs == [UInt(name), Str(proc)] + ([UInt(0x21), args] + []);
    assert map[][0x21 := args][name := Str(proc)] == fields;
    assert ProcBody(name, proc, args) == Map(kvs);
    PayloadReads(request, sync, kvs, fields);
  }
}
