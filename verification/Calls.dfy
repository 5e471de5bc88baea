/** The data calls a caller can make, and the request each of them becomes. */
module Calls {
  import opened Bytes
  import opened Wire
  import opened Php
  import opened Packing
  import opened Protocol
  import opened Requests
  import Updates
  import SmartString

  datatype SpaceArg = SpaceName(name: bytes) | SpaceNumber(n: int) | BadSpace
  datatype IndexArg = NoIndex | IndexName(name: bytes) | IndexNumber(n: int) | BadIndex
  datatype ProcKind = Call | Call16 | Eval

  datatype Args =
    | Ping
    | Select(space: SpaceArg, index: IndexArg, key: Zval, limit: int, offset: int, iter: int)
    | Insert(space: SpaceArg, tuple: Zval)
    | Replace(space: SpaceArg, tuple: Zval)
    | Delete(space: SpaceArg, index: IndexArg, key: Zval)
    | Proc(kind: ProcKind, proc: bytes, tuple: Zval)
    | Update(space: SpaceArg, index: IndexArg, key: Zval, ops: Zval)
    | Upsert(space: SpaceArg, tuple: Zval, ops: Zval)
  {
    function Space(): Option<SpaceArg> {
      if Ping? || Proc? then None else Some(space)
    }

    function Index(): IndexArg {
      if Select? || Delete? || Update? then index else NoIndex
    }

    function Code(): u32 {
      match this
      case Ping => TNT_PING
      case Select(_, _, _, _, _, _) => TNT_SELECT
      case Insert(_, _) => TNT_INSERT
      case Replace(_, _) => TNT_REPLACE
      case Delete(_, _, _) => TNT_DELETE
      case Proc(kind, _, _) => (match kind case Call => TNT_CALL case Call16 => TNT_CALL_16 case Eval => TNT_EVAL)
      case Update(_, _, _, _) => TNT_UPDATE
      case Upsert(_, _, _) => TNT_UPSERT
    }

    /** The value that is packed into the request. */
    function Packed(): Zval {
      match this
      case Ping => ZNull
      case Select(_, _, key, _, _, _) => key
      case Insert(_, tuple) => tuple
      case Replace(_, tuple) => tuple
      case Delete(_, _, key) => key
      case Proc(_, _, tuple) => tuple
      case Update(_, _, key, _) => key
      case Upsert(_, tuple, _) => tuple
    }

    /** The integers before it. */
    function Front(s: u32, i: u32): (ns: seq<u32>)
      requires !Ping? && !Proc?
      ensures |ns| % 2 == 1 && |ns| < 100
    {
      if Select? then SelectBody(s, i, U32(limit), U32(offset), U32(iter))
      else if Delete? || Update? then [TNT_SPACE, s, TNT_INDEX, i, TNT_KEY]
      else [TNT_SPACE, s, TNT_TUPLE]
    }

    function ProcName(): u32 {
      if Proc? && kind.Eval? then TNT_EXPRESSION else TNT_FUNCTION
    }
  }

  /** The arrays the arguments are made of, the cached field numbers of the space, and the arguments. */
  datatype DataCall = DataCall(heap: Heap, cache: Updates.FieldCache, args: Args)

  /** What the encoders take; a list of operations is one, and none of them is reported as malformed. */
  ghost predicate Encodable(c: DataCall) {
    && ValidHeap(c.heap) && NoRefCycle(c.heap) && Sane(c.heap, c.args.Packed())
    && (c.args.Proc? ==> |c.args.proc| < TWO_32 - 5)
    && (c.args.Update? || c.args.Upsert? ==>
         Sane(c.heap, c.args.ops) && Updates.NoneRaised(c.heap, c.cache, c.args.ops))
  }

  /** The body of the request, for the numbers of its space and index; `None` if an operation is rejected. */
  ghost function Bodies(c: DataCall, s: u32, i: u32): (r: Option<seq<Mp>>)
    requires Encodable(c)
    ensures r.Some? ==> AllWF(r.value)
  {
    if c.args.Ping? then Some([])
    else
      var value := Image(c.heap, {}, c.args.Packed(), None);
      if c.args.Proc? then
        var m := ProcBody(c.args.ProcName(), c.args.proc, value);
        AllWFOne(m);
        Some([m])
      else if c.args.Update? || c.args.Upsert? then
        if !Updates.AllGood(c.heap, c.cache, c.args.ops) then None
        else
          ArrayFacts(c.heap, c.args.ops.id);
          var trees := Updates.OpTrees(c.heap, c.cache, c.args.ops.id, |c.heap[c.args.ops.id].entries|).value;
          var m := Updates.OpsBody(c.args.Front(s, i), value, if c.args.Update? then TNT_TUPLE else TNT_OPS, trees);
          AllWFOne(m);
          Some([m])
      else
        var m := Body(c.args.Front(s, i), value);
        AllWFOne(m);
        Some([m])
  }

  /** A header and a body, or no body at all. */
  function CallPayload(code: u32, sync: u32, body: seq<Mp>): bytes
    requires AllWF(body)
  {
    Enc(HeaderTree(code, sync)) + EncSeq(body)
  }

  lemma OneBody(code: u32, sync: u32, body: Mp)
    requires WF(body)
    ensures AllWF([body]) && CallPayload(code, sync, [body]) == Payload(code, sync, body)
  {
    hide Enc, WF;
    assert EncSeq([body]) == Enc(body) + EncSeq([]) == Enc(body);
  }

  lemma NoBody(code: u32, sync: u32)
    ensures CallPayload(code, sync, []) == Enc(HeaderTree(code, sync))
  {
    hide Enc, WF;
    var h := Enc(HeaderTree(code, sync));
    assert EncSeq([]) == [] && h + [] == h;
  }

  /** The encoder of the call, appending to what the buffer holds. */
  method Encode(c: DataCall, value: bytes, s: u32, i: u32, sync: u32) returns (longer: bytes, ok: bool)
    requires Encodable(c)
    ensures ok <==> Bodies(c, s, i).Some?
    ensures longer == if ok then value + Frame(CallPayload(c.args.Code(), sync, Bodies(c, s, i).value)) else value
  {
    hide Enc, EncSeq, Frame, Image, WF, ValidHeap, NoRefCycle, Body, ProcBody, Payload, CallPayload, SelectBody;
    var ser := new Serializer(c.heap);
    var str := new SmartString.SmartString();
    str.Append(value);
    assert [] + value == value;
    ok := true;
    match c.args {
      case Ping =>
        EncodePing(ser, str, sync);
        NoBody(TNT_PING, sync);
      case Select(_, _, key, limit, offset, iter) =>
        EncodeSelect(ser, str, sync, s, i, U32(limit), U32(offset), U32(iter), key);
        OneBody(TNT_SELECT, sync, Bodies(c, s, i).value[0]);
      case Insert(_, tuple) =>
        EncodeInsertOrReplace(ser, str, sync, s, tuple, TNT_INSERT);
        OneBody(TNT_INSERT, sync, Bodies(c, s, i).value[0]);
      case Replace(_, tuple) =>
        EncodeInsertOrReplace(ser, str, sync, s, tuple, TNT_REPLACE);
        OneBody(TNT_REPLACE, sync, Bodies(c, s, i).value[0]);
      case Delete(_, _, key) =>
        EncodeDelete(ser, str, sync, s, i, key);
        OneBody(TNT_DELETE, sync, Bodies(c, s, i).value[0]);
      case Proc(_, proc, tuple) =>
        EncodeProc(ser, str, sync, c.args.Code(), c.args.ProcName(), proc, tuple);
        OneBody(c.args.Code(), sync, Bodies(c, s, i).value[0]);
      case Update(_, _, _, _) =>
        ok := EncodeOps(c, ser, str, Updates.Update(s, i), s, i, sync);
      case Upsert(_, _, _) =>
        ok := EncodeOps(c, ser, str, Updates.Upsert(s), s, i, sync);
    }
    longer := str.c[..str.len];
  }

  /** The two calls that carry operations. */
  method EncodeOps(c: DataCall, ser: Serializer, str: Buffer, call: Updates.OpsCall, s: u32, i: u32, sync: u32)
    returns (ok: bool)
    requires Encodable(c) && ser.heap == c.heap && ser.marked == {} && str.Valid()
    requires c.args.Update? || c.args.Upsert?
    requires call == if c.args.Update? then Updates.Update(s, i) else Updates.Upsert(s)
    modifies ser`marked, str, str.c
    ensures str.Valid() && (str.c == old(str.c) || fresh(str.c))
    ensures ok <==> Bodies(c, s, i).Some?
    ensures str.Contents() ==
            old(str.Contents()) + if ok then Frame(CallPayload(c.args.Code(), sync, Bodies(c, s, i).value)) else []
  {
    hide Enc, EncSeq, Frame, Image, WF, ValidHeap, NoRefCycle, Payload, CallPayload, Updates.OpTrees,
         Updates.OpsBody, Updates.OutcomeAt;
    var raised;
    ok, raised := Updates.EncodeWithOps(ser, str, c.cache, call, sync, c.args.Packed(), c.args.ops);
    if ok {
      OneBody(c.args.Code(), sync, Bodies(c, s, i).value[0]);
    } else {
      if Updates.AllGood(c.heap, c.cache, c.args.ops) {
        Updates.GoodIsNotRejected(c.heap, c.cache, c.args.ops);
      }
      assert str.Contents() + [] == str.Contents();
    }
  }

  // ---------------------------------------------------------------- what a call asks

  /** The number of each request. */
  function RequestCode(args: Args): u32 {
    match args
    case Ping => 0x40
    case Select(_, _, _, _, _, _) => 0x01
    case Insert(_, _) => 0x02
    case Replace(_, _) => 0x03
    case Update(_, _, _, _) => 0x04
    case Delete(_, _, _) => 0x05
    case Proc(kind, _, _) => (match kind case Call16 => 0x06 case Eval => 0x08 case Call => 0x0a)
    case Upsert(_, _, _) => 0x09
  }

  /** The arguments of a call by the keys of the protocol; a ping has no body. */
  ghost function Arguments(c: DataCall, s: u32, i: u32): Option<map<nat, Mp>>
    requires Encodable(c) && Bodies(c, s, i).Some?
  {
    match c.args
    case Ping => None
    case Select(_, _, key, limit, offset, iter) =>
      Some(map[0x10 := UInt(s), 0x11 := UInt(i), 0x12 := UInt(U32(limit)), 0x13 := UInt(U32(offset)),
               0x14 := UInt(U32(iter)), 0x20 := Packed(c, key)])
    case Insert(_, tuple) => Some(map[0x10 := UInt(s), 0x21 := Packed(c, tuple)])
    case Replace(_, tuple) => Some(map[0x10 := UInt(s), 0x21 := Packed(c, tuple)])
    case Delete(_, _, key) => Some(map[0x10 := UInt(s), 0x11 := UInt(i), 0x20 := Packed(c, key)])
    case Proc(kind, proc, args) =>
      Some(map[(if kind.Eval? then 0x27 else 0x22) := Str(proc), 0x21 := Packed(c, args)])
    case Update(_, _, key, ops) =>
      Some(map[0x10 := UInt(s), 0x11 := UInt(i), 0x20 := Packed(c, key), 0x21 := Operations(c, ops)])
    case Upsert(_, tuple, ops) =>
      Some(map[0x10 := UInt(s), 0x21 := Packed(c, tuple), 0x28 := Operations(c, ops)])
  }

  ghost function Packed(c: DataCall, v: Zval): (m: Mp)
    requires Encodable(c) && v == c.args.Packed()
    ensures WF(m)
  {
    Image(c.heap, {}, v, None)
  }

  /** The list of operations; what each of them is, is told by `Updates.OpsFrameDecodes`. */
  ghost function Operations(c: DataCall, ops: Zval): Mp
    requires Encodable(c) && Updates.AllGood(c.heap, c.cache, ops)
  {
    Arr(Updates.OpTrees(c.heap, c.cache, ops.id, |c.heap[ops.id].entries|).value)
  }

  /** A call asks for itself: its own number, and each of its arguments under the key it belongs to. */
  lemma CallReads(c: DataCall, s: u32, i: u32, sync: u32)
    requires Encodable(c) && Bodies(c, s, i).Some?
    ensures Reads(CallPayload(c.args.Code(), sync, Bodies(c, s, i).value), RequestCode(c.args), sync,
              Arguments(c, s, i))
  {
    hide Reads, Payload, CallPayload, ProcBody, Body, SelectBody, Image, WF, ValidHeap, NoRefCycle, Enc, EncSeq,
         Updates.OpTrees, Updates.OpsBody, Updates.OutcomeAt;
    if c.args.Ping? {
      PingReads(sync);
    } else {
      var value := Packed(c, c.args.Packed());
      OneBody(c.args.Code(), sync, Bodies(c, s, i).value[0]);
      match c.args {
        case Select(_, _, _, limit, offset, iter) =>
          SelectReads(sync, s, i, U32(limit), U32(offset), U32(iter), value);
        case Insert(_, _) => TupleReads(TNT_INSERT, sync, s, value);
        case Replace(_, _) => TupleReads(TNT_REPLACE, sync, s, value);
        case Delete(_, _, _) => DeleteReads(sync, s, i, value);
        case Proc(_, proc, _) => ProcReads(c.args.Code(), sync, c.args.ProcName(), proc, value);
        case Update(_, _, _, ops) => OpsCallReads(c, Updates.Update(s, i), s, i, sync, value);
        case Upsert(_, _, ops) => OpsCallReads(c, Updates.Upsert(s), s, i, sync, value);
        case Ping =>
      }
    }
  }

  /** Only a rejected operation keeps a request from being encoded. */
  lemma NoBodyIsRejected(c: DataCall, s: u32, i: u32)
    requires Encodable(c) && Bodies(c, s, i).None?
    ensures (c.args.Update? || c.args.Upsert?) && Updates.SomeRejected(c.heap, c.cache, c.args.ops)
  {
    hide ValidHeap, NoRefCycle, Image, Updates.OutcomeAt, Updates.OpTrees, Body, ProcBody;
    Updates.OpTreesAre(c.heap, c.cache, c.args.ops.id, |c.heap[c.args.ops.id].entries|);
  }

  lemma OpsCallReads(c: DataCall, call: Updates.OpsCall, s: u32, i: u32, sync: u32, value: Mp)
    requires Encodable(c) && Bodies(c, s, i).Some? && (c.args.Update? || c.args.Upsert?)
    requires call == if c.args.Update? then Updates.Update(s, i) else Updates.Upsert(s)
    requires value == Packed(c, c.args.Packed())
    ensures WF(Bodies(c, s, i).value[0])
    ensures Reads(Payload(c.args.Code(), sync, Bodies(c, s, i).value[0]), RequestCode(c.args), sync,
              Arguments(c, s, i))
  {
    hide Reads, Payload, Image, WF, ValidHeap, NoRefCycle, Updates.OpTrees, Updates.OpsBody, Updates.OutcomeAt;
    ArrayFacts(c.heap, c.args.ops.id);
    var trees := Updates.OpTrees(c.heap, c.cache, c.args.ops.id, |c.heap[c.args.ops.id].entries|).value;
    Updates.OpsReads(call, sync, value, trees);
  }

  lemma PingReads(sync: u32)
    ensures Reads(CallPayload(TNT_PING, sync, []), 0x40, sync, None)
  {
    hide Parse, Enc, Fields;
    HeaderFields(TNT_PING, sync);
    NoBody(TNT_PING, sync);
    ParseInverts(HeaderTree(TNT_PING, sync), []);
    assert Enc(HeaderTree(TNT_PING, sync)) + [] == Enc(HeaderTree(TNT_PING, sync));
  }
}
