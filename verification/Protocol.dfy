/** Numbers of the wire protocol, frames, and the trees that requests are made of. */
module Protocol {
  import opened Bytes
  import opened Wire

  // header
  const TNT_CODE: int := 0x00
  const TNT_SYNC: int := 0x01
  // request body
  const TNT_SPACE: int := 0x10
  const TNT_INDEX: int := 0x11
  const TNT_LIMIT: int := 0x12
  const TNT_OFFSET: int := 0x13
  const TNT_ITERATOR: int := 0x14
  const TNT_KEY: int := 0x20
  const TNT_TUPLE: int := 0x21
  const TNT_FUNCTION: int := 0x22
  const TNT_USERNAME: int := 0x23
  const TNT_EXPRESSION: int := 0x27
  const TNT_OPS: int := 0x28
  // response body
  const TNT_DATA: int := 0x30
  const TNT_ERROR: int := 0x31
  // request types
  const TNT_OK: int := 0x00
  const TNT_SELECT: int := 0x01
  const TNT_INSERT: int := 0x02
  const TNT_REPLACE: int := 0x03
  const TNT_UPDATE: int := 0x04
  const TNT_DELETE: int := 0x05
  const TNT_CALL_16: int := 0x06
  const TNT_AUTH: int := 0x07
  const TNT_EVAL: int := 0x08
  const TNT_UPSERT: int := 0x09
  const TNT_CALL: int := 0x0a
  const TNT_PING: int := 0x40

  type u32 = n: nat | n < TWO_32

  // ---------------------------------------------------------------- frames

  /** The five bytes of a package size. */
  function Prefix(size: nat): (b: bytes)
    ensures |b| == 5
  {
    [0xce] + BE(U32(size), 4)
  }

  function Frame(payload: bytes): (b: bytes)
    ensures |b| == 5 + |payload|
  {
    Prefix(|payload|) + payload
  }

  /** `php_mp_unpack_package_size`, on five bytes that start with a whole unsigned integer. */
  function PackageSize(prefix: bytes): Option<nat> {
    match Head(prefix)
    case Ok(TUInt(n), _) => Some(n)
    case _ => None
  }

  lemma PackageSizeInverts(size: nat)
    requires size < TWO_32
    ensures PackageSize(Prefix(size)) == Some(size)
  {
    Widths();
    NumberInverts(0xce, size, 4, []);
    assert [0xce] + BE(size, 4) + [] == Prefix(size);
  }

  /** Cuts a byte stream into payloads by the length prefixes alone. */
  function SplitFrames(b: bytes): Option<seq<bytes>>
    decreases |b|
  {
    if b == [] then Some([])
    else if |b| < 5 then None
    else
      match PackageSize(b[..5])
      case None => None
      case Some(n) =>
        if |b| < 5 + n then None
        else
          match SplitFrames(b[5 + n..])
          case None => None
          case Some(ps) => Some([b[5..5 + n]] + ps)
  }

  function Frames(ps: seq<bytes>): bytes {
    if ps == [] then [] else Frame(ps[0]) + Frames(ps[1..])
  }

  lemma FrameSplits(p: bytes, rest: bytes)
    requires |p| < TWO_32
    ensures var b := Frame(p) + rest;
            |b| >= 5 + |p| && b[..5] == Prefix(|p|) && b[5..5 + |p|] == p && b[5 + |p|..] == rest
  {
    var b := Frame(p) + rest;
    assert b == Prefix(|p|) + (p + rest);
  }

  /** Any number of requests written one after the other is cut back into the same requests. */
  lemma {:induction false} SplitInvertsFrames(ps: seq<bytes>)
    requires forall p :: p in ps ==> |p| < TWO_32
    ensures SplitFrames(Frames(ps)) == Some(ps)
  {
    if ps != [] {
      SplitInvertsFrames(ps[1..]);
      FrameSplits(ps[0], Frames(ps[1..]));
      PackageSizeInverts(|ps[0]|);
      assert ps == [ps[0]] + ps[1..];
    }
  }

  lemma {:induction false} FramesConcat(ps: seq<bytes>, qs: seq<bytes>)
    ensures Frames(ps + qs) == Frames(ps) + Frames(qs)
  {
    if ps == [] {
      assert ps + qs == qs;
    } else {
      FramesConcat(ps[1..], qs);
      assert (ps + qs)[1..] == ps[1..] + qs;
      Regroup(Frame(ps[0]), Frames(ps[1..]), Frames(qs));
    }
  }

  // ---------------------------------------------------------------- requests

  function Longs(ns: seq<u32>): (ms: seq<Mp>)
    ensures |ms| == |ns| && forall i :: 0 <= i < |ns| ==> ms[i] == UInt(ns[i])
    ensures AllWF(ms)
  {
    seq(|ns|, i requires 0 <= i < |ns| => UInt(ns[i]))
  }

  function HeaderTree(code: u32, sync: u32): (m: Mp)
    ensures WF(m)
  {
    Map(Longs([TNT_CODE, code, TNT_SYNC, sync]))
  }

  /** A request is a header map and a body map, one behind the other. */
  function Payload(code: u32, sync: u32, body: Mp): bytes
    requires WF(body)
  {
    Enc(HeaderTree(code, sync)) + Enc(body)
  }

  /** Reading a request back gives the code, the sync and the argument map that went in, and nothing is left over. */
  lemma PayloadDecodes(code: u32, sync: u32, body: Mp)
    requires WF(body)
    ensures var p := Parse(Payload(code, sync, body));
            && p.Ok?
            && p.v == Map([UInt(TNT_CODE), UInt(code), UInt(TNT_SYNC), UInt(sync)])
            && Parse(p.rest) == Ok(body, [])
  {
    hide Enc, Parse;
    ParseInverts(HeaderTree(code, sync), Enc(body));
    ParseInverts(body, []);
    assert Enc(body) + [] == Enc(body);
    assert HeaderTree(code, sync).kvs == [UInt(TNT_CODE), UInt(code), UInt(TNT_SYNC), UInt(sync)];
  }

  // ---------------------------------------------------------------- requests by their keys

  /** A map by its keys; `None` if a key is no unsigned integer or comes twice. */
  function Fields(kvs: seq<Mp>): Option<map<nat, Mp>> {
    if kvs == [] then Some(map[])
    else if |kvs| == 1 || !kvs[0].UInt? then None
    else
      match Fields(kvs[2..])
      case None => None
      case Some(m) => if kvs[0].n in m then None else Some(m[kvs[0].n := kvs[1]])
  }

  lemma NoField()
    ensures Fields([]) == Some(map[])
  {
  }

  lemma OneField(k: nat, v: Mp, rest: seq<Mp>)
    requires Fields(rest).Some? && k !in Fields(rest).value
    ensures Fields([UInt(k), v] + rest) == Some(Fields(rest).value[k := v])
  {
    assert ([UInt(k), v] + rest)[2..] == rest;
  }

  /** A request with this code and sync, and a body with exactly these fields or no body at all. */
  ghost predicate Reads(p: bytes, code: nat, sync: nat, body: Option<map<nat, Mp>>) {
    && Parse(p).Ok? && Parse(p).v.Map? && Fields(Parse(p).v.kvs) == Some(map[0x00 := UInt(code), 0x01 := UInt(sync)])
    && var rest := Parse(p).rest;
       if body.None? then rest == []
       else Parse(rest).Ok? && Parse(rest).rest == [] && Parse(rest).v.Map? && Fields(Parse(rest).v.kvs) == body
  }

  lemma HeaderFields(code: u32, sync: u32)
    ensures HeaderTree(code, sync).Map?
    ensures Fields(HeaderTree(code, sync).kvs) == Some(map[0x00 := UInt(code), 0x01 := UInt(sync)])
  {
    NoField();
    OneField(0x01, UInt(sync), []);
    OneField(0x00, UInt(code), [UInt(0x01), UInt(sync)] + []);
    assert HeaderTree(code, sync).kvs == [UInt(0x00), UInt(code)] + ([UInt(0x01), UInt(sync)] + []);
    assert map[][0x01 := UInt(sync)][0x00 := UInt(code)] == map[0x00 := UInt(code), 0x01 := UInt(sync)];
  }

  /** A request reads as its code and sync and the fields of its body. */
  lemma PayloadReads(code: u32, sync: u32, kvs: seq<Mp>, fields: map<nat, Mp>)
    requires WF(Map(kvs)) && Fields(kvs) == Some(fields)
    ensures Reads(Payload(code, sync, Map(kvs)), code, sync, Some(fields))
  {
    hide Parse, Enc, Fields, WF;
    HeaderFields(code, sync);
    ParseInverts(HeaderTree(code, sync), Enc(Map(kvs)));
    ParseInverts(Map(kvs), []);
    assert Enc(Map(kvs)) + [] == Enc(Map(kvs));
  }
}
