/**
 * The second writer on the connection's buffer: requests for the catalogues and for
 * authentication. A frame is open from its first byte on; its length is written again after every
 * addition and its sync number is put in last, both by offset.
 */
module TpWriter {
  import opened Bytes
  import opened Wire
  import opened Protocol
  import opened TpCapacity

  const SPACE_SPACE: int := 281
  const SPACE_INDEX: int := 289
  const INDEX_SPACE_NO: int := 0
  const INDEX_SPACE_NAME: int := 2
  const INDEX_INDEX_NAME: int := 2
  const FETCH_LIMIT: int := 4096
  const CHAP_SHA1: bytes := [99, 104, 97, 112, 45, 115, 104, 97, 49]

  /** `tail` is everything behind the header. */
  datatype TpRequest = TpRequest(code: byte, sync: u32, tail: bytes)

  /** The header as this writer lays it out: the sync always takes five bytes. */
  function TpPayload(r: TpRequest): (b: bytes)
    ensures |b| == 9 + |r.tail|
  {
    [0x82, TNT_CODE, r.code, TNT_SYNC] + ([0xce] + BE(r.sync, 4)) + r.tail
  }

  lemma ByteHead(n: nat, rest: bytes)
    requires n < 0x80
    ensures Parse([n] + rest) == Ok(UInt(n), rest)
  {
    var b: bytes := [n] + rest;
    assert Head(b) == Ok(TUInt(n), b[1..]) && b[1..] == rest;
  }

  lemma SyncHead(sync: u32, rest: bytes)
    ensures Parse([0xce] + BE(sync, 4) + rest) == Ok(UInt(sync), rest)
  {
    Widths();
    NumberInverts(0xce, sync, 4, rest);
  }

  lemma HeaderHead(rest: bytes)
    ensures Head([0x82] + rest) == Ok(TMap(2), rest)
  {
    var b: bytes := [0x82] + rest;
    assert b[1..] == rest;
  }

  /** Although not the shortest encoding, a frame of this writer reads back as code, sync and body. */
  lemma TpDecodes(r: TpRequest, body: Mp)
    requires r.code < 0x80 && WF(body) && r.tail == Enc(body)
    ensures Parse(TpPayload(r)) == Ok(HeaderTree(r.code, r.sync), r.tail) && Parse(r.tail) == Ok(body, [])
  {
    hide Head, Parse, Enc, BE;
    var kvs := [UInt(TNT_CODE), UInt(r.code), UInt(TNT_SYNC), UInt(r.sync)];
    var d := [0xce] + BE(r.sync, 4) + r.tail;
    var c := [TNT_SYNC] + d;
    var b := [r.code] + c;
    var a := [TNT_CODE] + b;
    assert TpPayload(r) == [0x82] + a;
    HeaderHead(a);
    ByteHead(TNT_CODE, b);
    ByteHead(r.code, c);
    ByteHead(TNT_SYNC, d);
    SyncHead(r.sync, r.tail);
    FourParsed(a, b, c, d, r.tail, kvs);
    ParseContainer(Map(kvs), TpPayload(r), a, r.tail);
    assert HeaderTree(r.code, r.sync).kvs == kvs;
    ParseInverts(body, []);
    assert Enc(body) + [] == Enc(body);
  }

  lemma FourParsed(a: bytes, b: bytes, c: bytes, d: bytes, rest: bytes, v: seq<Mp>)
    requires |v| == 4
    requires Parse(a) == Ok(v[0], b) && Parse(b) == Ok(v[1], c) && Parse(c) == Ok(v[2], d) && Parse(d) == Ok(v[3], rest)
    ensures ParseSeq(a, 4) == Ok(v, rest)
  {
    hide Parse, ParseSeq;
    NoneParsed(rest);
    assert v[4..] == [];
    BackOne(d, rest, rest, v, 3);
    BackOne(c, d, rest, v, 2);
    BackOne(b, c, rest, v, 1);
    BackOne(a, b, rest, v, 0);
    assert v[0..] == v;
  }

  lemma NoneParsed(b: bytes)
    ensures ParseSeq(b, 0) == Ok([], b)
  {
  }

  lemma BackOne(b: bytes, mid: bytes, rest: bytes, v: seq<Mp>, i: nat)
    requires i < |v| && Parse(b) == Ok(v[i], mid) && ParseSeq(mid, |v| - (i + 1)) == Ok(v[i + 1..], rest)
    ensures ParseSeq(b, |v| - i) == Ok(v[i..], rest)
  {
    hide Parse, ParseSeq;
    ParseSeqCons(b, v[i], mid, v[i + 1..], rest);
    assert [v[i]] + v[i + 1..] == v[i..];
  }

  // ---------------------------------------------------------------- bodies

  function SelectFront(space: u32, index: u32, offset: u32, limit: u32): seq<Mp> {
    [UInt(TNT_SPACE), UInt(space), UInt(TNT_INDEX), UInt(index), UInt(TNT_OFFSET), UInt(offset),
     UInt(TNT_LIMIT), UInt(limit), UInt(TNT_KEY)]
  }

  function SelectTree(space: u32, index: u32, offset: u32, limit: u32, key: seq<Mp>): Mp {
    Map(SelectFront(space, index, offset, limit) + [Arr(key)])
  }

  function AuthTree(login: bytes, scramble: Option<bytes>): Mp {
    Map([UInt(TNT_USERNAME), Str(login), UInt(TNT_TUPLE),
         Arr(if scramble.Some? then [Str(CHAP_SHA1), Str(scramble.value)] else [])])
  }

  // ---------------------------------------------------------------- what the requests say

  /** A catalogue request by its keys. */
  function Tuples(space: u32, index: u32, key: seq<Mp>): map<nat, Mp> {
    map[0x10 := UInt(space), 0x11 := UInt(index), 0x12 := UInt(4096), 0x13 := UInt(0), 0x20 := Arr(key)]
  }

  /** An authentication by its keys: the login, and how and with what it is proved, or nothing for a guest. */
  function Credentials(login: bytes, scramble: Option<bytes>): map<nat, Mp> {
    map[0x21 := Arr(if scramble.Some? then [Str(Text("chap-sha1")), Str(scramble.value)] else []), 0x23 := Str(login)]
  }

  lemma TpReads(r: TpRequest, kvs: seq<Mp>, fields: map<nat, Mp>)
    requires r.code < 0x80 && WF(Map(kvs)) && r.tail == Enc(Map(kvs))
    requires Fields(kvs).Some? && Fields(kvs).value == fields
    ensures Reads(TpPayload(r), r.code, r.sync, Some(fields))
  {
    hide Parse, Enc, Fields, WF, TpPayload;
    TpDecodes(r, Map(kvs));
    HeaderFields(r.code, r.sync);
  }

  lemma SelectTreeFields(space: u32, index: u32, key: seq<Mp>)
    ensures var kvs := SelectTree(space, index, 0, FETCH_LIMIT, key).kvs;
            Fields(kvs).Some? && Fields(kvs).value == Tuples(space, index, key)
  {
    hide Fields;
    NoField();
    OneField(0x20, Arr(key), []);
    var e := [UInt(0x20), Arr(key)] + [];
    OneField(0x12, UInt(4096), e);
    var d := [UInt(0x12), UInt(4096)] + e;
    OneField(0x13, UInt(0), d);
    var c := [UInt(0x13), UInt(0)] + d;
    OneField(0x11, UInt(index), c);
    var b := [UInt(0x11), UInt(index)] + c;
    OneField(0x10, UInt(space), b);
    assert SelectTree(space, index, 0, FETCH_LIMIT, key).kvs == [UInt(0x10), UInt(space)] + b;
  }

  /** A catalogue request asks for the tuples of its space with this key, and for no more than 4096. */
  lemma FetchReads(space: u32, index: u32, key: seq<Mp>, sync: u32)
    requires WF(SelectTree(space, index, 0, FETCH_LIMIT, key))
    ensures Reads(TpPayload(TpRequest(TNT_SELECT, sync, Enc(SelectTree(space, index, 0, FETCH_LIMIT, key)))), 0x01,
              sync, Some(Tuples(space, index, key)))
  {
    hide Enc, Fields, WF, TpPayload, Reads, Tuples;
    SelectTreeFields(space, index, key);
    var m := SelectTree(space, index, 0, FETCH_LIMIT, key);
    TpReads(TpRequest(TNT_SELECT, sync, Enc(m)), m.kvs, Tuples(space, index, key));
  }

  lemma AuthTreeFields(login: bytes, scramble: Option<bytes>)
    ensures var kvs := AuthTree(login, scramble).kvs;
            Fields(kvs).Some? && Fields(kvs).value == Credentials(login, scramble)
  {
    hide Fields;
    NoField();
    var proof := Arr(if scramble.Some? then [Str(CHAP_SHA1), Str(scramble.value)] else []);
    assert CHAP_SHA1 == Text("chap-sha1");
    OneField(0x21, proof, []);
    OneField(0x23, Str(login), [UInt(0x21), proof] + []);
    assert AuthTree(login, scramble).kvs == [UInt(0x23), Str(login)] + ([UInt(0x21), proof] + []);
  }

  /** An authentication presents this login and scramble. */
  lemma AuthReads(login: bytes, scramble: Option<bytes>, sync: u32)
    requires WF(AuthTree(login, scramble))
    ensures Reads(TpPayload(TpRequest(TNT_AUTH, sync, Enc(AuthTree(login, scramble)))), 0x07, sync,
              Some(Credentials(login, scramble)))
  {
    hide Enc, Fields, WF, TpPayload, Reads, Credentials;
    AuthTreeFields(login, scramble);
    var m := AuthTree(login, scramble);
    TpReads(TpRequest(TNT_AUTH, sync, Enc(m)), m.kvs, Credentials(login, scramble));
  }

  lemma SelectTail(space: u32, index: u32, offset: u32, limit: u32, key: seq<Mp>)
    requires AllWF(key) && |key| < TWO_32
    ensures var front := SelectFront(space, index, offset, limit);
            && AllWF(front) && WF(SelectTree(space, index, offset, limit, key))
            && EncHead(TMap(5)) + EncSeq(front) + EncHead(TArr(|key|)) + EncSeq(key)
               == Enc(SelectTree(space, index, offset, limit, key))
  {
    hide EncHead, EncSeq, Enc;
    FrontWF(space, index, offset, limit);
    MapTail(SelectFront(space, index, offset, limit), key);
  }

  lemma FrontWF(space: u32, index: u32, offset: u32, limit: u32)
    ensures AllWF(SelectFront(space, index, offset, limit))
  {
  }

  /** The elements of a last array may follow the rest of the map one by one. */
  lemma MapTail(front: seq<Mp>, key: seq<Mp>)
    requires AllWF(front) && |front| == 9 && AllWF(key) && |key| < TWO_32
    ensures WF(Map(front + [Arr(key)]))
    ensures EncHead(TMap(5)) + EncSeq(front) + EncHead(TArr(|key|)) + EncSeq(key) == Enc(Map(front + [Arr(key)]))
  {
    hide EncHead, EncSeq, Enc, WF;
    ContainerWF(key);
    EncArr(key);
    EncSeqSnoc(front, Arr(key));
    EncMap(front + [Arr(key)]);
    ContainerWF(front + [Arr(key)]);
    Regroup(EncHead(TMap(5)), EncSeq(front), Enc(Arr(key)));
    Regroup(EncHead(TMap(5)) + EncSeq(front), EncHead(TArr(|key|)), EncSeq(key));
  }

  // ---------------------------------------------------------------- the writer

  /** The sizes of the additions of a fetch: everything up to the key at once, the key's head, its parts. */
  ghost function FetchSizes(space: u32, index: u32, key: seq<Mp>): seq<nat>
    requires AllWF(key) && |key| < TWO_32
  {
    FrontWF(space, index, 0, FETCH_LIMIT);
    [HEADER_SIZE + |EncHead(TMap(5)) + EncSeq(SelectFront(space, index, 0, FETCH_LIMIT))|, |EncHead(TArr(|key|))|] +
      KeySizes(key)
  }

  ghost function KeySizes(key: seq<Mp>): (ns: seq<nat>)
    requires AllWF(key)
    decreases |key|
  {
    if key == [] then [] else [|Enc(key[0])|] + KeySizes(key[1..])
  }

  lemma FrontSize(space: u32, index: u32)
    ensures AllWF(SelectFront(space, index, 0, FETCH_LIMIT))
    ensures |EncSeq(SelectFront(space, index, 0, FETCH_LIMIT))| == 9 + SizeofUInt(space) + SizeofUInt(index)
  {
    hide EncSeq, AllWF, Sum;
    FrontWF(space, index, 0, FETCH_LIMIT);
    UIntSizes(SelectFront(space, index, 0, FETCH_LIMIT), [1, SizeofUInt(space), 1, SizeofUInt(index), 1, 1, 1, 3, 1]);
    NineSizes(SizeofUInt(space), SizeofUInt(index));
  }

  lemma NineSizes(s: nat, i: nat)
    ensures Sum([1, s, 1, i, 1, 1, 1, 3, 1]) == 9 + s + i
  {
    hide Sum;
    var ns: seq<nat> := [1, s, 1, i, 1, 1, 1, 3, 1];
    Peel(ns, 0);
    Peel(ns, 1);
    Peel(ns, 2);
    Peel(ns, 3);
    Peel(ns, 4);
    Peel(ns, 5);
    Peel(ns, 6);
    Peel(ns, 7);
    Peel(ns, 8);
    assert ns[0..] == ns && ns[9..] == [];
    NoSum();
  }

  lemma Peel(ns: seq<nat>, i: nat)
    requires i < |ns|
    ensures Sum(ns[i..]) == ns[i] + Sum(ns[i + 1..])
  {
    assert ns[i..][1..] == ns[i + 1..];
  }

  lemma NoSum()
    ensures Sum([]) == 0
  {
  }

  lemma {:induction false} UIntSizes(ms: seq<Mp>, ns: seq<nat>)
    requires AllWF(ms) && |ms| == |ns|
    requires forall i :: 0 <= i < |ms| ==> ms[i].UInt? && ms[i].n < TWO_64 && ns[i] == SizeofUInt(ms[i].n)
    ensures |EncSeq(ms)| == Sum(ns)
    decreases |ms|
  {
    if ms != [] {
      UIntSizes(ms[1..], ns[1..]);
      assert Enc(ms[0]) == EncUInt(ms[0].n);
    }
  }

  /** The whole length of a fetch with at most fifteen parts in its key. */
  lemma FetchTotal(space: u32, index: u32, key: seq<Mp>)
    requires AllWF(key) && |key| <= 15
    ensures Sum(FetchSizes(space, index, key)) == 25 + SizeofUInt(space) + SizeofUInt(index) + Sum(KeySizes(key))
  {
    hide EncSeq, WF, Sum, AllWF, SelectFront, KeySizes;
    FrontSize(space, index);
    var n := |EncHead(TMap(5)) + EncSeq(SelectFront(space, index, 0, FETCH_LIMIT))|;
    assert |EncHead(TMap(5))| == 1 && |EncHead(TArr(|key|))| == 1;
    TwoMore(HEADER_SIZE + n, 1, KeySizes(key));
  }

  lemma TwoMore(a: nat, b: nat, ns: seq<nat>)
    ensures Sum([a, b] + ns) == a + b + Sum(ns)
  {
    assert ([a, b] + ns)[1..] == [b] + ns && ([b] + ns)[1..] == ns;
  }

  lemma {:induction false} KeySizesSnoc(key: seq<Mp>, m: Mp)
    requires AllWF(key) && WF(m)
    ensures AllWF(key + [m]) && KeySizes(key + [m]) == KeySizes(key) + [|Enc(m)|]
    decreases |key|
  {
    hide Enc, WF;
    if key == [] {
      assert key + [m] == [m] && KeySizes([m]) == [|Enc(m)|] + KeySizes([]);
    } else {
      KeySizesSnoc(key[1..], m);
      assert (key + [m])[1..] == key[1..] + [m];
      Regroup([|Enc(key[0])|], KeySizes(key[1..]), [|Enc(m)|]);
    }
  }

  /** Length, header map, code and sync. */
  const HEADER_SIZE: nat := 14

  class Tp {
    /** The bytes from `s` to `p`. */
    var written: bytes
    /** Capacity and length of the buffer, and the end pointer as an offset. */
    var a: nat
    var len: nat
    var end: nat
    /** What has become of the request; once it is not `Fine`, nothing more is described. */
    var fate: Fate
    /** Where the length and the sync of the open frame are. */
    var size: nat
    var sync: nat
    ghost var done: seq<bytes>
    ghost var open: Option<TpRequest>

    ghost predicate Valid()
      reads this
    {
      fate.Fine? ==>
        && |written| <= a
        && match open
           case None => written == [] && done == []
           case Some(r) => written == Frames(done) + Frame(TpPayload(r)) && size == |Frames(done)| && sync == size + 9
    }

    function Space(): Room
      reads this
    {
      Room(a, len, |written|, end)
    }

    function Now(): Status
      reads this
    {
      Status(Space(), fate)
    }

    /** The payloads written so far. */
    ghost function All(): seq<bytes>
      reads this
    {
      if open.None? then [] else done + [TpPayload(open.value)]
    }

    constructor ()
      ensures Valid() && fate.Fine? && open.None?
    {
      written, a, len, end, fate, size, sync, done, open := [], 0, 0, 0, Fine, 0, 0, [], None;
    }

    /** `tarantool_tp_update`, with the pointers `tarantool_tp_flush` has cleared: back to the start of the buffer. */
    method Update(a: nat, len: nat)
      modifies this
      ensures Valid() && open.None? && Now() == Status(Updated(a, len), Fine)
    {
      this.a, this.len, end, fate := a, len, a, Fine;
      written, size, sync, done, open := [], 0, 0, [], None;
    }

    /** `tarantool_tp_reserve`: it looks at a length that does not count what this writer has written. */
    method Reserve(n: nat)
      modifies `a
      ensures Reserved(old(Space()), n, a) && a >= old(a)
    {
      if a > len + n {
        return;
      }
      var needed := a * 2;
      if len + n > needed {
        needed := len + n;
      }
      var grown: nat :| grown >= needed;
      a := grown;
    }

    /** `tp_ensure`: the size that tells where the end is comes back unset. */
    method Ensure(n: nat) returns (ok: bool)
      modifies `a, `end
      ensures Adds(old(Space()), n, Space().(used := |written| + if ok then n else 0))
      ensures !ok ==> Unused(old(Space())) < n
      ensures a >= old(a)
    {
      if Unused(Space()) >= n {
        return true;
      }
      Reserve(n);
      var unset: nat :| unset < TWO_64;
      end := unset;
      ok := end != REFUSED;
    }

    /**
     * Asks for room for `n` bytes that will be written whatever the answer is. A buffer that grows keeps
     * what its length counts; if more than that had been written, the request is not what it was.
     */
    method Claim(n: nat)
      requires Valid() && fate.Fine?
      modifies `a, `end, `fate
      ensures a >= old(a)
      ensures Valid() && (fate.Fine? ==> |written| + n <= a)
      ensures Outcome(old(Now()), n, Now().(room := Space().(used := |written| + n)))
    {
      ghost var before := Space();
      var grows := Grows(Space(), n);
      var ok := Ensure(n);
      if grows && |written| > len {
        fate := Forgotten;
      } else if !ok {
        fate := Refused;
      } else if |written| + n > a {
        assert Adds(before, n, Space().(used := |written| + n));
        fate := Overrun;
      }
    }

    /** `tp_add`: the length of the open frame follows every addition. */
    method Extend(b: bytes)
      requires Valid() && fate.Fine? && open.Some? && |written| + |b| <= a
      modifies `written, `open
      ensures Valid() && |written| == old(|written|) + |b|
      ensures open == Some(old(open.value).(tail := old(open.value).tail + b))
    {
      hide Prefix, Frames, TpPayload;
      ghost var was := open.value;
      ghost var p := TpPayload(was);
      LengthPlace(Frames(done), Prefix(|p|), p, b);
      TpGrows(was, b);
      var longer := written + b;
      written := longer[..size] + Prefix(|longer| - size - 5) + longer[size + 5..];
      open := Some(was.(tail := was.tail + b));
    }

    /** Room is asked for, then the bytes are added. */
    method Add(b: bytes)
      requires Valid() && (fate.Fine? ==> open.Some?)
      modifies `written, `open, `a, `end, `fate
      ensures Valid() && Through(old(Now()), [|b|], Now()) && (fate.Fine? ==> old(fate).Fine?) && a >= old(a)
      ensures fate.Fine? ==> open == Some(old(open.value).(tail := old(open.value).tail + b))
    {
      hide Frames, Frame, TpPayload, Through;
      if fate.Fine? {
        Claim(|b|);
        if fate.Fine? {
          Extend(b);
        }
      }
      OneThrough(old(Now()), |b|, Now());
    }

    /** A new frame behind the others, up to the body; its sync is still zero. */
    method Open(code: byte, body: bytes)
      requires Valid() && fate.Fine? && |written| + HEADER_SIZE + |body| <= a
      modifies `written, `open, `size, `sync, `done
      ensures Valid() && |written| == old(|written|) + HEADER_SIZE + |body|
      ensures open == Some(TpRequest(code, 0, body)) && done == old(All())
    {
      ghost var all := All();
      if open.Some? {
        FramesSnoc(done, TpPayload(open.value));
      }
      size := |written|;
      sync := size + 9;
      var payload := [0x82, TNT_CODE, code, TNT_SYNC] + ([0xce] + BE(0, 4)) + body;
      Regroup(written, Prefix(|payload|), payload);
      written := written + Prefix(|payload|) + payload;
      done := all;
      open := Some(TpRequest(code, 0, body));
    }

    /** Room for the whole beginning of a frame is asked for at once. */
    method Start(code: byte, body: bytes)
      requires Valid()
      modifies `written, `open, `a, `end, `fate, `size, `sync, `done
      ensures Valid() && Through(old(Now()), [HEADER_SIZE + |body|], Now()) && (fate.Fine? ==> old(fate).Fine?)
              && a >= old(a)
      ensures fate.Fine? ==> open == Some(TpRequest(code, 0, body)) && done == old(All())
    {
      hide Frames, Frame, TpPayload, Through;
      if fate.Fine? {
        Claim(HEADER_SIZE + |body|);
        if fate.Fine? {
          Open(code, body);
        }
      }
      OneThrough(old(Now()), HEADER_SIZE + |body|, Now());
    }

    /** `tp_select`. */
    method Select(space: u32, index: u32)
      requires Valid()
      modifies `written, `open, `a, `end, `fate, `size, `sync, `done
      ensures AllWF(SelectFront(space, index, 0, FETCH_LIMIT))
      ensures var front := EncHead(TMap(5)) + EncSeq(SelectFront(space, index, 0, FETCH_LIMIT));
              && Valid() && Through(old(Now()), [HEADER_SIZE + |front|], Now()) && (fate.Fine? ==> old(fate).Fine?)
                   && a >= old(a)
              && (fate.Fine? ==> open == Some(TpRequest(TNT_SELECT, 0, front)) && done == old(All()))
    {
      hide Through;
      FrontWF(space, index, 0, FETCH_LIMIT);
      Start(TNT_SELECT, EncHead(TMap(5)) + EncSeq(SelectFront(space, index, 0, FETCH_LIMIT)));
    }

    /** `tp_auth`; the scramble of the salt and the password is given. */
    method Auth(login: bytes, scramble: Option<bytes>)
      requires Valid() && WF(AuthTree(login, scramble))
      modifies `written, `open, `a, `end, `fate, `size, `sync, `done
      ensures Valid() && Through(old(Now()), [HEADER_SIZE + |Enc(AuthTree(login, scramble))|], Now())
              && (fate.Fine? ==> old(fate).Fine?) && a >= old(a)
      ensures fate.Fine? ==> done == old(All()) && open == Some(TpRequest(TNT_AUTH, 0, Enc(AuthTree(login, scramble))))
    {
      hide Through;
      Start(TNT_AUTH, Enc(AuthTree(login, scramble)));
    }

    /** `tp_reqid`: the sync goes to the place the header kept for it. */
    method ReqId(id: u32)
      requires Valid() && (fate.Fine? ==> open.Some?)
      modifies `written, `open
      ensures Valid() && Now() == old(Now())
      ensures fate.Fine? ==> open == Some(old(open.value).(sync := id))
    {
      if !fate.Fine? {
        return;
      }
      hide Frames, Frame, TpPayload;
      SyncPatched(done, open.value, id);
      written := written[..sync] + ([0xce] + BE(id, 4)) + written[sync + 5..];
      open := Some(open.value.(sync := id));
    }

    /** What `tarantool_stream_send` is given. */
    lemma WholeFrames()
      requires Valid() && fate.Fine?
      ensures written == Frames(All())
    {
      if open.Some? {
        FramesSnoc(done, TpPayload(open.value));
      }
    }

    /** One complete request for tuples of a catalogue, unless the buffer gives out. */
    method Fetch(space: u32, index: u32, key: seq<Mp>, id: u32)
      requires Valid() && |key| < TWO_32
      requires forall m :: m in key ==> (m.UInt? || m.Str?) && WF(m)
      modifies `written, `open, `a, `end, `fate, `size, `sync, `done
      ensures AllWF(key) && WF(SelectTree(space, index, 0, FETCH_LIMIT, key))
      ensures Valid() && Through(old(Now()), FetchSizes(space, index, key), Now())
              && (fate.Fine? ==> old(fate).Fine?) && a >= old(a)
      ensures fate.Fine? ==> open.Some? && done == old(All())
      ensures fate.Fine? ==> open.value == TpRequest(TNT_SELECT, id, Enc(SelectTree(space, index, 0, FETCH_LIMIT, key)))
    {
      hide EncHead, Enc, EncSeq, SelectTree, SelectFront, Frames, Frame, TpPayload, WF, Through, KeySizes;
      KeysWF(key);
      SelectTail(space, index, 0, FETCH_LIMIT, key);
      ghost var before, front := Now(), EncHead(TMap(5)) + EncSeq(SelectFront(space, index, 0, FETCH_LIMIT));
      ghost var first, second: nat := HEADER_SIZE + |front|, |EncHead(TArr(|key|))|;
      Select(space, index);
      ghost var middle := Now();
      Add(EncHead(TArr(|key|)));
      ThroughBoth(before, [first], middle, [second], Now());
      middle := Now();
      Parts(key);
      ThroughBoth(before, [first] + [second], middle, KeySizes(key), Now());
      assert [first] + [second] == [first, second];
      ReqId(id);
    }

    /** `tp_encode_uint` and `tp_encode_str`, for each part of a key. */
    method Parts(key: seq<Mp>)
      requires Valid() && AllWF(key) && (fate.Fine? ==> open.Some?)
      modifies `written, `open, `a, `end, `fate
      ensures Valid() && Through(old(Now()), KeySizes(key), Now()) && (fate.Fine? ==> old(fate).Fine?) && a >= old(a)
      ensures fate.Fine? ==> open == Some(old(open.value).(tail := old(open.value).tail + EncSeq(key)))
    {
      hide Enc, EncSeq, Frames, Frame, TpPayload, WF, Through, KeySizes;
      ghost var before, tail := Now(), if open.Some? then open.value.tail else [];
      EncNone();
      NoneThrough(before);
      assert key[..0] == [] && tail + [] == tail;
      for i := 0 to |key|
        invariant Valid() && AllWF(key[..i]) && (fate.Fine? ==> old(fate).Fine?) && a >= old(a)
        invariant Through(before, KeySizes(key[..i]), Now())
        invariant fate.Fine? ==> open == Some(old(open.value).(tail := tail + EncSeq(key[..i])))
      {
        assert key[..i + 1] == key[..i] + [key[i]];
        PartWF(key, i);
        EncSeqSnoc(key[..i], key[i]);
        KeySizesSnoc(key[..i], key[i]);
        Regroup(tail, EncSeq(key[..i]), Enc(key[i]));
        ghost var middle := Now();
        Add(Enc(key[i]));
        ThroughBoth(before, KeySizes(key[..i]), middle, [|Enc(key[i])|], Now());
      }
      assert key[..|key|] == key;
    }
  }

  lemma EncNone()
    ensures AllWF([]) && EncSeq([]) == [] && KeySizes([]) == []
  {
  }

  lemma {:induction false} PartWF(key: seq<Mp>, i: nat)
    requires i < |key| && AllWF(key)
    ensures WF(key[i])
    decreases |key|
  {
    if i > 0 {
      PartWF(key[1..], i - 1);
    }
  }

  lemma {:induction false} KeysWF(key: seq<Mp>)
    requires forall m :: m in key ==> WF(m)
    ensures AllWF(key)
  {
    if key != [] {
      KeysWF(key[1..]);
    }
  }

  /** What is before the sync of the open frame. */
  lemma SyncPlace(done: seq<bytes>, r: TpRequest) returns (front: bytes)
    ensures front == Frames(done) + (Prefix(9 + |r.tail|) + [0x82, TNT_CODE, r.code, TNT_SYNC])
    ensures Frames(done) + Frame(TpPayload(r)) == front + ([0xce] + BE(r.sync, 4)) + r.tail
  {
    var head: bytes := [0x82, TNT_CODE, r.code, TNT_SYNC];
    var sync: bytes := [0xce] + BE(r.sync, 4);
    var size := Prefix(9 + |r.tail|);
    front := Frames(done) + (size + head);
    assert Frame(TpPayload(r)) == (size + head) + (sync + r.tail) by {
      hide Prefix, BE;
    }
    hide Prefix, BE, Frames;
    Regroup(Frames(done), size + head, sync + r.tail);
    Regroup(front, sync, r.tail);
  }

  /** Five bytes in the open frame are all that another sync changes. */
  lemma SyncPatched(done: seq<bytes>, r: TpRequest, id: u32)
    ensures var w, at := Frames(done) + Frame(TpPayload(r)), |Frames(done)| + 9;
            && at + 5 <= |w|
            && w[..at] + ([0xce] + BE(id, 4)) + w[at + 5..] == Frames(done) + Frame(TpPayload(r.(sync := id)))
  {
    hide Frames, Frame, Prefix, TpPayload, BE;
    var front := SyncPlace(done, r);
    PatchMiddle(front, [0xce] + BE(r.sync, 4), r.tail, [0xce] + BE(id, 4));
    var again := SyncPlace(done, r.(sync := id));
  }

  lemma TpGrows(r: TpRequest, b: bytes)
    ensures TpPayload(r.(tail := r.tail + b)) == TpPayload(r) + b
  {
  }

  /** Writing a length over the old one, with `b` added behind. */
  lemma LengthPlace(front: bytes, length: bytes, p: bytes, b: bytes)
    requires |length| == 5
    ensures var s := front + (length + p) + b;
            |s| - |front| - 5 == |p + b| &&
            forall l: bytes :: |l| == 5 ==> s[..|front|] + l + s[|front| + 5..] == front + (l + (p + b))
  {
    var s := front + (length + p) + b;
    assert s[..|front|] == front && s[|front| + 5..] == p + b;
  }

  lemma PatchMiddle(a: bytes, b: bytes, c: bytes, d: bytes)
    requires |b| == |d|
    ensures var s := a + b + c; s[..|a|] + d + s[|a| + |b|..] == a + d + c
  {
  }

  lemma FramesSnoc(ps: seq<bytes>, p: bytes)
    ensures Frames(ps + [p]) == Frames(ps) + Frame(p)
  {
    FramesConcat(ps, [p]);
    assert Frames([p]) == Frame(p) + Frames([]) == Frame(p);
  }
}
