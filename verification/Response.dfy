/**
 * The two readers of a server reply: the streaming parser that schema fetches use, and the
 * unpack-everything-then-look-up reader of the data calls. On well-formed replies they agree.
 */
module Response {
  import opened Bytes
  import opened Wire
  import opened Php
  import opened Unpacking
  import opened Protocol

  // ---------------------------------------------------------------- the streaming parser

  /** `struct tnt_response`; `error` and `data` are the bytes the pointers and lengths delimit. */
  datatype Resp = Resp(code: u32, sync: u32, error: Option<bytes>, data: Option<bytes>)

  const BLANK: Resp := Resp(0, 0, None, None)

  function SetHeader(r: Resp, key: u32, n: nat): Resp {
    if key == TNT_SYNC then r.(sync := U32(n))
    else if key == TNT_CODE then r.(code := U32(n))
    else r
  }

  /** The struct after `i` header pairs; `None` is the -1 of the parser. */
  function HeaderFold(kvs: seq<Mp>, i: nat): Option<Resp>
    requires 2 * i <= |kvs|
  {
    if i == 0 then Some(BLANK)
    else
      match HeaderFold(kvs, i - 1)
      case None => None
      case Some(r) =>
        var key, val := kvs[2 * i - 2], kvs[2 * i - 1];
        if key.UInt? && val.UInt? then Some(SetHeader(r, U32(key.n), val.n)) else None
  }

  function SetBody(r: Resp, key: u32, val: Mp, own: bytes): Option<Resp> {
    if key == TNT_ERROR then
      if val.Str? then Some(r.(error := Some(val.s), code := r.code % 0x8000)) else None
    else if key == TNT_DATA then
      if val.Arr? then Some(r.(data := Some(own))) else None
    else Some(r)
  }

  /** The struct after `i` body pairs; `own[j]` are the bytes of value `j`. */
  function BodyFold(r: Resp, kvs: seq<Mp>, own: seq<bytes>, i: nat): Option<Resp>
    requires 2 * i <= |kvs| == |own|
  {
    if i == 0 then Some(r)
    else
      match BodyFold(r, kvs, own, i - 1)
      case None => None
      case Some(r') =>
        var key, val := kvs[2 * i - 2], kvs[2 * i - 1];
        if key.UInt? then SetBody(r', U32(key.n), val, own[2 * i - 1]) else None
  }

  /** The own bytes of each of the next `k` values. */
  function Slices(b: bytes, k: nat): (s: seq<bytes>)
    requires ParseSeq(b, k).Ok?
    ensures |s| == k
    decreases k
  {
    if k == 0 then [] else [Own(b)] + Slices(Parse(b).rest, k - 1)
  }

  lemma {:induction false} SlicesParse(b: bytes, k: nat, j: nat)
    requires ParseSeq(b, k).Ok? && j < k
    ensures Parse(Slices(b, k)[j]) == Ok(ParseSeq(b, k).v[j], [])
    decreases k
  {
    hide Parse, Own;
    SeqParsed(b, k);
    if j == 0 {
      OwnParses(b);
    } else {
      SlicesParse(Parse(b).rest, k - 1, j - 1);
      assert ParseSeq(b, k).v[1..][j - 1] == ParseSeq(b, k).v[j];
    }
  }

  /** The pairs of the map that `b` starts with, and where its first key is. */
  function MapBody(b: bytes): Option<bytes> {
    match Head(b)
    case Ok(TMap(_), mid) => Some(mid)
    case _ => None
  }

  /** What the streaming parser makes of a reply, and where it stops. */
  function StreamReply(b: bytes): Parsed<Resp> {
    match Parse(b)
    case Ok(Map(hdr), rest) =>
      (match HeaderFold(hdr, |hdr| / 2)
       case None => Fail
       case Some(r) => StreamBody(r, rest))
    case _ => Fail
  }

  /** The body, with what the header has set. */
  function StreamBody(r: Resp, b: bytes): Parsed<Resp> {
    match Parse(b)
    case Ok(Map(bdy), end) =>
      MapParsed(b);
      (match BodyFold(r, bdy, Slices(MapBody(b).value, |bdy|), |bdy| / 2)
       case None => Fail
       case Some(r') => Ok(r', end))
    case _ => Fail
  }

  lemma MapParsed(b: bytes)
    requires Parse(b).Ok? && Parse(b).v.Map?
    ensures MapBody(b).Some? && Head(b).v.TMap?
    ensures var kvs := Parse(b).v.kvs;
            |kvs| == 2 * Head(b).v.size && ParseSeq(MapBody(b).value, |kvs|) == Ok(kvs, Parse(b).rest)
  {
    hide Head, ParseSeq;
    ContainerParsed(b);
  }

  /** What reaches the parser: two values, and a body whose keys are unsigned integers if it is a map. */
  predicate ReplyShape(b: bytes) {
    Parse(b).Ok? &&
    (Parse(b).v.Map? && HeaderFold(Parse(b).v.kvs, |Parse(b).v.kvs| / 2).Some? ==>
      var p := Parse(Parse(b).rest);
      p.Ok? && (p.v.Map? ==> forall i :: 0 <= i < |p.v.kvs| / 2 ==> p.v.kvs[2 * i].UInt?))
  }

  lemma {:induction false} HeaderFoldFails(kvs: seq<Mp>, i: nat, j: nat)
    requires i <= j && 2 * j <= |kvs| && HeaderFold(kvs, i).None?
    ensures HeaderFold(kvs, j).None?
    decreases j
  {
    if i < j { HeaderFoldFails(kvs, i, j - 1); }
  }

  lemma {:induction false} BodyFoldFails(r: Resp, kvs: seq<Mp>, own: seq<bytes>, i: nat, j: nat)
    requires i <= j && 2 * j <= |kvs| == |own| && BodyFold(r, kvs, own, i).None?
    ensures BodyFold(r, kvs, own, j).None?
    decreases j
  {
    if i < j { BodyFoldFails(r, kvs, own, i, j - 1); }
  }

  lemma HeadOfValue(b: bytes)
    requires Parse(b).Ok?
    ensures Head(b).Ok?
    ensures Head(b).v.TUInt? <==> Parse(b).v.UInt?
    ensures Head(b).v.TStr? <==> Parse(b).v.Str?
    ensures Head(b).v.TArr? <==> Parse(b).v.Arr?
    ensures Head(b).v.TMap? <==> Parse(b).v.Map?
    ensures !Head(b).v.TArr? && !Head(b).v.TMap? ==> Parse(b) == Ok(Leaf(Head(b).v), Head(b).rest)
  {
    hide Head, ParseSeq;
    ContainerParsed(b);
  }

  /** One pair at the front of `2 * k` values. */
  lemma PairParsed(b: bytes, k: nat)
    requires k > 0 && ParseSeq(b, 2 * k).Ok?
    ensures var p, kvs := ParseSeq(b, 2 * k), ParseSeq(b, 2 * k).v;
            && Parse(b).Ok? && Parse(b).v == kvs[0]
            && Parse(Parse(b).rest).Ok? && Parse(Parse(b).rest).v == kvs[1]
            && ParseSeq(Parse(Parse(b).rest).rest, 2 * (k - 1)) == Ok(kvs[2..], p.rest)
            && Slices(b, 2 * k) == [Own(b), Own(Parse(b).rest)] + Slices(Parse(Parse(b).rest).rest, 2 * (k - 1))
  {
    hide Parse, ParseSeq, Own, Slices;
    SeqParsed(b, 2 * k);
    var mid := Parse(b).rest;
    SeqParsed(mid, 2 * k - 1);
    assert ParseSeq(b, 2 * k).v[1..][1..] == ParseSeq(b, 2 * k).v[2..];
    SlicesStep(b, 2 * k);
    SlicesStep(mid, 2 * k - 1);
    Regroup([Own(b)], [Own(mid)], Slices(Parse(mid).rest, 2 * (k - 1)));
  }

  lemma SlicesStep(b: bytes, k: nat)
    requires k > 0 && ParseSeq(b, k).Ok?
    ensures Parse(b).Ok? && ParseSeq(Parse(b).rest, k - 1).Ok?
    ensures Slices(b, k) == [Own(b)] + Slices(Parse(b).rest, k - 1)
  {
    hide Parse, Own;
  }

  /** The header loop: `n` pairs at the cursor. */
  method ReadHeader(cur: Cursor, n: nat) returns (r: Option<Resp>)
    requires cur.Valid() && ParseSeq(cur.Rest(), 2 * n).Ok?
    modifies cur`pos
    ensures cur.Valid()
    ensures var p := old(ParseSeq(cur.Rest(), 2 * n));
            r == HeaderFold(p.v, n) && (r.Some? ==> cur.Rest() == p.rest)
  {
    hide Head, Parse, ParseSeq, Slices;
    ghost var all := ParseSeq(cur.Rest(), 2 * n);
    var resp, k := BLANK, n;
    while k > 0
      invariant 0 <= k <= n && cur.Valid()
      invariant ParseSeq(cur.Rest(), 2 * k) == Ok(all.v[2 * (n - k)..], all.rest)
      invariant HeaderFold(all.v, n - k) == Some(resp)
    {
      ghost var i := n - k;
      PairParsed(cur.Rest(), k);
      assert all.v[2 * i..][0] == all.v[2 * i] && all.v[2 * i..][1] == all.v[2 * i + 1];
      assert all.v[2 * i..][2..] == all.v[2 * (i + 1)..];
      HeadOfValue(cur.Rest());
      var key := cur.DecodeHead();
      if !key.TUInt? {
        HeaderFoldFails(all.v, i + 1, n);
        return None;
      }
      HeadOfValue(cur.Rest());
      var val := cur.DecodeHead();
      if !val.TUInt? {
        HeaderFoldFails(all.v, i + 1, n);
        return None;
      }
      resp := SetHeader(resp, U32(key.n), val.n);
      k := k - 1;
    }
    ParseSeqNone(cur.Rest());
    r := Some(resp);
  }

  /** The value under one key of the body. */
  method ReadBodyValue(cur: Cursor, key: u32, resp: Resp) returns (r: Option<Resp>)
    requires cur.Valid() && Parse(cur.Rest()).Ok?
    modifies cur`pos
    ensures cur.Valid()
    ensures r == SetBody(resp, key, old(Parse(cur.Rest()).v), old(Own(cur.Rest())))
    ensures r.Some? ==> cur.Rest() == old(Parse(cur.Rest()).rest)
  {
    hide Head, Parse;
    ghost var at := cur.Rest();
    HeadOfValue(at);
    OwnParses(at);
    var t := Head(cur.Rest()).v;
    if key == TNT_ERROR {
      if !t.TStr? {
        return None;
      }
      var text := cur.DecodeHead();
      r := Some(resp.(error := Some(text.s), code := resp.code % 0x8000));
    } else if key == TNT_DATA {
      if !t.TArr? {
        return None;
      }
      var data := cur.pos;
      cur.Next();
      assert cur.buf[data..] == at && cur.buf[data..cur.pos] == Own(at);
      r := Some(resp.(data := Some(cur.buf[data..cur.pos])));
    } else {
      cur.Next();
      r := Some(resp);
    }
  }

  /** The body loop: `n` pairs at the cursor. */
  method ReadBody(cur: Cursor, n: nat, start: Resp) returns (r: Option<Resp>)
    requires cur.Valid() && ParseSeq(cur.Rest(), 2 * n).Ok?
    requires forall i :: 0 <= i < n ==> ParseSeq(cur.Rest(), 2 * n).v[2 * i].UInt?
    modifies cur`pos
    ensures cur.Valid()
    ensures var p := old(ParseSeq(cur.Rest(), 2 * n));
            r == BodyFold(start, p.v, old(Slices(cur.Rest(), 2 * n)), n) && (r.Some? ==> cur.Rest() == p.rest)
  {
    hide Head, Parse, ParseSeq, Slices, Own, SetBody;
    ghost var all, own := ParseSeq(cur.Rest(), 2 * n), Slices(cur.Rest(), 2 * n);
    var resp, k := start, n;
    while k > 0
      invariant 0 <= k <= n && cur.Valid()
      invariant ParseSeq(cur.Rest(), 2 * k) == Ok(all.v[2 * (n - k)..], all.rest)
      invariant Slices(cur.Rest(), 2 * k) == own[2 * (n - k)..]
      invariant BodyFold(start, all.v, own, n - k) == Some(resp)
    {
      ghost var i := n - k;
      PairParsed(cur.Rest(), k);
      assert all.v[2 * i..][0] == all.v[2 * i] && all.v[2 * i..][1] == all.v[2 * i + 1];
      assert all.v[2 * i..][2..] == all.v[2 * (i + 1)..];
      assert own[2 * i..][1] == own[2 * i + 1] && own[2 * i..][2..] == own[2 * (i + 1)..];
      HeadOfValue(cur.Rest());
      var key := cur.DecodeHead();
      var next := ReadBodyValue(cur, U32(key.n), resp);
      if next.None? {
        BodyFoldFails(start, all.v, own, i + 1, n);
        return None;
      }
      resp := next.value;
      k := k - 1;
    }
    ParseSeqNone(cur.Rest());
    r := Some(resp);
  }

  /** `php_tp_response`: the struct and the offset behind the reply, or -1. */
  method TpResponse(buf: bytes) returns (r: Resp, offset: int)
    requires ReplyShape(buf)
    ensures match StreamReply(buf)
            case Fail => offset == -1
            case Ok(r', rest) => r == r' && offset == |buf| - |rest|
  {
    hide Head, Parse, ParseSeq, Slices, StreamBody, HeaderFold, BodyFold;
    var cur := new Cursor(buf);
    assert cur.Rest() == buf;
    HeadOfValue(buf);
    var t := cur.DecodeHead();
    if !t.TMap? {
      return BLANK, -1;
    }
    MapParsed(buf);
    var header := ReadHeader(cur, t.size);
    if header.None? {
      return BLANK, -1;
    }
    var body := ReadBodyMap(cur, header.value);
    if body.None? {
      return BLANK, -1;
    }
    r, offset := body.value, cur.pos;
  }

  /** The body of the reply. */
  method ReadBodyMap(cur: Cursor, start: Resp) returns (r: Option<Resp>)
    requires cur.Valid() && Parse(cur.Rest()).Ok?
    requires var m := Parse(cur.Rest()).v; m.Map? ==> forall i :: 0 <= i < |m.kvs| / 2 ==> m.kvs[2 * i].UInt?
    modifies cur`pos
    ensures cur.Valid()
    ensures match old(StreamBody(start, cur.Rest()))
            case Fail => r.None?
            case Ok(r', rest) => r == Some(r') && cur.Rest() == rest
  {
    hide Head, Parse, ParseSeq, Slices, BodyFold;
    HeadOfValue(cur.Rest());
    var t := Head(cur.Rest()).v;
    if t.TMap? {
      MapParsed(cur.Rest());
    }
    t := cur.DecodeHead();
    if !t.TMap? {
      return None;
    }
    r := ReadBody(cur, t.size, start);
  }

  // ---------------------------------------------------------------- the generic reader

  datatype Reason = BadHeader | BadBody | WrongSync | BadErrorText | NoCode

  /** How a data call ends once its reply has been read; `Closed` drops the connection. */
  datatype Outcome = Answer(body: PVal) | ServerError(code: int, text: bytes) | Closed(why: Reason)

  const EMPTY_TEXT: bytes := [101, 109, 112, 116, 121]

  /** `tarantool_step_recv` from the moment the reply is in the buffer, for the request `sync`. */
  function StepRecv(b: bytes, sync: int): Outcome {
    match Parse(b)
    case Fail => Closed(BadHeader)
    case Ok(hdr, rest) =>
      match (ToPhp(hdr), Parse(rest))
      case (Some(PArr(header)), Ok(bdy, _)) =>
        (match ToPhp(bdy)
         case None => Closed(BadBody)
         case Some(body) => Judge(header, body, sync))
      case (Some(PArr(_)), Fail) => Closed(BadBody)
      case _ => Closed(BadHeader)
  }

  function Judge(header: HashTable<PVal>, body: PVal, sync: int): Outcome {
    var got: Option<PVal> := Lookup(header, IntKey(TNT_SYNC));
    var code: Option<PVal> := Lookup(header, IntKey(TNT_CODE));
    if got.Some? && got.value != PLong(sync) then Closed(WrongSync)
    else
      match code
      case None => Closed(NoCode)
      case Some(PLong(n)) => if n == TNT_OK then Answer(body) else ErrorOf(body, n % 0x8000)
      case Some(_) => ErrorOf(body, 0)
  }

  function ErrorOf(body: PVal, code: int): Outcome {
    if !body.PArr? then Closed(BadBody)
    else
      var text: Option<PVal> := Lookup(body.ht, IntKey(TNT_ERROR));
      match text
      case Some(PStr(s)) => ServerError(code, s)
      case Some(_) => Closed(BadErrorText)
      case None => ServerError(code, EMPTY_TEXT)
  }

  /** The reading part of `tarantool_step_recv`, with the cursor and the two unpackings. */
  method ReceiveStep(buf: bytes, sync: int) returns (o: Outcome)
    requires Parse(buf).Ok? && Parse(Parse(buf).rest).Ok?
    ensures o == StepRecv(buf, sync)
  {
    hide Head, Parse, ToPhp;
    var pos := new Cursor(buf);
    assert pos.Rest() == buf;
    var header := Unpack(pos);
    if header.None? || !header.value.PArr? {
      return Closed(BadHeader);
    }
    var body := Unpack(pos);
    if body.None? {
      return Closed(BadBody);
    }
    o := Judge(header.value.ht, body.value, sync);
  }

  // ---------------------------------------------------------------- agreement

  predicate UIntsBelow(kvs: seq<Mp>, n: nat)
    requires 2 * n <= |kvs|
  {
    forall i :: 0 <= i < n ==> kvs[2 * i].UInt? && kvs[2 * i].n < TWO_32
  }

  /** Two maps, one behind the other, whose keys are unsigned 32-bit integers in any order, repeated or unknown. */
  ghost predicate KeyedMaps(b: bytes, hdr: seq<Mp>, bdy: seq<Mp>) {
    && Parse(b).Ok? && Parse(b).v == Map(hdr) && Parse(Parse(b).rest).Ok? && Parse(Parse(b).rest).v == Map(bdy)
    && UIntsBelow(hdr, |hdr| / 2) && UIntsBelow(bdy, |bdy| / 2)
  }

  /** Every header value is an unsigned integer, also under keys nobody knows. */
  predicate Numeric(kvs: seq<Mp>) {
    forall i :: 0 <= i < |kvs| / 2 ==> kvs[2 * i + 1].UInt?
  }

  /** The sync and the code are unsigned integers, wherever they stand. */
  predicate Numbered(kvs: seq<Mp>) {
    forall i :: 0 <= i < |kvs| / 2 && (kvs[2 * i] == UInt(0x01) || kvs[2 * i] == UInt(0x00)) ==>
      kvs[2 * i + 1].UInt?
  }

  /** An error is text and data is an array, wherever they stand. */
  predicate Typed(kvs: seq<Mp>) {
    forall i :: 0 <= i < |kvs| / 2 ==>
      && (kvs[2 * i] == UInt(0x31) ==> kvs[2 * i + 1].Str?)
      && (kvs[2 * i] == UInt(0x30) ==> kvs[2 * i + 1].Arr?)
  }

  /** The last value under `key` among the first `n` pairs. */
  function Last(kvs: seq<Mp>, key: nat, n: nat): Option<Mp>
    requires 2 * n <= |kvs|
  {
    if n == 0 then None
    else if kvs[2 * n - 2] == UInt(key) then Some(kvs[2 * n - 1])
    else Last(kvs, key, n - 1)
  }

  function LastOf(kvs: seq<Mp>, key: nat): Option<Mp> {
    Last(kvs, key, |kvs| / 2)
  }

  lemma LookupInsert<V>(ht: HashTable<V>, k: Key, v: V, q: Key)
    ensures Lookup(Insert(ht, k, v), q) == if q == k then Some(v) else Lookup(ht, q)
  {
    var es := ht.entries;
    match IndexOf(es, k) {
      case Some(i) =>
        IndexSame(es, es[i := Entry(k, v)], q);
      case None =>
        assert (es + [Entry(k, v)])[..|es|] == es;
    }
  }

  lemma {:induction false} IndexSame<V>(es: seq<Entry<V>>, fs: seq<Entry<V>>, k: Key)
    requires |es| == |fs| && forall i :: 0 <= i < |es| ==> es[i].key == fs[i].key
    ensures IndexOf(es, k) == IndexOf(fs, k)
  {
    if es != [] {
      IndexSame(es[..|es| - 1], fs[..|fs| - 1], k);
    }
  }

  /** The value a last pair is looked up as. */
  function Seen(m: Option<Mp>): Option<PVal> {
    match m
    case None => None
    case Some(v) => ToPhp(v)
  }

  /** Unpacking into an array keeps the last value of every key. */
  lemma {:induction false} HashKeepsLast(kvs: seq<Mp>, n: nat, key: nat)
    requires 2 * n <= |kvs| && UIntsBelow(kvs, n) && key < TWO_32
    requires HashFrom(kvs, n).Some?
    ensures Lookup(HashFrom(kvs, n).value, IntKey(key)) == Seen(Last(kvs, key, n))
    ensures Last(kvs, key, n).Some? ==> Seen(Last(kvs, key, n)).Some?
    decreases n
  {
    hide ToPhp, SymbolKey, Insert, IndexOf;
    if n > 0 {
      HashFromFails'(kvs, n);
      HashKeepsLast(kvs, n - 1, key);
      var k := kvs[2 * (n - 1)];
      assert k.UInt? && k.n < TWO_32;
      UIntToPhp(k.n);
      LookupInsert(HashFrom(kvs, n - 1).value, IntKey(k.n), ToPhp(kvs[2 * n - 1]).value, IntKey(key));
    } else {
      NothingFound(key);
    }
  }

  lemma NothingFound(key: nat)
    ensures Lookup(EMPTY, IntKey(key)) == None
  {
  }

  lemma HashFromFails'(kvs: seq<Mp>, n: nat)
    requires 0 < n && 2 * n <= |kvs| && HashFrom(kvs, n).Some?
    ensures HashFrom(kvs, n - 1).Some? && ToPhp(kvs[2 * n - 2]).Some? && ToPhp(kvs[2 * n - 1]).Some?
  {
    hide ToPhp, SymbolKey, Insert;
  }

  lemma UIntToPhp(n: nat)
    requires n < TWO_32
    ensures ToPhp(UInt(n)) == Some(PLong(n))
  {
  }

  /** So does the streaming parser, which wants a number under every key of the header. */
  lemma {:induction false} HeaderKeepsLast(kvs: seq<Mp>, n: nat)
    requires 2 * n <= |kvs| && UIntsBelow(kvs, n)
    ensures HeaderFold(kvs, n).Some? <==> forall i :: 0 <= i < n ==> kvs[2 * i + 1].UInt?
    ensures HeaderFold(kvs, n).Some? ==>
              var r, s, c := HeaderFold(kvs, n).value, Last(kvs, TNT_SYNC, n), Last(kvs, TNT_CODE, n);
              && r.error.None? && r.data.None?
              && (if s.Some? then s.value.UInt? && r.sync == U32(s.value.n) else r.sync == 0)
              && (if c.Some? then c.value.UInt? && r.code == U32(c.value.n) else r.code == 0)
    decreases n
  {
    if n > 0 {
      var i := n - 1;
      assert kvs[2 * i].UInt? && kvs[2 * i].n < TWO_32;
      HeaderKeepsLast(kvs, n - 1);
      assert kvs[2 * n - 1] == kvs[2 * i + 1];
    }
  }

  predicate PairTyped(key: Mp, val: Mp) {
    (key == UInt(TNT_ERROR) ==> val.Str?) && (key == UInt(TNT_DATA) ==> val.Arr?)
  }

  lemma {:induction false} BodyKeepsLast(r: Resp, kvs: seq<Mp>, own: seq<bytes>, n: nat)
    requires 2 * n <= |kvs| == |own| && UIntsBelow(kvs, n)
    requires r.error.None? && r.data.None?
    requires forall i :: 0 <= i < |kvs| ==> Parse(own[i]) == Ok(kvs[i], [])
    ensures BodyFold(r, kvs, own, n).Some? <==> forall i :: 0 <= i < n ==> PairTyped(kvs[2 * i], kvs[2 * i + 1])
    ensures BodyFold(r, kvs, own, n).Some? ==>
              var q, e, d := BodyFold(r, kvs, own, n).value, Last(kvs, TNT_ERROR, n), Last(kvs, TNT_DATA, n);
              && q.sync == r.sync
              && (if e.Some? then e.value.Str? && q.error == Some(e.value.s) && q.code == r.code % 0x8000
                  else q.error.None? && q.code == r.code)
              && (if d.Some? then q.data.Some? && Parse(q.data.value) == Ok(d.value, []) else q.data.None?)
    decreases n
  {
    hide Parse;
    if n > 0 {
      var i := n - 1;
      assert kvs[2 * i].UInt? && kvs[2 * i].n < TWO_32;
      BodyKeepsLast(r, kvs, own, n - 1);
      assert kvs[2 * n - 2] == kvs[2 * i] && kvs[2 * n - 1] == kvs[2 * i + 1];
      assert PairTyped(kvs[2 * i], kvs[2 * i + 1]) <==>
             (kvs[2 * i].n == TNT_ERROR ==> kvs[2 * i + 1].Str?) && (kvs[2 * i].n == TNT_DATA ==> kvs[2 * i + 1].Arr?);
    }
  }

  // ---------------------------------------------------------------- numbers that were read

  lemma HeadUInt(b: bytes)
    requires Head(b).Ok? && Head(b).v.TUInt?
    ensures Head(b).v.n < TWO_64
  {
    Widths();
    if b[0] > 0x7f {
      FromBEBound(b[1..1 + NumberWidth(b[0])]);
    }
  }

  lemma {:induction false} ParsedUInts(b: bytes, k: nat)
    requires ParseSeq(b, k).Ok?
    ensures forall i :: 0 <= i < k && ParseSeq(b, k).v[i].UInt? ==> ParseSeq(b, k).v[i].n < TWO_64
    decreases k
  {
    hide Head, Parse, ParseSeq;
    if k > 0 {
      SeqParsed(b, k);
      HeadOfValue(b);
      if Head(b).v.TUInt? {
        HeadUInt(b);
      }
      ParsedUInts(Parse(b).rest, k - 1);
      forall i | 0 < i < k
        ensures ParseSeq(b, k).v[i] == ParseSeq(b, k).v[1..][i - 1]
      {
      }
    }
  }

  lemma MapUInts(b: bytes)
    requires Parse(b).Ok? && Parse(b).v.Map?
    ensures forall i :: 0 <= i < |Parse(b).v.kvs| && Parse(b).v.kvs[i].UInt? ==> Parse(b).v.kvs[i].n < TWO_64
    ensures |Parse(b).v.kvs| % 2 == 0
  {
    hide Head, Parse, ParseSeq;
    MapParsed(b);
    ParsedUInts(MapBody(b).value, |Parse(b).v.kvs|);
  }

  lemma {:induction false} LastOne(kvs: seq<Mp>, key: nat, n: nat) returns (i: nat)
    requires 2 * n <= |kvs| && Last(kvs, key, n).Some?
    ensures i < n && kvs[2 * i] == UInt(key) && Last(kvs, key, n) == Some(kvs[2 * i + 1])
    decreases n
  {
    i := n - 1;
    assert kvs[2 * n - 2] == kvs[2 * i] && kvs[2 * n - 1] == kvs[2 * i + 1];
    if kvs[2 * i] != UInt(key) {
      i := LastOne(kvs, key, n - 1);
    }
  }

  // ---------------------------------------------------------------- what each reader accepts

  /** The streaming parser accepts two such maps exactly when all values are of the types it looks for. */
  lemma {:induction false} StreamExactly(b: bytes, hdr: seq<Mp>, bdy: seq<Mp>)
    requires KeyedMaps(b, hdr, bdy)
    ensures StreamReply(b).Ok? <==> Numeric(hdr) && Typed(bdy)
    ensures StreamReply(b).Ok? ==>
              var r, s, c := StreamReply(b).v, LastOf(hdr, 0x01), LastOf(hdr, 0x00);
              var e, d := LastOf(bdy, 0x31), LastOf(bdy, 0x30);
              && StreamReply(b).rest == Parse(Parse(b).rest).rest
              && (if s.Some? then s.value.UInt? && r.sync == U32(s.value.n) else r.sync == 0)
              && (c.Some? ==> c.value.UInt?)
              && (if e.Some? then e.value.Str? && r.error == Some(e.value.s)
                   && (c.Some? ==> r.code == U32(c.value.n) % 0x8000)
                  else r.error.None? && (c.Some? ==> r.code == U32(c.value.n)))
              && (if d.Some? then r.data.Some? && Parse(r.data.value) == Ok(d.value, []) else r.data.None?)
  {
    hide Parse, Slices, ParseSeq, HeaderFold, BodyFold, Last;
    var rest := Parse(b).rest;
    HeaderKeepsLast(hdr, |hdr| / 2);
    MapParsed(rest);
    if HeaderFold(hdr, |hdr| / 2).Some? {
      var r := HeaderFold(hdr, |hdr| / 2).value;
      var mid := MapBody(rest).value;
      var own := Slices(mid, |bdy|);
      forall i | 0 <= i < |bdy|
        ensures Parse(own[i]) == Ok(bdy[i], [])
      {
        SlicesParse(mid, |bdy|, i);
      }
      BodyKeepsLast(r, bdy, own, |bdy| / 2);
      assert StreamReply(b) == StreamBody(r, rest);
    }
  }

  /** How the data call ends, told from what the streaming parser found. */
  function FromStream(r: Resp, sent: Option<Mp>, body: Option<PVal>, sync: int): Outcome
    requires sent.Some? ==> sent.value.UInt?
  {
    if body.None? then Closed(BadBody)
    else if sent.Some? && ToLong(sent.value.n) != sync then Closed(WrongSync)
    else if r.error.Some? then ServerError(r.code, r.error.value)
    else Answer(body.value)
  }

  lemma GenericLookups(b: bytes, hdr: seq<Mp>, bdy: seq<Mp>)
    requires KeyedMaps(b, hdr, bdy)
    ensures ToPhp(Map(hdr)).Some? ==>
              ToPhp(Map(hdr)).value.PArr? &&
              var ht := ToPhp(Map(hdr)).value.ht;
              && Lookup(ht, IntKey(TNT_SYNC)) == Seen(LastOf(hdr, TNT_SYNC))
              && Lookup(ht, IntKey(TNT_CODE)) == Seen(LastOf(hdr, TNT_CODE))
    ensures ToPhp(Map(bdy)).Some? ==>
              ToPhp(Map(bdy)).value.PArr? &&
              forall key: nat :: key < TWO_32 ==>
                Lookup(ToPhp(Map(bdy)).value.ht, IntKey(key)) == Seen(LastOf(bdy, key))
  {
    hide Parse, HashFrom, Last, Lookup, Seen;
    if ToPhp(Map(hdr)).Some? {
      HashKeepsLast(hdr, |hdr| / 2, TNT_SYNC);
      HashKeepsLast(hdr, |hdr| / 2, TNT_CODE);
    }
    if ToPhp(Map(bdy)).Some? {
      forall key: nat | key < TWO_32
        ensures Lookup(ToPhp(Map(bdy)).value.ht, IntKey(key)) == Seen(LastOf(bdy, key))
      {
        HashKeepsLast(bdy, |bdy| / 2, key);
      }
    }
  }

  lemma {:induction false} PairsUnpack(kvs: seq<Mp>, n: nat)
    requires 2 * n <= |kvs| && UIntsBelow(kvs, n)
    requires forall i :: 0 <= i < n ==> kvs[2 * i + 1].UInt? || kvs[2 * i + 1].Str?
    ensures HashFrom(kvs, n).Some?
    decreases n
  {
    hide SymbolKey, Insert;
    if n > 0 {
      var i := n - 1;
      assert kvs[2 * i].UInt? && kvs[2 * i].n < TWO_32 && (kvs[2 * i + 1].UInt? || kvs[2 * i + 1].Str?);
      PairsUnpack(kvs, n - 1);
    }
  }

  /** A sync or a code that is a number is looked up as that number. */
  lemma NumberSeen(b: bytes, kvs: seq<Mp>, key: nat)
    requires Parse(b).Ok? && Parse(b).v == Map(kvs) && Numbered(kvs) && (key == TNT_SYNC || key == TNT_CODE)
    ensures var m := LastOf(kvs, key);
            m.Some? ==> m.value.UInt? && m.value.n < TWO_64 && Seen(m) == Some(PLong(ToLong(m.value.n)))
  {
    hide Parse, Last;
    MapUInts(b);
    if LastOf(kvs, key).Some? {
      var i := LastOne(kvs, key, |kvs| / 2);
    }
  }

  /**
   * The verdict of the generic reader on any two such maps, whatever stands under keys it does not
   * look at: which sync and code it accepts, and what it makes of an error with or without a text.
   */
  lemma {:induction false} VerdictExactly(b: bytes, hdr: seq<Mp>, bdy: seq<Mp>, sync: int)
    requires KeyedMaps(b, hdr, bdy) && Numbered(hdr)
    ensures var s, c, body := LastOf(hdr, 0x01), LastOf(hdr, 0x00), ToPhp(Map(bdy));
            var text: Option<PVal> := Seen(LastOf(bdy, 0x31));
            var o, own := StepRecv(b, sync), s.Some? ==> s.value.UInt? && ToLong(s.value.n) == sync;
            var read := ToPhp(Map(hdr)).Some? && body.Some?;
            && (o.Answer? <==> read && own && c == Some(UInt(0)))
            && (o.ServerError? <==>
                  read && own && c.Some? && c != Some(UInt(0)) && (text.Some? ==> text.value.PStr?))
            && (o.Answer? ==> o.body == body.value)
            && (o.ServerError? ==> c.value.UInt? && o.code == c.value.n % 0x8000
                                   && o.text == if text.Some? then text.value.s else Text("empty"))
  {
    hide Parse, Last, Lookup, HashFrom, ListFrom, Numbered;
    GenericLookups(b, hdr, bdy);
    NumberSeen(b, hdr, TNT_SYNC);
    NumberSeen(b, hdr, TNT_CODE);
    var c := LastOf(hdr, TNT_CODE);
    if c.Some? {
      LowBits(c.value.n);
      SameLowBits(c.value.n);
    }
  }

  /** So a data call may succeed on a reply that a fetch refuses, and it does so exactly here. */
  lemma {:induction false} ReadersApartExactly(b: bytes, hdr: seq<Mp>, bdy: seq<Mp>, sync: int)
    requires KeyedMaps(b, hdr, bdy) && Numbered(hdr)
    ensures var s, c := LastOf(hdr, 0x01), LastOf(hdr, 0x00);
            StepRecv(b, sync).Answer? && StreamReply(b).Fail? <==>
              && ToPhp(Map(hdr)).Some? && ToPhp(Map(bdy)).Some?
              && (s.Some? ==> s.value.UInt? && ToLong(s.value.n) == sync) && c == Some(UInt(0))
              && !(Numeric(hdr) && Typed(bdy))
  {
    hide Parse, ToPhp, Last, StepRecv, StreamReply, Numeric, Typed, Numbered;
    VerdictExactly(b, hdr, bdy, sync);
    StreamExactly(b, hdr, bdy);
  }

  lemma SameLowBits(n: nat)
    ensures U32(n) % 0x8000 == n % 0x8000
  {
    assert TWO_32 == 0x8000 * 0x2_0000;
  }

  lemma LowBits(n: nat)
    ensures ToLong(n) % 0x8000 == U32(n) % 0x8000
  {
    assert TWO_32 == 0x8000 * 0x2_0000 && TWO_64 == 0x8000 * 0x2_0000_0000_0000;
  }

  /** A reply as servers send it: a code, and an error text exactly when the code is not zero. */
  ghost predicate WellFormedReply(b: bytes, hdr: seq<Mp>, bdy: seq<Mp>) {
    && KeyedMaps(b, hdr, bdy) && Parse(Parse(b).rest).rest == []
    && LastOf(hdr, 0x00).Some?
    && (LastOf(bdy, 0x31).Some? <==> LastOf(hdr, 0x00) != Some(UInt(0)))
  }

  /**
   * The streaming parser accepts a well-formed reply exactly when all values are of the types it looks
   * for, and then the two readers agree: it stops at the end of the frame, and from its struct one can
   * tell how the data call ends for any sync it was made with, by a wrong sync, by a server error with
   * the same 15-bit code and text, or by an answer whose DATA is the value of exactly the bytes the
   * struct points at. Only a body that cannot be unpacked then sets them apart.
   */
  lemma ReadersAgree(b: bytes, hdr: seq<Mp>, bdy: seq<Mp>, sync: int)
    requires WellFormedReply(b, hdr, bdy)
    ensures StreamReply(b).Ok? <==> Numeric(hdr) && Typed(bdy)
    ensures StreamReply(b).Ok? ==>
              var r, sent, body := StreamReply(b).v, LastOf(hdr, 0x01), ToPhp(Map(bdy));
              && StreamReply(b).rest == []
              && (if sent.Some? then sent.value.UInt? && r.sync == U32(sent.value.n) else r.sync == 0)
              && StepRecv(b, sync) == FromStream(r, sent, body, sync)
              && (r.error.Some? ==> r.code < 0x8000)
              && (body.Some? ==>
                    body.value.PArr? &&
                    var data: Option<PVal> := Lookup(body.value.ht, IntKey(0x30));
                    if r.data.None? then data.None?
                    else Parse(r.data.value).Ok? && Parse(r.data.value).v.Arr? && Parse(r.data.value).rest == [] &&
                         data == ToPhp(Parse(r.data.value).v))
  {
    hide Parse, Last, Lookup, StreamReply, HashFrom, ListFrom, Numbered, UIntsBelow;
    StreamExactly(b, hdr, bdy);
    if StreamReply(b).Ok? {
      GenericLookups(b, hdr, bdy);
      NumericIsNumbered(hdr);
      MapUInts(b);
      PairsUnpack(hdr, |hdr| / 2);
      NumberSeen(b, hdr, TNT_SYNC);
      NumberSeen(b, hdr, TNT_CODE);
      LowBits(LastOf(hdr, TNT_CODE).value.n);
      TypedData(bdy);
    }
  }

  lemma NumericIsNumbered(kvs: seq<Mp>)
    requires Numeric(kvs)
    ensures Numbered(kvs)
  {
  }

  lemma TypedData(kvs: seq<Mp>)
    requires Typed(kvs)
    ensures LastOf(kvs, TNT_DATA).Some? ==> LastOf(kvs, TNT_DATA).value.Arr?
  {
    hide Last;
    if LastOf(kvs, TNT_DATA).Some? {
      var i := LastOne(kvs, TNT_DATA, |kvs| / 2);
    }
  }

  /** A text under a header key that neither reader knows: the data call has its answer, a fetch would fail. */
  lemma {:induction false} UnknownKeySetsApart()
    ensures var hdr := [UInt(TNT_CODE), UInt(TNT_OK), UInt(TNT_SYNC), UInt(5), UInt(7), Str([120])];
            && WF(Map(hdr)) && WF(Map([]))
            && var b := Enc(Map(hdr)) + Enc(Map([]));
               StreamReply(b).Fail? && StepRecv(b, 5).Answer?
  {
    hide Parse, StepRecv, StreamReply, Enc, ToPhp;
    var hdr := [UInt(TNT_CODE), UInt(TNT_OK), UInt(TNT_SYNC), UInt(5), UInt(7), Str([120])];
    UnknownKeyReply(hdr);
    var b := Enc(Map(hdr)) + Enc(Map([]));
    ParseInverts(Map(hdr), Enc(Map([])));
    ParseInverts(Map([]), []);
    assert Enc(Map([])) + [] == Enc(Map([]));
    ReadersApartExactly(b, hdr, [], 5);
  }

  lemma UnknownKeyReply(hdr: seq<Mp>)
    requires hdr == [UInt(TNT_CODE), UInt(TNT_OK), UInt(TNT_SYNC), UInt(5), UInt(7), Str([120])]
    ensures WF(Map(hdr)) && WF(Map([])) && UIntsBelow(hdr, 3) && Numbered(hdr) && !Numeric(hdr)
    ensures LastOf(hdr, TNT_SYNC) == Some(UInt(5)) && LastOf(hdr, TNT_CODE) == Some(UInt(TNT_OK))
    ensures ToPhp(Map(hdr)).Some? && ToPhp(Map([])).Some?
  {
    hide ToPhp, Last;
    assert hdr[2 * 2 + 1].Str?;
    UnknownKeyLast(hdr);
    UnknownKeyUnpacks(hdr);
  }

  lemma UnknownKeyUnpacks(hdr: seq<Mp>)
    requires |hdr| == 6 && UIntsBelow(hdr, 3) && hdr[1].UInt? && hdr[3].UInt? && hdr[5].Str?
    ensures ToPhp(Map(hdr)).Some? && ToPhp(Map([])).Some?
  {
    hide HashFrom;
    forall i | 0 <= i < 3
      ensures hdr[2 * i + 1].UInt? || hdr[2 * i + 1].Str?
    {
    }
    PairsUnpack(hdr, 3);
    PairsUnpack([], 0);
  }

  lemma UnknownKeyLast(hdr: seq<Mp>)
    requires hdr == [UInt(TNT_CODE), UInt(TNT_OK), UInt(TNT_SYNC), UInt(5), UInt(7), Str([120])]
    ensures Last(hdr, TNT_SYNC, 3) == Some(UInt(5)) && Last(hdr, TNT_CODE, 3) == Some(UInt(TNT_OK))
  {
    assert Last(hdr, TNT_CODE, 1) == Some(UInt(TNT_OK)) && Last(hdr, TNT_CODE, 2) == Last(hdr, TNT_CODE, 1);
    assert Last(hdr, TNT_SYNC, 2) == Some(UInt(5)) && Last(hdr, TNT_SYNC, 3) == Last(hdr, TNT_SYNC, 2);
  }
}
