/**
 * The connection of the client: on demand connecting and authenticating, fetches of the catalogues,
 * and data calls, over streams that may fail at any point. Requests are known by their payloads.
 */
module Connection {
  import opened Bytes
  import opened Wire
  import opened Php
  import opened Unpacking
  import opened Protocol
  import opened Response
  import opened Network
  import opened TpCapacity
  import opened TpWriter
  import opened Calls
  import Updates
  import opened SchemaTables
  import opened Schema
  import opened SchemaCache

  // ---------------------------------------------------------------- sync numbers

  /** The sync in the header of a request. */
  function RequestSync(p: bytes): Option<nat> {
    match Parse(p)
    case Ok(Map(kvs), _) =>
      (match LastOf(kvs, TNT_SYNC)
       case Some(UInt(n)) => Some(n)
       case _ => None)
    case _ => None
  }

  lemma HeaderSync(p: bytes, code: u32, sync: u32, rest: bytes)
    requires Parse(p) == Ok(HeaderTree(code, sync), rest)
    ensures RequestSync(p) == Some(sync)
  {
    hide Parse;
    var kvs := HeaderTree(code, sync).kvs;
    assert Last(kvs, TNT_SYNC, 2) == Some(UInt(sync));
  }

  lemma PayloadSync(code: u32, sync: u32, body: seq<Mp>)
    requires AllWF(body)
    ensures RequestSync(CallPayload(code, sync, body)) == Some(sync)
  {
    hide Parse, RequestSync, Enc, EncSeq, WF;
    ParseInverts(HeaderTree(code, sync), EncSeq(body));
    HeaderSync(CallPayload(code, sync, body), code, sync, EncSeq(body));
  }

  lemma TpSync(r: TpRequest, body: Mp)
    requires r.code < 0x80 && WF(body) && r.tail == Enc(body)
    ensures RequestSync(TpPayload(r)) == Some(r.sync)
  {
    hide Parse, RequestSync, Enc;
    TpDecodes(r, body);
    HeaderSync(TpPayload(r), r.code, r.sync, r.tail);
  }

  /** A reply whose header can be read at all says which request it is for. */
  ghost predicate Carries(p: bytes, sync: nat) {
    Parse(p).Ok? && (Parse(p).v.Map? || Parse(p).v.Arr?) ==>
      && Parse(p).v.Map? && UIntsBelow(Parse(p).v.kvs, |Parse(p).v.kvs| / 2)
      && LastOf(Parse(p).v.kvs, TNT_SYNC) == Some(UInt(sync))
  }

  /** All that is asked of the server; its replies may be errors or not be readable. */
  ghost predicate Honest(answer: Replier) {
    forall session: nat, requests: seq<bytes> :: requests != [] ==>
      && |answer(session, requests)| < TWO_32
      && var sync := RequestSync(requests[|requests| - 1]);
         sync.Some? ==> Carries(answer(session, requests), sync.value)
  }

  /** The reply to another request is refused, and the connection with it. */
  lemma OtherSyncCloses(p: bytes, other: nat, sync: nat)
    requires Carries(p, other) && other != sync && other < TWO_32
    ensures StepRecv(p, sync).Closed?
  {
    hide Parse, HashFrom, Last, ListFrom;
    if Parse(p).Ok? && Parse(p).v.Map? && ToPhp(Parse(p).v).Some? {
      var kvs := Parse(p).v.kvs;
      HashKeepsLast(kvs, |kvs| / 2, TNT_SYNC);
      UIntToPhp(other);
    }
  }

  lemma {:induction false} BodyKeepsSync(r: Resp, kvs: seq<Mp>, own: seq<bytes>, i: nat)
    requires 2 * i <= |kvs| == |own|
    ensures BodyFold(r, kvs, own, i).Some? ==> BodyFold(r, kvs, own, i).value.sync == r.sync
    decreases i
  {
    if i > 0 { BodyKeepsSync(r, kvs, own, i - 1); }
  }

  lemma StreamCarries(p: bytes, sync: nat)
    requires Carries(p, sync) && sync < TWO_32 && StreamReply(p).Ok?
    ensures StreamReply(p).v.sync == sync
  {
    hide Parse, Last, Slices, ParseSeq, HeaderFold, BodyFold, UIntsBelow;
    var hdr := Parse(p).v.kvs;
    HeaderKeepsLast(hdr, |hdr| / 2);
    var r, rest := HeaderFold(hdr, |hdr| / 2).value, Parse(p).rest;
    MapParsed(rest);
    var bdy := Parse(rest).v.kvs;
    BodyKeepsSync(r, bdy, Slices(MapBody(rest).value, |bdy|), |bdy| / 2);
  }

  // ---------------------------------------------------------------- sizes of catalogue requests

  lemma {:induction false} UIntsSmall(ms: seq<Mp>)
    requires forall i :: 0 <= i < |ms| ==> ms[i].UInt? && ms[i].n < TWO_64
    ensures AllWF(ms) && |EncSeq(ms)| <= 9 * |ms|
  {
    if ms != [] {
      UIntsSmall(ms[1..]);
      assert |Enc(ms[0])| <= 9;
    }
  }

  lemma OneSmall(m: Mp)
    requires WF(m) && (m.UInt? || m.Str?)
    ensures |Enc(m)| <= 9 + (if m.Str? then |m.s| else 0)
  {
  }

  const NAME_LIMIT: int := TWO_32 - 0x400

  /** One name or number, or a number and a name: short enough for one frame. */
  predicate FetchKey(key: seq<Mp>) {
    && |key| <= 2
    && (forall m :: m in key ==> (m.UInt? || m.Str?) && WF(m))
    && (|key| == 1 && key[0].Str? ==> |key[0].s| < NAME_LIMIT)
    && (|key| == 2 ==> key[0].UInt? && key[1].Str? && |key[1].s| < NAME_LIMIT)
  }

  lemma FetchSmall(space: u32, index: u32, key: seq<Mp>)
    requires FetchKey(key)
    ensures AllWF(key) && WF(SelectTree(space, index, 0, FETCH_LIMIT, key))
    ensures |Enc(SelectTree(space, index, 0, FETCH_LIMIT, key))| < TWO_32 - 0x200
  {
    hide Enc, EncSeq, WF;
    KeysWF(key);
    SelectTail(space, index, 0, FETCH_LIMIT, key);
    FrontSmall(space, index);
    KeySmall(key);
    assert |EncHead(TMap(5))| == 1 && |EncHead(TArr(|key|))| == 1;
  }

  lemma FrontSmall(space: u32, index: u32)
    ensures AllWF(SelectFront(space, index, 0, FETCH_LIMIT))
            && |EncSeq(SelectFront(space, index, 0, FETCH_LIMIT))| <= 81
  {
    UIntsSmall(SelectFront(space, index, 0, FETCH_LIMIT));
  }

  lemma KeySmall(key: seq<Mp>)
    requires FetchKey(key)
    ensures AllWF(key) && |EncSeq(key)| <= NAME_LIMIT + 18
  {
    hide Enc, WF;
    KeysWF(key);
    if |key| > 0 {
      OneSmall(key[0]);
      if |key| == 2 {
        OneSmall(key[1]);
        assert key[1..][0] == key[1] && key[1..][1..] == [];
        assert EncSeq(key[1..]) == Enc(key[1]) + EncSeq([]);
      } else {
        assert key[1..] == [];
      }
    }
  }

  // ---------------------------------------------------------------- calls

  /** Every request fits in a frame, and numbers are what PHP can hold. */
  ghost predicate Sendable(c: DataCall) {
    && Encodable(c)
    && (c.args.Space().Some? ==> SpaceFits(c.args.Space().value))
    && (c.args.Index().IndexName? ==> |c.args.Index().name| < NAME_LIMIT)
    && forall s: u32, i: u32 :: Bodies(c, s, i).Some? ==> |EncSeq(Bodies(c, s, i).value)| < TWO_32 - 0x100
  }

  predicate SpaceFits(arg: SpaceArg) {
    && (arg.SpaceName? ==> |arg.name| < NAME_LIMIT)
    && (arg.SpaceNumber? ==> -TWO_63 <= arg.n < TWO_63)
  }

  /**
   * How a data call ends for its caller. `Broken`: a catalogue request did not fit the buffer it was
   * written to, or was cut short; nothing is said of what the extension does from there on.
   */
  datatype CallResult =
    | Success(data: PVal, body: PVal, request: bytes, sync: u32, space: u32, index: u32)
    | Failure
    | Broken

  /** What a caller is given for an answer: for a ping, that there was one, and else what it has under DATA. */
  predicate Gives(args: Args, body: PVal, data: PVal) {
    if args.Ping? then data == PBool(true) else body.PArr? && Lookup(body.ht, IntKey(0x30)) == Some(data)
  }

  /** What the caller gets of an answer: the DATA of its body, except of a ping. */
  function Returned(args: Args, body: PVal): Option<PVal> {
    if args.Ping? then Some(PBool(true))
    else if body.PArr? then Lookup(body.ht, IntKey(TNT_DATA))
    else None
  }

  /** The answer is to this very request, told by its sync, and the request is the last of its session. */
  ghost predicate Answered(answer: Replier, session: nat, requests: seq<bytes>, request: bytes, sync: u32, body: PVal) {
    && requests != [] && requests[|requests| - 1] == request && RequestSync(request) == Some(sync)
    && StepRecv(answer(session, requests), sync) == Answer(body)
  }

  // ---------------------------------------------------------------- what a session begins with

  /** A login, all spaces and all indexes, under three syncs in a row. */
  ghost predicate LoginRequests(ps: seq<bytes>, login: bytes, scramble: Option<bytes>, sync: nat) {
    && |ps| == 3 && Reads(ps[0], 0x07, sync, Some(Credentials(login, scramble)))
    && Reads(ps[1], 0x01, sync + 1, Some(Tuples(281, 0, []))) && Reads(ps[2], 0x01, sync + 2, Some(Tuples(289, 0, [])))
  }

  /** With a login and a scramble at hand, these three come before everything else. */
  ghost predicate Begun(requests: seq<bytes>, login: Option<bytes>, scramble: Option<bytes>) {
    login.Some? && scramble.Some? ==>
      |requests| >= 3 && exists sync: nat :: LoginRequests(requests[..3], login.value, scramble, sync)
  }

  lemma BegunMore(requests: seq<bytes>, more: seq<bytes>, login: Option<bytes>, scramble: Option<bytes>)
    requires Begun(requests, login, scramble) && requests <= more
    ensures Begun(more, login, scramble)
  {
    hide LoginRequests;
    if login.Some? && scramble.Some? {
      assert more[..3] == requests[..3];
    }
  }

  /** The login has been asked for behind `n` requests, and the cache is what its replies brought. */
  ghost predicate LoggedIn(answer: Replier, session: nat, n: nat, requests: seq<bytes>, login: bytes,
      scramble: Option<bytes>, m: Model) {
    && |requests| == n + 3 && (exists sync: nat :: LoginRequests(requests[n..], login, scramble, sync))
    && exists before: Model :: Catalogued(answer, session, n, requests, before, m)
  }

  // ---------------------------------------------------------------- replies that are of no use

  /** The streaming parser does not accept the reply, or finds an error in it. */
  ghost predicate Useless(p: bytes) {
    ReplyShape(p) ==> StreamReply(p).Fail? || StreamReply(p).v.error.Some?
  }

  ghost predicate NoSpaces(p: bytes, m: Model) {
    Useless(p) || (ReplyShape(p) ==> !SpaceBatch(m, Brought(p)).1)
  }

  ghost predicate NoIndexes(p: bytes, m: Model) {
    Useless(p) || (ReplyShape(p) ==> !IndexBatch(m, Brought(p)).1)
  }

  /** Why a call fails although nothing went wrong with the stream. */
  datatype Cause =
    | Fault
    | NotLoggedIn
    | SpaceUnknown(known: Model)
    | IndexUnknown(space: u32, known: Model)
    | BadOperation
    | Unanswered(space: u32, index: u32, session: nat, asked: seq<bytes>)

  /** Requests waiting in the buffer, all with syncs already used. */
  ghost predicate Queued(ps: seq<bytes>, counter: nat) {
    forall p :: p in ps ==> |p| < TWO_32 && RequestSync(p).Some? && RequestSync(p).value < counter
  }

  /** What the buffer is made for at first: the size of a greeting. */
  const FIRST_ROOM: nat := 128

  class Connection {
    const schema: Cache
    const tps: Tp
    const answer: Replier
    var stream: Stream?
    /** The bytes of the buffer up to its length: requests that could not be sent stay. */
    var value: bytes
    /** The capacity of the buffer. */
    var room: nat
    /** A catalogue request has outgrown the buffer; no further call is described. */
    var broken: bool
    var counter: nat
    var sessions: nat
    /** Streams that could not be opened or were found closed, and what failed in streams of the past. */
    ghost var faults: nat
    var login: Option<bytes>
    var scramble: Option<bytes>
    ghost var backlog: seq<bytes>

    /** Everything but the stream: the buffer holds whole requests, all with syncs already used. */
    ghost predicate Intact()
      reads this, schema, tps
    {
      && Honest(answer) && schema.Valid() && tps.Valid()
      && value == Frames(backlog) && Queued(backlog, counter) && counter <= TWO_32
      && FIRST_ROOM <= room && |value| <= room
      && (login.Some? ==> |login.value| < NAME_LIMIT) && (scramble.Some? ==> |scramble.value| == 20)
    }

    /** Between calls the stream is closed, or nothing is on its way: every request has been answered and read. */
    ghost predicate Valid()
      reads this, schema, tps, stream
    {
      Intact() && (stream != null ==> stream.answer == answer && stream.inbox == [] && stream.session < sessions)
    }

    /** How often the environment has failed this connection. */
    ghost function Faults(): nat
      reads this, stream
    {
      faults + if stream == null then 0 else stream.faults
    }

    /** Faults are counted, and only a fault leaves something waiting. */
    twostate predicate Counted()
      reads this, stream
    {
      old(Faults()) <= Faults() && (Faults() == old(Faults()) && old(backlog) == [] ==> backlog == [])
    }

    /** The stream is closed, or it is the one there was, with all that was asked over it before. */
    twostate predicate KeptStream()
      reads this, stream
    {
      && Counted()
      && (stream == null || (stream == old(stream) && old(stream.requests) <= stream.requests))
    }

    /** Or it is a new one, for a session that has not been before and that begins with the login. */
    twostate predicate KeptOrNewStream()
      reads this, stream
    {
      && old(sessions) <= sessions && Counted()
      && (KeptStream() ||
          (stream != null && fresh(stream) && old(sessions) <= stream.session
           && (!broken ==> Begun(stream.requests, login, scramble))))
    }

    /** The login of a new session was not accepted, or brought no catalogue. */
    ghost predicate LoginRefused(before: Model)
      reads this, stream
    {
      && stream != null && login.Some? && scramble.Some? && |stream.requests| == 3
      && InVain(answer, stream.session, stream.requests, before)
    }

    /** No session could be expected to know the space: it was asked for last, in vain. */
    ghost predicate NoSpace(arg: SpaceArg, known: Model)
      requires schema.Valid()
      reads this, schema, stream
    {
      || arg.BadSpace?
      || (&& SpaceFits(arg) && stream != null && stream.requests != [] && counter > 0 && counter <= TWO_32
          && stream.requests[|stream.requests| - 1] == SpaceRequest(arg, counter - 1)
          && (NoSpaces(answer(stream.session, stream.requests), known) || SpaceCode(schema, arg) == -1))
    }

    ghost predicate NoIndex(space: u32, arg: IndexArg, known: Model)
      requires schema.Valid()
      reads this, schema, stream
    {
      match arg
      case BadIndex => true
      case NoIndex => false
      case IndexNumber(n) => U32(n) == 0xFFFF_FFFF
      case IndexName(name) =>
        && |name| < NAME_LIMIT && stream != null && stream.requests != [] && counter > 0 && counter <= TWO_32
        && stream.requests[|stream.requests| - 1] == IndexRequest(space, name, counter - 1)
        && (NoIndexes(answer(stream.session, stream.requests), known) || schema.IndexAnswer(space, name) == -1)
    }

    constructor (answer: Replier, login: Option<bytes>, scramble: Option<bytes>)
      requires Honest(answer)
      requires (login.Some? ==> |login.value| < NAME_LIMIT) && (scramble.Some? ==> |scramble.value| == 20)
      ensures Valid() && stream == null && this.answer == answer && counter == 0 && !broken
      ensures Faults() == 0 && this.login == login && this.scramble == scramble
      ensures fresh(schema) && fresh(tps)
    {
      schema := new Cache();
      tps := new Tp();
      this.answer := answer;
      stream := null;
      value, broken, counter, sessions, backlog, faults := [], false, 0, 0, [], 0;
      var first: nat :| first >= FIRST_ROOM;
      room := first;
      this.login, this.scramble := login, scramble;
      new;
      assert Frames([]) == [];
    }

    /** `tarantool_stream_send`: on failure the buffer keeps its length. */
    method Transmit() returns (ok: bool)
      requires stream != null && stream.answer == answer && stream.inbox == []
      requires value == Frames(backlog) && forall p :: p in backlog ==> |p| < TWO_32
      modifies `stream, `value, `backlog, `faults, stream
      ensures ok ==>
                && stream == old(stream) && value == [] && backlog == [] && Faults() == old(Faults())
                && stream.requests == old(stream.requests) + old(backlog)
                && stream.inbox == Frames(Replies(answer, stream.session, old(stream.requests), old(backlog)))
      ensures !ok ==> stream == null && value == old(value) && backlog == old(backlog) && Faults() > old(Faults())
    {
      hide SplitFrames, Frames;
      SplitInvertsFrames(backlog);
      ok := stream.Send(value);
      if !ok {
        faults := Faults();
        stream := null;
        return;
      }
      assert [] + stream.inbox == stream.inbox;
      value, backlog := [], [];
    }

    /** `smart_string_ensure`: `n` more bytes fit. */
    method Grow(n: nat)
      modifies `room
      ensures room >= old(room) && |value| + n <= room
    {
      if room > |value| + n {
        return;
      }
      var needed := room * 2;
      if |value| + n > needed {
        needed := |value| + n;
      }
      var grown: nat :| grown >= needed;
      room := grown;
    }

    /** Five bytes of length and the reply they announce; any shortage closes the stream. */
    method Receive(ghost due: seq<bytes>) returns (r: Option<bytes>)
      requires stream != null && due != [] && stream.inbox == Frames(due) && |due[0]| < TWO_32
      modifies `stream, `room, `faults, stream`inbox, stream`faults
      ensures room >= old(room)
      ensures if r.Some? then
                r.value == due[0] && stream == old(stream) && stream.inbox == Frames(due[1..])
                && Faults() == old(Faults())
              else stream == null && Faults() > old(Faults())
    {
      hide PackageSize, Prefix;
      ghost var p, rest := due[0], Frames(due[1..]);
      FrameSplits(p, rest);
      PackageSizeInverts(|p|);
      var head := new byte[5];
      var got := stream.ReadExactly(head, 5);
      if got != 5 {
        faults := Faults();
        stream := null;
        return None;
      }
      CutAt(head[..5], stream.inbox, Frame(p) + rest);
      var size := PackageSize(head[..5]).value;
      Grow(size);
      var buf := new byte[size];
      got := stream.ReadExactly(buf, size);
      if got != size {
        faults := Faults();
        stream := null;
        return None;
      }
      CutAt(buf[..size], stream.inbox, p + rest);
      r := Some(buf[..size]);
    }

    /** A request that has been added to what is waiting goes out, and one reply is read. */
    method Exchange(ghost payload: bytes, sync: u32) returns (body: Option<PVal>)
      requires Valid() && stream != null && RequestSync(payload) == Some(sync) && sync < counter
      requires backlog != [] && backlog[|backlog| - 1] == payload && Queued(backlog[..|backlog| - 1], sync)
      modifies `stream, `value, `room, `backlog, `faults, stream
      ensures Valid() && KeptStream()
      ensures body.Some? ==> stream != null && stream.requests == old(stream.requests) + [payload]
      ensures Faults() == old(Faults()) ==> backlog == []
      ensures body.Some? ==> Answered(answer, stream.session, stream.requests, payload, sync, body.value)
      ensures body.None? && Faults() == old(Faults()) && |old(backlog)| == 1 ==>
                !StepRecv(answer(old(stream).session, old(stream.requests) + [payload]), sync).Answer?
    {
      hide StepRecv, Frames, RequestSync, Cache.Valid, Tp.Valid, Answered, Honest;
      ghost var queue := backlog[..|backlog| - 1];
      assert backlog == queue + [payload];
      var ok := Transmit();
      if !ok {
        return None;
      }
      NoFrames();
      body := StepReceive(sync, queue, payload, old(stream.requests));
    }

    /** `tarantool_step_recv`, after `queue` and one more request have been sent. */
    method StepReceive(sync: u32, ghost queue: seq<bytes>, ghost payload: bytes, ghost was: seq<bytes>)
        returns (body: Option<PVal>)
      requires Intact() && stream != null && stream.answer == answer && stream.session < sessions
      requires value == [] && backlog == []
      requires RequestSync(payload) == Some(sync) && Queued(queue, sync)
      requires stream.requests == was + (queue + [payload])
      requires stream.inbox == Frames(Replies(answer, stream.session, was, queue + [payload]))
      modifies `stream, `room, `faults, stream`inbox, stream`faults
      ensures Valid() && KeptStream()
      ensures body.Some? ==> stream != null && stream.requests == was + [payload]
      ensures body.Some? ==> Answered(answer, stream.session, stream.requests, payload, sync, body.value)
      ensures body.None? && Faults() == old(Faults()) && queue == [] ==>
                !StepRecv(answer(old(stream).session, was + [payload]), sync).Answer?
    {
      hide Parse, Frames, StepRecv, RequestSync, Cache.Valid, Tp.Valid, Carries, Answered, Honest, Queued;
      ghost var due := Replies(answer, stream.session, was, queue + [payload]);
      FirstReply(answer, stream.session, was, queue + [payload]);
      if queue == [] {
        assert queue + [payload] == [payload];
      }
      var p := Receive(due);
      if p.None? {
        return None;
      }
      var o: Outcome;
      if Parse(p.value).Ok? && Parse(Parse(p.value).rest).Ok? {
        o := ReceiveStep(p.value, sync);
      } else {
        o := StepRecv(p.value, sync);
      }
      if o.Closed? {
        faults := Faults();
        stream := null;
        return None;
      }
      SoleReply(answer, stream.session, was, queue, payload, sync);
      assert due[1..] == [];
      NoFrames();
      if o.Answer? {
        body := Some(o.body);
        OwnAnswer(answer, stream.session, was, payload, sync, o.body);
      } else {
        body := None;
      }
    }

    /** `php_tp_response`, which reads a reply of another shape as anything. */
    method ParseReply(p: bytes) returns (r: Option<Resp>)
      ensures ReplyShape(p) ==> r == if StreamReply(p).Ok? then Some(StreamReply(p).v) else None
    {
      if ReplyShape(p) {
        var resp, offset := TpResponse(p);
        r := if offset == -1 then None else Some(resp);
        RestShorter(p);
      } else {
        r := *;
      }
    }

    /** A catalogue request goes out from the start of the buffer, and its reply is read unchecked. */
    method FetchReply(ghost request: bytes) returns (data: Option<bytes>)
      requires Valid() && stream != null && tps.fate.Fine? && tps.All() == [request] && tps.a >= room
      requires Queued([request], counter)
      modifies `stream, `value, `room, `backlog, `faults, stream
      ensures Valid() && KeptStream()
      ensures data.Some? || Faults() == old(Faults()) ==>
                && stream != null && stream.requests == old(stream.requests) + [request]
                && if data.Some? then OwnReply(answer(stream.session, stream.requests), data.value)
                   else Useless(answer(stream.session, stream.requests))
    {
      hide Frames, RequestSync, Cache.Valid, Tp.Valid, Tp.All, OwnReply, Honest, Queued;
      var ok := SendComposed([request]);
      if ok {
        data := ReadReply(request, old(stream.requests));
      } else {
        data := None;
      }
    }

    /** The reply that is read next is taken to be the reply to the last request, and it is. */
    method ReadReply(ghost request: bytes, ghost was: seq<bytes>) returns (data: Option<bytes>)
      requires Intact() && stream != null && stream.answer == answer && stream.session < sessions
      requires value == [] && backlog == []
      requires stream.requests == was + [request]
      requires stream.inbox == Frames(Replies(answer, stream.session, was, [request]))
      modifies `stream, `room, `faults, stream`inbox, stream`faults
      ensures Valid() && KeptStream()
      ensures data.Some? || Faults() == old(Faults()) ==>
                && stream != null
                && if data.Some? then OwnReply(answer(stream.session, stream.requests), data.value)
                   else Useless(answer(stream.session, stream.requests))
    {
      hide Frames, Cache.Valid, Tp.Valid, ReplyShape, StreamReply, Carries, Honest, Queued, RequestSync;
      ghost var due := Replies(answer, stream.session, was, [request]);
      FirstReply(answer, stream.session, was, [request]);
      NoFrames();
      var p := Receive(due);
      if p.None? {
        return None;
      }
      assert due[1..] == [];
      var resp := ParseReply(p.value);
      if resp.None? || resp.value.error.Some? {
        return None;
      }
      data := Some(DataOf(resp.value));
    }

    /**
     * One select from a catalogue, with the next sync, unless the buffer it is written to gives out.
     * That does not happen to a request that fits the buffer, and never where `Fits` holds.
     */
    method Fetch(space: u32, index: u32, key: seq<Mp>) returns (data: Option<bytes>)
      requires Valid() && !broken && stream != null && counter < TWO_32 && FetchKey(key)
      modifies `stream, `value, `room, `broken, `backlog, `counter, `faults, stream, tps
      ensures Valid() && counter == old(counter) + 1 && KeptStream()
      ensures broken <==> !tps.fate.Fine?
      ensures AllWF(key)
      ensures Sum(FetchSizes(space, index, key)) <= old(room) ==> !broken
      ensures Fits(old(room), |old(value)|, 0, FetchSizes(space, index, key)) ==> !tps.fate.Overrun?
      ensures Survives(old(room), |old(value)|, 0, FetchSizes(space, index, key)) ==> !broken || tps.fate.Refused?
      ensures data.Some? || (!broken && Faults() == old(Faults())) ==>
                && stream != null && !broken
                && stream.requests == old(stream.requests) + [FetchPayload(space, index, key, old(counter))]
                && if data.Some? then OwnReply(answer(stream.session, stream.requests), data.value)
                   else Useless(answer(stream.session, stream.requests))
    {
      hide Cache.Valid, RequestSync, Enc, TpPayload, Frames, Frame, OwnReply, Honest, Through, FetchSizes, Fits,
           Survives, Queued, SelectTree;
      FetchSmall(space, index, key);
      tps.Update(room, |value|);
      tps.Fetch(space, index, key, counter);
      RequestThrough(room, |value|, FetchSizes(space, index, key), tps.Now());
      counter := counter + 1;
      MoreQueued(backlog, counter - 1, counter);
      if !tps.fate.Fine? {
        broken := true;
        return None;
      }
      TpSync(tps.open.value, SelectTree(space, index, 0, FETCH_LIMIT, key));
      OneQueued(TpPayload(tps.open.value), counter);
      data := FetchReply(TpPayload(tps.open.value));
    }

    /**
     * `get_spaceno_by_name`. A space the cache knows costs nothing; otherwise the answer is what the
     * cache holds once the reply to one fetch has been added to it.
     */
    method GetSpaceNo(arg: SpaceArg) returns (r: int)
      requires Valid() && !broken && stream != null && counter < TWO_32 && SpaceFits(arg)
      modifies `stream, `value, `room, `broken, `backlog, `counter, `faults, stream, schema, tps
      ensures Valid() && old(counter) <= counter <= old(counter) + 1
      ensures KeptStream() && (stream == null ==> r == -1)
      ensures !arg.BadSpace? && old(SpaceCode(schema, arg)) != -1 ==>
                && r == old(SpaceCode(schema, arg)) && !broken && counter == old(counter) && value == old(value)
                && schema.spaces == old(schema.spaces) && schema.model == old(schema.model)
                && stream != null && stream.requests == old(stream.requests)
      ensures r != -1 ==> !arg.BadSpace? && !broken && r == SpaceCode(schema, arg)
      ensures r != -1 && old(SpaceCode(schema, arg)) == -1 ==>
                && stream.requests == old(stream.requests) + [SpaceRequest(arg, old(counter))]
                && LearnedSpaces(answer(stream.session, stream.requests), old(schema.model), schema.model)
      ensures broken ==> !arg.BadSpace? && SpaceRoom(arg) > old(room)
      ensures r == -1 && !broken && Faults() == old(Faults()) ==> NoSpace(arg, old(schema.model))
    {
      hide Valid, Intact, SpaceCode, SpaceRequest, SpaceRoom, LearnedSpaces, Cache.Valid;
      if arg.BadSpace? {
        return -1;
      }
      r := Look(arg);
      if r != -1 {
        return;
      }
      var ok := FetchSpace(arg);
      r := -1;
      if ok {
        r := Look(arg);
      }
    }

    /** A space the cache does not know is fetched and added. */
    method FetchSpace(arg: SpaceArg) returns (ok: bool)
      requires Valid() && !broken && stream != null && counter < TWO_32 && SpaceFits(arg) && !arg.BadSpace?
      modifies `stream, `value, `room, `broken, `backlog, `counter, `faults, stream, schema, tps
      ensures Valid() && counter == old(counter) + 1 && KeptStream()
      ensures ok || (!broken && Faults() == old(Faults())) ==>
                && stream != null && !broken
                && stream.requests == old(stream.requests) + [SpaceRequest(arg, old(counter))]
                && var p := answer(stream.session, stream.requests);
                   if ok then LearnedSpaces(p, old(schema.model), schema.model) else NoSpaces(p, old(schema.model))
      ensures broken ==> SpaceRoom(arg) > old(room)
    {
      hide Cache.Valid, Tp.Valid, RequestSync, Frames, SpaceBatch, Honest, Queued, FetchSizes, FetchPayload, Fits,
           Survives, OwnReply, FetchKey, LearnedSpaces, AllWF;
      SpaceKeyFits(arg);
      var data := Fetch(SPACE_SPACE, SpaceIndex(arg), SpaceKey(arg));
      if data.None? {
        return false;
      }
      ok := schema.AddSpaces(data.value);
      if !ok {
        SpacesOfNoUse(answer(stream.session, stream.requests), data.value, old(schema.model));
      } else {
        Learned(answer(stream.session, stream.requests), data.value, old(schema.model), schema.model);
      }
    }

    lemma CacheValid()
      requires Valid()
      ensures schema.Valid()
    {
      hide Cache.Valid;
    }

    method Look(arg: SpaceArg) returns (r: int)
      requires Valid() && !arg.BadSpace?
      ensures schema.Valid() && r == SpaceCode(schema, arg)
    {
      hide View, State, Cache.NameAnswer;
      if arg.SpaceNumber? {
        r := schema.GetSidByNumber(U32(arg.n));
      } else {
        r := schema.GetSidByString(arg.name);
      }
    }

    /** `get_indexno_by_name`, the same for an index; a number is taken as an `int`. */
    method GetIndexNo(space: u32, arg: IndexArg) returns (r: int)
      requires Valid() && !broken && stream != null && counter < TWO_32 && (arg.IndexName? ==> |arg.name| < NAME_LIMIT)
      modifies `stream, `value, `room, `broken, `backlog, `counter, `faults, stream, schema, tps
      ensures Valid() && old(counter) <= counter <= old(counter) + 1
      ensures KeptStream() && (stream == null ==> r == -1)
      ensures schema.Valid() && old(schema.Valid()) && schema.spaces == old(schema.spaces)
      ensures forall key: bytes :: schema.NameAnswer(key) == old(schema.NameAnswer(key))
      ensures !arg.BadIndex? && old(IndexCode(schema, space, arg)) != -1 ==>
                && r == old(IndexCode(schema, space, arg)) && !broken && counter == old(counter) && value == old(value)
                && schema.indexes == old(schema.indexes) && schema.model == old(schema.model)
                && stream != null && stream.requests == old(stream.requests)
      ensures r != -1 ==> !arg.BadIndex? && !broken && r == IndexCode(schema, space, arg)
      ensures r != -1 && old(IndexCode(schema, space, arg)) == -1 ==>
                && arg.IndexName?
                && stream.requests == old(stream.requests) + [IndexRequest(space, arg.name, old(counter))]
                && LearnedIndexes(answer(stream.session, stream.requests), old(schema.model), schema.model)
      ensures broken ==> arg.IndexName? && IndexRoom(space, arg.name) > old(room)
      ensures r == -1 && !broken && Faults() == old(Faults()) ==> NoIndex(space, arg, old(schema.model))
    {
      hide Valid, Intact, IndexRequest, IndexRoom, LearnedIndexes, Cache.IndexAnswer, Cache.Valid, SchemaCache.Answer;
      CacheValid();
      match arg
      case NoIndex => return 0;
      case IndexNumber(n) => return ToInt32(U32(n));
      case BadIndex => return -1;
      case IndexName(name) =>
        r := schema.GetIidByString(space, name);
        if r != -1 {
          return;
        }
        var ok := FetchIndex(space, name);
        CacheValid();
        r := -1;
        if ok {
          r := schema.GetIidByString(space, name);
        }
    }

    /** An index the cache does not know is fetched and added. */
    method FetchIndex(space: u32, name: bytes) returns (ok: bool)
      requires Valid() && !broken && stream != null && counter < TWO_32 && |name| < NAME_LIMIT
      modifies `stream, `value, `room, `broken, `backlog, `counter, `faults, stream, schema, tps
      ensures Valid() && counter == old(counter) + 1 && KeptStream()
      ensures schema.spaces == old(schema.spaces)
      ensures ok || (!broken && Faults() == old(Faults())) ==>
                && stream != null && !broken
                && stream.requests == old(stream.requests) + [IndexRequest(space, name, old(counter))]
                && var p := answer(stream.session, stream.requests);
                   if ok then LearnedIndexes(p, old(schema.model), schema.model) else NoIndexes(p, old(schema.model))
      ensures broken ==> IndexRoom(space, name) > old(room)
    {
      hide Cache.Valid, Tp.Valid, RequestSync, Frames, IndexBatch, Honest, Queued, FetchSizes, FetchPayload, Fits,
           Survives, OwnReply, FetchKey, LearnedIndexes, AllWF;
      IndexKeyFits(space, name);
      var data := Fetch(SPACE_INDEX, INDEX_INDEX_NAME, IndexKey(space, name));
      if data.None? {
        return false;
      }
      ok := schema.AddIndexes(data.value);
      if !ok {
        IndexesOfNoUse(answer(stream.session, stream.requests), data.value, old(schema.model));
      } else {
        LearnedToo(answer(stream.session, stream.requests), data.value, old(schema.model), schema.model);
      }
    }

    /**
     * `__tarantool_authenticate`: three requests at once, and all three replies are read unless the
     * stream fails or the requests do not fit the buffer.
     */
    method Authenticate() returns (ok: bool)
      requires Valid() && !broken && stream != null && login.Some? && counter + 3 <= TWO_32
      modifies `stream, `value, `room, `broken, `backlog, `counter, `faults, stream, schema, tps
      ensures Valid() && counter == old(counter) + 3 && KeptStream()
      ensures ok ==> stream != null && !broken
      ensures !broken && Faults() == old(Faults()) ==> stream != null
      ensures stream != null && !broken ==>
                var n := |old(stream.requests)|;
                && |stream.requests| == n + 3 && old(stream.requests) <= stream.requests
                && LoginRequests(stream.requests[n..], login.value, scramble, old(counter))
                && Settled(answer, stream.session, n, stream.requests, old(schema.model), schema.model, ok)
      ensures LoginRoom(login.value, scramble) <= old(room) ==> !broken
    {
      hide LoginRequests, Works, AllShaped, LastThree, Cache.Valid, Tp.Valid, Tp.All, RequestSync, Frames, Honest, Fed,
           Queued, AuthSizes;
      schema.Flush();
      var syncs: seq<u32> := [counter, counter + 1, counter + 2];
      ghost var sent;
      ok, sent := AskThree(syncs);
      if !ok {
        return;
      }
      ghost var was := old(stream.requests);
      assert (was + sent)[|was|..] == sent;
      ok := Drain(syncs, sent, was);
      if stream != null {
        RepliesAre(answer, stream.session, was, sent);
      }
    }

    method AskThree(syncs: seq<u32>) returns (ok: bool, ghost sent: seq<bytes>)
      requires Valid() && !broken && stream != null && login.Some? && counter + 3 <= TWO_32
      requires syncs == [counter, counter + 1, counter + 2]
      modifies `stream, `value, `room, `broken, `backlog, `counter, `faults, stream, tps
      ensures Intact() && counter == old(counter) + 3 && KeptStream()
      ensures !ok ==> if broken then Valid() && stream != null else stream == null
      ensures LoginRoom(login.value, scramble) <= old(room) ==> !broken
      ensures !broken && Faults() == old(Faults()) ==> ok
      ensures ok ==>
                && !broken && Faults() == old(Faults())
                && |sent| == 3 && LoginRequests(sent, login.value, scramble, old(counter))
                && (forall k :: 0 <= k < 3 ==> RequestSync(sent[k]) == Some(syncs[k]))
                && stream != null && stream.answer == answer && stream.session < sessions
                && value == [] && backlog == []
                && stream.requests == old(stream.requests) + sent
                && stream.inbox == Frames(Replies(answer, stream.session, old(stream.requests), sent))
    {
      hide Intact, LoginRequests, Tp.Valid, Tp.All, RequestSync, Frames, Frame, Queued;
      ok, sent := WriteThree(syncs);
      if ok {
        ok := SendComposed(sent);
      }
    }

    /** The three requests are composed in the room of the buffer. */
    method WriteThree(syncs: seq<u32>) returns (ok: bool, ghost sent: seq<bytes>)
      requires Valid() && !broken && stream != null && login.Some? && counter + 3 <= TWO_32
      requires syncs == [counter, counter + 1, counter + 2]
      modifies `broken, `counter, tps
      ensures Valid() && counter == old(counter) + 3 && ok == !broken
      ensures LoginRoom(login.value, scramble) <= old(room) ==> !broken
      ensures ok ==>
                && tps.fate.Fine? && tps.All() == sent && tps.a >= room && Queued(sent, counter)
                && |sent| == 3 && LoginRequests(sent, login.value, scramble, old(counter))
                && (forall k :: 0 <= k < 3 ==> RequestSync(sent[k]) == Some(syncs[k]))
    {
      hide LoginRequests, Cache.Valid, Tp.Valid, Tp.All, RequestSync, Frames, Frame, Honest, Queued, AuthSizes, Fits,
           Survives;
      tps.Update(room, |value|);
      Compose(counter);
      counter := counter + 3;
      MoreQueued(backlog, counter - 3, counter);
      sent := tps.All();
      ok := tps.fate.Fine?;
      if ok {
        AllQueued(sent, syncs, old(counter));
      } else {
        broken := true;
      }
    }

    /** What has been composed goes out, from the start of the buffer. */
    method SendComposed(ghost sent: seq<bytes>) returns (ok: bool)
      requires Valid() && stream != null && tps.fate.Fine? && tps.All() == sent && tps.a >= room
               && Queued(sent, counter)
      modifies `stream, `value, `room, `backlog, `faults, stream
      ensures Intact() && KeptStream()
      ensures if ok then Faults() == old(Faults()) else stream == null && Faults() > old(Faults())
      ensures ok ==>
                && stream != null && stream.answer == answer && stream.session < sessions
                && value == [] && backlog == []
                && stream.requests == old(stream.requests) + sent
                && stream.inbox == Frames(Replies(answer, stream.session, old(stream.requests), sent))
    {
      hide Cache.Valid, Tp.Valid, Tp.All, RequestSync, Frames, Honest;
      TpInside();
      tps.WholeFrames();
      value, room, backlog := tps.written, tps.a, sent;
      ok := Transmit();
      NoFrames();
    }

    /** A whole request is inside the buffer. */
    lemma TpInside()
      requires tps.Valid() && tps.fate.Fine?
      ensures |tps.written| <= tps.a
    {
    }

    /** The requests of an authentication: the login, all spaces and all indexes. */
    method Compose(first: nat)
      requires tps.Valid() && first + 3 <= TWO_32 && login.Some? && |login.value| < NAME_LIMIT
      requires scramble.Some? ==> |scramble.value| == 20
      requires tps.Now() == Status(Updated(tps.a, tps.len), Fine) && tps.open.None?
      modifies tps
      ensures tps.Valid() && tps.a >= old(tps.a)
      ensures Fits(old(tps.a), old(tps.len), 0, AuthSizes(login.value, scramble)) ==> !tps.fate.Overrun?
      ensures Survives(old(tps.a), old(tps.len), 0, AuthSizes(login.value, scramble)) ==>
                tps.fate.Fine? || tps.fate.Refused?
      ensures LoginRoom(login.value, scramble) <= old(tps.a) ==> tps.fate.Fine?
      ensures tps.fate.Fine? ==>
                && |tps.All()| == 3 && LoginRequests(tps.All(), login.value, scramble, first)
                && forall k :: 0 <= k < 3 ==> |tps.All()[k]| < TWO_32 && RequestSync(tps.All()[k]) == Some(first + k)
    {
      hide Reads, Credentials, Tuples, RequestSync, Enc, TpPayload, Frames, Frame, Through, FetchSizes, Fits, Survives,
           AuthTree, WF;
      ghost var a, len, start := tps.a, tps.len, tps.Now();
      AuthSmall(login.value, scramble);
      tps.Auth(login.value, scramble);
      tps.ReqId(first);
      ghost var middle := tps.Now();
      if tps.fate.Fine? {
        TpSync(tps.open.value, AuthTree(login.value, scramble));
        AuthReads(login.value, scramble, first);
      }
      FetchAll(SPACE_SPACE, first + 1);
      ghost var spaces := FetchSizes(SPACE_SPACE, 0, []);
      ghost var auth: nat := HEADER_SIZE + |Enc(AuthTree(login.value, scramble))|;
      ThroughBoth(start, [auth], middle, spaces, tps.Now());
      middle := tps.Now();
      FetchAll(SPACE_INDEX, first + 2);
      ThroughBoth(start, [auth] + spaces, middle, FetchSizes(SPACE_INDEX, 0, []), tps.Now());
      RequestThrough(a, len, AuthSizes(login.value, scramble), tps.Now());
      LoginTotal(login.value, scramble);
    }

    /** All tuples of a catalogue, behind the requests composed so far. */
    method FetchAll(space: u32, sync: u32)
      requires tps.Valid()
      modifies tps
      ensures tps.Valid() && Through(old(tps.Now()), FetchSizes(space, 0, []), tps.Now()) && tps.a >= old(tps.a)
      ensures tps.fate.Fine? ==>
                && old(tps.fate).Fine? && |tps.All()| == |old(tps.All())| + 1 && old(tps.All()) <= tps.All()
                && var p := tps.All()[|tps.All()| - 1];
                   |p| < TWO_32 && RequestSync(p) == Some(sync) && Reads(p, 0x01, sync, Some(Tuples(space, 0, [])))
    {
      hide Reads, Tuples, RequestSync, Enc, TpPayload, Frames, Frame, Through, FetchSizes, SelectTree, WF;
      FetchSmall(space, 0, []);
      tps.Fetch(space, 0, [], sync);
      if tps.fate.Fine? {
        TpSync(tps.open.value, SelectTree(space, 0, 0, FETCH_LIMIT, []));
        FetchReads(space, 0, [], sync);
      }
    }

    /** The three replies; after a failure the others are only read. */
    method Drain(syncs: seq<u32>, ghost sent: seq<bytes>, ghost was: seq<bytes>) returns (ok: bool)
      requires Intact() && stream != null && stream.answer == answer && stream.session < sessions
      requires value == [] && backlog == []
      requires |syncs| == |sent| == 3 && syncs[0] != syncs[1] && syncs[0] != syncs[2] && syncs[1] != syncs[2]
      requires forall k :: 0 <= k < 3 ==> RequestSync(sent[k]) == Some(syncs[k])
      requires stream.requests == was + sent && stream.inbox == Frames(Replies(answer, stream.session, was, sent))
      modifies `stream, `room, `faults, stream`inbox, stream`faults, schema
      ensures Valid() && KeptStream() && (Faults() == old(Faults()) ==> stream != null)
      ensures ok ==> stream != null
      ensures stream != null ==>
                var r := Replies(answer, stream.session, was, sent);
                && stream.requests == was + sent
                && if ok then Fed(old(schema.model), schema.model, r, 3)
                   else AllShaped(r) ==> !Works(old(schema.model), r)
    {
      hide Cache.Valid, Tp.Valid, RequestSync, Frames, Frame, Honest, Queued, StreamReply, ReplyShape, Carries, Fed,
           FeedStep;
      ghost var due := Replies(answer, stream.session, was, sent);
      ok := true;
      assert due[0..] == due;
      NotFed(schema.model, due);
      for i := 0 to 3
        invariant schema.Valid() && room >= old(room) && stream != null && stream == old(stream)
                  && stream.inbox == Frames(due[i..])
        invariant stream.requests == was + sent && Faults() == old(Faults())
        invariant if ok then Fed(old(schema.model), schema.model, due, i)
                  else AllShaped(due) ==> !Works(old(schema.model), due)
      {
        ReplyAt(answer, stream.session, was, sent, i);
        var p := Receive(due[i..]);
        if p.None? {
          return false;
        }
        assert due[i..][1..] == due[i + 1..];
        if ok {
          var resp := ParseReply(p.value);
          if resp.None? || resp.value.error.Some? {
            ok := false;
            NotWorking(old(schema.model), due, i);
          } else {
            ghost var before := schema.model;
            ok := Feed(resp.value, syncs);
            if !ok {
              FedNoMore(old(schema.model), before, due, i, resp.value, syncs);
            } else {
              FedMore(old(schema.model), before, schema.model, due, i, resp.value, syncs);
            }
          }
        }
      }
      NoFrames();
      assert due[3..] == [];
    }

    /** A reply is told by its sync. */
    method Feed(r: Resp, syncs: seq<u32>) returns (ok: bool)
      requires schema.Valid() && |syncs| == 3 && syncs[1] != syncs[2]
      modifies schema
      ensures schema.Valid()
      ensures if ok then FeedStep(old(schema.model), schema.model, r, syncs)
              else FeedFails(old(schema.model), r, syncs)
    {
      hide State, SpaceBatch, IndexBatch;
      if r.sync == syncs[1] {
        ok := schema.AddSpaces(DataOf(r));
      } else if r.sync == syncs[2] {
        ok := schema.AddIndexes(DataOf(r));
      } else {
        ok := true;
      }
    }

    /** A stream for another session, if the server can be reached. */
    method Open() returns (ok: bool)
      requires Valid() && stream == null
      modifies `stream, `sessions, `faults
      ensures Valid() && sessions >= old(sessions)
      ensures if ok then
                && stream != null && fresh(stream) && stream.requests == [] && stream.session == old(sessions)
                && Faults() == old(Faults())
              else stream == null && Faults() > old(Faults())
    {
      hide Cache.Valid, Tp.Valid, Honest, Queued, Frames;
      ok := *;
      if !ok {
        faults := faults + 1;
        return;
      }
      stream := new Stream(sessions, answer);
      sessions := sessions + 1;
    }

    /** `__tarantool_connect`, from a greeting that is complete and verified: a new session, logged in. */
    method Connect() returns (ok: bool)
      requires Valid() && !broken && stream == null && counter + 3 <= TWO_32
      modifies `stream, `value, `room, `broken, `backlog, `counter, `sessions, `faults, schema, tps
      ensures Valid() && old(counter) <= counter <= old(counter) + 3
      ensures KeptOrNewStream()
      ensures (ok ==> stream != null && !broken) && (stream != null ==> fresh(stream))
      ensures !broken && Faults() == old(Faults()) ==> stream != null
      ensures ok && login.Some? && scramble.Some? ==>
                && |stream.requests| == 3 && LoginRequests(stream.requests, login.value, scramble, old(counter))
                && Catalogued(answer, stream.session, 0, stream.requests, old(schema.model), schema.model)
      ensures ok && !(login.Some? && scramble.Some?) ==> stream.requests == [] && schema.model == old(schema.model)
      ensures !ok && !broken && Faults() == old(Faults()) ==> LoginRefused(old(schema.model))
      ensures ShortLogin(login, scramble) ==> !broken
    {
      hide Valid, Intact, Catalogued, LoginRequests, InVain;
      ok := Open();
      if ok && login.Some? && scramble.Some? {
        if ShortLogin(login, scramble) {
          ShortLoginFits(login.value, scramble);
          RoomEnough();
        }
        ok := Authenticate();
        if stream != null && !broken {
          assert stream.requests[0..] == stream.requests && stream.requests[..3] == stream.requests;
        }
      }
    }

    /** What every data call begins with. */
    method ConnectOnDemand() returns (ok: bool)
      requires Valid() && !broken && counter + 6 <= TWO_32
      modifies `stream, `value, `room, `broken, `backlog, `counter, `sessions, `faults, schema, tps
      ensures Valid() && old(counter) <= counter <= old(counter) + 6
      ensures KeptOrNewStream()
      ensures ok ==> stream != null && !broken
      ensures !broken && Faults() == old(Faults()) ==> stream != null
      ensures ok && stream != old(stream) ==> fresh(stream) && NewSession()
      ensures ok && stream == old(stream) ==> schema.model == old(schema.model) && backlog == old(backlog)
      ensures !ok && !broken && Faults() == old(Faults()) ==> old(stream) == null && LoginRefused(old(schema.model))
      ensures ShortLogin(login, scramble) ==> !broken
    {
      hide State, Frames, Honest, Queued, Catalogued, LoginRequests, Begun;
      if stream == null {
        ok := Connect();
        if !ok {
          return;
        }
        IsNewSession(old(counter), old(schema.model));
      }
      var eof: bool := *;
      if eof {
        ghost var was, before := counter, schema.model;
        faults := Faults() + 1;
        stream := null;
        ok := Connect();
        if ok {
          IsNewSession(was, before);
        }
        return;
      }
      ok := true;
    }

    /** The session has just begun, and there is nothing in it but the login, if there is one. */
    ghost predicate NewSession()
      reads this, schema, stream
    {
      && stream != null
      && if login.Some? && scramble.Some? then
           LoggedIn(answer, stream.session, 0, stream.requests, login.value, scramble, schema.model)
         else stream.requests == []
    }

    lemma IsNewSession(sync: nat, before: Model)
      requires stream != null
      requires login.Some? && scramble.Some? ==>
                 && |stream.requests| == 3 && LoginRequests(stream.requests, login.value, scramble, sync)
                 && Catalogued(answer, stream.session, 0, stream.requests, before, schema.model)
      requires !(login.Some? && scramble.Some?) ==> stream.requests == []
      ensures NewSession()
    {
      hide Catalogued, LoginRequests;
      assert stream.requests[0..] == stream.requests;
    }

    /** The methods `connect` and `reconnect`. */
    method Reconnect(drop: bool) returns (ok: bool)
      requires Valid() && !broken && counter + 3 <= TWO_32
      modifies `stream, `value, `room, `broken, `backlog, `counter, `sessions, `faults, schema, tps
      ensures Valid() && old(counter) <= counter <= old(counter) + 3
      ensures KeptOrNewStream()
      ensures !drop && old(stream) != null ==>
                && ok && stream == old(stream) && stream.requests == old(stream.requests)
                && counter == old(counter) && schema.model == old(schema.model)
      ensures !broken && Faults() == old(Faults()) ==> stream != null
      ensures drop || old(stream) == null ==> (stream != null ==> fresh(stream)) && (ok ==> NewSession())
      ensures !ok && !broken && Faults() == old(Faults()) ==> LoginRefused(old(schema.model))
      ensures ShortLogin(login, scramble) ==> !broken
    {
      hide Cache.Valid, Tp.Valid, Honest, Queued, Frames, Catalogued, LoginRequests, Begun;
      if drop && stream != null {
        faults := Faults();
        stream := null;
      } else if stream != null {
        return true;
      }
      ok := Connect();
      if ok {
        IsNewSession(old(counter), old(schema.model));
      }
    }

    /** The method `authenticate`, with the password in hand; its result is not told to the caller. */
    method SignIn(name: bytes, secret: Option<bytes>) returns (ok: bool)
      requires Valid() && !broken && counter + 9 <= TWO_32
      requires |name| < NAME_LIMIT && (secret.Some? ==> |secret.value| == 20)
      modifies this, stream, schema, tps
      ensures Valid() && old(counter) <= counter <= old(counter) + 9
      ensures login == Some(name) && scramble == if secret.Some? then secret else old(scramble)
      ensures KeptOrNewStream()
      ensures ok ==>
                && stream != null && !broken && |stream.requests| >= 3
                && LoggedIn(answer, stream.session, |stream.requests| - 3, stream.requests, name, scramble,
                     schema.model)
      ensures !broken && Faults() == old(Faults()) ==> stream != null && (ok || LastLoginRefused())
      ensures ShortLogin(Some(name), scramble) ==> !broken
    {
      hide Cache.Valid, Tp.Valid, Honest, Queued, Frames, LoggedIn, Begun, ShortLogin, LastLoginRefused;
      login := Some(name);
      scramble := if secret.Some? then secret else scramble;
      ok := OpenAndAuthenticate();
    }

    /** The last three requests of the open stream were a login, and it was of no use. */
    ghost predicate LastLoginRefused()
      reads this, stream
    {
      stream != null && exists before: Model :: InVain(answer, stream.session, stream.requests, before)
    }

    lemma RefusedIsLast(before: Model)
      ensures LoginRefused(before) ==> LastLoginRefused()
    {
      hide InVain;
    }

    method OpenAndAuthenticate() returns (ok: bool)
      requires Valid() && !broken && counter + 9 <= TWO_32 && login.Some?
      modifies `stream, `value, `room, `broken, `backlog, `counter, `sessions, `faults, stream, schema, tps
      ensures Valid() && old(counter) <= counter <= old(counter) + 9 && KeptOrNewStream()
      ensures ok ==>
                && stream != null && !broken && |stream.requests| >= 3
                && LoggedIn(answer, stream.session, |stream.requests| - 3, stream.requests, login.value, scramble,
                     schema.model)
      ensures !broken && Faults() == old(Faults()) ==> stream != null && (ok || LastLoginRefused())
      ensures ShortLogin(login, scramble) ==> !broken
    {
      hide Valid, Intact, Catalogued, LoginRequests, Begun, InVain, NewSession, LoginRefused;
      if ShortLogin(login, scramble) {
        ShortLoginFits(login.value, scramble);
      }
      ok := ConnectOnDemand();
      if !ok {
        RefusedIsLast(old(schema.model));
      } else {
        RoomEnough();
        ghost var was := stream.requests;
        ok := Authenticate();
        if stream != null && Begun(was, login, scramble) && !broken {
          BegunMore(was, stream.requests, login, scramble);
        }
      }
    }

    /** The method `flush_schema`. */
    method FlushSchema()
      requires Valid()
      modifies schema
      ensures Valid() && schema.model == Flushed(old(schema.model))
    {
      hide Cache.Valid, Tp.Valid, Honest, Queued, Frames;
      schema.Flush();
    }

    /** The numbers of the space and the index of a call. */
    method Resolve(c: DataCall) returns (ok: bool, sid: u32, iid: u32, ghost why: Cause)
      requires Valid() && !broken && Sendable(c) && stream != null && counter + 2 <= TWO_32
      modifies `stream, `value, `room, `broken, `backlog, `counter, `faults, stream, schema, tps
      ensures Valid() && old(counter) <= counter <= old(counter) + 2
      ensures KeptStream()
      ensures Short(c.args) ==> !broken
      ensures ok ==> stream != null && !broken && Resolved(schema, c.args, sid, iid)
      ensures !ok && !broken && Faults() == old(Faults()) ==>
                (why.SpaceUnknown? || why.IndexUnknown?) && Unresolved(c.args, why)
    {
      hide Valid, Intact, Encodable, Bodies, SpaceIs, NoSpace, NoIndex, Short;
      iid := 0;
      ok, sid, why := ResolveSpace(c.args);
      if !ok {
        return;
      }
      CacheValid();
      ok, iid, why := ResolveIndex(c.args, sid);
    }

    method ResolveSpace(args: Args) returns (ok: bool, sid: u32, ghost why: Cause)
      requires Valid() && !broken && stream != null && counter < TWO_32
      requires args.Space().Some? ==> SpaceFits(args.Space().value)
      modifies `stream, `value, `room, `broken, `backlog, `counter, `faults, stream, schema, tps
      ensures Valid() && old(counter) <= counter <= old(counter) + 1 && KeptStream()
      ensures Short(args) ==> !broken
      ensures ok ==> stream != null && !broken && SpaceIs(schema, args, sid)
      ensures !ok && !broken && Faults() == old(Faults()) ==>
                why == SpaceUnknown(old(schema.model)) && args.Space().Some?
                && NoSpace(args.Space().value, old(schema.model))
    {
      hide Valid, Intact, SpaceRoom, SpaceRequest, LearnedSpaces, NoSpace;
      ok, sid, why := false, 0, SpaceUnknown(schema.model);
      var space := args.Space();
      if space.Some? {
        if Short(args) {
          ShortSpaceFits(space.value);
          RoomEnough();
        }
        var number := GetSpaceNo(space.value);
        if number == -1 {
          return;
        }
        sid := U32(number);
      }
      ok := true;
      CacheValid();
    }

    lemma RoomEnough()
      requires Valid()
      ensures room >= FIRST_ROOM
    {
    }

    method ResolveIndex(args: Args, sid: u32) returns (ok: bool, iid: u32, ghost why: Cause)
      requires Valid() && !broken && stream != null && counter < TWO_32
      requires schema.Valid() && SpaceIs(schema, args, sid)
      requires args.Index().IndexName? ==> |args.Index().name| < NAME_LIMIT
      modifies `stream, `value, `room, `broken, `backlog, `counter, `faults, stream, schema, tps
      ensures Valid() && old(counter) <= counter <= old(counter) + 1 && KeptStream()
      ensures Short(args) ==> !broken
      ensures ok ==> stream != null && !broken && Resolved(schema, args, sid, iid)
      ensures schema.Valid() && SpaceIs(schema, args, sid)
      ensures !ok && !broken && Faults() == old(Faults()) ==>
                why == IndexUnknown(sid, old(schema.model)) && NoIndex(sid, args.Index(), old(schema.model))
    {
      hide Valid, Intact, IndexRoom, IndexRequest, LearnedIndexes, NoIndex, Cache.IndexAnswer, Cache.NameAnswer,
           Cache.Valid, SchemaCache.Answer;
      ok, iid, why := false, 0, IndexUnknown(sid, schema.model);
      if Short(args) && args.Index().IndexName? {
        ShortIndexFits(sid, args.Index().name);
        RoomEnough();
      }
      var number := GetIndexNo(sid, args.Index());
      CacheValid();
      if number == -1 {
        return;
      }
      ok, iid := true, U32(number);
    }

    /** The space or the index of the arguments has no number. */
    ghost predicate Unresolved(args: Args, why: Cause)
      requires schema.Valid()
      reads this, schema, stream
    {
      match why
      case SpaceUnknown(known) => args.Space().Some? && NoSpace(args.Space().value, known)
      case IndexUnknown(space, known) => SpaceIs(schema, args, space) && NoIndex(space, args.Index(), known)
      case _ => false
    }

    /** The call went wrong for this reason. */
    ghost predicate Explained(c: DataCall, why: Cause, before: Model)
      requires schema.Valid()
      reads this, schema, stream
    {
      match why
      case NotLoggedIn => LoginRefused(before)
      case BadOperation => BadOps(c)
      case Unanswered(space, index, session, asked) =>
        && Resolved(schema, c.args, space, index) && 0 < counter <= TWO_32
        && Encodable(c) && Unreplied(answer, c, space, index, session, asked, counter - 1)
      case Fault => false
      case _ => Unresolved(c.args, why)
    }

    /**
     * A data call from its arguments to its answer. With nothing waiting and no fault of the stream, it
     * fails only for a login, a name, an operation or an answer that is of no use.
     */
    method Perform(c: DataCall) returns (r: CallResult, ghost why: Cause)
      requires Valid() && !broken && Sendable(c) && counter + 9 <= TWO_32
      modifies `stream, `value, `room, `broken, `backlog, `counter, `sessions, `faults, stream, schema, tps
      ensures Valid() && old(counter) <= counter <= old(counter) + 9
      ensures KeptOrNewStream()
      ensures r.Broken? <==> broken
      ensures ShortLogin(login, scramble) && Short(c.args) ==> !broken
      ensures r.Success? ==>
                && stream != null
                && Answered(answer, stream.session, stream.requests, r.request, r.sync, r.body)
                && old(counter) <= r.sync < counter && Asks(c, r) && Resolved(schema, c.args, r.space, r.index)
                && Gives(c.args, r.body, r.data)
                && stream.requests != []
                && if stream == old(stream) then |old(stream.requests)| < |stream.requests|
                   else Begun(stream.requests[..|stream.requests| - 1], login, scramble)
      ensures r.Failure? && Faults() == old(Faults()) && old(backlog) == [] ==> Explained(c, why, old(schema.model))
    {
      hide Valid, Intact, Answered, Resolved, Encodable, Sendable, Asks, Begun, LoggedIn, Gives, LoginRefused, Short,
           Explained;
      var ok := ConnectOnDemand();
      if !ok {
        why := NotLoggedIn;
        LoginExplains(c, old(schema.model));
        return if broken then Broken else Failure, why;
      }
      ghost var was := stream.requests;
      r, why := PerformOpen(c, old(schema.model));
      if stream != null && stream != old(stream) {
        BegunMore(was, stream.requests, login, scramble);
        if r.Success? {
          BegunMore(was, stream.requests[..|stream.requests| - 1], login, scramble);
        }
      }
    }

    lemma LoginExplains(c: DataCall, before: Model)
      requires Valid()
      ensures schema.Valid() && (LoginRefused(before) ==> Explained(c, NotLoggedIn, before))
    {
      hide Cache.Valid, LoginRefused;
    }

    /** A data call over an open stream. */
    method PerformOpen(c: DataCall, ghost before: Model) returns (r: CallResult, ghost why: Cause)
      requires Valid() && !broken && Sendable(c) && stream != null && counter + 3 <= TWO_32
      modifies `stream, `value, `room, `broken, `backlog, `counter, `faults, stream, schema, tps
      ensures Valid() && schema.Valid() && old(counter) <= counter <= old(counter) + 3 && KeptStream()
      ensures (r.Broken? <==> broken) && (Short(c.args) ==> !broken)
      ensures r.Success? ==>
                && stream != null && |old(stream.requests)| < |stream.requests| && Encodable(c)
                && Answered(answer, stream.session, stream.requests, r.request, r.sync, r.body)
                && old(counter) <= r.sync < counter && Asks(c, r) && Resolved(schema, c.args, r.space, r.index)
                && Gives(c.args, r.body, r.data)
      ensures r.Failure? && Faults() == old(Faults()) && old(backlog) == [] ==> Explained(c, why, before)
    {
      hide Valid, Intact, Answered, Resolved, Encodable, Sendable, Asks, Gives, Unreplied, LoginRefused, NoSpace,
           NoIndex, SpaceIs, BadOps, Short, Unresolved;
      var ok, sid, iid;
      ok, sid, iid, why := Resolve(c);
      CacheValid();
      if !ok {
        return if broken then Broken else Failure, why;
      }
      r, why := Ask(c, sid, iid);
      CacheValid();
    }

    /** The call itself, once there is a stream and its space and index are known. */
    method Ask(c: DataCall, sid: u32, iid: u32) returns (r: CallResult, ghost why: Cause)
      requires Valid() && !broken && Sendable(c) && stream != null && counter < TWO_32
      modifies `stream, `value, `room, `backlog, `counter, `faults, stream
      ensures Valid() && counter == old(counter) + 1 && KeptStream() && !r.Broken? && Encodable(c)
      ensures r.Success? ==>
                && stream != null && |old(stream.requests)| < |stream.requests|
                && Answered(answer, stream.session, stream.requests, r.request, r.sync, r.body)
                && r.sync == old(counter) && r.space == sid && r.index == iid && Asks(c, r)
                && Gives(c.args, r.body, r.data)
      ensures r.Failure? && Faults() == old(Faults()) && old(backlog) == [] ==>
                match why
                case BadOperation => BadOps(c)
                case Unanswered(space, index, session, asked) =>
                  space == sid && index == iid && Unreplied(answer, c, sid, iid, session, asked, old(counter))
                case _ => false
    {
      hide Valid, Intact, RequestSync, CallPayload, Encodable, Bodies, Queued, Sendable, Reads, Arguments, StepRecv,
           Answered, Gives, Unreplied, Returned, BadOps;
      ghost var requests, session := stream.requests, stream.session;
      var request, sync := Enqueue(c, sid, iid);
      if request.None? {
        return Failure, BadOperation;
      }
      var body := Exchange(request.value, sync);
      ghost var asked := requests + [request.value];
      why := Unanswered(sid, iid, session, asked);
      if body.None? {
        if !StepRecv(answer(session, asked), sync).Answer? {
          NoReply(answer, c, sid, iid, session, asked, sync);
        }
        return Failure, why;
      }
      var data := Returned(c.args, body.value);
      ReturnedIs(c.args, body.value);
      if data.None? {
        NoData(answer, c, sid, iid, session, asked, sync, body.value);
        return Failure, why;
      }
      r := Success(data.value, body.value, request.value, sync, sid, iid);
    }

    /** The request of a call is encoded behind what is waiting, under the next sync. */
    method Enqueue(c: DataCall, s: u32, i: u32) returns (request: Option<bytes>, sync: u32)
      requires Valid() && Sendable(c) && counter < TWO_32
      modifies `value, `room, `backlog, `counter
      ensures Valid() && sync == old(counter) && counter == sync + 1 && Encodable(c)
      ensures request.None? ==>
                BadOps(c) && backlog == old(backlog)
      ensures request.Some? ==>
                && Bodies(c, s, i).Some? && request.value == CallPayload(c.args.Code(), sync, Bodies(c, s, i).value)
                && RequestSync(request.value) == Some(sync)
                && Reads(request.value, RequestCode(c.args), sync, Arguments(c, s, i))
                && backlog == old(backlog) + [request.value] && Queued(backlog[..|backlog| - 1], sync)
    {
      hide Valid, Intact, Reads, Arguments, Frame, RequestSync, CallPayload, Encodable, Bodies, Queued;
      sync := NextSync();
      var longer;
      longer, request := EncodeCall(c, value, s, i, sync);
      if request.Some? {
        Put(longer, request.value, sync);
      }
    }

    method NextSync() returns (sync: u32)
      requires Valid() && counter < TWO_32
      modifies `counter
      ensures Valid() && sync == old(counter) && counter == sync + 1 && Queued(backlog, sync)
    {
      hide Cache.Valid, Tp.Valid, Frames, Honest, Queued;
      sync := counter;
      counter := counter + 1;
      MoreQueued(backlog, sync, counter);
    }

    /** A request has been written behind what is waiting. */
    method Put(longer: bytes, ghost payload: bytes, sync: u32)
      requires Valid() && longer == value + Frame(payload) && |payload| < TWO_32 && Queued(backlog, sync)
      requires RequestSync(payload) == Some(sync) && sync < counter
      modifies `value, `room, `backlog
      ensures Valid() && backlog == old(backlog) + [payload] && Queued(backlog[..|backlog| - 1], sync)
    {
      hide Cache.Valid, Tp.Valid, Frames, Frame, Honest, RequestSync, Queued;
      FramesSnoc(backlog, payload);
      Grow(|longer| - |value|);
      OneMoreQueued(backlog, payload, counter);
      value, backlog := longer, backlog + [payload];
      assert backlog[..|backlog| - 1] == old(backlog);
    }
  }

  /** A call in its frame, behind `value`. */
  method EncodeCall(c: DataCall, value: bytes, s: u32, i: u32, sync: u32)
      returns (longer: bytes, request: Option<bytes>)
    requires Sendable(c)
    ensures Encodable(c)
    ensures request.None? ==>
              longer == value && BadOps(c)
    ensures request.Some? ==>
              && longer == value + Frame(request.value) && |request.value| < TWO_32
              && Bodies(c, s, i).Some? && request.value == CallPayload(c.args.Code(), sync, Bodies(c, s, i).value)
              && RequestSync(request.value) == Some(sync)
              && Reads(request.value, RequestCode(c.args), sync, Arguments(c, s, i))
  {
    hide Reads, Arguments, Frame, RequestSync, CallPayload, EncSeq, Encodable, Bodies;
    var ok;
    longer, ok := Encode(c, value, s, i, sync);
    if !ok {
      NoBodyIsRejected(c, s, i);
      return longer, None;
    }
    ghost var bodies := Bodies(c, s, i).value;
    ghost var payload := CallPayload(c.args.Code(), sync, bodies);
    PayloadSync(c.args.Code(), sync, bodies);
    PayloadSmall(c.args.Code(), sync, bodies);
    CallReads(c, s, i, sync);
    FrameIs(value, payload, longer);
    request := Some(longer[|value| + 5..]);
  }

  lemma FrameIs(value: bytes, payload: bytes, longer: bytes)
    requires longer == value + Frame(payload)
    ensures |longer| == |value| + 5 + |payload| && longer[|value| + 5..] == payload
  {
    hide Prefix;
  }

  lemma MoreQueued(ps: seq<bytes>, c: nat, d: nat)
    requires Queued(ps, c) && c <= d
    ensures Queued(ps, d)
  {
  }

  lemma OneMoreQueued(ps: seq<bytes>, p: bytes, c: nat)
    requires Queued(ps, c) && |p| < TWO_32 && RequestSync(p).Some? && RequestSync(p).value < c
    ensures Queued(ps + [p], c)
  {
    hide RequestSync;
  }

  lemma OneQueued(p: bytes, c: nat)
    requires |p| < TWO_32 && RequestSync(p).Some? && RequestSync(p).value < c
    ensures Queued([p], c)
  {
    hide RequestSync;
  }

  lemma AllQueued(ps: seq<bytes>, syncs: seq<u32>, first: nat)
    requires |ps| == 3 && first + 3 <= TWO_32 && syncs == [first, first + 1, first + 2]
    requires forall k :: 0 <= k < 3 ==> |ps[k]| < TWO_32 && RequestSync(ps[k]) == Some(first + k)
    ensures Queued(ps, first + 3)
    ensures forall k :: 0 <= k < 3 ==> RequestSync(ps[k]) == Some(syncs[k])
  {
    hide RequestSync;
    forall k | 0 <= k < 3
      ensures syncs[k] as int == first + k
    {
    }
  }

  // ---------------------------------------------------------------- what a call asks and learns

  /** The request says what the call asks, with each argument under its key of the protocol. */
  ghost predicate Asks(c: DataCall, r: CallResult)
    requires r.Success? && Encodable(c)
  {
    && Bodies(c, r.space, r.index).Some?
    && r.request == CallPayload(c.args.Code(), r.sync, Bodies(c, r.space, r.index).value)
    && Reads(r.request, RequestCode(c.args), r.sync, Arguments(c, r.space, r.index))
  }

  /** An operation of the call is rejected. */
  ghost predicate BadOps(c: DataCall) {
    (c.args.Update? || c.args.Upsert?) && Encodable(c) && Updates.SomeRejected(c.heap, c.cache, c.args.ops)
  }

  /** The last request is this call, and its reply is no answer to it, or one without DATA. */
  ghost predicate Unreplied(answer: Replier, c: DataCall, space: u32, index: u32, session: nat, asked: seq<bytes>,
      sync: u32)
    requires Encodable(c)
  {
    && asked != [] && Bodies(c, space, index).Some?
    && asked[|asked| - 1] == CallPayload(c.args.Code(), sync, Bodies(c, space, index).value)
    && var o := StepRecv(answer(session, asked), sync);
       o.Answer? ==> forall data: PVal :: !Gives(c.args, o.body, data)
  }

  lemma NoReply(answer: Replier, c: DataCall, space: u32, index: u32, session: nat, asked: seq<bytes>, sync: u32)
    requires Encodable(c) && asked != [] && Bodies(c, space, index).Some?
    requires asked[|asked| - 1] == CallPayload(c.args.Code(), sync, Bodies(c, space, index).value)
    requires !StepRecv(answer(session, asked), sync).Answer?
    ensures Unreplied(answer, c, space, index, session, asked, sync)
  {
    hide StepRecv, Bodies, CallPayload, Encodable;
  }

  lemma NoData(answer: Replier, c: DataCall, space: u32, index: u32, session: nat, asked: seq<bytes>, sync: u32,
      body: PVal)
    requires Encodable(c) && asked != [] && Bodies(c, space, index).Some?
    requires asked[|asked| - 1] == CallPayload(c.args.Code(), sync, Bodies(c, space, index).value)
    requires Answered(answer, session, asked, asked[|asked| - 1], sync, body)
    requires forall data: PVal :: !Gives(c.args, body, data)
    ensures Unreplied(answer, c, space, index, session, asked, sync)
  {
    hide StepRecv, Bodies, CallPayload, Encodable, Gives;
  }

  lemma ReturnedIs(args: Args, body: PVal)
    ensures forall data: PVal :: Gives(args, body, data) <==> Returned(args, body) == Some(data)
  {
    hide Lookup;
  }

  /** The number of the space is what the cache holds under its name or the bytes of its number. */
  ghost predicate SpaceIs(schema: Cache, args: Args, space: u32)
    requires schema.Valid()
    reads schema
  {
    if args.Ping? || args.Proc? then space == 0
    else
      match args.space
      case SpaceName(name) => schema.NameAnswer(name) != -1 && space == U32(schema.NameAnswer(name))
      case SpaceNumber(n) => schema.NumberAnswer(U32(n)) != -1 && space == U32(schema.NumberAnswer(U32(n)))
      case BadSpace => false
  }

  /** And the number of the index is given, or is what the cache holds under its name in that space. */
  ghost predicate Resolved(schema: Cache, args: Args, space: u32, index: u32)
    requires schema.Valid()
    reads schema
  {
    && SpaceIs(schema, args, space)
    && if args.Select? || args.Delete? || args.Update? then
         match args.index
         case NoIndex => index == 0
         case IndexNumber(n) => index == U32(n)
         case IndexName(name) => schema.IndexAnswer(space, name) != -1 && index == U32(schema.IndexAnswer(space, name))
         case BadIndex => false
       else index == 0
  }

  /** The catalogue request for a space. */
  function SpaceIndex(arg: SpaceArg): u32 {
    if arg.SpaceNumber? then INDEX_SPACE_NO else INDEX_SPACE_NAME
  }

  function SpaceKey(arg: SpaceArg): seq<Mp>
    requires !arg.BadSpace?
  {
    [if arg.SpaceNumber? then UInt(arg.n % TWO_64) else Str(arg.name)]
  }

  /** An `int` written as an unsigned 64-bit number. */
  function SignExtended(n: u32): (m: nat)
    ensures m < TWO_64
  {
    if n < 0x8000_0000 then n else TWO_64 - TWO_32 + n
  }

  function IndexKey(space: u32, name: bytes): seq<Mp> {
    [UInt(SignExtended(space)), Str(name)]
  }

  lemma SpaceKeyFits(arg: SpaceArg)
    requires !arg.BadSpace? && SpaceFits(arg)
    ensures FetchKey(SpaceKey(arg)) && AllWF(SpaceKey(arg))
  {
    KeysWF(SpaceKey(arg));
  }

  lemma IndexKeyFits(space: u32, name: bytes)
    requires |name| < NAME_LIMIT
    ensures FetchKey(IndexKey(space, name)) && AllWF(IndexKey(space, name))
  {
    KeysWF(IndexKey(space, name));
  }

  /** The request for a space that is not known, and the room it takes. */
  ghost function SpaceRequest(arg: SpaceArg, sync: u32): bytes
    requires !arg.BadSpace? && SpaceFits(arg)
  {
    SpaceKeyFits(arg);
    FetchPayload(SPACE_SPACE, SpaceIndex(arg), SpaceKey(arg), sync)
  }

  ghost function SpaceRoom(arg: SpaceArg): nat
    requires !arg.BadSpace? && SpaceFits(arg)
  {
    SpaceKeyFits(arg);
    Sum(FetchSizes(SPACE_SPACE, SpaceIndex(arg), SpaceKey(arg)))
  }

  ghost function IndexRequest(space: u32, name: bytes, sync: u32): bytes
    requires |name| < NAME_LIMIT
  {
    IndexKeyFits(space, name);
    FetchPayload(SPACE_INDEX, INDEX_INDEX_NAME, IndexKey(space, name), sync)
  }

  ghost function IndexRoom(space: u32, name: bytes): nat
    requires |name| < NAME_LIMIT
  {
    IndexKeyFits(space, name);
    Sum(FetchSizes(SPACE_INDEX, INDEX_INDEX_NAME, IndexKey(space, name)))
  }

  /** A space is asked for in the catalogue of spaces, by its number or by its name. */
  lemma SpaceRequestReads(arg: SpaceArg, sync: u32)
    requires !arg.BadSpace? && SpaceFits(arg)
    ensures Reads(SpaceRequest(arg, sync), 0x01, sync,
              Some(if arg.SpaceNumber? then Tuples(281, 0, [UInt(arg.n % TWO_64)])
                   else Tuples(281, 2, [Str(arg.name)])))
  {
    hide Enc, WF, TpPayload, Reads, Tuples, SelectTree;
    SpaceKeyFits(arg);
    FetchSmall(SPACE_SPACE, SpaceIndex(arg), SpaceKey(arg));
    FetchReads(SPACE_SPACE, SpaceIndex(arg), SpaceKey(arg), sync);
  }

  /** An index is asked for in the catalogue of indexes, by its space and its name. */
  lemma IndexRequestReads(space: u32, name: bytes, sync: u32)
    requires |name| < NAME_LIMIT
    ensures Reads(IndexRequest(space, name, sync), 0x01, sync,
              Some(Tuples(289, 2, [UInt(if space < 0x8000_0000 then space else TWO_64 - TWO_32 + space), Str(name)])))
  {
    hide Enc, WF, TpPayload, Reads, Tuples, SelectTree;
    IndexKeyFits(space, name);
    FetchSmall(SPACE_INDEX, INDEX_INDEX_NAME, IndexKey(space, name));
    FetchReads(SPACE_INDEX, INDEX_INDEX_NAME, IndexKey(space, name), sync);
  }

  /** The reply brought the data that took the cache from one state to the other. */
  ghost predicate LearnedSpaces(p: bytes, m: Model, m': Model) {
    exists data: bytes :: OwnReply(p, data) && SpaceBatch(m, data) == (m', true)
  }

  ghost predicate LearnedIndexes(p: bytes, m: Model, m': Model) {
    exists data: bytes :: OwnReply(p, data) && IndexBatch(m, data) == (m', true)
  }

  lemma Learned(p: bytes, data: bytes, m: Model, m': Model)
    requires OwnReply(p, data) && SpaceBatch(m, data) == (m', true)
    ensures LearnedSpaces(p, m, m')
  {
    hide OwnReply, SpaceBatch;
  }

  lemma LearnedToo(p: bytes, data: bytes, m: Model, m': Model)
    requires OwnReply(p, data) && IndexBatch(m, data) == (m', true)
    ensures LearnedIndexes(p, m, m')
  {
    hide OwnReply, IndexBatch;
  }

  lemma SpacesOfNoUse(p: bytes, data: bytes, m: Model)
    requires OwnReply(p, data) && !SpaceBatch(m, data).1
    ensures NoSpaces(p, m)
  {
    hide StreamReply, ReplyShape, SpaceBatch;
  }

  lemma IndexesOfNoUse(p: bytes, data: bytes, m: Model)
    requires OwnReply(p, data) && !IndexBatch(m, data).1
    ensures NoIndexes(p, m)
  {
    hide StreamReply, ReplyShape, IndexBatch;
  }

  // ---------------------------------------------------------------- how long a catalogue request is

  /** Names so short that a fetch by them fits the smallest buffer there is. */
  predicate Short(args: Args) {
    && (args.Space().Some? && args.Space().value.SpaceName? ==> |args.Space().value.name| <= 97)
    && (args.Index().IndexName? ==> |args.Index().name| <= 88)
  }

  predicate ShortLogin(login: Option<bytes>, scramble: Option<bytes>) {
    login.Some? ==> |login.value| <= if scramble.Some? then 20 else 50
  }

  lemma StrSize(s: bytes)
    requires |s| < TWO_32 - 5
    ensures WF(Str(s)) && |Enc(Str(s))| == SizeofStr(|s|)
  {
  }

  lemma UIntSize(n: nat)
    requires n < TWO_64
    ensures WF(UInt(n)) && |Enc(UInt(n))| == SizeofUInt(n)
  {
  }

  lemma OneKey(m: Mp)
    requires WF(m)
    ensures AllWF([m]) && Sum(KeySizes([m])) == |Enc(m)|
  {
    hide Enc, WF;
    assert KeySizes([m]) == [|Enc(m)|] + KeySizes([]);
  }

  lemma TwoKeys(k: Mp, m: Mp)
    requires WF(k) && WF(m)
    ensures AllWF([k, m]) && Sum(KeySizes([k, m])) == |Enc(k)| + |Enc(m)|
  {
    hide Enc, WF;
    OneKey(m);
    assert [k, m][1..] == [m];
    assert KeySizes([k, m]) == [|Enc(k)|] + KeySizes([m]);
    SumConcat([|Enc(k)|], KeySizes([m]));
  }

  lemma ShortSpaceFits(arg: SpaceArg)
    requires SpaceFits(arg) && (arg.SpaceName? ==> |arg.name| <= 97)
    ensures !arg.BadSpace? ==> SpaceRoom(arg) <= FIRST_ROOM
  {
    hide Enc, WF, FetchSizes, KeySizes, Sum;
    if !arg.BadSpace? {
      SpaceKeyFits(arg);
      var m := SpaceKey(arg)[0];
      if arg.SpaceNumber? {
        UIntSize(arg.n % TWO_64);
      } else {
        StrSize(arg.name);
      }
      OneKey(m);
      assert SpaceKey(arg) == [m];
      FetchTotal(SPACE_SPACE, SpaceIndex(arg), SpaceKey(arg));
    }
  }

  /** A space name of 110 bytes: from the smallest buffer after a send, the fetch by it ends outside. */
  lemma LongNameEscapes(name: bytes)
    requires |name| == 110
    ensures SpaceRoom(SpaceName(name)) == 141
    ensures AllWF(SpaceKey(SpaceName(name)))
    ensures !Fits(FIRST_ROOM, 0, 0, FetchSizes(SPACE_SPACE, INDEX_SPACE_NAME, SpaceKey(SpaceName(name))))
  {
    hide Enc, WF, EncSeq, SelectFront;
    SpaceKeyFits(SpaceName(name));
    StrSize(name);
    FrontSize(SPACE_SPACE, INDEX_SPACE_NAME);
    var key := SpaceKey(SpaceName(name));
    assert KeySizes(key) == [112] + KeySizes([]) == [112];
    assert FetchSizes(SPACE_SPACE, INDEX_SPACE_NAME, key) == [28, 1, 112];
    assert [28, 1, 112][1..] == [1, 112] && [1, 112][1..] == [112];
  }

  lemma ShortIndexFits(space: u32, name: bytes)
    requires |name| <= 88
    ensures IndexRoom(space, name) <= FIRST_ROOM
  {
    hide Enc, WF, FetchSizes, KeySizes, Sum;
    IndexKeyFits(space, name);
    UIntSize(SignExtended(space));
    StrSize(name);
    TwoKeys(UInt(SignExtended(space)), Str(name));
    FetchTotal(SPACE_INDEX, INDEX_INDEX_NAME, IndexKey(space, name));
  }

  /** The additions of an authentication, and what they come to. */
  ghost function AuthSizes(login: bytes, scramble: Option<bytes>): seq<nat>
    requires |login| < NAME_LIMIT && (scramble.Some? ==> |scramble.value| == 20)
  {
    AuthSmall(login, scramble);
    [HEADER_SIZE + |Enc(AuthTree(login, scramble))|] + FetchSizes(SPACE_SPACE, 0, []) + FetchSizes(SPACE_INDEX, 0, [])
  }

  function LoginRoom(login: bytes, scramble: Option<bytes>): nat
    requires |login| < NAME_LIMIT
  {
    SizeofStr(|login|) + if scramble.Some? then 107 else 76
  }

  lemma ShortLoginFits(login: bytes, scramble: Option<bytes>)
    requires ShortLogin(Some(login), scramble)
    ensures LoginRoom(login, scramble) <= FIRST_ROOM
  {
  }

  lemma LoginTotal(login: bytes, scramble: Option<bytes>)
    requires |login| < NAME_LIMIT && (scramble.Some? ==> |scramble.value| == 20)
    ensures Sum(AuthSizes(login, scramble)) == LoginRoom(login, scramble)
  {
    hide Enc, WF, FetchSizes, AuthTree;
    AuthSmall(login, scramble);
    FetchTotal(SPACE_SPACE, 0, []);
    FetchTotal(SPACE_INDEX, 0, []);
    var auth: nat := HEADER_SIZE + |Enc(AuthTree(login, scramble))|;
    var first, second := FetchSizes(SPACE_SPACE, 0, []), FetchSizes(SPACE_INDEX, 0, []);
    SumConcat([auth] + first, second);
    SumConcat([auth], first);
  }

  lemma PayloadSmall(code: u32, sync: u32, body: seq<Mp>)
    requires AllWF(body) && |EncSeq(body)| < TWO_32 - 0x100
    ensures |CallPayload(code, sync, body)| < TWO_32
  {
    hide WF;
    var ns := Longs([TNT_CODE, code, TNT_SYNC, sync]);
    UIntsSmall(ns);
    assert Enc(HeaderTree(code, sync)) == EncHead(TMap(2)) + EncSeq(ns);
  }

  lemma AuthSmall(login: bytes, scramble: Option<bytes>)
    requires |login| < NAME_LIMIT && (scramble.Some? ==> |scramble.value| == 20)
    ensures WF(AuthTree(login, scramble))
    ensures |Enc(AuthTree(login, scramble))| == 3 + SizeofStr(|login|) + if scramble.Some? then 32 else 1
  {
    hide Enc, WF;
    var proof := if scramble.Some? then [Str(CHAP_SHA1), Str(scramble.value)] else [];
    ProofSize(scramble);
    StrSize(login);
    UIntSize(TNT_TUPLE);
    UIntSize(TNT_USERNAME);
    PairSmall(UInt(TNT_TUPLE), Arr(proof));
    PairSmall(UInt(TNT_USERNAME), Str(login));
    var a, b := [UInt(TNT_USERNAME), Str(login)], [UInt(TNT_TUPLE), Arr(proof)];
    EncSeqConcat(a, b);
    assert AuthTree(login, scramble).kvs == a + b;
    MapSmall(a + b);
  }

  lemma MapSmall(kvs: seq<Mp>)
    requires AllWF(kvs) && |kvs| == 4
    ensures WF(Map(kvs)) && |Enc(Map(kvs))| == 1 + |EncSeq(kvs)|
  {
    hide EncSeq;
    assert EncHead(TMap(2)) == [0x82];
  }

  lemma ProofSize(scramble: Option<bytes>)
    requires scramble.Some? ==> |scramble.value| == 20
    ensures var proof := if scramble.Some? then [Str(CHAP_SHA1), Str(scramble.value)] else [];
            WF(Arr(proof)) && |Enc(Arr(proof))| == if scramble.Some? then 32 else 1
  {
    if scramble.Some? {
      StrSize(CHAP_SHA1);
      StrSize(scramble.value);
      PairSmall(Str(CHAP_SHA1), Str(scramble.value));
    } else {
      assert EncSeq([]) == [];
    }
  }

  lemma {:induction false} PairSmall(k: Mp, v: Mp)
    requires WF(k) && WF(v)
    ensures AllWF([k, v]) && |EncSeq([k, v])| == |Enc(k)| + |Enc(v)|
  {
    hide Enc, WF;
    assert [k, v][1..] == [v];
    assert EncSeq([v]) == Enc(v) + EncSeq([]);
  }

  /** The cache after one reply of an authentication has been given to it. */
  ghost predicate FeedStep(m: Model, m': Model, r: Resp, syncs: seq<u32>)
    requires |syncs| == 3
  {
    if r.sync == syncs[1] then SpaceBatch(m, DataOf(r)) == (m', true)
    else if r.sync == syncs[2] then IndexBatch(m, DataOf(r)) == (m', true)
    else m' == m
  }

  ghost predicate FeedFails(m: Model, r: Resp, syncs: seq<u32>)
    requires |syncs| == 3
  {
    if r.sync == syncs[1] then !SpaceBatch(m, DataOf(r)).1
    else r.sync == syncs[2] && !IndexBatch(m, DataOf(r)).1
  }

  ghost predicate AllShaped(due: seq<bytes>) {
    forall k :: 0 <= k < |due| ==> ReplyShape(due[k])
  }

  /** The data of a reply that the parser accepts. */
  ghost function Brought(p: bytes): bytes {
    if StreamReply(p).Ok? then DataOf(StreamReply(p).v) else []
  }

  /** The streaming parser accepts the reply and finds no error in it. */
  ghost predicate Accepted(p: bytes) {
    StreamReply(p).Ok? && StreamReply(p).v.error.None?
  }

  /** The flushed cache after the first `i` replies, when all of them can be read. */
  ghost predicate Fed(m: Model, m': Model, due: seq<bytes>, i: nat)
    requires |due| == 3 && i <= 3
  {
    AllShaped(due) ==>
      && (forall k :: 0 <= k < i ==> Accepted(due[k]))
      && if i <= 1 then m' == m
         else if i == 2 then SpaceBatch(m, Brought(due[1])) == (m', true)
         else
           var mid := SpaceBatch(m, Brought(due[1]));
           mid.1 && IndexBatch(mid.0, Brought(due[2])) == (m', true)
  }

  /** The replies log in and bring both catalogues. */
  ghost predicate Works(m: Model, due: seq<bytes>)
    requires |due| == 3
  {
    && Accepted(due[0]) && Accepted(due[1]) && Accepted(due[2])
    && SpaceBatch(m, Brought(due[1])).1 && IndexBatch(SpaceBatch(m, Brought(due[1])).0, Brought(due[2])).1
  }

  lemma NotWorking(m: Model, due: seq<bytes>, i: nat)
    requires |due| == 3 && i < 3 && (ReplyShape(due[i]) ==> !Accepted(due[i]))
    ensures AllShaped(due) ==> !Works(m, due)
  {
    hide StreamReply, ReplyShape, SpaceBatch, IndexBatch;
  }

  lemma NotFed(m: Model, due: seq<bytes>)
    requires |due| == 3
    ensures Fed(m, m, due, 0)
  {
  }

  lemma {:induction false} FedMore(m: Model, mid: Model, m': Model, due: seq<bytes>, i: nat, r: Resp, syncs: seq<u32>)
    requires |due| == 3 == |syncs| && i < 3 && syncs[0] != syncs[1] && syncs[0] != syncs[2] && syncs[1] != syncs[2]
    requires Fed(m, mid, due, i) && Carries(due[i], syncs[i]) && r.error.None?
    requires ReplyShape(due[i]) ==> Some(r) == (if StreamReply(due[i]).Ok? then Some(StreamReply(due[i]).v) else None)
    requires FeedStep(mid, m', r, syncs)
    ensures Fed(m, m', due, i + 1)
  {
    hide StreamReply, ReplyShape, Carries, SpaceBatch, IndexBatch;
    if AllShaped(due) {
      StreamCarries(due[i], syncs[i]);
    }
  }

  lemma {:induction false} FedNoMore(m: Model, mid: Model, due: seq<bytes>, i: nat, r: Resp, syncs: seq<u32>)
    requires |due| == 3 == |syncs| && i < 3 && syncs[0] != syncs[1] && syncs[0] != syncs[2] && syncs[1] != syncs[2]
    requires Fed(m, mid, due, i) && Carries(due[i], syncs[i])
    requires ReplyShape(due[i]) ==> Some(r) == (if StreamReply(due[i]).Ok? then Some(StreamReply(due[i]).v) else None)
    requires FeedFails(mid, r, syncs)
    ensures AllShaped(due) ==> !Works(m, due)
  {
    hide StreamReply, ReplyShape, Carries, SpaceBatch, IndexBatch;
    if AllShaped(due) {
      StreamCarries(due[i], syncs[i]);
    }
  }

  /** The replies to the last three of `n + 3` requests. */
  ghost function LastThree(answer: Replier, session: nat, n: nat, requests: seq<bytes>): (due: seq<bytes>)
    requires |requests| == n + 3
    ensures |due| == 3
  {
    [answer(session, requests[..n + 1]), answer(session, requests[..n + 2]), answer(session, requests)]
  }

  /** They have been taken into the flushed cache. */
  ghost predicate Catalogued(answer: Replier, session: nat, n: nat, requests: seq<bytes>, m: Model, m': Model) {
    |requests| == n + 3 && Fed(Flushed(m), m', LastThree(answer, session, n, requests), 3)
  }

  /** Either they have, or they are of no use. */
  ghost predicate Settled(answer: Replier, session: nat, n: nat, requests: seq<bytes>, m: Model, m': Model, ok: bool) {
    && |requests| == n + 3
    && if ok then Catalogued(answer, session, n, requests, m, m') else InVain(answer, session, requests, m)
  }

  /** The replies to the last three requests do not bring a catalogue. */
  ghost predicate InVain(answer: Replier, session: nat, requests: seq<bytes>, m: Model) {
    && |requests| >= 3
    && var due := LastThree(answer, session, |requests| - 3, requests);
       AllShaped(due) ==> !Works(Flushed(m), due)
  }

  lemma RepliesAre(answer: Replier, session: nat, was: seq<bytes>, sent: seq<bytes>)
    requires Honest(answer) && |sent| == 3
    ensures Replies(answer, session, was, sent) == LastThree(answer, session, |was|, was + sent)
  {
    hide Honest, RequestSync;
    var n, all, due := |was|, was + sent, Replies(answer, session, was, sent);
    forall k | 0 <= k < 3
      ensures due[k] == answer(session, all[..n + k + 1])
    {
      ReplyAt(answer, session, was, sent, k);
      assert was + sent[..k + 1] == all[..n + k + 1];
    }
    assert all[..n + 3] == all;
    assert due == [answer(session, all[..n + 1]), answer(session, all[..n + 2]), answer(session, all)];
  }

  lemma {:induction false} ReplyAt(answer: Replier, session: nat, before: seq<bytes>, asked: seq<bytes>, k: nat)
    requires Honest(answer) && k < |asked|
    ensures var p := Replies(answer, session, before, asked)[k];
            && p == answer(session, before + asked[..k + 1]) && |p| < TWO_32
            && (RequestSync(asked[k]).Some? ==> Carries(p, RequestSync(asked[k]).value))
    decreases k
  {
    hide RequestSync, Carries;
    if k == 0 {
      FirstReply(answer, session, before, asked);
      assert [asked[0]] == asked[..1];
    } else {
      ReplyAt(answer, session, before + [asked[0]], asked[1..], k - 1);
      Regroup(before, [asked[0]], asked[1..][..k]);
      assert [asked[0]] + asked[1..][..k] == asked[..k + 1];
    }
  }

  /** The request for tuples of a catalogue. */
  ghost function FetchPayload(space: u32, index: u32, key: seq<Mp>, sync: u32): bytes
    requires FetchKey(key)
  {
    FetchSmall(space, index, key);
    TpPayload(TpRequest(TNT_SELECT, sync, Enc(SelectTree(space, index, 0, FETCH_LIMIT, key))))
  }

  /** A reply that is not refused is the reply to the last request, and that is the only one on its way. */
  lemma {:induction false} SoleReply(answer: Replier, session: nat, was: seq<bytes>, queue: seq<bytes>,
      payload: bytes, sync: u32)
    requires Honest(answer) && Queued(queue, sync)
    requires !StepRecv(Replies(answer, session, was, queue + [payload])[0], sync).Closed?
    ensures queue == [] && queue + [payload] == [payload]
  {
    hide RequestSync, Carries, StepRecv;
    if queue != [] {
      assert (queue + [payload])[0] == queue[0];
      FirstReply(answer, session, was, queue + [payload]);
      OtherSyncCloses(Replies(answer, session, was, queue + [payload])[0], RequestSync(queue[0]).value, sync);
    }
  }

  lemma OwnAnswer(answer: Replier, session: nat, was: seq<bytes>, payload: bytes, sync: u32, body: PVal)
    requires RequestSync(payload) == Some(sync)
    requires StepRecv(Replies(answer, session, was, [payload])[0], sync) == Answer(body)
    ensures Answered(answer, session, was + [payload], payload, sync, body)
  {
    hide RequestSync, StepRecv;
  }

  /** `resp.data` and its length; no data at all has length zero. */
  function DataOf(r: Resp): bytes {
    if r.data.Some? then r.data.value else []
  }

  /** `data` is what a reply without an error text brings. */
  ghost predicate OwnReply(p: bytes, data: bytes) {
    ReplyShape(p) ==> StreamReply(p).Ok? && StreamReply(p).v.error.None? && data == DataOf(StreamReply(p).v)
  }

  /** What the cache says about a space. */
  ghost function SpaceCode(schema: Cache, arg: SpaceArg): int
    requires schema.Valid() && !arg.BadSpace?
    reads schema
  {
    if arg.SpaceNumber? then schema.NumberAnswer(U32(arg.n)) else schema.NameAnswer(arg.name)
  }

  /** What the cache, or the argument itself, says about an index. */
  ghost function IndexCode(schema: Cache, sid: u32, arg: IndexArg): int
    requires schema.Valid() && !arg.BadIndex?
    reads schema
  {
    match arg
    case NoIndex => 0
    case IndexNumber(n) => ToInt32(U32(n))
    case IndexName(name) => schema.IndexAnswer(sid, name)
  }

  lemma NoFrames()
    ensures Frames([]) == []
  {
  }

  lemma RestShorter(p: bytes)
    ensures StreamReply(p).Ok? ==> |StreamReply(p).rest| <= |p|
  {
    hide Slices, HeaderFold, BodyFold;
    if StreamReply(p).Ok? {
      ParseSuffix(p);
      ParseSuffix(Parse(p).rest);
    }
  }

  lemma FirstReply(answer: Replier, session: nat, before: seq<bytes>, asked: seq<bytes>)
    requires Honest(answer) && asked != []
    ensures var p := Replies(answer, session, before, asked)[0];
            && p == answer(session, before + [asked[0]]) && |p| < TWO_32
            && (RequestSync(asked[0]).Some? ==> Carries(p, RequestSync(asked[0]).value))
  {
    hide RequestSync, Carries;
    var requests := before + [asked[0]];
    assert requests != [] && requests[|requests| - 1] == asked[0];
  }

  lemma CutAt(a: bytes, b: bytes, whole: bytes)
    requires a + b == whole
    ensures a == whole[..|a|] && b == whole[|a|..]
  {
  }
}
