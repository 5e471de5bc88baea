/** Runs of the client: any calls in any order, with failures of the stream and of the server anywhere. */
module Runs {
  import opened Bytes
  import opened Wire
  import opened Response
  import opened Network
  import opened Calls
  import opened SchemaTuples
  import opened Schema
  import opened SchemaCache
  import opened SchemaHistory
  import opened Connection

  datatype Action =
    | Request(c: DataCall)
    | Open
    | Reopen
    | SignIn(login: bytes, scramble: Option<bytes>)
    | FlushSchema
    | Close

  ghost predicate Feasible(a: Action) {
    && (a.Request? ==> Sendable(a.c))
    && (a.SignIn? ==> |a.login| < NAME_LIMIT && (a.scramble.Some? ==> |a.scramble.value| == 20))
  }

  /** What catalogue requests the action may write fits the smallest buffer, whatever has become of it. */
  predicate Modest(a: Action) {
    && (a.Request? ==> Short(a.c.args))
    && (a.SignIn? ==> |a.login| <= 20)
  }

  /** The session of the stream, and what has been asked in it. */
  datatype Place = Place(session: Option<nat>, asked: seq<bytes>)

  /** A result that is a success answers the call it belongs to, as the last request of the session so far. */
  ghost predicate Suits(answer: Replier, a: Action, r: CallResult, at: Place) {
    r.Success? ==>
      && at.session.Some? && a.Request? && Encodable(a.c) && Asks(a.c, r) && Gives(a.c.args, r.body, r.data)
      && Answered(answer, at.session.value, at.asked, r.request, r.sync, r.body)
  }

  ghost function PlaceOf(con: Connection): Place
    reads con, con.stream
  {
    if con.stream == null then Place(None, []) else Place(Some(con.stream.session), con.stream.requests)
  }

  /** What the connection presents when it opens a stream. */
  datatype Login = Login(name: Option<bytes>, scramble: Option<bytes>)

  function Presented(l: Login, a: Action): Login {
    if a.SignIn? then Login(Some(a.login), if a.scramble.Some? then a.scramble else l.scramble) else l
  }

  function PresentedAfter(l: Login, history: seq<Action>): Login {
    if history == [] then l else Presented(PresentedAfter(l, history[..|history| - 1]), history[|history| - 1])
  }

  /** The session begins with the login that was to be presented at some point of the history. */
  ghost predicate Rooted(asked: seq<bytes>, start: Login, history: seq<Action>) {
    exists j :: 0 <= j <= |history| && BegunAt(asked, start, history, j)
  }

  ghost predicate BegunAt(asked: seq<bytes>, start: Login, history: seq<Action>, j: nat)
    requires j <= |history|
  {
    var l := PresentedAfter(start, history[..j]);
    Begun(asked, l.name, l.scramble)
  }

  lemma RootedHere(asked: seq<bytes>, start: Login, history: seq<Action>)
    requires var l := PresentedAfter(start, history); Begun(asked, l.name, l.scramble)
    ensures Rooted(asked, start, history)
  {
    hide Begun, PresentedAfter;
    assert history[..|history|] == history;
    assert BegunAt(asked, start, history, |history|);
  }

  lemma RootedMore(asked: seq<bytes>, more: seq<bytes>, start: Login, history: seq<Action>, later: seq<Action>)
    requires Rooted(asked, start, history) && asked <= more && history <= later
    ensures Rooted(more, start, later)
  {
    hide Begun, PresentedAfter;
    var j :| 0 <= j <= |history| && BegunAt(asked, start, history, j);
    var l := PresentedAfter(start, history[..j]);
    assert later[..j] == history[..j];
    BegunMore(asked, more, l.name, l.scramble);
    assert BegunAt(more, start, later, j);
  }

  /** A success in a session that the run has opened comes behind the login the session begins with. */
  ghost predicate LoginFirst(at: Place, first: nat, start: Login, history: seq<Action>) {
    at.session.Some? && at.session.value >= first ==>
      at.asked != [] && Rooted(at.asked[..|at.asked| - 1], start, history)
  }

  ghost predicate LoginsFirst(results: seq<CallResult>, places: seq<Place>, first: nat, start: Login,
                              history: seq<Action>)
    requires |results| == |places| <= |history|
  {
    forall i :: 0 <= i < |results| && results[i].Success? ==> LoginFirst(places[i], first, start, history[..i + 1])
  }

  /** The stream, if the run has opened it, begins with a login. */
  ghost predicate RootedIn(now: Place, first: nat, start: Login, history: seq<Action>) {
    now.session.Some? && now.session.value >= first ==> Rooted(now.asked, start, history)
  }

  /** The session goes on, or another has begun with what the connection now presents. */
  ghost predicate GoesOn(before: Place, now: Place, l: Login, success: bool) {
    now.session.Some? ==>
      || (now.session == before.session && before.asked <= now.asked && (success ==> |before.asked| < |now.asked|))
      || (Begun(now.asked, l.name, l.scramble)
          && (success ==> now.asked != [] && Begun(now.asked[..|now.asked| - 1], l.name, l.scramble)))
  }

  /** One more call keeps the stream and all successes behind a login. */
  lemma StillRooted(before: Place, now: Place, start: Login, history: seq<Action>, n: nat, success: bool, first: nat)
    requires n < |history| && RootedIn(before, first, start, history[..n])
    requires GoesOn(before, now, PresentedAfter(start, history[..n + 1]), success)
    ensures RootedIn(now, first, start, history[..n + 1])
    ensures success ==> LoginFirst(now, first, start, history[..n + 1])
  {
    hide Begun, PresentedAfter, Rooted;
    var earlier, later := history[..n], history[..n + 1];
    if now.session.Some? && now.session.value >= first {
      if now.session == before.session && before.asked <= now.asked && (success ==> |before.asked| < |now.asked|) {
        RootedMore(before.asked, now.asked, start, earlier, later);
        if success {
          RootedMore(before.asked, now.asked[..|now.asked| - 1], start, earlier, later);
        }
      } else {
        RootedHere(now.asked, start, later);
        if success {
          RootedHere(now.asked[..|now.asked| - 1], start, later);
        }
      }
    }
  }

  lemma OneMoreLogin(results: seq<CallResult>, places: seq<Place>, first: nat, start: Login, history: seq<Action>,
                     r: CallResult, now: Place)
    requires |results| == |places| < |history| && LoginsFirst(results, places, first, start, history)
    requires r.Success? ==> LoginFirst(now, first, start, history[..|results| + 1])
    ensures LoginsFirst(results + [r], places + [now], first, start, history)
  {
    hide LoginFirst;
  }

  /** One call of the client. A sync is used at most once, so successes come with growing syncs. */
  method Act(con: Connection, a: Action) returns (r: CallResult)
    requires con.Valid() && !con.broken && Feasible(a) && con.counter + 9 <= TWO_32
    modifies con, con.stream, con.schema, con.tps
    ensures con.Valid() && old(con.counter) <= con.counter <= old(con.counter) + 9
    ensures con.KeptOrNewStream()
    ensures Suits(con.answer, a, r, PlaceOf(con))
    ensures r.Success? ==> con.stream != null && old(con.counter) <= r.sync < con.counter
    ensures Login(con.login, con.scramble) == Presented(Login(old(con.login), old(con.scramble)), a)
    ensures !con.broken ==>
              GoesOn(old(PlaceOf(con)), PlaceOf(con), Login(con.login, con.scramble), r.Success?)
    ensures r.Broken? <==> con.broken
    ensures Effect(old(PlaceOf(con)), old(con.sessions), old(con.schema.model), a, PlaceOf(con), con.schema.model)
    ensures (a.Open? || a.Reopen? || a.SignIn?) && !con.broken && con.Faults() == old(con.Faults()) ==>
              con.stream != null
    ensures old(Terse(con)) && Modest(a) ==> !con.broken && Terse(con)
  {
    hide Connection.Intact, Asks, Answered, Resolved, Encodable, Short, Begun, Gives, LoggedIn, Connection.Explained,
         Connection.NewSession, Connection.LoginRefused, Connection.LastLoginRefused;
    r := Failure;
    match a {
      case Request(c) =>
        ghost var why;
        r, why := con.Perform(c);
      case Open =>
        var ok := con.Reconnect(false);
      case Reopen =>
        var ok := con.Reconnect(true);
      case SignIn(login, scramble) =>
        var ok := con.SignIn(login, scramble);
      case FlushSchema =>
        con.FlushSchema();
      case Close =>
    }
    if con.broken {
      r := Broken;
    }
  }

  /** What the calls do that are no data calls: `Close` nothing, `FlushSchema` nothing to the stream. */
  ghost predicate Effect(before: Place, sessions: nat, m: Model, a: Action, now: Place, m': Model) {
    match a
    case Request(_) => true
    case Open => before.session.Some? ==> now == before && m' == m
    case Reopen => now.session.Some? ==> now.session.value >= sessions
    case SignIn(_, _) => now.session.Some? && now.session == before.session ==> |now.asked| >= |before.asked|
    case FlushSchema => now == before && m' == Flushed(m)
    case Close => now == before && m' == m
  }

  /** The login the connection would present is short. */
  ghost predicate Terse(con: Connection)
    reads con
  {
    con.login.Some? ==> |con.login.value| <= 20
  }

  /** Sessions follow each other, and what was asked in one of them stays the beginning of what is asked in it. */
  ghost predicate Follows(at: Place, later: Place) {
    && at.session.Some? && later.session.Some? && at.session.value <= later.session.value
    && (at.session == later.session ==> at.asked <= later.asked)
  }

  ghost predicate InOrder(results: seq<CallResult>, places: seq<Place>)
    requires |results| == |places|
  {
    forall i, j :: 0 <= i < j < |results| && results[i].Success? && results[j].Success? ==>
      results[i].sync < results[j].sync && Follows(places[i], places[j])
  }

  /** Everything that has succeeded so far was asked before what the connection will ask next. */
  ghost predicate Behind(results: seq<CallResult>, places: seq<Place>, counter: nat, sessions: nat, now: Place)
    requires |results| == |places|
  {
    forall k :: 0 <= k < |results| && results[k].Success? ==>
      && results[k].sync < counter && places[k].session.Some? && places[k].session.value < sessions
      && (now.session.Some? ==> Follows(places[k], now))
  }

  /** One more call keeps the order. */
  lemma OneMore(results: seq<CallResult>, places: seq<Place>, counter: nat, sessions: nat, before: Place,
                r: CallResult, counter': nat, sessions': nat, now: Place)
    requires |results| == |places| && InOrder(results, places) && Behind(results, places, counter, sessions, before)
    requires counter <= counter' && sessions <= sessions'
    requires now.session.Some? ==>
               && now.session.value < sessions'
               && ((now.session == before.session && before.asked <= now.asked) || sessions <= now.session.value)
    requires r.Success? ==> counter <= r.sync < counter' && now.session.Some?
    ensures InOrder(results + [r], places + [now])
    ensures Behind(results + [r], places + [now], counter', sessions', now)
  {
  }

  /**
   * Over any run, every success is the answer to its own call, told apart by a sync that no other
   * success has; and after every call the stream is closed or all replies have been read. `places` are
   * the session and all its requests at the end of each call. A session that the run has opened begins
   * with the login that was to be presented, before any success in it. The run is followed up to the
   * first catalogue request that its buffer cannot take, and with short names and logins there is none.
   */
  method Run(con: Connection, history: seq<Action>) returns (results: seq<CallResult>, ghost places: seq<Place>)
    requires con.Valid() && !con.broken && con.counter + 9 * |history| <= TWO_32
    requires forall i :: 0 <= i < |history| ==> Feasible(history[i])
    modifies con, con.stream, con.schema, con.tps
    ensures con.Valid() && |results| == |places| <= |history|
    ensures if con.broken then results != [] && results[|results| - 1].Broken? else |results| == |history|
    ensures forall i :: 0 <= i < |results| ==> Suits(con.answer, history[i], results[i], places[i])
    ensures InOrder(results, places)
    ensures LoginsFirst(results, places, old(con.sessions), Login(old(con.login), old(con.scramble)), history)
    ensures old(Terse(con)) && (forall i :: 0 <= i < |history| ==> Modest(history[i])) ==> !con.broken
  {
    hide Connection.Intact, Suits, Feasible, Modest, Terse, InOrder, Behind, Begun, PresentedAfter, GoesOn,
         LoginsFirst, LoginFirst, RootedIn;
    ghost var first, start := con.sessions, Login(con.login, con.scramble);
    results, places := [], [];
    NothingYet(con.counter, con.sessions, PlaceOf(con));
    NonePresented(start, history);
    NoLoginYet(PlaceOf(con), first, start, history);
    while |results| < |history| && !con.broken
      invariant con.Valid() && |results| == |places| <= |history|
      invariant con.counter + 9 * (|history| - |results|) <= TWO_32
      invariant con.broken ==> results != [] && results[|results| - 1].Broken?
      invariant con.stream == null || con.stream == old(con.stream) || fresh(con.stream)
      invariant forall k :: 0 <= k < |results| ==> Suits(con.answer, history[k], results[k], places[k])
      invariant con.sessions >= first && Login(con.login, con.scramble) == PresentedAfter(start, history[..|results|])
      invariant !con.broken ==> RootedIn(PlaceOf(con), first, start, history[..|results|])
      invariant LoginsFirst(results, places, first, start, history)
      invariant InOrder(results, places) && Behind(results, places, con.counter, con.sessions, PlaceOf(con))
      invariant old(Terse(con)) && (forall i :: 0 <= i < |history| ==> Modest(history[i])) ==> !con.broken && Terse(con)
      decreases |history| - |results|
    {
      ghost var counter, sessions, before := con.counter, con.sessions, PlaceOf(con);
      var r := Act(con, history[|results|]);
      OneMore(results, places, counter, sessions, before, r, con.counter, con.sessions, PlaceOf(con));
      ghost var n := |results|;
      OnePresented(start, history, n);
      if !con.broken {
        StillRooted(before, PlaceOf(con), start, history, n, r.Success?, first);
      }
      OneMoreLogin(results, places, first, start, history, r, PlaceOf(con));
      results, places := results + [r], places + [PlaceOf(con)];
    }
  }

  lemma NoLoginYet(now: Place, first: nat, start: Login, history: seq<Action>)
    requires now.session.Some? ==> now.session.value < first
    ensures LoginsFirst([], [], first, start, history) && RootedIn(now, first, start, history[..0])
  {
  }

  lemma NonePresented(start: Login, history: seq<Action>)
    ensures PresentedAfter(start, history[..0]) == start
  {
  }

  lemma OnePresented(start: Login, history: seq<Action>, n: nat)
    requires n < |history|
    ensures history[..n] <= history[..n + 1]
    ensures PresentedAfter(start, history[..n + 1]) == Presented(PresentedAfter(start, history[..n]), history[n])
  {
    assert history[..n + 1][..n] == history[..n];
  }

  lemma NothingYet(counter: nat, sessions: nat, now: Place)
    ensures InOrder([], []) && Behind([], [], counter, sessions, now)
  {
  }

  // ---------------------------------------------------------------- the catalogue

  /** The data of a reply is this list of tuples. */
  ghost predicate Lists(p: bytes, tuples: seq<Mp>) {
    Parse(Brought(p)).Ok? && Parse(Brought(p)).v == Arr(tuples)
  }

  lemma ListedSpaces(m: Model, p: bytes, tuples: seq<Mp>)
    requires Lists(p, tuples)
    ensures SpaceBatch(m, Brought(p)) == SpaceTuples(m, tuples, |tuples|)
  {
    hide Parse, Brought, SpaceTuples;
  }

  lemma ListedIndexes(m: Model, p: bytes, tuples: seq<Mp>)
    requires Lists(p, tuples)
    ensures IndexBatch(m, Brought(p)) == IndexTuples(m, tuples, |tuples|)
  {
    hide Parse, Brought, IndexTuples;
  }

  /** A reply without an error that the streaming parser can read. */
  ghost predicate Fine(p: bytes) {
    ReplyShape(p) && Accepted(p)
  }

  /** Whatever three requests come next in the session, the server accepts them and sends these two catalogues. */
  ghost predicate Serves(answer: Replier, session: nat, before: seq<bytes>, tuples: seq<Mp>, more: seq<Mp>) {
    forall requests: seq<bytes> :: before <= requests && |requests| == |before| + 3 ==>
      && Fine(answer(session, requests[..|before| + 1]))
      && Fine(answer(session, requests[..|before| + 2]))
      && Lists(answer(session, requests[..|before| + 2]), tuples)
      && Fine(answer(session, requests)) && Lists(answer(session, requests), more)
  }

  /** A catalogue: names and ids are unique, NUL-free and small, and every index has its space. */
  ghost predicate Catalogue(spaces: seq<SpaceDef>, indexes: seq<IndexDef>) {
    && UniqueSpaces(spaces) && UniqueIndexes(indexes)
    && forall i :: 0 <= i < |indexes| ==> KnownIn(spaces, indexes[i].space)
  }

  lemma {:induction false} CatalogCached(answer: Replier, session: nat, n: nat, requests: seq<bytes>,
      m: Model, m': Model, tuples: seq<Mp>, spaces: seq<SpaceDef>, more: seq<Mp>, indexes: seq<IndexDef>)
    requires Catalogued(answer, session, n, requests, m, m')
    requires ReplyShape(answer(session, requests[..n + 1]))
    requires ReplyShape(answer(session, requests[..n + 2])) && Lists(answer(session, requests[..n + 2]), tuples)
    requires ReplyShape(answer(session, requests)) && Lists(answer(session, requests), more)
    requires SpaceTuplesOf(tuples, spaces) && IndexTuplesOf(more, indexes) && Catalogue(spaces, indexes)
    ensures Holds(m', spaces, indexes) && Plain(m') && m'.apart && m'.intact == m.intact
  {
    hide ReplyShape, Lists, Brought, SpaceBatch, IndexBatch, SpaceTuples, IndexTuples, Holds, SpaceTuplesOf,
         IndexTuplesOf, UniqueSpaces, UniqueIndexes, KnownIn, AllSpaces, AllIndexes, Plain;
    var p2, p3 := answer(session, requests[..n + 2]), answer(session, requests);
    ListedSpaces(Flushed(m), p2, tuples);
    ListedIndexes(AllSpaces(Flushed(m), spaces), p3, more);
    SpaceTuplesAre(Flushed(m), tuples, spaces);
    IndexTuplesAre(AllSpaces(Flushed(m), spaces), more, indexes);
    CatalogHeld(Flushed(m), spaces, indexes);
  }

  /**
   * After an authentication, on any connection and whatever has happened before, every space and index
   * of the server's catalogue resolves, and nothing else does. Only a fault of the stream or a buffer
   * that gives out keeps it from succeeding.
   */
  method LogIn(con: Connection, ghost tuples: seq<Mp>, ghost spaces: seq<SpaceDef>, ghost more: seq<Mp>,
      ghost indexes: seq<IndexDef>)
    returns (ok: bool)
    requires con.Valid() && !con.broken && con.stream != null && con.login.Some? && con.counter + 3 <= TWO_32
    requires Serves(con.answer, con.stream.session, con.stream.requests, tuples, more)
    requires SpaceTuplesOf(tuples, spaces) && IndexTuplesOf(more, indexes) && Catalogue(spaces, indexes)
    modifies con, con.stream, con.schema, con.tps
    ensures con.Valid() && con.schema.Valid()
    ensures ok ==> AnswersBy(con.schema, spaces, indexes)
    ensures !con.broken && con.Faults() == old(con.Faults()) ==> ok
  {
    hide Connection.Intact, Catalogued, LoginRequests, InVain, SpaceTuplesOf, IndexTuplesOf, Serves, UniqueSpaces,
         UniqueIndexes, KnownIn, Plain, Holds, AnswersBy, Cache.Valid;
    ghost var before, was := con.schema.model, con.stream.requests;
    ok := con.Authenticate();
    con.CacheValid();
    if ok {
      Served(con.answer, con.stream.session, was, con.stream.requests, before, con.schema.model, tuples, spaces,
        more, indexes);
      CatalogAnswers(con.schema, spaces, indexes);
    } else if !con.broken && con.stream != null {
      NotInVain(con.answer, con.stream.session, was, con.stream.requests, before, tuples, spaces, more, indexes);
    }
  }

  /** The replies of such a server are a login that works. */
  lemma {:induction false} NotInVain(answer: Replier, session: nat, before: seq<bytes>, requests: seq<bytes>,
      m: Model, tuples: seq<Mp>, spaces: seq<SpaceDef>, more: seq<Mp>, indexes: seq<IndexDef>)
    requires before <= requests && |requests| == |before| + 3 && Serves(answer, session, before, tuples, more)
    requires SpaceTuplesOf(tuples, spaces) && IndexTuplesOf(more, indexes) && Catalogue(spaces, indexes)
    ensures !InVain(answer, session, requests, m)
  {
    hide ReplyShape, StreamReply, Lists, Brought, SpaceBatch, IndexBatch, SpaceTuples, IndexTuples, Holds,
         SpaceTuplesOf, IndexTuplesOf, UniqueSpaces, UniqueIndexes, KnownIn, AllSpaces, AllIndexes, Plain;
    var p2, p3 := answer(session, requests[..|before| + 2]), answer(session, requests);
    ListedSpaces(Flushed(m), p2, tuples);
    ListedIndexes(AllSpaces(Flushed(m), spaces), p3, more);
    SpaceTuplesAre(Flushed(m), tuples, spaces);
    IndexTuplesAre(AllSpaces(Flushed(m), spaces), more, indexes);
    CatalogHeld(Flushed(m), spaces, indexes);
    assert requests[..|before| + 3] == requests;
  }

  lemma {:induction false} Served(answer: Replier, session: nat, before: seq<bytes>, requests: seq<bytes>,
      m: Model, m': Model, tuples: seq<Mp>, spaces: seq<SpaceDef>, more: seq<Mp>, indexes: seq<IndexDef>)
    requires Catalogued(answer, session, |before|, requests, m, m') && before <= requests
    requires Serves(answer, session, before, tuples, more)
    requires SpaceTuplesOf(tuples, spaces) && IndexTuplesOf(more, indexes) && Catalogue(spaces, indexes)
    ensures Holds(m', spaces, indexes) && Plain(m') && m'.apart
  {
    hide ReplyShape, Lists, Holds, SpaceTuplesOf, IndexTuplesOf, Catalogue, Plain, Fed;
    CatalogCached(answer, session, |before|, requests, m, m', tuples, spaces, more, indexes);
  }
}
