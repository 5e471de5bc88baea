/**
 * The room of the second writer. It keeps its own end pointer beside the capacity and the length of
 * the buffer it writes to; that length is not kept up to date while it writes, and after asking for
 * room its end pointer is wherever a variable nobody set happens to put it.
 */
module TpCapacity {
  import opened Bytes

  /** Capacity and length of the buffer, bytes written from its start, and the end as an offset. */
  datatype Room = Room(a: nat, len: nat, used: nat, end: nat)

  /** Sizes stay far from where `size_t` wraps. */
  const LIMIT: int := TWO_64 / 8

  /** `tp_unused`, a difference of pointers taken as unsigned. */
  function Unused(r: Room): int {
    if r.used <= r.end then r.end - r.used else r.end - r.used + TWO_64
  }

  function Max(x: nat, y: nat): nat {
    if x > y then x else y
  }

  /** `tarantool_tp_reserve`: the capacity it may leave behind, asked for `n` more bytes. */
  predicate Reserved(r: Room, n: nat, a: nat) {
    if r.a > r.len + n then a == r.a else a >= Max(2 * r.a, r.len + n)
  }

  /** The buffer grows, and all it is sure to keep is what its length counts. */
  predicate Grows(r: Room, n: nat) {
    Unused(r) < n && r.a <= r.len + n
  }

  /** The value of the unset size that reads as a failure: then nothing is written. */
  const REFUSED: int := TWO_64 - 1

  /** One addition of `n` bytes: any growth that is allowed, any value of the unset size. */
  predicate Adds(r: Room, n: nat, s: Room) {
    if Unused(r) >= n then s == r.(used := r.used + n)
    else
      && Reserved(r, n, s.a) && s.end < TWO_64 && s.len == r.len
      && s.used == if s.end == REFUSED then r.used else r.used + n
  }

  predicate Inside(r: Room) {
    r.used <= r.a
  }

  /** Whatever happens, no addition of the list goes past the capacity. */
  ghost predicate AllInside(r: Room, ns: seq<nat>)
    decreases |ns|
  {
    ns == [] || forall s :: Adds(r, ns[0], s) ==> Inside(s) && AllInside(s, ns[1..])
  }

  /** Whatever happens, no addition goes past the capacity, and no growth forgets a byte of the request. */
  ghost predicate AllWhole(r: Room, ns: seq<nat>)
    decreases |ns|
  {
    ns == [] ||
    ((Grows(r, ns[0]) ==> r.used <= r.len) &&
     forall s :: Adds(r, ns[0], s) ==> Inside(s) && AllWhole(s, ns[1..]))
  }

  function Sum(ns: seq<nat>): nat {
    if ns == [] then 0 else ns[0] + Sum(ns[1..])
  }

  /** `tarantool_tp_update` */
  function Updated(a: nat, len: nat): Room {
    Room(a, len, 0, a)
  }

  // ---------------------------------------------------------------- one addition

  /**
   * One addition is inside whatever happens if and only if it fits, or the writer asks for room, the
   * buffer thinks it is short too, and the growth it asks for makes up for the bytes it does not count.
   */
  lemma {:induction false} AdditionInsideExactly(r: Room, n: nat)
    requires r.a < LIMIT && r.len < LIMIT && n < LIMIT && Inside(r)
    ensures (forall s :: Adds(r, n, s) ==> Inside(s)) <==>
            r.used + n <= r.a || (Unused(r) < n && r.len + n >= r.a && r.used + n <= Max(2 * r.a, r.len + n))
  {
    var a := if r.a > r.len + n then r.a else Max(2 * r.a, r.len + n);
    var least := if Unused(r) >= n then r.(used := r.used + n) else Room(a, r.len, r.used + n, 0);
    assert Adds(r, n, least);
  }

  /** Where the end pointer may be anything, an addition is inside whatever happens only if it simply fits. */
  lemma {:induction false} UnsetEndExactly(r: Room, n: nat)
    requires r.a < LIMIT && r.len < LIMIT && n < LIMIT && Inside(r)
    ensures (forall e, s :: 0 <= e < TWO_64 && Adds(r.(end := e), n, s) ==> Inside(s)) <==> r.used + n <= r.a
  {
    var far := r.(end := r.used + n);
    assert Adds(r.(end := r.used + n), n, far.(used := r.used + n));
  }

  // ---------------------------------------------------------------- whole requests

  /** Where the end pointer is far enough, the writer never asks for room. */
  lemma {:induction false} FarEnd(r: Room, ns: seq<nat>)
    requires r.end == r.used + Sum(ns) < TWO_64
    requires r.used + Sum(ns) > r.a && Inside(r)
    ensures !AllInside(r, ns)
    decreases |ns|
  {
    var s := r.(used := r.used + ns[0]);
    assert Adds(r, ns[0], s);
    if Inside(s) {
      FarEnd(s, ns[1..]);
    }
  }

  /** What fits whole stays inside wherever the end pointer is. */
  lemma {:induction false} FitsWhole(r: Room, ns: seq<nat>)
    requires r.used + Sum(ns) <= r.a
    ensures AllInside(r, ns)
    decreases |ns|
  {
    if ns != [] {
      forall s | Adds(r, ns[0], s)
        ensures Inside(s) && AllInside(s, ns[1..])
      {
        FitsWhole(s, ns[1..]);
      }
    }
  }

  /** The condition for a request, from `used` bytes on, while the end pointer is at the capacity. */
  predicate Fits(a: nat, len: nat, used: nat, ns: seq<nat>)
    decreases |ns|
  {
    if ns == [] then true
    else if used + ns[0] <= a then Fits(a, len, used + ns[0], ns[1..])
    else len + ns[0] >= a && used + Sum(ns) <= Max(2 * a, len + ns[0])
  }

  lemma {:induction false} FittingInside(a: nat, len: nat, used: nat, ns: seq<nat>)
    requires used <= a && Fits(a, len, used, ns)
    ensures AllInside(Room(a, len, used, a), ns)
    decreases |ns|
  {
    if ns != [] {
      var r, n, rest := Room(a, len, used, a), ns[0], ns[1..];
      forall s | Adds(r, n, s)
        ensures Inside(s) && AllInside(s, rest)
      {
        if used + n <= a {
          FittingInside(a, len, used + n, rest);
        } else {
          FitsWhole(s, rest);
        }
      }
    }
  }

  /**
   * A whole request stays inside the buffer, for every allowed growth and every value of the unset
   * size, if and only if it fits, or its first addition that does not fit makes the buffer grow and
   * the growth asked for takes everything from the start of the request on.
   */
  lemma {:induction false} RequestInsideExactly(a: nat, len: nat, used: nat, ns: seq<nat>)
    requires a < LIMIT && len < LIMIT && used <= a && Sum(ns) < LIMIT
    ensures AllInside(Room(a, len, used, a), ns) <==> Fits(a, len, used, ns)
    decreases |ns|
  {
    if Fits(a, len, used, ns) {
      FittingInside(a, len, used, ns);
    } else if used + ns[0] <= a {
      assert Adds(Room(a, len, used, a), ns[0], Room(a, len, used + ns[0], a));
      RequestInsideExactly(a, len, used + ns[0], ns[1..]);
    } else {
      CrossingEscapes(Room(a, len, used, a), ns[0], ns[1..]);
      assert ns == [ns[0]] + ns[1..];
    }
  }

  /** Asked for too little growth, or none, the writer can end up outside. */
  lemma {:induction false} CrossingEscapes(r: Room, n: nat, rest: seq<nat>)
    requires r.a < LIMIT && r.len < LIMIT && r.end == r.a && Inside(r) && r.used + n > r.a && n + Sum(rest) < LIMIT
    requires r.len + n < r.a || r.used + n + Sum(rest) > Max(2 * r.a, r.len + n)
    ensures !AllInside(r, [n] + rest)
  {
    var a := if r.a > r.len + n then r.a else Max(2 * r.a, r.len + n);
    var s := Room(a, r.len, r.used + n, r.used + n + Sum(rest));
    assert Adds(r, n, s) && ([n] + rest)[0] == n && ([n] + rest)[1..] == rest;
    if Inside(s) {
      FarEnd(s, rest);
    }
  }

  // ---------------------------------------------------------------- what growth keeps

  /** The condition for a request to arrive whole: `Fits`, and what was written before the growth is counted. */
  predicate Survives(a: nat, len: nat, used: nat, ns: seq<nat>)
    decreases |ns|
  {
    if ns == [] then true
    else if used + ns[0] <= a then Survives(a, len, used + ns[0], ns[1..])
    else len + ns[0] >= a && used + Sum(ns) <= Max(2 * a, len + ns[0]) && used <= len
  }

  /** What fits whole survives wherever the end pointer is, if growth would not pass the bytes not counted. */
  lemma {:induction false} FitsAndSurvives(r: Room, ns: seq<nat>)
    requires r.used + Sum(ns) <= r.a
    ensures AllWhole(r, ns)
    decreases |ns|
  {
    if ns != [] {
      assert Grows(r, ns[0]) ==> r.used <= r.len;
      forall s | Adds(r, ns[0], s)
        ensures Inside(s) && AllWhole(s, ns[1..])
      {
        FitsAndSurvives(s, ns[1..]);
      }
    }
  }

  lemma {:induction false} WholeIsInside(r: Room, ns: seq<nat>)
    requires AllWhole(r, ns)
    ensures AllInside(r, ns)
    decreases |ns|
  {
    if ns != [] {
      forall s | Adds(r, ns[0], s)
        ensures Inside(s) && AllInside(s, ns[1..])
      {
        WholeIsInside(s, ns[1..]);
      }
    }
  }

  lemma {:induction false} SurvivesFits(a: nat, len: nat, used: nat, ns: seq<nat>)
    ensures Survives(a, len, used, ns) ==> Fits(a, len, used, ns)
    decreases |ns|
  {
    if ns != [] && used + ns[0] <= a {
      SurvivesFits(a, len, used + ns[0], ns[1..]);
    }
  }

  lemma {:induction false} SurvivorsWhole(a: nat, len: nat, used: nat, ns: seq<nat>)
    requires used <= a && Survives(a, len, used, ns)
    ensures AllWhole(Room(a, len, used, a), ns)
    decreases |ns|
  {
    if ns != [] {
      var r, n, rest := Room(a, len, used, a), ns[0], ns[1..];
      forall s | Adds(r, n, s)
        ensures Inside(s) && AllWhole(s, rest)
      {
        if used + n <= a {
          SurvivorsWhole(a, len, used + n, rest);
        } else {
          FitsAndSurvives(s, rest);
        }
      }
    }
  }

  /**
   * A whole request stays inside the buffer and keeps all its bytes, for every allowed growth and every
   * value of the unset size, if and only if it fits, or it grows once, the growth asked for takes all of
   * it, and what was written before lies within the length the buffer counts.
   */
  lemma {:induction false} RequestWholeExactly(a: nat, len: nat, used: nat, ns: seq<nat>)
    requires a < LIMIT && len < LIMIT && used <= a && Sum(ns) < LIMIT
    ensures AllWhole(Room(a, len, used, a), ns) <==> Survives(a, len, used, ns)
    decreases |ns|
  {
    if Survives(a, len, used, ns) {
      SurvivorsWhole(a, len, used, ns);
    } else if used + ns[0] <= a {
      assert Adds(Room(a, len, used, a), ns[0], Room(a, len, used + ns[0], a));
      RequestWholeExactly(a, len, used + ns[0], ns[1..]);
    } else if AllWhole(Room(a, len, used, a), ns) {
      WholeIsInside(Room(a, len, used, a), ns);
      RequestInsideExactly(a, len, used, ns);
    }
  }

  /** In particular whatever fits the capacity as a whole. */
  lemma {:induction false} SmallSurvives(a: nat, len: nat, used: nat, ns: seq<nat>)
    requires used + Sum(ns) <= a
    ensures Survives(a, len, used, ns)
    decreases |ns|
  {
    if ns != [] {
      SmallSurvives(a, len, used + ns[0], ns[1..]);
    }
  }

  /**
   * A fetch by a name of 110 bytes, from a buffer of 128 after a send: 28 bytes of request, one of key
   * and 112 of name. The writer asks for room, gets none, and ends 13 bytes behind the buffer.
   */
  lemma {:induction false} LongNameOverruns(s: Room)
    requires Adds(Room(128, 0, 29, 128), 112, s) && s.end != REFUSED
    ensures s.used == 141 && s.a == 128
    ensures !Fits(128, 0, 0, [28, 1, 112]) && !AllInside(Updated(128, 0), [28, 1, 112])
  {
    assert Sum([112]) == 112 && [28, 1, 112][1..] == [1, 112] && [1, 112][1..] == [112];
    var r := Updated(128, 0);
    RequestInsideExactly(128, 0, 0, [28, 1, 112]);
  }

  // ---------------------------------------------------------------- following a writer

  /**
   * `Overrun`: a write went past the buffer. `Refused`: an addition was dropped for want of memory, or so
   * it looked. `Forgotten`: the buffer grew and need not have kept what it did not count.
   */
  datatype Fate = Fine | Overrun | Refused | Forgotten

  datatype Status = Status(room: Room, fate: Fate)

  /** Nothing has gone past the buffer, and the additions to come will not. */
  ghost predicate Secure(t: Status, rest: seq<nat>) {
    !t.fate.Overrun? && (t.fate.Fine? ==> AllInside(t.room, rest))
  }

  /** And no growth has forgotten a byte, nor will one. */
  ghost predicate Steady(t: Status, rest: seq<nat>) {
    !t.fate.Overrun? && !t.fate.Forgotten? && (t.fate.Fine? ==> AllWhole(t.room, rest))
  }

  /** So many more bytes fit without asking for room. */
  predicate Roomy(t: Status, total: nat) {
    t.fate.Fine? && t.room.end == t.room.a && t.room.used + total <= t.room.a
  }

  /** From `t` to `u` by additions of these sizes: what is secure stays so, and what fits is written as it is. */
  ghost predicate Through(t: Status, ns: seq<nat>, u: Status) {
    && (forall rest :: Secure(t, ns + rest) ==> Secure(u, rest))
    && (forall rest :: Steady(t, ns + rest) ==> Steady(u, rest))
    && (Roomy(t, Sum(ns)) ==> u == Status(t.room.(used := t.room.used + Sum(ns)), Fine))
  }

  /** How one addition may turn out; after an overrun or a refusal nothing is described any more. */
  ghost predicate Outcome(t: Status, n: nat, u: Status) {
    if !t.fate.Fine? then u.fate == t.fate
    else
      match u.fate
      case Fine => Adds(t.room, n, u.room) && Inside(u.room) && u.room.used == t.room.used + n
      case Overrun => exists s :: Adds(t.room, n, s) && !Inside(s)
      case Refused => Unused(t.room) < n
      case Forgotten => Grows(t.room, n) && t.room.used > t.room.len
  }

  lemma {:induction false} OneThrough(t: Status, n: nat, u: Status)
    requires Outcome(t, n, u)
    ensures Through(t, [n], u)
  {
    assert Sum([n]) == n;
    forall rest: seq<nat>
      ensures ([n] + rest)[0] == n && ([n] + rest)[1..] == rest
    {
    }
  }

  lemma NoneThrough(t: Status)
    ensures Through(t, [], t)
  {
    forall rest: seq<nat>
      ensures [] + rest == rest
    {
    }
  }

  lemma {:induction false} SumConcat(ns: seq<nat>, ms: seq<nat>)
    ensures Sum(ns + ms) == Sum(ns) + Sum(ms)
    decreases |ns|
  {
    if ns == [] {
      assert ns + ms == ms;
    } else {
      assert (ns + ms)[1..] == ns[1..] + ms;
      SumConcat(ns[1..], ms);
    }
  }

  lemma {:induction false} ThroughBoth(t: Status, ns: seq<nat>, u: Status, ms: seq<nat>, w: Status)
    requires Through(t, ns, u) && Through(u, ms, w)
    ensures Through(t, ns + ms, w)
  {
    hide Secure, Steady;
    SumConcat(ns, ms);
    forall rest
      ensures ns + ms + rest == ns + (ms + rest)
    {
      Regroup(ns, ms, rest);
    }
  }

  /** From the start of the buffer: a request that meets the condition never overruns, and a small one is written. */
  lemma {:induction false} RequestThrough(a: nat, len: nat, ns: seq<nat>, u: Status)
    requires Through(Status(Updated(a, len), Fine), ns, u)
    ensures Fits(a, len, 0, ns) ==> !u.fate.Overrun?
    ensures Survives(a, len, 0, ns) ==> !u.fate.Overrun? && !u.fate.Forgotten?
    ensures Sum(ns) <= a ==> u == Status(Room(a, len, Sum(ns), a), Fine)
  {
    if Fits(a, len, 0, ns) {
      FittingInside(a, len, 0, ns);
    }
    assert ns + [] == ns;
    assert Secure(Status(Updated(a, len), Fine), ns + []) ==> Secure(u, []);
    if Survives(a, len, 0, ns) {
      SurvivorsWhole(a, len, 0, ns);
    }
    assert Steady(Status(Updated(a, len), Fine), ns + []) ==> Steady(u, []);
  }
}
