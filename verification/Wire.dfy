/**
 * The MessagePack format, as the bundled msgpuck library reads and writes it: heads (a type
 * together with a value or an element count), trees of values, and the two walks over a value,
 * by recursion (`Parse`) and by a counter of values still to come (`SkipTokens`).
 */
module Wire {
  import opened Bytes

  datatype Parsed<+T> = Fail | Ok(v: T, rest: bytes)

  /** One step of a decoder: everything but the elements of an array or a map. */
  datatype Token =
    | TNil
    | TBool(b: bool)
    | TUInt(n: nat)
    | TSInt(i: int)
    | TFloat(bits: bytes)
    | TDouble(bits: bytes)
    | TStr(s: bytes)
    | TBin(s: bytes)
    | TArr(size: nat)
    | TMap(size: nat)
    | TExt

  /** A MessagePack value; the keys and values of a map alternate in `kvs`. */
  datatype Mp =
    | Nil
    | Bool(b: bool)
    | UInt(n: nat)
    | SInt(i: int)
    | Float(bits: bytes)
    | Double(bits: bytes)
    | Str(s: bytes)
    | Bin(s: bytes)
    | Arr(items: seq<Mp>)
    | Map(kvs: seq<Mp>)
    | Ext

  // ---------------------------------------------------------------- heads

  /** Width of the number behind the first byte `c`. */
  function NumberWidth(c: int): nat {
    if c == 0xc4 || c == 0xc7 || c == 0xcc || c == 0xd0 || c == 0xd9 then 1
    else if c == 0xc5 || c == 0xc8 || c == 0xcd || c == 0xd1 || c == 0xda || c == 0xdc || c == 0xde then 2
    else if c == 0xc6 || c == 0xc9 || c == 0xca || c == 0xce || c == 0xd2 || c == 0xdb || c == 0xdd || c == 0xdf then 4
    else if c == 0xcb || c == 0xcf || c == 0xd3 then 8
    else 0
  }

  /** The number behind the first byte. */
  function Number(b: bytes): nat
    requires b != [] && |b| >= 1 + NumberWidth(b[0])
  {
    FromBE(b[1..1 + NumberWidth(b[0])])
  }

  /** Bytes of text, binary or extension data that belong to the head. */
  function DataSize(b: bytes): nat
    requires b != [] && |b| >= 1 + NumberWidth(b[0])
  {
    var c: int := b[0];
    if 0xa0 <= c <= 0xbf then c - 0xa0
    else if 0xc4 <= c <= 0xc6 || 0xd9 <= c <= 0xdb then Number(b)
    else if 0xc7 <= c <= 0xc9 then Number(b) + 1
    else if c == 0xd4 then 2
    else if c == 0xd5 then 3
    else if c == 0xd6 then 5
    else if c == 0xd7 then 9
    else if c == 0xd8 then 17
    else 0
  }

  /** How many bytes the head at the start of `b` takes. */
  function Extent(b: bytes): (n: nat)
    requires b != []
    ensures n >= 1
  {
    var w := 1 + NumberWidth(b[0]);
    if |b| < w then w else w + DataSize(b)
  }

  function Signed(n: nat, w: nat): int {
    if 2 * n < Pow256(w) then n else n - Pow256(w)
  }

  function TokenAt(b: bytes): Token
    requires b != [] && |b| >= Extent(b)
  {
    var c: int := b[0];
    var w := NumberWidth(c);
    if c <= 0x7f then TUInt(c)
    else if c <= 0x8f then TMap(c - 0x80)
    else if c <= 0x9f then TArr(c - 0x90)
    else if c <= 0xbf then TStr(b[1..Extent(b)])
    else if c == 0xc0 then TNil
    else if c == 0xc2 then TBool(false)
    else if c == 0xc3 then TBool(true)
    else if 0xc4 <= c <= 0xc6 then TBin(b[1 + w..Extent(b)])
    else if c == 0xca then TFloat(b[1..5])
    else if c == 0xcb then TDouble(b[1..9])
    else if 0xcc <= c <= 0xcf then TUInt(Number(b))
    else if 0xd0 <= c <= 0xd3 then TSInt(Signed(Number(b), w))
    else if 0xd9 <= c <= 0xdb then TStr(b[1 + w..Extent(b)])
    else if 0xdc <= c <= 0xdd then TArr(Number(b))
    else if 0xde <= c <= 0xdf then TMap(Number(b))
    else if c >= 0xe0 then TSInt(c - 0x100)
    else TExt
  }

  /** Reads one head. `Fail` means the bytes end before the head does. */
  function Head(b: bytes): (r: Parsed<Token>)
    ensures r.Ok? ==> |r.rest| < |b|
  {
    if b == [] || |b| < Extent(b) then Fail else Ok(TokenAt(b), b[Extent(b)..])
  }

  /** The heads the encoders of the extension ever write. */
  predicate Emittable(t: Token) {
    match t
    case TNil => true
    case TBool(_) => true
    case TUInt(n) => n < TWO_64
    case TSInt(i) => -TWO_63 <= i < 0
    case TDouble(bits) => |bits| == 8
    case TStr(s) => |s| < TWO_32
    case TArr(n) => n < TWO_32
    case TMap(n) => n < TWO_32
    case _ => false
  }

  /** The `mp_encode_*` family: always the shortest form. */
  function EncHead(t: Token): (b: bytes)
    requires Emittable(t)
    ensures |b| > 0
  {
    match t
    case TNil => [0xc0]
    case TBool(v) => [if v then 0xc3 else 0xc2]
    case TUInt(n) => EncUInt(n)
    case TSInt(i) => EncSInt(i)
    case TDouble(bits) => [0xcb] + bits
    case TStr(s) => EncStrHead(|s|) + s
    case TArr(n) =>
      if n <= 15 then [0x90 + n] else if n <= 0xffff then [0xdc] + BE(n, 2) else [0xdd] + BE(n, 4)
    case TMap(n) =>
      if n <= 15 then [0x80 + n] else if n <= 0xffff then [0xde] + BE(n, 2) else [0xdf] + BE(n, 4)
  }

  function EncUInt(n: nat): (b: bytes)
    requires n < TWO_64
    ensures |b| > 0
  {
    if n <= 0x7f then [n]
    else if n <= 0xff then [0xcc] + BE(n, 1)
    else if n <= 0xffff then [0xcd] + BE(n, 2)
    else if n < TWO_32 then [0xce] + BE(n, 4)
    else [0xcf] + BE(n, 8)
  }

  function EncSInt(i: int): (b: bytes)
    requires -TWO_63 <= i < 0
    ensures |b| > 0
  {
    if i >= -0x20 then [0x100 + i]
    else if i >= -0x80 then [0xd0] + BE(0x100 + i, 1)
    else if i >= -0x8000 then [0xd1] + BE(0x1_0000 + i, 2)
    else if i >= -0x8000_0000 then [0xd2] + BE(TWO_32 + i, 4)
    else [0xd3] + BE(TWO_64 + i, 8)
  }

  function EncStrHead(n: nat): (b: bytes)
    requires n < TWO_32
    ensures |b| > 0
  {
    if n <= 31 then [0xa0 + n]
    else if n <= 0xff then [0xd9] + BE(n, 1)
    else if n <= 0xffff then [0xda] + BE(n, 2)
    else [0xdb] + BE(n, 4)
  }

  /** The `mp_sizeof_*` family predicts the encoders without running them. */
  function SizeofUInt(n: nat): (r: nat)
    requires n < TWO_64
    ensures r == |EncUInt(n)|
  {
    if n <= 0x7f then 1 else if n <= 0xff then 2 else if n <= 0xffff then 3 else if n < TWO_32 then 5 else 9
  }

  function SizeofInt(i: int): (r: nat)
    requires -TWO_63 <= i < 0
    ensures r == |EncSInt(i)|
  {
    if i >= -0x20 then 1
    else if -0x80 <= i <= 0x7f then 2
    else if -0x8000 <= i <= 0xffff then 3
    else if -0x8000_0000 <= i < TWO_32 then 5
    else 9
  }

  function SizeofStr(n: nat): (r: nat)
    requires n < TWO_32 - 5
    ensures r == |EncStrHead(n)| + n
  {
    (if n <= 31 then 1 else if n <= 0xff then 2 else if n <= 0xffff then 3 else 5) + n
  }

  function SizeofArray(n: nat): (r: nat)
    requires n < TWO_32
    ensures r == |EncHead(TArr(n))|
  {
    if n <= 15 then 1 else if n <= 0xffff then 3 else 5
  }

  function SizeofMap(n: nat): (r: nat)
    requires n < TWO_32
    ensures r == |EncHead(TMap(n))|
  {
    if n <= 15 then 1 else if n <= 0xffff then 3 else 5
  }

  lemma NumberInverts(c: byte, n: nat, w: nat, rest: bytes)
    requires NumberWidth(c) == w && n < Pow256(w)
    ensures Number([c] + BE(n, w) + rest) == n
    ensures ([c] + BE(n, w) + rest)[1 + w..] == rest
  {
    FromBEInvertsBE(n, w);
    var b := [c] + BE(n, w) + rest;
    assert b[1..1 + w] == BE(n, w);
  }

  lemma UIntHeadInverts(n: nat, rest: bytes)
    requires n < TWO_64
    ensures Head(EncUInt(n) + rest) == Ok(TUInt(n), rest)
  {
    Widths();
    if 0x7f < n {
      var w := if n <= 0xff then 1 else if n <= 0xffff then 2 else if n < TWO_32 then 4 else 8;
      NumberInverts(EncUInt(n)[0], n, w, rest);
    }
  }

  lemma SIntHeadInverts(i: int, rest: bytes)
    requires -TWO_63 <= i < 0
    ensures Head(EncSInt(i) + rest) == Ok(TSInt(i), rest)
  {
    Widths();
    if i < -0x20 {
      var w := if i >= -0x80 then 1 else if i >= -0x8000 then 2 else if i >= -0x8000_0000 then 4 else 8;
      NumberInverts(EncSInt(i)[0], Pow256(w) + i, w, rest);
    }
  }

  lemma StrHeadInverts(s: bytes, rest: bytes)
    requires |s| < TWO_32
    ensures Head(EncStrHead(|s|) + s + rest) == Ok(TStr(s), rest)
  {
    Widths();
    var n := |s|;
    var b := EncStrHead(n) + s + rest;
    var w := if n <= 31 then 0 else if n <= 0xff then 1 else if n <= 0xffff then 2 else 4;
    Regroup(EncStrHead(n), s, rest);
    if w > 0 {
      NumberInverts(EncStrHead(n)[0], n, w, s + rest);
    }
    assert Extent(b) == 1 + w + n;
    assert b[1 + w..1 + w + n] == s && b[1 + w + n..] == rest;
  }

  /** A head that was written is read back, whatever bytes follow it. */
  lemma HeadInverts(t: Token, rest: bytes)
    requires Emittable(t)
    ensures Head(EncHead(t) + rest) == Ok(t, rest)
  {
    hide EncUInt, EncSInt, EncStrHead;
    Widths();
    match t
    case TUInt(n) => UIntHeadInverts(n, rest);
    case TSInt(i) => SIntHeadInverts(i, rest);
    case TStr(s) => StrHeadInverts(s, rest);
    case TDouble(bits) =>
      var b := EncHead(t) + rest;
      assert b[1..9] == bits && b[9..] == rest;
    case TArr(n) =>
      if 15 < n { NumberInverts(EncHead(t)[0], n, if n <= 0xffff then 2 else 4, rest); }
    case TMap(n) =>
      if 15 < n { NumberInverts(EncHead(t)[0], n, if n <= 0xffff then 2 else 4, rest); }
    case TNil =>
    case TBool(_) =>
  }

  /** What the encoders never write is read as well: numbers that are longer than they need be. */
  lemma OtherNumbers(c: byte, s: bytes, rest: bytes)
    requires |s| == 1 ==> c == 0xcc || c == 0xd0
    requires |s| == 2 ==> c == 0xcd || c == 0xd1
    requires |s| == 4 ==> c == 0xce || c == 0xd2
    requires |s| == 8 ==> c == 0xcf || c == 0xd3
    requires |s| == 1 || |s| == 2 || |s| == 4 || |s| == 8
    ensures Head([c] + s + rest) ==
            if c < 0xd0 then Ok(TUInt(FromBE(s)), rest)
            else Ok(TSInt(if 2 * FromBE(s) < Pow256(|s|) then FromBE(s) else FromBE(s) - Pow256(|s|)), rest)
  {
    hide FromBE, Pow256;
    NumberBytes(c, s, rest);
    NumberWidths(c, s);
    NumberHead(c, s, rest);
  }

  lemma NumberWidths(c: byte, s: bytes)
    requires |s| == 1 ==> c == 0xcc || c == 0xd0
    requires |s| == 2 ==> c == 0xcd || c == 0xd1
    requires |s| == 4 ==> c == 0xce || c == 0xd2
    requires |s| == 8 ==> c == 0xcf || c == 0xd3
    requires |s| == 1 || |s| == 2 || |s| == 4 || |s| == 8
    ensures NumberWidth(c) == |s| && 0xcc <= c <= 0xd3
  {
  }

  lemma NumberHead(c: byte, s: bytes, rest: bytes)
    requires NumberWidth(c) == |s| && 0xca <= c <= 0xd3
    ensures var b := [c] + s + rest;
            && Extent(b) == 1 + |s| && Number(b) == FromBE(s) && b[1 + |s|..] == rest
            && Head(b) == Ok(TokenAt(b), rest)
            && TokenAt(b) == (if c == 0xca then TFloat(b[1..5]) else if c == 0xcb then TDouble(b[1..9])
                              else if c < 0xd0 then TUInt(FromBE(s)) else TSInt(Signed(FromBE(s), |s|)))
  {
    hide FromBE, Pow256, NumberWidth;
    NumberBytes(c, s, rest);
    LongNumber(c);
  }

  lemma LongNumber(c: byte)
    requires 0xca <= c <= 0xd3
    ensures NumberWidth(c) >= 1 && (c == 0xca ==> NumberWidth(c) == 4) && (c == 0xcb ==> NumberWidth(c) == 8)
  {
  }

  lemma Floats(s: bytes, rest: bytes)
    ensures |s| == 4 ==> Head([0xca] + s + rest) == Ok(TFloat(s), rest)
    ensures |s| == 8 ==> Head([0xcb] + s + rest) == Ok(TDouble(s), rest)
  {
    NumberBytes(0xca, s, rest);
    NumberBytes(0xcb, s, rest);
  }

  lemma NumberBytes(c: byte, s: bytes, rest: bytes)
    ensures var b := [c] + s + rest;
            |b| == 1 + |s| + |rest| && b[0] == c && b[1..1 + |s|] == s && b[1 + |s|..] == rest
  {
  }

  /** Text in a longer head, binary data, and extensions of any kind `t`, which are stepped over. */
  lemma OtherData(s: bytes, t: byte, rest: bytes)
    ensures |s| < 0x100 ==>
              && Head([0xd9, |s|] + s + rest) == Ok(TStr(s), rest)
              && Head([0xc4, |s|] + s + rest) == Ok(TBin(s), rest)
              && Head([0xc7, |s|] + ([t] + s) + rest) == Ok(TExt, rest)
    ensures |s| == 1 ==> Head([0xd4, t] + s + rest) == Ok(TExt, rest)
    ensures |s| == 2 ==> Head([0xd5, t] + s + rest) == Ok(TExt, rest)
    ensures |s| == 4 ==> Head([0xd6, t] + s + rest) == Ok(TExt, rest)
    ensures |s| == 8 ==> Head([0xd7, t] + s + rest) == Ok(TExt, rest)
    ensures |s| == 16 ==> Head([0xd8, t] + s + rest) == Ok(TExt, rest)
  {
    if |s| < 0x100 {
      DataBytes(0xd9, |s|, s, rest);
      DataBytes(0xc4, |s|, s, rest);
      DataBytes(0xc7, |s|, [t] + s, rest);
      OneByte(|s|);
    }
    var c := if |s| == 1 then 0xd4 else if |s| == 2 then 0xd5 else if |s| == 4 then 0xd6
             else if |s| == 8 then 0xd7 else 0xd8;
    DataBytes(c, t, s, rest);
  }

  lemma DataBytes(c: byte, n: byte, s: bytes, rest: bytes)
    ensures var b := [c, n] + s + rest;
            |b| == 2 + |s| + |rest| && b[0] == c && b[1..2] == [n] && b[2..2 + |s|] == s && b[2 + |s|..] == rest
  {
  }

  lemma OneByte(n: byte)
    ensures FromBE([n]) == n
  {
    assert FromBE([]) == 0;
  }

  // ---------------------------------------------------------------- trees

  /** The value of a head that has no elements. */
  function Leaf(t: Token): Mp
    requires !t.TArr? && !t.TMap?
  {
    match t
    case TNil => Nil
    case TBool(b) => Bool(b)
    case TUInt(n) => UInt(n)
    case TSInt(i) => SInt(i)
    case TFloat(bits) => Float(bits)
    case TDouble(bits) => Double(bits)
    case TStr(s) => Str(s)
    case TBin(s) => Bin(s)
    case TExt => Ext
  }

  /** How many values follow a head before the value it starts is complete. */
  function Children(t: Token): nat {
    match t
    case TArr(n) => n
    case TMap(n) => 2 * n
    case _ => 0
  }

  function Parse(b: bytes): (r: Parsed<Mp>)
    ensures r.Ok? ==> |r.rest| < |b|
    decreases |b|, 0
  {
    match Head(b)
    case Fail => Fail
    case Ok(t, rest) =>
      if t.TArr? then
        match ParseSeq(rest, t.size)
        case Fail => Fail
        case Ok(ts, rest') => Ok(Arr(ts), rest')
      else if t.TMap? then
        match ParseSeq(rest, 2 * t.size)
        case Fail => Fail
        case Ok(ts, rest') => Ok(Map(ts), rest')
      else Ok(Leaf(t), rest)
  }

  function ParseSeq(b: bytes, k: nat): (r: Parsed<seq<Mp>>)
    ensures r.Ok? ==> |r.v| == k && |r.rest| <= |b|
    decreases |b|, 1, k
  {
    if k == 0 then Ok([], b)
    else
      match Parse(b)
      case Fail => Fail
      case Ok(t, rest) =>
        match ParseSeq(rest, k - 1)
        case Fail => Fail
        case Ok(ts, rest') => Ok([t] + ts, rest')
  }

  /** The head that starts the encoding of `m`. */
  function TokenOf(m: Mp): Token {
    match m
    case Nil => TNil
    case Bool(b) => TBool(b)
    case UInt(n) => TUInt(n)
    case SInt(i) => TSInt(i)
    case Float(bits) => TFloat(bits)
    case Double(bits) => TDouble(bits)
    case Str(s) => TStr(s)
    case Bin(s) => TBin(s)
    case Arr(items) => TArr(|items|)
    case Map(kvs) => TMap(|kvs| / 2)
    case Ext => TExt
  }

  function Elements(m: Mp): seq<Mp> {
    match m
    case Arr(items) => items
    case Map(kvs) => kvs
    case _ => []
  }

  /** The trees the encoders of the extension ever write. */
  predicate WF(m: Mp) {
    Emittable(TokenOf(m)) &&
    match m
    case Arr(items) => forall x <- items :: WF(x)
    case Map(kvs) => |kvs| % 2 == 0 && forall x <- kvs :: WF(x)
    case _ => true
  }

  predicate AllWF(ms: seq<Mp>) {
    forall x <- ms :: WF(x)
  }

  function Enc(m: Mp): (b: bytes)
    requires WF(m)
    ensures |b| > 0
    decreases m, 0
  {
    match m
    case Arr(items) => EncHead(TokenOf(m)) + EncSeq(items)
    case Map(kvs) => EncHead(TokenOf(m)) + EncSeq(kvs)
    case _ => EncHead(TokenOf(m))
  }

  function EncSeq(ms: seq<Mp>): bytes
    requires AllWF(ms)
    decreases ms, 0
  {
    if ms == [] then [] else Enc(ms[0]) + EncSeq(ms[1..])
  }

  lemma ParseContainer(m: Mp, b: bytes, mid: bytes, rest: bytes)
    requires m.Arr? || (m.Map? && |m.kvs| % 2 == 0)
    requires Head(b) == Ok(TokenOf(m), mid)
    requires ParseSeq(mid, |Elements(m)|) == Ok(Elements(m), rest)
    ensures Parse(b) == Ok(m, rest)
  {
    hide Head;
  }

  lemma ParseLeaf(m: Mp, b: bytes, rest: bytes)
    requires !m.Arr? && !m.Map?
    requires Head(b) == Ok(TokenOf(m), rest)
    ensures Parse(b) == Ok(m, rest)
  {
    hide Head;
  }

  lemma ElementsWF(m: Mp)
    requires WF(m)
    ensures AllWF(Elements(m)) && Emittable(TokenOf(m))
    ensures m.Map? ==> |m.kvs| % 2 == 0
  {
  }

  lemma EncUnfold(m: Mp, rest: bytes)
    requires WF(m)
    ensures AllWF(Elements(m))
    ensures Enc(m) + rest == EncHead(TokenOf(m)) + (EncSeq(Elements(m)) + rest)
    ensures Elements(m) == [] ==> EncSeq(Elements(m)) + rest == rest
  {
    hide EncHead, WF, Emittable;
    ElementsWF(m);
    var head, body := EncHead(TokenOf(m)), EncSeq(Elements(m));
    assert Enc(m) == head + body by {
      if !m.Arr? && !m.Map? {
        assert body == [] && Enc(m) == head;
      }
    }
    Regroup(head, body, rest);
  }

  /** Decoding what was encoded gives the tree back and stops at the bytes behind it. */
  lemma {:induction false} ParseInverts(m: Mp, rest: bytes)
    requires WF(m)
    ensures Parse(Enc(m) + rest) == Ok(m, rest)
    decreases m, 0
  {
    hide Head, EncHead, Parse, ParseSeq, Enc, EncSeq, WF;
    ElementsWF(m);
    EncUnfold(m, rest);
    HeadInverts(TokenOf(m), EncSeq(Elements(m)) + rest);
    if m.Arr? || m.Map? {
      ParseSeqInverts(Elements(m), rest);
      ParseContainer(m, Enc(m) + rest, EncSeq(Elements(m)) + rest, rest);
    } else {
      ParseLeaf(m, Enc(m) + rest, rest);
    }
  }

  lemma ParseSeqCons(b: bytes, m: Mp, mid: bytes, ms: seq<Mp>, rest: bytes)
    requires Parse(b) == Ok(m, mid)
    requires ParseSeq(mid, |ms|) == Ok(ms, rest)
    ensures ParseSeq(b, |ms| + 1) == Ok([m] + ms, rest)
  {
  }

  lemma {:induction false} ParseSeqInverts(ms: seq<Mp>, rest: bytes)
    requires AllWF(ms)
    ensures ParseSeq(EncSeq(ms) + rest, |ms|) == Ok(ms, rest)
    decreases ms, 0
  {
    if ms == [] {
      assert EncSeq(ms) + rest == rest;
    } else {
      hide Head, EncHead, Parse, ParseSeq, Enc;
      assert EncSeq(ms) + rest == Enc(ms[0]) + (EncSeq(ms[1..]) + rest);
      ParseInverts(ms[0], EncSeq(ms[1..]) + rest);
      ParseSeqInverts(ms[1..], rest);
      ParseSeqCons(EncSeq(ms) + rest, ms[0], EncSeq(ms[1..]) + rest, ms[1..], rest);
      assert ms == [ms[0]] + ms[1..];
    }
  }

  lemma {:induction false} EncSeqConcat(a: seq<Mp>, b: seq<Mp>)
    requires AllWF(a) && AllWF(b)
    ensures AllWF(a + b)
    ensures EncSeq(a + b) == EncSeq(a) + EncSeq(b)
  {
    hide Enc, WF;
    if a == [] {
      assert a + b == b;
    } else {
      assert (a + b)[0] == a[0];
      EncSeqConcat(a[1..], b);
      assert (a + b)[1..] == a[1..] + b;
    }
  }

  lemma EncSeqSnoc(a: seq<Mp>, m: Mp)
    requires AllWF(a) && WF(m)
    ensures AllWF(a + [m])
    ensures EncSeq(a + [m]) == EncSeq(a) + Enc(m)
  {
    hide Enc, WF;
    EncSeqConcat(a, [m]);
    assert EncSeq([m]) == Enc(m) + EncSeq([]) == Enc(m);
  }

  lemma ContainerWF(items: seq<Mp>)
    requires AllWF(items) && |items| < TWO_32
    ensures WF(Arr(items))
    ensures |items| % 2 == 0 ==> WF(Map(items))
  {
  }

  lemma EncArr(items: seq<Mp>)
    requires AllWF(items) && |items| < TWO_32
    ensures WF(Arr(items)) && Enc(Arr(items)) == EncHead(TArr(|items|)) + EncSeq(items)
  {
    hide EncHead, EncSeq, WF;
    ContainerWF(items);
  }

  lemma EncMap(kvs: seq<Mp>)
    requires AllWF(kvs) && |kvs| < TWO_32 && |kvs| % 2 == 0
    ensures WF(Map(kvs)) && Enc(Map(kvs)) == EncHead(TMap(|kvs| / 2)) + EncSeq(kvs)
  {
    hide EncHead, EncSeq, WF;
    ContainerWF(kvs);
  }

  // ---------------------------------------------------------------- reading at a position

  predicate IsSuffix(rest: bytes, b: bytes) {
    |rest| <= |b| && rest == b[|b| - |rest|..]
  }

  lemma SuffixTransitive(c: bytes, b: bytes, a: bytes)
    requires IsSuffix(c, b) && IsSuffix(b, a)
    ensures IsSuffix(c, a)
  {
  }

  lemma HeadSuffix(b: bytes)
    requires Head(b).Ok?
    ensures IsSuffix(Head(b).rest, b)
  {
    hide TokenAt, Extent;
  }

  lemma {:induction false} ParseSuffix(b: bytes)
    requires Parse(b).Ok?
    ensures IsSuffix(Parse(b).rest, b)
    decreases |b|, 0
  {
    hide Head, IsSuffix;
    HeadSuffix(b);
    var t, rest := Head(b).v, Head(b).rest;
    if t.TArr? {
      ParseSeqSuffix(rest, t.size);
      SuffixTransitive(Parse(b).rest, rest, b);
    } else if t.TMap? {
      ParseSeqSuffix(rest, 2 * t.size);
      SuffixTransitive(Parse(b).rest, rest, b);
    }
  }

  lemma {:induction false} ParseSeqSuffix(b: bytes, k: nat)
    requires ParseSeq(b, k).Ok?
    ensures IsSuffix(ParseSeq(b, k).rest, b)
    decreases |b|, 1, k
  {
    hide Head;
    if k > 0 {
      ParseSuffix(b);
      ParseSeqSuffix(Parse(b).rest, k - 1);
      SuffixTransitive(ParseSeq(b, k).rest, Parse(b).rest, b);
    }
  }

  /** A position in bytes that have been received: the `char **` of the decoders. */
  class Cursor {
    const buf: bytes
    var pos: nat

    constructor (b: bytes)
      ensures buf == b && pos == 0 && Valid()
    {
      buf := b;
      pos := 0;
    }

    ghost predicate Valid()
      reads this
    {
      pos <= |buf|
    }

    function Rest(): bytes
      requires Valid()
      reads this
    {
      buf[pos..]
    }

    /** `mp_typeof` and `mp_decode_*`: reads the head at the cursor and steps over it. */
    method DecodeHead() returns (t: Token)
      requires Valid() && Head(Rest()).Ok?
      modifies `pos
      ensures Valid() && Head(old(Rest())) == Ok(t, Rest())
    {
      hide Head;
      var r := Head(Rest());
      HeadSuffix(Rest());
      t := r.v;
      pos := |buf| - |r.rest|;
    }

    /** `mp_next`: steps over one whole value, counting the values still to come. */
    method Next()
      requires Valid() && Parse(Rest()).Ok?
      modifies `pos
      ensures Valid() && Rest() == Parse(old(Rest())).rest
    {
      hide Head, Parse;
      ghost var end := Parse(Rest()).rest;
      var k: nat := 1;
      ParseIsSeq(Rest());
      while k > 0
        invariant Valid() && ParseSeq(Rest(), k).Ok? && ParseSeq(Rest(), k).rest == end
        decreases |buf| - pos
      {
        SeqStep(Rest(), k);
        var t := DecodeHead();
        k := k - 1 + Children(t);
      }
    }
  }

  lemma ParseIsSeq(b: bytes)
    requires Parse(b).Ok?
    ensures ParseSeq(b, 1).Ok? && ParseSeq(b, 1).rest == Parse(b).rest
  {
    hide Head;
    assert ParseSeq(Parse(b).rest, 0).Ok?;
  }

  lemma {:induction false} ParseSeqJoin(b: bytes, j: nat, k: nat)
    requires ParseSeq(b, j).Ok? && ParseSeq(ParseSeq(b, j).rest, k).Ok?
    ensures ParseSeq(b, j + k) ==
            Ok(ParseSeq(b, j).v + ParseSeq(ParseSeq(b, j).rest, k).v, ParseSeq(ParseSeq(b, j).rest, k).rest)
    decreases j
  {
    hide Head, Parse;
    var v := ParseSeq(ParseSeq(b, j).rest, k).v;
    if j == 0 {
      assert [] + v == v;
    } else {
      var mid := Parse(b).rest;
      ParseSeqJoin(mid, j - 1, k);
      Regroup([Parse(b).v], ParseSeq(mid, j - 1).v, v);
    }
  }

  /** Reading one head of `k` values leaves `k - 1` values and the children of that head. */
  lemma SeqStep(b: bytes, k: nat)
    requires k > 0 && ParseSeq(b, k).Ok?
    ensures Head(b).Ok?
    ensures var n := k - 1 + Children(Head(b).v);
            ParseSeq(Head(b).rest, n).Ok? && ParseSeq(Head(b).rest, n).rest == ParseSeq(b, k).rest
  {
    hide Head;
    var t, rest := Head(b).v, Head(b).rest;
    var mid := Parse(b).rest;
    assert ParseSeq(rest, Children(t)).Ok? && ParseSeq(rest, Children(t)).rest == mid;
    ParseSeqJoin(rest, Children(t), k - 1);
  }

  // ---------------------------------------------------------------- locality

  /** Reading a head looks at its own bytes only: cutting off `x` behind it changes nothing else. */
  lemma HeadLocal(c: bytes, x: bytes)
    requires Head(c + x).Ok? && |Head(c + x).rest| >= |x|
    ensures Head(c).Ok? && Head(c).v == Head(c + x).v && Head(c + x).rest == Head(c).rest + x
  {
    var b := c + x;
    var w := 1 + NumberWidth(b[0]);
    assert c != [] && b[0] == c[0] && |c| >= Extent(b) >= w;
    assert b[1..w] == c[1..w];
    assert Extent(c) == Extent(b);
    SlicesAgree(c, x, Extent(b));
  }

  lemma SlicesAgree(c: bytes, x: bytes, n: nat)
    requires n <= |c|
    ensures forall i :: 0 <= i <= n ==> (c + x)[i..n] == c[i..n]
    ensures (c + x)[n..] == c[n..] + x
    ensures 5 <= n ==> (c + x)[1..5] == c[1..5]
    ensures 9 <= n ==> (c + x)[1..9] == c[1..9]
  {
  }

  lemma {:induction false} ParseLocal(c: bytes, x: bytes)
    requires Parse(c + x).Ok? && |Parse(c + x).rest| >= |x|
    ensures Parse(c).Ok? && Parse(c).v == Parse(c + x).v && Parse(c + x).rest == Parse(c).rest + x
    decreases |c|, 0
  {
    hide Head;
    var t, rest := Head(c + x).v, Head(c + x).rest;
    HeadLocal(c, x);
    if t.TArr? {
      ParseSeqLocal(Head(c).rest, x, t.size);
    } else if t.TMap? {
      ParseSeqLocal(Head(c).rest, x, 2 * t.size);
    }
  }

  lemma {:induction false} ParseSeqLocal(c: bytes, x: bytes, k: nat)
    requires ParseSeq(c + x, k).Ok? && |ParseSeq(c + x, k).rest| >= |x|
    ensures ParseSeq(c, k).Ok? && ParseSeq(c, k).v == ParseSeq(c + x, k).v
    ensures ParseSeq(c + x, k).rest == ParseSeq(c, k).rest + x
    decreases |c|, 1, k
  {
    hide Head;
    if k > 0 {
      ParseLocal(c, x);
      ParseSeqLocal(Parse(c).rest, x, k - 1);
    }
  }

  /** The bytes of the first value of `b`. */
  function Own(b: bytes): (s: bytes)
    requires Parse(b).Ok?
  {
    b[..|b| - |Parse(b).rest|]
  }

  /** Those bytes are the whole of that value. */
  lemma OwnParses(b: bytes)
    requires Parse(b).Ok?
    ensures Parse(Own(b)) == Ok(Parse(b).v, [])
    ensures b == Own(b) + Parse(b).rest
  {
    hide Parse;
    ParseSuffix(b);
    assert b == Own(b) + Parse(b).rest;
    ParseLocal(Own(b), Parse(b).rest);
  }
}
