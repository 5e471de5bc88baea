/** Bytes and the fixed-width integers of the wire and of the host. */
module Bytes {

  type byte = b: int | 0 <= b < 0x100
  type bytes = seq<byte>

  const TWO_32: int := 0x1_0000_0000
  const TWO_63: int := 0x8000_0000_0000_0000
  const TWO_64: int := 0x1_0000_0000_0000_0000

  datatype Option<+T> = None | Some(value: T)

  /** The characters of a literal as bytes. */
  function Text(s: string): (b: seq<int>)
    ensures |b| == |s| && forall i :: 0 <= i < |s| ==> b[i] == s[i] as int
  {
    seq(|s|, i requires 0 <= i < |s| => s[i] as int)
  }

  /** The conversion of any C integer to `uint32_t`. */
  function U32(n: int): (r: nat)
    ensures r < TWO_32
    ensures 0 <= n < TWO_32 ==> r == n
  {
    n % TWO_32
  }

  /** The conversion of an `unsigned long` to `long`. */
  function ToLong(n: nat): (i: int)
    ensures i == n || i == n - TWO_64
    ensures n < TWO_64 ==> -TWO_63 <= i < TWO_63
  {
    if n < TWO_63 then n else n - TWO_64
  }

  function Pow256(w: nat): (p: nat)
    ensures p >= 1
  {
    if w == 0 then 1 else 256 * Pow256(w - 1)
  }

  /** The low `w` bytes of `n`, most significant first. */
  function BE(n: nat, w: nat): (b: bytes)
    ensures |b| == w
  {
    if w == 0 then [] else BE(n / 256, w - 1) + [n % 256]
  }

  function FromBE(b: bytes): nat {
    if b == [] then 0 else FromBE(b[..|b| - 1]) * 256 + b[|b| - 1]
  }

  lemma {:induction false} FromBEInvertsBE(n: nat, w: nat)
    requires n < Pow256(w)
    ensures FromBE(BE(n, w)) == n
  {
    if w > 0 {
      FromBEInvertsBE(n / 256, w - 1);
      assert BE(n, w)[..w - 1] == BE(n / 256, w - 1);
    }
  }

  lemma {:induction false} FromBEBound(b: bytes)
    ensures FromBE(b) < Pow256(|b|)
  {
    if b != [] {
      FromBEBound(b[..|b| - 1]);
    }
  }

  lemma Widths()
    ensures Pow256(1) == 0x100 && Pow256(2) == 0x1_0000 && Pow256(4) == TWO_32 && Pow256(8) == TWO_64
  {
    assert Pow256(3) == 0x100_0000;
    assert Pow256(5) == 0x100_0000_0000;
    assert Pow256(6) == 0x1_0000_0000_0000;
    assert Pow256(7) == 0x100_0000_0000_0000;
  }

  /** The low `w` bytes of `n`, least significant first. */
  function LE(n: nat, w: nat): (b: bytes)
    ensures |b| == w
  {
    if w == 0 then [] else [n % 256] + LE(n / 256, w - 1)
  }

  /** The four bytes of a `uint32_t` as a little-endian host keeps them. */
  function LE32(n: nat): (b: bytes)
    ensures |b| == 4
  {
    LE(n, 4)
  }

  lemma {:induction false} LEInjective(m: nat, n: nat, w: nat)
    requires m < Pow256(w) && n < Pow256(w)
    requires LE(m, w) == LE(n, w)
    ensures m == n
  {
    if w > 0 {
      assert m % 256 == LE(m, w)[0] && n % 256 == LE(n, w)[0];
      assert LE(m, w)[1..] == LE(m / 256, w - 1) && LE(n, w)[1..] == LE(n / 256, w - 1);
      LEInjective(m / 256, n / 256, w - 1);
    }
  }

  lemma LE32Injective(m: nat, n: nat)
    requires m < TWO_32 && n < TWO_32
    requires LE32(m) == LE32(n)
    ensures m == n
  {
    Widths();
    LEInjective(m, n, 4);
  }

  /** An id below 2^24 ends in a NUL byte, so no NUL-free name can equal it. */
  lemma LE32TopByte(n: nat)
    requires n < TWO_32
    ensures LE32(n)[3] == 0 <==> n < 0x100_0000
  {
    var a := n / 256;
    var b := a / 256;
    var c := b / 256;
    assert LE(n, 4)[3] == LE(a, 3)[2] == LE(b, 2)[1] == LE(c, 1)[0] == c % 256;
  }

  lemma Regroup<T>(a: seq<T>, b: seq<T>, c: seq<T>)
    ensures a + b + c == a + (b + c)
  {
  }
}
