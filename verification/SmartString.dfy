/** The growing output buffer of PHP, as the extension uses it. */
module SmartString {
  import opened Bytes

  class SmartString {
    var c: array<byte>
    var len: nat
    var a: nat
    /** Bytes moved by reallocations so far. */
    ghost var copied: nat

    ghost predicate Valid()
      reads this
    {
      && c.Length == a
      && len <= a
      && copied <= a
    }

    ghost function Contents(): bytes
      requires Valid()
      reads this, c
    {
      c[..len]
    }

    constructor ()
      ensures Valid() && fresh(c)
      ensures len == 0 && a == 0 && Contents() == []
    {
      c := new byte[0];
      len, a, copied := 0, 0, 0;
    }

    /** `smart_string_alloc4`: capacity at least what was asked for, contents kept. */
    method Alloc(needed: nat)
      requires Valid() && needed >= 2 * a && needed >= len
      modifies this
      ensures Valid() && fresh(c)
      ensures a >= needed && len == old(len) && Contents() == old(Contents())
      ensures copied == old(copied) + len
    {
      var spare: int :| spare >= 0;
      var d := new byte[needed + spare](_ => 0);
      forall i | 0 <= i < len {
        d[i] := c[i];
      }
      copied := copied + len;
      c, a := d, d.Length;
    }

    /**
     * `smart_string_ensure`: afterwards `n` more bytes fit. The bytes written so far survive, and the
     * invariant keeps every byte ever moved within the present capacity, since growth at least doubles it.
     */
    method Ensure(n: nat)
      requires Valid()
      modifies this
      ensures Valid() && (c == old(c) || fresh(c))
      ensures len == old(len) && len + n <= a && a >= old(a)
      ensures Contents() == old(Contents())
      ensures old(a) > len + n ==> c == old(c)
    {
      if a > len + n {
        return;
      }
      var needed := a * 2;
      if len + n > needed {
        needed := len + n;
      }
      Alloc(needed);
    }

    /** Every packing routine: reserve the size of the encoding, store it at the end, advance. */
    method Append(bs: bytes)
      requires Valid()
      modifies this, c
      ensures Valid() && (c == old(c) || fresh(c)) && a >= old(a)
      ensures Contents() == old(Contents()) + bs
    {
      var needed := |bs|;
      Ensure(needed);
      ghost var before := Contents();
      forall i | 0 <= i < |bs| {
        c[len + i] := bs[i];
      }
      assert c[..len] == before;
      assert c[len..len + |bs|] == bs;
      len := len + needed;
    }

    /** Overwrites bytes that are already there, at an offset from the start of the buffer. */
    method Patch(at: nat, bs: bytes)
      requires Valid() && at + |bs| <= len
      modifies c
      ensures Valid() && Contents() == old(Contents()[..at]) + bs + old(Contents()[at + |bs|..])
    {
      forall i | 0 <= i < |bs| {
        c[at + i] := bs[i];
      }
      assert c[..at] == old(c[..at]);
      assert c[at..at + |bs|] == bs;
    }

    /** Rollback: drop what was written after the first `n` bytes. */
    method Truncate(n: nat)
      requires Valid() && n <= len
      modifies this`len
      ensures Valid() && Contents() == old(Contents())[..n]
    {
      len := n;
    }
  }
}
