/**
 * A stream to a server that answers every request of a session in order. How the bytes of the
 * replies are cut into reads, when a read comes back empty, and whether a write succeeds, is up to
 * the environment.
 */
module Network {
  import opened Bytes
  import opened Protocol

  /** The payload of the reply to the last of the requests of a session. */
  type Replier = (nat, seq<bytes>) -> bytes

  /** The replies to `asked`, asked behind `before`. */
  function Replies(answer: Replier, session: nat, before: seq<bytes>, asked: seq<bytes>): (r: seq<bytes>)
    ensures |r| == |asked|
    decreases |asked|
  {
    if asked == [] then []
    else [answer(session, before + [asked[0]])] + Replies(answer, session, before + [asked[0]], asked[1..])
  }

  class Stream {
    const session: nat
    const answer: Replier
    var requests: seq<bytes>
    /** Bytes of replies on their way, or received and not read. */
    var inbox: bytes
    /** How often the environment has failed: a read that brought nothing, or a refused write. */
    ghost var faults: nat

    constructor (session: nat, answer: Replier)
      ensures this.session == session && this.answer == answer && requests == [] && inbox == []
      ensures faults == 0
    {
      this.session := session;
      this.answer := answer;
      requests := [];
      inbox := [];
      faults := 0;
    }

    /** `php_stream_read`: some bytes, or none when time is up, the server is gone or an error occurs. */
    method Read(buf: array<byte>, at: nat, size: nat) returns (n: int)
      requires at + size <= buf.Length
      modifies `inbox, `faults, buf
      ensures n <= size && faults == old(faults) + if n <= 0 then 1 else 0
      ensures buf[..at] == old(buf[..at])
      ensures n <= 0 ==> inbox == old(inbox)
      ensures n > 0 ==> buf[at..at + n] + inbox == old(inbox)
    {
      n := *;
      if n <= 0 || n > size || n > |inbox| {
        faults := faults + 1;
        return -1;
      }
      var chunk := inbox[..n];
      for i := 0 to n
        invariant inbox == old(inbox) && faults == old(faults) && buf[..at] == old(buf[..at])
        invariant forall k :: 0 <= k < i ==> buf[at + k] == chunk[k]
      {
        buf[at + i] := chunk[i];
      }
      assert buf[at..at + n] == chunk;
      inbox := inbox[n..];
    }

    /** `tntll_stream_read2`: reads until the buffer has `size` bytes or a read brings none. */
    method ReadExactly(buf: array<byte>, size: nat) returns (total: nat)
      requires size <= buf.Length
      modifies `inbox, `faults, buf
      ensures total <= size && (if total == size then faults == old(faults) else faults > old(faults))
      ensures buf[..total] + inbox == old(inbox)
    {
      total := 0;
      while total < size
        invariant total <= size && faults == old(faults)
        invariant buf[..total] + inbox == old(inbox)
      {
        var n := Read(buf, total, size - total);
        if n <= 0 {
          break;
        }
        assert buf[..total + n] == buf[..total] + buf[total..total + n];
        Regroup(buf[..total], buf[total..total + n], inbox);
        total := total + n;
      }
    }

    /** `tntll_stream_send`: once all bytes are out, the server owes a reply to every request in them. */
    method Send(b: bytes) returns (ok: bool)
      requires SplitFrames(b).Some?
      modifies this
      ensures faults == old(faults) + if ok then 0 else 1
      ensures ok ==> requests == old(requests) + SplitFrames(b).value
      ensures ok ==> inbox == old(inbox) + Frames(Replies(answer, session, old(requests), SplitFrames(b).value))
    {
      var written: nat := *;
      if written != |b| {
        faults := faults + 1;
        return false;
      }
      var asked := SplitFrames(b).value;
      inbox := inbox + Frames(Replies(answer, session, requests, asked));
      requests := requests + asked;
      ok := true;
    }
  }
}
