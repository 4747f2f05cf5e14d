/** The far ends of a stream. What they do at a poll is left open: a writer may refuse, fail
    or take any part of what it is offered, a reader may deliver any part of what is left. */
module Io {
  import opened Bytes

  datatype Poll = Pending | Ready(n: nat) | Error

  /** One poll of a writer: what it was offered and what it answered. */
  datatype Offer = Offer(bytes: seq<byte>, answer: Poll)

  /** One poll of a reader: the room it was given and what it answered. */
  datatype Inquiry = Inquiry(room: nat, answer: Poll)

  class Writer {
    /** Everything taken so far. */
    var wire: seq<byte>
    ghost var log: seq<Offer>

    method PollWrite(buf: seq<byte>) returns (res: Poll)
      modifies this
      ensures res.Ready? ==> res.n <= |buf| && wire == old(wire) + buf[..res.n]
      ensures !res.Ready? ==> wire == old(wire)
      ensures log == old(log) + [Offer(buf, res)]
    {
      if * {
        res := Pending;
      } else if * {
        res := Error;
      } else {
        var k: nat :| k <= |buf|;
        wire := wire + buf[..k];
        res := Ready(k);
      }
      log := log + [Offer(buf, res)];
    }

    method PollWriteVectored(bufs: seq<seq<byte>>) returns (res: Poll)
      modifies this
      ensures res.Ready? ==>
                res.n <= |Flatten(bufs)| && wire == old(wire) + Flatten(bufs)[..res.n]
      ensures !res.Ready? ==> wire == old(wire)
      ensures log == old(log) + [Offer(Flatten(bufs), res)]
    {
      res := PollWrite(Flatten(bufs));
    }
  }

  class Reader {
    /** What has not been delivered yet. */
    var unread: seq<byte>
    ghost var log: seq<Inquiry>

    /** Fills a front part of the first `room` bytes of `buf`. Zero is the end of the input, or
        no room. */
    method PollRead(buf: array<byte>, room: nat) returns (res: Poll)
      requires room <= buf.Length
      modifies this, buf
      ensures res.Ready? ==>
                && res.n <= room && res.n <= |old(unread)|
                && unread == old(unread)[res.n..]
                && buf[..res.n] == old(unread)[..res.n]
                && buf[res.n..] == old(buf[res.n..])
      ensures res == Ready(0) ==> room == 0 || old(unread) == []
      ensures !res.Ready? ==> unread == old(unread) && buf[..] == old(buf[..])
      ensures log == old(log) + [Inquiry(room, res)]
    {
      if * {
        res := Pending;
      } else if * {
        res := Error;
      } else if room == 0 || unread == [] {
        res := Ready(0);
      } else {
        var k: nat :| 0 < k <= room && k <= |unread|;
        forall i | 0 <= i < k {
          buf[i] := unread[i];
        }
        unread := unread[k..];
        res := Ready(k);
      }
      log := log + [Inquiry(room, res)];
    }
  }

  /** A growing output buffer (`Vec<u8>` or any writer that takes everything). */
  class Output {
    var bytes: seq<byte>

    constructor ()
      ensures bytes == []
    {
      bytes := [];
    }

    method Put8(b: byte)
      modifies this
      ensures bytes == old(bytes) + [b]
    {
      bytes := bytes + [b];
    }

    method Put16(n: u16)
      modifies this
      ensures bytes == old(bytes) + Bytes.Put16(n)
    {
      bytes := bytes + Bytes.Put16(n);
    }

    method PutAll(data: seq<byte>)
      modifies this
      ensures bytes == old(bytes) + data
    {
      bytes := bytes + data;
    }
  }

  /** An input from which exact counts are read; the end of it in the middle is an error. */
  class Input {
    var unread: seq<byte>

    constructor (data: seq<byte>)
      ensures unread == data
    {
      unread := data;
    }

    method ReadExact(n: nat) returns (r: Result<seq<byte>>)
      modifies this
      ensures r.Ok? <==> n <= |old(unread)|
      ensures r.Ok? ==> r.value == old(unread)[..n] && unread == old(unread)[n..]
      ensures r.Err? ==> unread == []
    {
      if n <= |unread| {
        r := Ok(unread[..n]);
        unread := unread[n..];
      } else {
        r := Err;
        unread := [];
      }
    }
  }
}
