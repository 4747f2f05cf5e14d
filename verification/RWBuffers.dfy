/** The read/write buffer of the proxy: a vector with a read and a write cursor. */
module RWBuffers {
  import opened Bytes

  /** What a method does to the queue: write and advance_write add at the back, read and
      advance_read take from the front, grow, write_buf and compact keep it. */
  datatype QueueOp = Put(data: seq<byte>) | Take(data: seq<byte>) | Keep

  ghost predicate QueueStep(q: seq<byte>, op: QueueOp, q': seq<byte>) {
    match op
    case Put(data) => q' == q + data
    case Take(data) => data <= q && q' == q[|data|..]
    case Keep => q' == q
  }

  class RWBuffer {
    var buf: array<byte>
    var readCursor: nat
    var writeCursor: nat

    ghost predicate Valid()
      reads this
    {
      readCursor <= writeCursor <= buf.Length
    }

    /** The queue this buffer stands for. */
    ghost function Contents(): seq<byte>
      reads this, buf
      requires Valid()
    {
      buf[readCursor..writeCursor]
    }

    constructor (buf: array<byte>)
      ensures Valid() && this.buf == buf && Contents() == []
    {
      this.buf := buf;
      readCursor, writeCursor := 0, 0;
    }

    /** Half as much again, rounded down: a vector of length 0 or 1 does not grow. */
    method Grow()
      requires Valid()
      modifies this`buf
      ensures Valid() && QueueStep(old(Contents()), Keep, Contents())
      ensures buf == old(buf) || fresh(buf)
      ensures buf.Length == old(buf.Length) * 15 / 10
      ensures buf.Length > old(buf.Length) <==> old(buf.Length) >= 2
    {
      var oldLen := buf.Length;
      var newLen := oldLen * 15 / 10;
      if newLen > oldLen {
        var previous := buf;
        buf := new byte[newLen](i requires 0 <= i < newLen reads previous =>
          if i < oldLen then previous[i] else 0);
        forall i | readCursor <= i < writeCursor ensures buf[i] == previous[i] {
        }
        assert buf[readCursor..writeCursor] == previous[readCursor..writeCursor];
      }
    }

    function RemainingRead(): nat
      reads this
      requires Valid()
    {
      writeCursor - readCursor
    }

    function RemainingWrite(): nat
      reads this
      requires Valid()
    {
      buf.Length - writeCursor
    }

    /** The source asserts that no more is consumed than is there. */
    method AdvanceRead(cnt: nat)
      requires Valid() && cnt <= RemainingRead()
      modifies this`readCursor, this`writeCursor
      ensures Valid() && QueueStep(old(Contents()), Take(old(Contents())[..cnt]), Contents())
    {
      readCursor := readCursor + cnt;
      if readCursor == writeCursor {
        readCursor, writeCursor := 0, 0;
      }
    }

    method ReadBuf() returns (s: seq<byte>)
      requires Valid()
      ensures s == Contents()
    {
      s := buf[readCursor..writeCursor];
    }

    /** The bytes just stored behind the write cursor join the queue. */
    method AdvanceWrite(cnt: nat)
      requires Valid() && cnt <= RemainingWrite()
      modifies this`writeCursor
      ensures Valid()
      ensures QueueStep(old(Contents()), Put(buf[old(writeCursor)..old(writeCursor) + cnt]), Contents())
    {
      writeCursor := writeCursor + cnt;
    }

    /** Makes room if there is none. The free part is `buf[writeCursor..]`; it is empty, and a
        read into it looks like the end of the input, only for a full vector of length 0 or 1. */
    method WriteBuf()
      requires Valid()
      modifies this`buf
      ensures Valid() && QueueStep(old(Contents()), Keep, Contents())
      ensures buf == old(buf) || fresh(buf)
      ensures buf.Length >= old(buf.Length)
      ensures RemainingWrite() == 0 <==> old(RemainingWrite()) == 0 && old(buf.Length) < 2
      ensures old(RemainingWrite()) > 0 ==> buf == old(buf)
    {
      if RemainingWrite() == 0 {
        Grow();
      }
    }

    method Compact()
      requires Valid()
      modifies this`readCursor, this`writeCursor, buf
      ensures Valid() && QueueStep(old(Contents()), Keep, Contents()) && readCursor == 0
    {
      if readCursor < writeCursor {
        if readCursor > 0 {
          ghost var queue := Contents();
          forall i | 0 <= i < writeCursor - readCursor {
            buf[i] := buf[readCursor + i];
          }
          writeCursor := writeCursor - readCursor;
          readCursor := 0;
          assert buf[0..writeCursor] == queue;
        }
      } else {
        readCursor, writeCursor := 0, 0;
      }
    }

    /** Takes as much of `data` as the vector can hold beside the queue. */
    method Write(data: seq<byte>) returns (len: nat)
      requires Valid()
      modifies this, buf
      ensures Valid() && buf == old(buf)
      ensures len == Min(|data|, buf.Length - |old(Contents())|)
      ensures QueueStep(old(Contents()), Put(data[..len]), Contents())
    {
      if RemainingWrite() < |data| {
        Compact();
      }
      len := Min(RemainingWrite(), |data|);
      Append(data[..len]);
    }

    /** Stores `data` in the free part and counts it in. */
    method Append(data: seq<byte>)
      requires Valid() && |data| <= RemainingWrite()
      modifies this, buf
      ensures Valid() && buf == old(buf)
      ensures QueueStep(old(Contents()), Put(data), Contents())
    {
      if |data| > 0 {
        WriteBuf();
        Fill(data);
        AdvanceWrite(|data|);
      }
    }

    /** Copies `data` into the front of the free part. */
    method Fill(data: seq<byte>)
      requires Valid() && |data| <= RemainingWrite()
      modifies buf
      ensures Contents() == old(Contents())
      ensures buf[writeCursor..writeCursor + |data|] == data
    {
      forall i | 0 <= i < |data| {
        buf[writeCursor + i] := data[i];
      }
      forall i | 0 <= i < |data| ensures buf[writeCursor..writeCursor + |data|][i] == data[i] {
        assert buf[writeCursor + i] == data[i];
      }
    }

    method Read(dst: array<byte>) returns (len: nat)
      requires Valid() && dst != buf
      modifies this`readCursor, this`writeCursor, dst
      ensures Valid() && len == Min(|old(Contents())|, dst.Length)
      ensures QueueStep(old(Contents()), Take(dst[..len]), Contents())
      ensures dst[len..] == old(dst[len..])
    {
      len := Min(RemainingRead(), dst.Length);
      if len > 0 {
        var s := ReadBuf();
        forall i | 0 <= i < len {
          dst[i] := s[i];
        }
        AdvanceRead(len);
      }
    }
  }

  // ---- whole runs --------------------------------------------------------------------

  ghost predicate QueueRun(qs: seq<seq<byte>>, ops: seq<QueueOp>)
    decreases ops
  {
    && |qs| == |ops| + 1
    && (ops == [] ||
        var n := |ops| - 1;
        QueueRun(qs[..n + 1], ops[..n]) && QueueStep(qs[n], ops[n], qs[n + 1]))
  }

  function PutBy(op: QueueOp): seq<byte> {
    if op.Put? then op.data else []
  }

  function TakenBy(op: QueueOp): seq<byte> {
    if op.Take? then op.data else []
  }

  function AllPut(ops: seq<QueueOp>): seq<byte> {
    if ops == [] then [] else AllPut(ops[..|ops| - 1]) + PutBy(ops[|ops| - 1])
  }

  function AllTaken(ops: seq<QueueOp>): seq<byte> {
    if ops == [] then [] else AllTaken(ops[..|ops| - 1]) + TakenBy(ops[|ops| - 1])
  }

  lemma StepBalances(q: seq<byte>, op: QueueOp, q': seq<byte>)
    requires QueueStep(q, op, q')
    ensures q + PutBy(op) == TakenBy(op) + q'
  {
  }

  lemma Chain(a: seq<byte>, put: seq<byte>, taken: seq<byte>, q: seq<byte>,
              more: seq<byte>, out: seq<byte>, q': seq<byte>)
    requires a + put == taken + q && q + more == out + q'
    ensures a + (put + more) == (taken + out) + q'
  {
    assert a + (put + more) == (a + put) + more;
    assert (taken + q) + more == taken + (q + more);
    assert taken + (out + q') == (taken + out) + q';
  }

  /** Nothing is lost, added or reordered: what was in the queue and what was put in is what
      came out and what is still there, in this order. */
  lemma {:induction false} QueueIsFifo(qs: seq<seq<byte>>, ops: seq<QueueOp>)
    requires QueueRun(qs, ops)
    ensures qs[0] + AllPut(ops) == AllTaken(ops) + qs[|ops|]
    decreases ops
  {
    if ops != [] {
      var n := |ops| - 1;
      QueueIsFifo(qs[..n + 1], ops[..n]);
      StepBalances(qs[n], ops[n], qs[n + 1]);
      Chain(qs[0], AllPut(ops[..n]), AllTaken(ops[..n]), qs[n],
            PutBy(ops[n]), TakenBy(ops[n]), qs[n + 1]);
    }
  }
}
