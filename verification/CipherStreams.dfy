/** The encrypted stream of the tcpman protocol: every write offers an encrypted copy to a
    writer that may take part of it, and rewinds the cipher by what was not taken. */
module CipherStreams {
  import opened Bytes
  import opened Keystreams
  import opened CipherSuite
  import opened Io

  // ---- one poll, seen from outside ---------------------------------------------------

  /** What a write depends on and changes: the bytes on the wire, the cipher's position in
      the stream, and how much the previous encrypted write took. */
  datatype WriteView = WriteView(wire: seq<byte>, position: nat, lastWritten: Option<nat>)

  /** How much of a buffer of `len` bytes an encrypted write offers to the writer. */
  function Offered(last: Option<nat>, len: nat): (n: nat)
    ensures n <= len && (n == 0 <==> len == 0)
  {
    Min(len, Max(if last.Some? then last.value else 4096, 512))
  }

  /** One poll_write and its answer. */
  datatype WriteCall = WriteCall(buf: seq<byte>, res: Poll)

  function Taken(c: WriteCall): seq<byte> {
    if c.res.Ready? && c.res.n <= |c.buf| then c.buf[..c.res.n] else []
  }

  /** What follows on a call: taken bytes go out masked, a pending poll changes nothing, and
      a failed one moves the position past everything that was on offer to be encrypted. */
  function Next(s: EncryptionStrategy, ks: Keystream, v: WriteView, c: WriteCall): WriteView {
    match c.res
    case Pending => v
    case Error =>
      if s.Covers(v.position) then v.(position := v.position + Offered(v.lastWritten, |c.buf|)) else v
    case Ready(n) =>
      WriteView(v.wire + Mask(s.Masks(ks), v.position, Taken(c)),
                v.position + |Taken(c)|,
                if s.Covers(v.position) then Some(n) else v.lastWritten)
  }

  /** One poll_write, which takes no more than it was offered. */
  ghost predicate WriteStep(s: EncryptionStrategy, ks: Keystream,
                            v: WriteView, c: WriteCall, v': WriteView)
  {
    && (c.res.Ready? ==>
          c.res.n <= if s.Covers(v.position) then Offered(v.lastWritten, |c.buf|) else |c.buf|)
    && v' == Next(s, ks, v, c)
  }

  /** The poll of the far end behind a call: the masked front of the buffer, or the buffer as
      it is when nothing is left to encrypt, and the answer, which is passed on. */
  function OfferOf(s: EncryptionStrategy, ks: Keystream, v: WriteView, c: WriteCall): Offer {
    Offer(if s.Covers(v.position)
          then Mask(s.Masks(ks), v.position, c.buf[..Offered(v.lastWritten, |c.buf|)])
          else c.buf,
          c.res)
  }

  function OffersOf(s: EncryptionStrategy, ks: Keystream, v: WriteView, calls: seq<WriteCall>): seq<Offer>
    decreases calls
  {
    if calls == [] then []
    else [OfferOf(s, ks, v, calls[0])] + OffersOf(s, ks, Next(s, ks, v, calls[0]), calls[1..])
  }

  /** One poll_read that answered with data: what left the transport, what was delivered. */
  datatype ReadCall = ReadCall(chunk: seq<byte>, got: seq<byte>)

  ghost predicate ReadStep(s: EncryptionStrategy, ks: Keystream, at: nat, c: ReadCall, at': nat) {
    c.got == Mask(s.Masks(ks), at, c.chunk) && at' == at + |c.chunk|
  }

  // ---- the stream --------------------------------------------------------------------

  class CipherStream {
    const r: Reader
    const w: Writer
    var rdCipher: Option<StrategyCipher>
    var wrCipher: Option<StrategyCipher>
    var lastWrittenSize: Option<nat>
    var wrBuf: array<byte>

    /** Every object the stream works on. */
    ghost const Repr: set<object>
    ghost const rdStrategy: EncryptionStrategy
    ghost const wrStrategy: EncryptionStrategy
    ghost const rdKs: Keystream
    ghost const wrKs: Keystream
    ghost var rdPosition: nat
    ghost var wrPosition: nat

    static function Objects(c: Option<StrategyCipher>): set<object> {
      if c.Some? then c.value.Objects() else {}
    }

    /** The cipher stands at position `at` of its stream; one that is gone, or that has
        stopped modifying data, has nothing left to encrypt there. */
    static ghost predicate Follows(c: Option<StrategyCipher>, s: EncryptionStrategy,
                                   ks: Keystream, at: nat)
      reads Objects(c)
    {
      match c
      case Some(c) => c.Tracks(s, ks, at) || (!c.WillModifyData() && !s.Covers(at))
      case None => !s.Covers(at)
    }

    ghost predicate Valid()
      reads this, Repr
    {
      && this in Repr && r in Repr && w in Repr
      && Objects(rdCipher) <= Repr && Objects(wrCipher) <= Repr
      && this !in Objects(rdCipher) && this !in Objects(wrCipher)
      && r !in Objects(rdCipher) && r !in Objects(wrCipher)
      && w !in Objects(rdCipher) && w !in Objects(wrCipher)
      && Objects(rdCipher) !! Objects(wrCipher)
      && Follows(rdCipher, rdStrategy, rdKs, rdPosition)
      && Follows(wrCipher, wrStrategy, wrKs, wrPosition)
    }

    ghost function View(): WriteView
      reads this, w
    {
      WriteView(w.wire, wrPosition, lastWrittenSize)
    }

    constructor (r: Reader, w: Writer, rdCipher: StrategyCipher, wrCipher: StrategyCipher,
                 ghost rs: EncryptionStrategy, ghost rks: Keystream, ghost rat: nat,
                 ghost ws: EncryptionStrategy, ghost wks: Keystream, ghost wat: nat)
      requires rdCipher.Tracks(rs, rks, rat) && wrCipher.Tracks(ws, wks, wat)
      requires rdCipher.Objects() !! wrCipher.Objects()
      requires {r, w} !! rdCipher.Objects() + wrCipher.Objects()
      ensures Valid() && this.r == r && this.w == w
      ensures View() == WriteView(w.wire, wat, None) && rdPosition == rat
      ensures rdStrategy == rs && rdKs == rks && wrStrategy == ws && wrKs == wks
      ensures Repr == {this, r, w} + rdCipher.Objects() + wrCipher.Objects()
    {
      this.r, this.w := r, w;
      Repr := {this, r, w} + rdCipher.Objects() + wrCipher.Objects();
      this.rdCipher, this.wrCipher := Some(rdCipher), Some(wrCipher);
      lastWrittenSize := None;
      wrBuf := new byte[0];
      rdStrategy, rdKs, rdPosition := rs, rks, rat;
      wrStrategy, wrKs, wrPosition := ws, wks, wat;
    }

    method PollRead(buf: array<byte>) returns (res: Poll)
      requires Valid() && buf !in Repr
      modifies Repr, buf
      ensures Valid()
      ensures View() == old(View())
      ensures res.Ready? ==>
                && res.n <= buf.Length && res.n <= |old(r.unread)|
                && r.unread == old(r.unread)[res.n..] && buf[res.n..] == old(buf[res.n..])
                && ReadStep(rdStrategy, rdKs, old(rdPosition),
                            ReadCall(old(r.unread)[..res.n], buf[..res.n]), rdPosition)
      ensures r.log == old(r.log) + [Inquiry(buf.Length, res)]
      ensures res == Ready(0) ==> buf.Length == 0 || old(r.unread) == []
      ensures !res.Ready? ==>
                r.unread == old(r.unread) && buf[..] == old(buf[..]) && rdPosition == old(rdPosition)
    {
      res := r.PollRead(buf, buf.Length);
      if res.Ready? && res.n > 0 {
        ghost var at := rdPosition;
        ghost var taken := buf[..res.n];
        if rdCipher.Some? && rdCipher.value.WillModifyData() {
          var c := rdCipher.value;
          c.ApplyKeystream(buf, res.n, rdStrategy, rdKs, at);
        } else {
          rdCipher := None;
          PlainBeyondStrategy(rdStrategy, rdKs, at, taken);
        }
        rdPosition := rdPosition + res.n;
      }
    }

    /** Copies the first `desired` bytes of `buf` into the write buffer and encrypts them. */
    method FillWriteBuffer(c: StrategyCipher, buf: seq<byte>, desired: nat)
      requires c.Tracks(wrStrategy, wrKs, wrPosition) && c.WillModifyData()
      requires desired <= |buf| && this !in c.Objects()
      modifies this`wrBuf, c.Objects()
      ensures c.Tracks(wrStrategy, wrKs, wrPosition + desired)
      ensures wrBuf[..] == Mask(wrStrategy.Masks(wrKs), wrPosition, buf[..desired])
    {
      wrBuf := new byte[desired](i requires 0 <= i < desired => buf[i]);
      assert wrBuf[..desired] == buf[..desired];
      c.ApplyKeystream(wrBuf, desired, wrStrategy, wrKs, wrPosition);
      assert wrBuf[..] == wrBuf[..desired];
    }

    /** Rewinds the cipher by what the writer did not take of `desired` offered bytes; after
        an error the source leaves it where it is. */
    method SettleWrite(c: StrategyCipher, desired: nat, res: Poll)
      requires c.Tracks(wrStrategy, wrKs, wrPosition + desired)
      requires this !in c.Objects() && (res.Ready? ==> res.n <= desired)
      modifies this`lastWrittenSize, this`wrPosition, c.Objects()
      ensures c.Tracks(wrStrategy, wrKs, wrPosition)
      ensures wrPosition == old(wrPosition) +
                            (match res case Pending => 0 case Error => desired case Ready(n) => n)
      ensures lastWrittenSize == if res.Ready? then Some(res.n) else old(lastWrittenSize)
    {
      match res {
        case Pending =>
          c.Rewind(desired, wrStrategy, wrKs, wrPosition + desired);
        case Error =>
          wrPosition := wrPosition + desired;
        case Ready(n) =>
          if n < desired {
            c.Rewind(desired - n, wrStrategy, wrKs, wrPosition + desired);
          }
          lastWrittenSize := Some(n);
          wrPosition := wrPosition + n;
      }
    }

    /** The arm of poll_write that still encrypts. */
    method PollWriteEncrypted(c: StrategyCipher, buf: seq<byte>) returns (res: Poll)
      requires Valid() && wrCipher == Some(c) && c.WillModifyData()
      modifies this`wrBuf, this`lastWrittenSize, this`wrPosition, w, c.Objects()
      ensures Valid()
      ensures WriteStep(wrStrategy, wrKs, old(View()), WriteCall(buf, res), View())
      ensures w.log == old(w.log) + [OfferOf(wrStrategy, wrKs, old(View()), WriteCall(buf, res))]
    {
      var desired := Offered(lastWrittenSize, |buf|);
      FillWriteBuffer(c, buf, desired);
      res := w.PollWrite(wrBuf[..]);
      SettleWrite(c, desired, res);
      if res.Ready? {
        MaskPrefix(wrStrategy.Masks(wrKs), old(wrPosition), buf, desired, res.n);
      }
    }

    /** One poll of the writer, whose answer is passed on. */
    method PollWrite(buf: seq<byte>) returns (res: Poll)
      requires Valid()
      modifies Repr
      ensures Valid()
      ensures WriteStep(wrStrategy, wrKs, old(View()), WriteCall(buf, res), View())
      ensures w.log == old(w.log) + [OfferOf(wrStrategy, wrKs, old(View()), WriteCall(buf, res))]
      ensures rdPosition == old(rdPosition) && r.unread == old(r.unread) && r.log == old(r.log)
    {
      if wrCipher.Some? && wrCipher.value.WillModifyData() {
        res := PollWriteEncrypted(wrCipher.value, buf);
      } else {
        if wrCipher.Some? {
          wrCipher := None;
          wrBuf := new byte[0];
        }
        res := w.PollWrite(buf);
        if res.Ready? {
          PlainBeyondStrategy(wrStrategy, wrKs, wrPosition, buf[..res.n]);
          wrPosition := wrPosition + res.n;
        }
      }
    }

    /** The loop of poll_write_vectored: writes the slices one by one while the cipher still
        encrypts, whatever part of each the writer took. `done` holds the answer when a poll
        ended the whole call; otherwise `rest` is still to be written. */
    method PollWriteSlices(bufs: seq<seq<byte>>)
      returns (done: Option<Poll>, rest: seq<seq<byte>>, total: nat, ghost calls: seq<WriteCall>)
      requires Valid() && wrCipher.Some? && wrCipher.value.WillModifyData()
      modifies Repr
      ensures Valid()
      ensures Wrote(wrStrategy, wrKs, bufs, if done.Some? then [] else rest,
                    old(View()), old(w.log), calls, View(), w.log)
      ensures done.Some? ==> done.value == ResultOf(calls)
      ensures done.None? ==>
                ResultOf(calls) == Ready(total) && (rest != [] ==> !wrStrategy.Covers(wrPosition))
      ensures rdPosition == old(rdPosition) && r.unread == old(r.unread) && r.log == old(r.log)
    {
      ghost var start, log0 := View(), w.log;
      calls, rest, total := [], bufs, 0;
      var encrypting := true;
      while encrypting && rest != []
        invariant Valid()
        invariant encrypting == (wrCipher.Some? && wrCipher.value.WillModifyData())
        invariant Wrote(wrStrategy, wrKs, bufs, rest, start, log0, calls, View(), w.log)
        invariant ResultOf(calls) == Ready(total)
        invariant rdPosition == old(rdPosition) && r.unread == old(r.unread) && r.log == old(r.log)
        decreases rest
      {
        var buf := rest[0];
        ghost var was := rest;
        rest := rest[1..];
        var res;
        res, calls := PollWriteNext(buf, bufs, was, start, calls, log0);
        if !res.Ready? {
          done := Some(if res.Pending? && total > 0 then Ready(total) else res);
          return;
        }
        total := total + res.n;
        encrypting := wrCipher.Some? && wrCipher.value.WillModifyData();
      }
      done := None;
    }

    /** poll_write on the next slice of a vectored write that has made `calls` so far. */
    method PollWriteNext(buf: seq<byte>, ghost bufs: seq<seq<byte>>, ghost rest: seq<seq<byte>>,
                         ghost start: WriteView, ghost calls: seq<WriteCall>, ghost log0: seq<Offer>)
      returns (res: Poll, ghost calls': seq<WriteCall>)
      requires Valid() && wrStrategy.Covers(wrPosition) && rest != [] && buf == rest[0]
      requires Wrote(wrStrategy, wrKs, bufs, rest, start, log0, calls, View(), w.log)
      modifies Repr
      ensures Valid() && calls' == calls + [WriteCall(buf, res)]
      ensures Wrote(wrStrategy, wrKs, bufs, if res.Ready? then rest[1..] else [], start, log0,
                    calls', View(), w.log)
      ensures ResultOf(calls).Ready? && ResultOf(calls') == Plus(ResultOf(calls).n, res)
      ensures rdPosition == old(rdPosition) && r.unread == old(r.unread) && r.log == old(r.log)
    {
      ghost var before := View();
      res := PollWrite(buf);
      ghost var c := WriteCall(buf, res);
      calls' := calls + [c];
      WroteSnoc(wrStrategy, wrKs, bufs, rest, start, log0, calls, before, old(w.log), c, View(), w.log);
    }

    /** The polls of the call, in order, and its answer; each of them is offered no more of
        its slice than an ordinary write would be. */
    method PollWriteVectored(bufs: seq<seq<byte>>) returns (res: Poll, ghost calls: seq<WriteCall>)
      requires Valid()
      modifies Repr
      ensures Valid()
      ensures VectoredRun(wrStrategy, wrKs, bufs, old(View()), calls, View())
      ensures w.log == old(w.log) + OffersOf(wrStrategy, wrKs, old(View()), calls)
      ensures res == ResultOf(calls)
      ensures rdPosition == old(rdPosition) && r.unread == old(r.unread) && r.log == old(r.log)
    {
      if wrCipher.Some? && wrCipher.value.WillModifyData() {
        var done, rest, total;
        done, rest, total, calls := PollWriteSlices(bufs);
        if done.Some? {
          res := done.value;
        } else if rest == [] {
          res := Ready(total);
        } else {
          res, calls := PollWriteRest(bufs, rest, old(View()), calls, old(w.log));
          if res.Ready? {
            res := Ready(total + res.n);
          } else if res.Pending? && total > 0 {
            res := Ready(total);
          }
        }
      } else {
        res := PollWritePlain(bufs);
        calls := [WriteCall(Flatten(bufs), res)];
        assert calls[1..] == [];
      }
    }

    /** The plain write at the end of a vectored write that has made `calls` so far. */
    method PollWriteRest(ghost bufs: seq<seq<byte>>, rest: seq<seq<byte>>, ghost start: WriteView,
                         ghost calls: seq<WriteCall>, ghost log0: seq<Offer>)
      returns (res: Poll, ghost calls': seq<WriteCall>)
      requires Valid() && !wrStrategy.Covers(wrPosition) && rest != []
      requires Wrote(wrStrategy, wrKs, bufs, rest, start, log0, calls, View(), w.log)
      modifies w, this`wrPosition
      ensures Valid() && calls' == calls + [WriteCall(Flatten(rest), res)]
      ensures Wrote(wrStrategy, wrKs, bufs, [], start, log0, calls', View(), w.log)
      ensures ResultOf(calls).Ready? && ResultOf(calls') == Plus(ResultOf(calls).n, res)
    {
      ghost var before := View();
      res := PollWritePlain(rest);
      ghost var c := WriteCall(Flatten(rest), res);
      calls' := calls + [c];
      WroteSnoc(wrStrategy, wrKs, bufs, rest, start, log0, calls, before, old(w.log), c, View(), w.log);
    }

    /** Hands slices to the writer as they are; nothing is left to encrypt here. */
    method PollWritePlain(rest: seq<seq<byte>>) returns (res: Poll)
      requires Valid() && !wrStrategy.Covers(wrPosition)
      modifies w, this`wrPosition
      ensures Valid()
      ensures WriteStep(wrStrategy, wrKs, old(View()), WriteCall(Flatten(rest), res), View())
      ensures w.log == old(w.log) + [Offer(Flatten(rest), res)]
    {
      res := w.PollWriteVectored(rest);
      ghost var more := Taken(WriteCall(Flatten(rest), res));
      PlainBeyondStrategy(wrStrategy, wrKs, wrPosition, more);
      wrPosition := wrPosition + |more|;
    }
  }

  // ---- vectored writes ---------------------------------------------------------------

  /** The polls of poll_write_vectored from the slices `bufs` down to `rest`: one for each
      slice while there is something to encrypt, one for all slices left when there is not.
      The first poll without a count ends the call. */
  ghost predicate SlicesRun(s: EncryptionStrategy, ks: Keystream,
                            bufs: seq<seq<byte>>, rest: seq<seq<byte>>,
                            v: WriteView, calls: seq<WriteCall>, v': WriteView)
    decreases calls
  {
    if calls == [] then bufs == rest && v' == v
    else
      var c, mid := calls[0], Next(s, ks, v, calls[0]);
      && bufs != [] && c.buf == Offering(s, v, bufs) && WriteStep(s, ks, v, c, mid)
      && SlicesRun(s, ks, Remaining(s, v, bufs, c), rest, mid, calls[1..], v')
  }

  /** Such polls, each of them one poll of the far end. */
  ghost predicate Wrote(s: EncryptionStrategy, ks: Keystream,
                        bufs: seq<seq<byte>>, rest: seq<seq<byte>>, v: WriteView, log: seq<Offer>,
                        calls: seq<WriteCall>, v': WriteView, log': seq<Offer>)
  {
    SlicesRun(s, ks, bufs, rest, v, calls, v') && log' == log + OffersOf(s, ks, v, calls)
  }

  function Offering(s: EncryptionStrategy, v: WriteView, bufs: seq<seq<byte>>): seq<byte>
    requires bufs != []
  {
    if s.Covers(v.position) then bufs[0] else Flatten(bufs)
  }

  function Remaining(s: EncryptionStrategy, v: WriteView, bufs: seq<seq<byte>>, c: WriteCall): seq<seq<byte>>
    requires bufs != []
  {
    if s.Covers(v.position) && c.res.Ready? then bufs[1..] else []
  }

  /** A whole call: with nothing to encrypt from the start it is one plain poll. */
  ghost predicate VectoredRun(s: EncryptionStrategy, ks: Keystream, bufs: seq<seq<byte>>,
                              v: WriteView, calls: seq<WriteCall>, v': WriteView)
  {
    if s.Covers(v.position) then SlicesRun(s, ks, bufs, [], v, calls, v')
    else |calls| == 1 && calls[0].buf == Flatten(bufs) && WriteStep(s, ks, v, calls[0], v')
  }

  /** The answer after `n` bytes went out and `later` was answered. */
  function Plus(n: nat, later: Poll): Poll {
    match later
    case Ready(m) => Ready(n + m)
    case Pending => if n > 0 then Ready(n) else Pending
    case Error => Error
  }

  /** What the caller is told after these polls. */
  function ResultOf(calls: seq<WriteCall>): Poll {
    if calls == [] then Ready(0)
    else if calls[0].res.Ready? then Plus(calls[0].res.n, ResultOf(calls[1..]))
    else calls[0].res
  }

  /** One more poll of a call that is not over, so that all its polls had a count. */
  lemma {:induction false} SlicesRunSnoc(s: EncryptionStrategy, ks: Keystream,
                                         bufs: seq<seq<byte>>, rest: seq<seq<byte>>,
                                         v: WriteView, calls: seq<WriteCall>, v': WriteView,
                                         c: WriteCall, v'': WriteView)
    requires SlicesRun(s, ks, bufs, rest, v, calls, v')
    requires rest != [] && c.buf == Offering(s, v', rest) && WriteStep(s, ks, v', c, v'')
    ensures SlicesRun(s, ks, bufs, Remaining(s, v', rest, c), v, calls + [c], v'')
    ensures ResultOf(calls).Ready? && ResultOf(calls + [c]) == Plus(ResultOf(calls).n, c.res)
    decreases calls
  {
    var all := calls + [c];
    if calls == [] {
      assert all[0] == c && all[1..] == [];
      assert ResultOf(all[1..]) == Ready(0);
    } else {
      assert all[0] == calls[0] && all[1..] == calls[1..] + [c];
      var first := calls[0];
      SlicesRunSnoc(s, ks, Remaining(s, v, bufs, first), rest, Next(s, ks, v, first), calls[1..], v',
                    c, v'');
    }
  }

  lemma WroteSnoc(s: EncryptionStrategy, ks: Keystream, bufs: seq<seq<byte>>, rest: seq<seq<byte>>,
                  start: WriteView, log0: seq<Offer>, calls: seq<WriteCall>,
                  v: WriteView, log: seq<Offer>, c: WriteCall, v': WriteView, log': seq<Offer>)
    requires Wrote(s, ks, bufs, rest, start, log0, calls, v, log)
    requires rest != [] && c.buf == Offering(s, v, rest) && WriteStep(s, ks, v, c, v')
    requires log' == log + [OfferOf(s, ks, v, c)]
    ensures Wrote(s, ks, bufs, Remaining(s, v, rest, c), start, log0, calls + [c], v', log')
    ensures ResultOf(calls).Ready? && ResultOf(calls + [c]) == Plus(ResultOf(calls).n, c.res)
  {
    SlicesRunSnoc(s, ks, bufs, rest, start, calls, v, c, v');
    OffersSnoc(s, ks, bufs, rest, start, calls, v, c);
    assert log0 + OffersOf(s, ks, start, calls) + [OfferOf(s, ks, v, c)] ==
           log0 + (OffersOf(s, ks, start, calls) + [OfferOf(s, ks, v, c)]);
  }

  lemma {:induction false} OffersSnoc(s: EncryptionStrategy, ks: Keystream,
                                      bufs: seq<seq<byte>>, rest: seq<seq<byte>>,
                                      v: WriteView, calls: seq<WriteCall>, v': WriteView, c: WriteCall)
    requires SlicesRun(s, ks, bufs, rest, v, calls, v')
    ensures OffersOf(s, ks, v, calls + [c]) == OffersOf(s, ks, v, calls) + [OfferOf(s, ks, v', c)]
    decreases calls
  {
    var all := calls + [c];
    if calls == [] {
      assert all[0] == c && all[1..] == [];
    } else {
      assert all[0] == calls[0] && all[1..] == calls[1..] + [c];
      var first := calls[0];
      OffersSnoc(s, ks, Remaining(s, v, bufs, first), rest, Next(s, ks, v, first), calls[1..], v', c);
    }
  }

  // ---- whole runs --------------------------------------------------------------------

  /** A sequence of polls that leads from view `v` to `v'`. */
  ghost predicate WriteRun(s: EncryptionStrategy, ks: Keystream,
                           v: WriteView, calls: seq<WriteCall>, v': WriteView)
    decreases calls
  {
    if calls == [] then v' == v
    else
      var mid := Next(s, ks, v, calls[0]);
      WriteStep(s, ks, v, calls[0], mid) && WriteRun(s, ks, mid, calls[1..], v')
  }

  /** The plaintext that went out. */
  function Accepted(calls: seq<WriteCall>): (r: seq<byte>) {
    if calls == [] then [] else Taken(calls[0]) + Accepted(calls[1..])
  }

  /** The poll did not fail while data was on offer to be encrypted. */
  predicate Harmless(s: EncryptionStrategy, at: nat, c: WriteCall) {
    c.res.Error? ==> c.buf == [] || !s.Covers(at)
  }

  /** Every poll was harmless, for a writer that starts at position `at`. */
  predicate AllHarmless(s: EncryptionStrategy, at: nat, calls: seq<WriteCall>)
    decreases calls
  {
    calls == [] ||
    (Harmless(s, at, calls[0]) && AllHarmless(s, at + |Taken(calls[0])|, calls[1..]))
  }

  lemma {:induction false} WriteRunConcat(s: EncryptionStrategy, ks: Keystream,
                                          v: WriteView, a: seq<WriteCall>, mid: WriteView,
                                          b: seq<WriteCall>, v': WriteView)
    requires WriteRun(s, ks, v, a, mid) && WriteRun(s, ks, mid, b, v')
    ensures WriteRun(s, ks, v, a + b, v')
    decreases a
  {
    if a == [] {
      assert a + b == b;
    } else {
      assert (a + b)[0] == a[0] && (a + b)[1..] == a[1..] + b;
      WriteRunConcat(s, ks, Next(s, ks, v, a[0]), a[1..], mid, b, v');
    }
  }

  lemma {:induction false} AcceptedConcat(a: seq<WriteCall>, b: seq<WriteCall>)
    ensures Accepted(a + b) == Accepted(a) + Accepted(b)
  {
    if a == [] {
      assert a + b == b;
    } else {
      assert (a + b)[0] == a[0] && (a + b)[1..] == a[1..] + b;
      AcceptedConcat(a[1..], b);
    }
  }

  /** From `v` to `v'` the bytes `plain` were accepted: the position does not fall behind
      them, and if it kept to them the wire grew by exactly `plain`, masked. */
  ghost predicate Keeps(masks: Keystream, v: WriteView, plain: seq<byte>, v': WriteView) {
    && v'.position >= v.position + |plain|
    && (v'.position == v.position + |plain| ==>
        v'.wire == v.wire + Mask(masks, v.position, plain))
  }

  lemma StepKeeps(s: EncryptionStrategy, ks: Keystream, v: WriteView, c: WriteCall, v': WriteView)
    requires WriteStep(s, ks, v, c, v')
    ensures Keeps(s.Masks(ks), v, Taken(c), v')
    ensures v'.position == v.position + |Taken(c)| <==> Harmless(s, v.position, c)
  {
    if !c.res.Ready? {
      assert v.wire + Mask(s.Masks(ks), v.position, []) == v.wire;
    }
  }

  /** What an answer means for the next write: a pending poll leaves everything as it was, and
      only a count on encrypted data is remembered as the last written size. */
  lemma StepRemembers(s: EncryptionStrategy, ks: Keystream, v: WriteView, c: WriteCall, v': WriteView)
    requires WriteStep(s, ks, v, c, v')
    ensures c.res.Pending? ==> v' == v
    ensures c.res.Error? ==> v'.wire == v.wire && v'.lastWritten == v.lastWritten
    ensures c.res.Ready? ==>
              v'.lastWritten == if s.Covers(v.position) then Some(c.res.n) else v.lastWritten
  {
  }

  lemma KeepsConcat(masks: Keystream, v: WriteView, a: seq<byte>, mid: WriteView,
                    b: seq<byte>, v': WriteView)
    requires Keeps(masks, v, a, mid) && Keeps(masks, mid, b, v')
    ensures Keeps(masks, v, a + b, v')
  {
    MaskConcat(masks, v.position, a, b);
    if v'.position == v.position + |a + b| {
      assert v'.wire == v.wire + (Mask(masks, v.position, a) + Mask(masks, v.position + |a|, b));
    }
  }

  /** Over every run of polls, with any mix of pending, short, full and failed ones, the
      position of the cipher keeps to the accepted plaintext exactly if every poll was
      harmless, and then the wire holds exactly the accepted plaintext, masked. */
  lemma {:induction false} WriteRunMasks(s: EncryptionStrategy, ks: Keystream,
                                         v: WriteView, calls: seq<WriteCall>, v': WriteView)
    requires WriteRun(s, ks, v, calls, v')
    ensures Keeps(s.Masks(ks), v, Accepted(calls), v')
    ensures v'.position == v.position + |Accepted(calls)| <==> AllHarmless(s, v.position, calls)
    decreases calls
  {
    if calls == [] {
      assert v.wire + Mask(s.Masks(ks), v.position, []) == v.wire;
    } else {
      var mid := Next(s, ks, v, calls[0]);
      StepKeeps(s, ks, v, calls[0], mid);
      WriteRunMasks(s, ks, mid, calls[1..], v');
      KeepsConcat(s.Masks(ks), v, Taken(calls[0]), mid, Accepted(calls[1..]), v');
    }
  }

  /** A vectored write is a run of ordinary polls; a count it returns is what went out, and a
      pending one took nothing. */
  lemma {:induction false} SlicesRunIsRun(s: EncryptionStrategy, ks: Keystream,
                                          bufs: seq<seq<byte>>, rest: seq<seq<byte>>,
                                          v: WriteView, calls: seq<WriteCall>, v': WriteView)
    requires SlicesRun(s, ks, bufs, rest, v, calls, v')
    ensures WriteRun(s, ks, v, calls, v')
    ensures !ResultOf(calls).Error? ==>
              |Accepted(calls)| == if ResultOf(calls).Ready? then ResultOf(calls).n else 0
    decreases calls
  {
    if calls != [] {
      var c := calls[0];
      SlicesRunIsRun(s, ks, Remaining(s, v, bufs, c), rest, Next(s, ks, v, c), calls[1..], v');
      if !c.res.Ready? {
        assert calls[1..] == [];
      }
    }
  }

  /** The caller is told of a failure exactly if a poll failed, whatever went out before it. */
  lemma {:induction false} FailureIsTold(s: EncryptionStrategy, ks: Keystream,
                                         bufs: seq<seq<byte>>, rest: seq<seq<byte>>,
                                         v: WriteView, calls: seq<WriteCall>, v': WriteView)
    requires SlicesRun(s, ks, bufs, rest, v, calls, v')
    ensures ResultOf(calls).Error? <==> exists i :: 0 <= i < |calls| && calls[i].res.Error?
    ensures ResultOf(calls).Pending? ==> exists i :: 0 <= i < |calls| && calls[i].res.Pending?
    decreases calls
  {
    if calls != [] {
      var c, later := calls[0], calls[1..];
      FailureIsTold(s, ks, Remaining(s, v, bufs, c), rest, Next(s, ks, v, c), later, v');
      assert forall i :: 0 <= i < |later| ==> later[i] == calls[i + 1];
      if !c.res.Ready? {
        assert later == [];
      } else if ResultOf(later).Error? {
        var i :| 0 <= i < |later| && later[i].res.Error?;
        assert calls[i + 1].res.Error?;
      } else if ResultOf(later).Pending? {
        var i :| 0 <= i < |later| && later[i].res.Pending?;
        assert calls[i + 1].res.Pending?;
      }
    }
  }

  lemma VectoredRunIsRun(s: EncryptionStrategy, ks: Keystream, bufs: seq<seq<byte>>,
                         v: WriteView, calls: seq<WriteCall>, v': WriteView)
    requires VectoredRun(s, ks, bufs, v, calls, v')
    ensures WriteRun(s, ks, v, calls, v')
    ensures !ResultOf(calls).Error? ==>
              |Accepted(calls)| == if ResultOf(calls).Ready? then ResultOf(calls).n else 0
    ensures ResultOf(calls).Error? <==> exists i :: 0 <= i < |calls| && calls[i].res.Error?
    ensures ResultOf(calls).Pending? ==> exists i :: 0 <= i < |calls| && calls[i].res.Pending?
  {
    if s.Covers(v.position) {
      SlicesRunIsRun(s, ks, bufs, [], v, calls, v');
      FailureIsTold(s, ks, bufs, [], v, calls, v');
    } else {
      assert calls[1..] == [];
    }
  }

  ghost predicate ReadRun(s: EncryptionStrategy, ks: Keystream, at: nat, rs: seq<ReadCall>)
    decreases rs
  {
    rs == [] ||
    var next := at + |rs[0].chunk|;
    ReadStep(s, ks, at, rs[0], next) && ReadRun(s, ks, next, rs[1..])
  }

  function Consumed(rs: seq<ReadCall>): seq<byte> {
    if rs == [] then [] else rs[0].chunk + Consumed(rs[1..])
  }

  function Delivered(rs: seq<ReadCall>): seq<byte> {
    if rs == [] then [] else rs[0].got + Delivered(rs[1..])
  }

  lemma {:induction false} ReadRunMasks(s: EncryptionStrategy, ks: Keystream, at: nat,
                                        rs: seq<ReadCall>)
    requires ReadRun(s, ks, at, rs)
    ensures Delivered(rs) == Mask(s.Masks(ks), at, Consumed(rs))
    decreases rs
  {
    if rs != [] {
      var masks, chunk, rest := s.Masks(ks), rs[0].chunk, rs[1..];
      ReadRunMasks(s, ks, at + |chunk|, rest);
      MaskConcat(masks, at, chunk, Consumed(rest));
      assert Delivered(rs) == Mask(masks, at, chunk) + Mask(masks, at + |chunk|, Consumed(rest));
    }
  }
}
