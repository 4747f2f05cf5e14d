/** A whole direction of a tcpman connection: plain and vectored writes in any mix at one
    end, reads in any chunks at the other. */
module Sessions {
  import opened Bytes
  import opened Keystreams
  import opened CipherStreams
  import opened VectoredOrder
  import opened LateBytes
  import opened Io

  /** A call of the stream's user, with the polls of the writer it led to. */
  datatype Call = Single(poll: WriteCall) | Vectored(bufs: seq<seq<byte>>, polls: seq<WriteCall>)

  function Polls(c: Call): seq<WriteCall> {
    if c.Single? then [c.poll] else c.polls
  }

  function AllPolls(cs: seq<Call>): seq<WriteCall> {
    if cs == [] then [] else Polls(cs[0]) + AllPolls(cs[1..])
  }

  ghost predicate CallRun(s: EncryptionStrategy, ks: Keystream, v: WriteView, c: Call, v': WriteView) {
    match c
    case Single(poll) => WriteStep(s, ks, v, poll, v')
    case Vectored(bufs, polls) => VectoredRun(s, ks, bufs, v, polls, v')
  }

  function After(s: EncryptionStrategy, ks: Keystream, v: WriteView, polls: seq<WriteCall>): WriteView
    decreases polls
  {
    if polls == [] then v else After(s, ks, Next(s, ks, v, polls[0]), polls[1..])
  }

  ghost predicate SessionRun(s: EncryptionStrategy, ks: Keystream,
                             v: WriteView, cs: seq<Call>, v': WriteView)
    decreases cs
  {
    if cs == [] then v' == v
    else
      var mid := After(s, ks, v, Polls(cs[0]));
      CallRun(s, ks, v, cs[0], mid) && SessionRun(s, ks, mid, cs[1..], v')
  }

  /** The plaintext the caller takes for sent: the front part of its data, as long as the
      count it was given. */
  function Told(c: Call): (r: seq<byte>) {
    match c
    case Single(poll) => Taken(poll)
    case Vectored(bufs, polls) => Taken(WriteCall(Flatten(bufs), ResultOf(polls)))
  }

  function AllTold(cs: seq<Call>): seq<byte> {
    if cs == [] then [] else Told(cs[0]) + AllTold(cs[1..])
  }

  /** A vectored call kept its slices in order, and did not fail after it had sent a part. */
  ghost predicate Orderly(s: EncryptionStrategy, at: nat, c: Call) {
    c.Vectored? ==>
      if ResultOf(c.polls).Error? then Accepted(c.polls) == []
      else InOrder(s, at, Lengths(c.bufs), Answers(c.polls))
  }

  ghost predicate AllOrderly(s: EncryptionStrategy, ks: Keystream, v: WriteView, cs: seq<Call>)
    decreases cs
  {
    cs == [] ||
    (Orderly(s, v.position, cs[0]) && AllOrderly(s, ks, After(s, ks, v, Polls(cs[0])), cs[1..]))
  }

  lemma {:induction false} RunEnds(s: EncryptionStrategy, ks: Keystream,
                                   v: WriteView, polls: seq<WriteCall>, v': WriteView)
    requires WriteRun(s, ks, v, polls, v')
    ensures v' == After(s, ks, v, polls)
    decreases polls
  {
    if polls != [] {
      RunEnds(s, ks, Next(s, ks, v, polls[0]), polls[1..], v');
    }
  }

  /** A call is a run of polls that ends where they lead, and an orderly one tells its caller
      what went out. */
  lemma CallIsRun(s: EncryptionStrategy, ks: Keystream, v: WriteView, c: Call, v': WriteView)
    requires CallRun(s, ks, v, c, v')
    ensures WriteRun(s, ks, v, Polls(c), v') && v' == After(s, ks, v, Polls(c))
    ensures Orderly(s, v.position, c) ==> Told(c) == Accepted(Polls(c))
  {
    match c {
      case Single(poll) =>
        assert [poll][1..] == [];
        assert Taken(poll) + [] == Taken(poll);
      case Vectored(bufs, polls) =>
        VectoredRunIsRun(s, ks, bufs, v, polls, v');
        if Orderly(s, v.position, c) && !ResultOf(polls).Error? {
          VectoredInOrder(s, ks, bufs, v, polls, v');
        }
    }
    RunEnds(s, ks, v, Polls(c), v');
  }

  /** Over every run of calls the caller is told what went out. */
  lemma {:induction false} SessionIsRun(s: EncryptionStrategy, ks: Keystream,
                                        v: WriteView, cs: seq<Call>, v': WriteView)
    requires SessionRun(s, ks, v, cs, v')
    ensures WriteRun(s, ks, v, AllPolls(cs), v')
    ensures AllOrderly(s, ks, v, cs) ==> AllTold(cs) == Accepted(AllPolls(cs))
    decreases cs
  {
    if cs != [] {
      var polls, rest := Polls(cs[0]), AllPolls(cs[1..]);
      var mid := After(s, ks, v, polls);
      CallIsRun(s, ks, v, cs[0], mid);
      SessionIsRun(s, ks, mid, cs[1..], v');
      WriteRunConcat(s, ks, v, polls, mid, rest, v');
      AcceptedConcat(polls, rest);
    }
  }

  /** One direction of a connection: `first` bytes went ahead under the same keystream (the
      client's HTTP header; none from server to client), then the writer's user made the calls
      `cs`, in order and with nothing accepted after a failure, and the reader has taken a front
      part of the wire in chunks. */
  ghost predicate Carries(s: EncryptionStrategy, ks: Keystream, first: nat,
                          cs: seq<Call>, v': WriteView, rs: seq<ReadCall>)
  {
    var v := WriteView([], first, None);
    && SessionRun(s, ks, v, cs, v') && AllOrderly(s, ks, v, cs) && NothingLate(s, first, AllPolls(cs))
    && ReadRun(s, ks, first, rs) && Consumed(rs) <= v'.wire
  }

  /** The reader holds a prefix of the plaintext, as long as what it took off the wire, and
      all of it once the wire is drained. */
  lemma {:induction false} StreamDelivers(s: EncryptionStrategy, ks: Keystream, first: nat,
                                          cs: seq<Call>, v': WriteView, rs: seq<ReadCall>)
    requires Carries(s, ks, first, cs, v', rs)
    ensures Delivered(rs) <= AllTold(cs) && |Delivered(rs)| == |Consumed(rs)|
    ensures Consumed(rs) == v'.wire ==> Delivered(rs) == AllTold(cs)
  {
    var v, masks, plain := WriteView([], first, None), s.Masks(ks), AllTold(cs);
    SessionIsRun(s, ks, v, cs, v');
    NothingLateMasks(s, ks, v, AllPolls(cs), v');
    assert v'.wire == Mask(masks, first, plain) by {
      assert [] + Mask(masks, first, plain) == Mask(masks, first, plain);
    }
    ReadRunMasks(s, ks, first, rs);
    PrefixUnmasks(masks, first, plain, Consumed(rs));
  }
}
