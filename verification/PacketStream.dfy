/** UDP packets over a byte stream: a packet leaves out its address when it is the address of
    the packet before, so both ends have to remember the same address. */
module PacketStream {
  import opened Bytes
  import opened Io
  import opened Utf8
  import opened SocksAddress

  const PAYLOAD_ONLY: byte := 1
  const WITH_V4: byte := 2
  const WITH_V6: byte := 3
  const WITH_NAME: byte := 4
  const U16_MAX: nat := 0xFFFF

  datatype Packet = Packet(payload: seq<byte>, addr: Address)

  /** A name whose length fits its two-byte field. */
  predicate Sendable(a: Address) {
    a.Name? ==> |a.host| <= U16_MAX
  }

  // ---- writing -----------------------------------------------------------------------

  /** The bytes in front of the payload when the address is sent along. */
  function FullHeader(len: u16, a: Address): (h: seq<byte>)
    requires Sendable(a)
    ensures |h| >= 3
  {
    match a
    case IP(V4(o), port) => [WITH_V4] + Put16(len) + (o + Put16(port))
    case IP(V6(o), port) => [WITH_V6] + Put16(len) + (o + Put16(port))
    case Name(host, port) => [WITH_NAME] + Put16(len) + (Put16(|host|) + host + Put16(port))
  }

  /** What a write does from remembered address `last`: the bytes that go out, or a failure,
      and the address remembered afterwards. The address is remembered before the length of
      its name is checked. */
  function WritePacket(last: Option<Address>, p: Packet): (Result<seq<byte>>, Option<Address>) {
    if |p.payload| > U16_MAX then (Err, last)
    else if last == Some(p.addr) then (Ok([PAYLOAD_ONLY] + Put16(|p.payload|) + p.payload), last)
    else if !Sendable(p.addr) then (Err, Some(p.addr))
    else (Ok(FullHeader(|p.payload|, p.addr) + p.payload), Some(p.addr))
  }

  class PacketWriter {
    var lastSent: Option<Address>

    constructor ()
      ensures lastSent == None
    {
      lastSent := None;
    }

    method Write(out: Output, addr: Address, payload: seq<byte>) returns (r: Result<nat>)
      modifies this, out
      ensures var (spec, last) := WritePacket(old(lastSent), Packet(payload, addr));
        && lastSent == last
        && out.bytes == old(out.bytes) + (if spec.Ok? then spec.value else [])
        && r == if spec.Ok? then Ok(|spec.value|) else Err
    {
      if |payload| > U16_MAX {
        return Err;
      }
      var header := new Output();
      if lastSent == Some(addr) {
        header.Put8(PAYLOAD_ONLY);
        header.Put16(|payload|);
        assert header.bytes == [PAYLOAD_ONLY] + Put16(|payload|);
      } else {
        lastSent := Some(addr);
        var ok := WriteHeader(header, |payload|, addr);
        if !ok {
          return Err;
        }
      }
      out.PutAll(header.bytes);
      out.PutAll(payload);
      assert out.bytes == old(out.bytes) + (header.bytes + payload);
      r := Ok(|header.bytes| + |payload|);
    }

    method WriteHeader(header: Output, len: u16, addr: Address) returns (ok: bool)
      requires header.bytes == []
      modifies header
      ensures ok <==> Sendable(addr)
      ensures ok ==> header.bytes == FullHeader(len, addr)
    {
      match addr {
        case IP(V4(o), port) =>
          header.Put8(WITH_V4);
          header.Put16(len);
          header.PutAll(o);
          header.Put16(port);
          JoinedParts([WITH_V4] + Put16(len), o, Put16(port), []);
        case IP(V6(o), port) =>
          header.Put8(WITH_V6);
          header.Put16(len);
          header.PutAll(o);
          header.Put16(port);
          JoinedParts([WITH_V6] + Put16(len), o, Put16(port), []);
        case Name(host, port) =>
          if |host| > U16_MAX {
            return false;
          }
          header.Put8(WITH_NAME);
          header.Put16(len);
          header.Put16(|host|);
          header.PutAll(host);
          header.Put16(port);
          JoinedParts([WITH_NAME] + Put16(len), Put16(|host|), host, Put16(port));
      }
      ok := true;
    }
  }

  // ---- reading -----------------------------------------------------------------------

  /** The first packet in `data` for a reader that remembers `last`, and what follows it. */
  function ReadPacket(last: Option<Address>, data: seq<byte>): Result<(Packet, seq<byte>)> {
    if |data| < 3 then Err
    else
      var len, body := Get16(data[1..]), data[3..];
      if data[0] == PAYLOAD_ONLY then
        if |body| < len || last.None? then Err
        else Ok((Packet(body[..len], last.value), body[len..]))
      else if data[0] == WITH_V4 then
        if |body| < 6 + len then Err
        else Ok((Packet(body[6..6 + len], IP(V4(body[..4]), Get16(body[4..]))), body[6 + len..]))
      else if data[0] == WITH_V6 then
        if |body| < 18 + len then Err
        else Ok((Packet(body[18..18 + len], IP(V6(body[..16]), Get16(body[16..]))), body[18 + len..]))
      else if data[0] == WITH_NAME then ReadNameBody(body, len)
      else Err
  }

  /** What follows the fixed header when the address is a name. */
  function ReadNameBody(body: seq<byte>, len: nat): Result<(Packet, seq<byte>)> {
    if |body| < 2 || |body| < Get16(body) + 4 + len then Err
    else
      var end := Get16(body) + 2;
      if !IsUtf8(body[2..end]) then Err
      else Ok((Packet(body[end + 2..end + 2 + len], Name(body[2..end], Get16(body[end..]))),
               body[end + 2 + len..]))
  }

  class PacketReader {
    var lastReceived: Option<Address>

    constructor (initial: Option<Address>)
      ensures lastReceived == initial
    {
      lastReceived := initial;
    }

    /** On a failure nothing is remembered. */
    method Read(input: Input) returns (r: Result<Packet>)
      modifies this, input
      ensures var spec := ReadPacket(old(lastReceived), old(input.unread));
        && (r.Ok? <==> spec.Ok?)
        && (r.Ok? ==> r.value == spec.value.0 && input.unread == spec.value.1)
        && lastReceived == if r.Ok? then Some(r.value.addr) else old(lastReceived)
    {
      ghost var data := input.unread;
      var hdrs := input.ReadExact(3);
      if hdrs.Err? {
        return Err;
      }
      var kind, len := hdrs.value[0], Get16(hdrs.value[1..]);
      assert len == Get16(data[1..]);
      if kind == PAYLOAD_ONLY {
        var payload := input.ReadExact(len);
        if payload.Err? || lastReceived.None? {
          return Err;
        }
        return Ok(Packet(payload.value, lastReceived.value));
      } else if kind == WITH_V4 {
        var p := ReadWithIp(input, 4, len);
        if p.Err? {
          return Err;
        }
        lastReceived := Some(IP(V4(p.value.0), p.value.1));
        return Ok(Packet(p.value.2, IP(V4(p.value.0), p.value.1)));
      } else if kind == WITH_V6 {
        var p := ReadWithIp(input, 16, len);
        if p.Err? {
          return Err;
        }
        lastReceived := Some(IP(V6(p.value.0), p.value.1));
        return Ok(Packet(p.value.2, IP(V6(p.value.0), p.value.1)));
      } else if kind == WITH_NAME {
        var p := ReadWithName(input, len);
        if p.Err? {
          return Err;
        }
        if lastReceived != Some(p.value.addr) {
          lastReceived := Some(p.value.addr);
        }
        return p;
      } else {
        return Err;
      }
    }

    /** Address octets, port and payload, read in one piece. */
    method ReadWithIp(input: Input, size: nat, len: nat) returns (r: Result<(seq<byte>, u16, seq<byte>)>)
      modifies input
      ensures r.Ok? <==> |old(input.unread)| >= size + 2 + len
      ensures r.Ok? ==>
                && r.value.0 == old(input.unread)[..size]
                && r.value.1 == Get16(old(input.unread)[size..])
                && r.value.2 == old(input.unread)[size + 2..size + 2 + len]
                && input.unread == old(input.unread)[size + 2 + len..]
    {
      ghost var body := input.unread;
      var data := input.ReadExact(len + size + 2);
      if data.Err? {
        return Err;
      }
      assert data.value[..size] == body[..size];
      assert data.value[size + 2..] == body[size + 2..size + 2 + len];
      r := Ok((data.value[..size], Get16(data.value[size..]), data.value[size + 2..]));
    }

    method ReadWithName(input: Input, len: nat) returns (r: Result<Packet>)
      modifies input
      ensures var spec := ReadNameBody(old(input.unread), len);
        && (r.Ok? <==> spec.Ok?)
        && (r.Ok? ==> r.value == spec.value.0 && input.unread == spec.value.1)
    {
      ghost var body := input.unread;
      var nameLen := input.ReadExact(2);
      if nameLen.Err? {
        return Err;
      }
      var n := Get16(nameLen.value);
      assert n == Get16(body);
      var data := input.ReadExact(n + 2 + len);
      if data.Err? {
        return Err;
      }
      assert data.value == body[2..][..n + 2 + len];
      assert data.value[..n] == body[2..n + 2];
      assert data.value[n + 2..] == body[n + 4..n + 4 + len];
      assert input.unread == body[n + 4 + len..];
      if !IsUtf8(data.value[..n]) {
        return Err;
      }
      r := Ok(Packet(data.value[n + 2..], Name(data.value[..n], Get16(data.value[n..]))));
    }
  }

  // ---- one packet --------------------------------------------------------------------

  lemma HeaderParts(kind: byte, len: u16, body: seq<byte>)
    ensures var d := [kind] + Put16(len) + body;
      |d| >= 3 && d[0] == kind && Get16(d[1..]) == len && d[3..] == body
  {
    var d := [kind] + Put16(len) + body;
    assert d[1..][0] == Put16(len)[0] && d[1..][1] == Put16(len)[1];
  }

  lemma IpParts(o: seq<byte>, port: u16, payload: seq<byte>, tail: seq<byte>)
    ensures var body, at := o + Put16(port) + payload + tail, |o| + 2;
      && |body| == at + |payload| + |tail|
      && body[..|o|] == o && Get16(body[|o|..]) == port
      && body[at..at + |payload|] == payload && body[at + |payload|..] == tail
  {
    var body := o + Put16(port) + payload + tail;
    assert body[|o|..][0] == Put16(port)[0] && body[|o|..][1] == Put16(port)[1];
  }

  lemma NameParts(host: seq<byte>, port: u16, payload: seq<byte>, tail: seq<byte>)
    requires |host| <= U16_MAX
    ensures var body, end := Put16(|host|) + (host + Put16(port) + payload + tail), |host| + 2;
      && |body| == end + 2 + |payload| + |tail|
      && Get16(body) == |host| && body[2..end] == host && Get16(body[end..]) == port
      && body[end + 2..end + 2 + |payload|] == payload && body[end + 2 + |payload|..] == tail
  {
    var inner, end := host + Put16(port) + payload + tail, |host| + 2;
    var body := Put16(|host|) + inner;
    IpParts(host, port, payload, tail);
    assert body[2..end] == inner[..|host|] && body[end..] == inner[|host|..];
    assert body[end + 2..end + 2 + |payload|] == inner[|host| + 2..|host| + 2 + |payload|];
    assert body[end + 2 + |payload|..] == inner[|host| + 2 + |payload|..];
  }

  /** A packet sent with its address reads back whatever the reader remembered. */
  lemma FullPacketReads(last: Option<Address>, p: Packet, tail: seq<byte>)
    requires Sendable(p.addr) && p.addr.Valid() && |p.payload| <= U16_MAX
    ensures ReadPacket(last, FullHeader(|p.payload|, p.addr) + p.payload + tail) == Ok((p, tail))
  {
    match p.addr {
      case IP(V4(o), port) => V4PacketReads(last, o, port, p.payload, tail);
      case IP(V6(o), port) => V6PacketReads(last, o, port, p.payload, tail);
      case Name(host, port) => NamePacketReads(last, host, port, p.payload, tail);
    }
  }

  lemma V4PacketReads(last: Option<Address>, o: Octets4, port: u16, payload: seq<byte>, tail: seq<byte>)
    requires |payload| <= U16_MAX
    ensures ReadPacket(last, [WITH_V4] + Put16(|payload|) + (o + Put16(port)) + payload + tail) ==
            Ok((Packet(payload, IP(V4(o), port)), tail))
  {
    var body := o + Put16(port) + payload + tail;
    HeaderParts(WITH_V4, |payload|, body);
    IpParts(o, port, payload, tail);
    assert [WITH_V4] + Put16(|payload|) + (o + Put16(port)) + payload + tail ==
           [WITH_V4] + Put16(|payload|) + body;
  }

  lemma V6PacketReads(last: Option<Address>, o: Octets16, port: u16, payload: seq<byte>, tail: seq<byte>)
    requires |payload| <= U16_MAX
    ensures ReadPacket(last, [WITH_V6] + Put16(|payload|) + (o + Put16(port)) + payload + tail) ==
            Ok((Packet(payload, IP(V6(o), port)), tail))
  {
    var body := o + Put16(port) + payload + tail;
    HeaderParts(WITH_V6, |payload|, body);
    IpParts(o, port, payload, tail);
    assert [WITH_V6] + Put16(|payload|) + (o + Put16(port)) + payload + tail ==
           [WITH_V6] + Put16(|payload|) + body;
  }

  lemma NamePacketReads(last: Option<Address>, host: seq<byte>, port: u16,
                        payload: seq<byte>, tail: seq<byte>)
    requires |payload| <= U16_MAX && |host| <= U16_MAX && IsUtf8(host)
    ensures ReadPacket(last, [WITH_NAME] + Put16(|payload|) + (Put16(|host|) + host + Put16(port))
                             + payload + tail) ==
            Ok((Packet(payload, Name(host, port)), tail))
  {
    var body := Put16(|host|) + (host + Put16(port) + payload + tail);
    NameParts(host, port, payload, tail);
    NameBodyReads(body, host, port, payload, tail);
    HeaderParts(WITH_NAME, |payload|, body);
    NameDispatch(last, [WITH_NAME] + Put16(|payload|) + body, |payload|, body);
    Regroup([WITH_NAME] + Put16(|payload|), Put16(|host|), host, Put16(port), payload, tail);
  }

  lemma NameDispatch(last: Option<Address>, d: seq<byte>, len: u16, body: seq<byte>)
    requires |d| >= 3 && d[0] == WITH_NAME && Get16(d[1..]) == len && d[3..] == body
    ensures ReadPacket(last, d) == ReadNameBody(body, len)
  {
  }

  lemma NameBodyReads(body: seq<byte>, host: seq<byte>, port: u16, payload: seq<byte>, tail: seq<byte>)
    requires |host| <= U16_MAX && IsUtf8(host)
    requires |body| == |host| + 4 + |payload| + |tail| && Get16(body) == |host|
    requires body[2..|host| + 2] == host && Get16(body[|host| + 2..]) == port
    requires body[|host| + 4..|host| + 4 + |payload|] == payload
    requires body[|host| + 4 + |payload|..] == tail
    ensures ReadNameBody(body, |payload|) == Ok((Packet(payload, Name(host, port)), tail))
  {
  }

  lemma Regroup(x: seq<byte>, n: seq<byte>, h: seq<byte>, p: seq<byte>, y: seq<byte>, z: seq<byte>)
    ensures x + (n + h + p) + y + z == x + (n + (h + p + y + z))
  {
    assert n + h + p == n + (h + p);
    assert x + (n + (h + p)) + y == x + (n + (h + p + y));
  }

  /** A packet sent without its address reads back with the reader's own. */
  lemma ShortPacketReads(last: Option<Address>, payload: seq<byte>, tail: seq<byte>)
    requires |payload| <= U16_MAX
    ensures ReadPacket(last, [PAYLOAD_ONLY] + Put16(|payload|) + payload + tail) ==
            if last.None? then Err else Ok((Packet(payload, last.value), tail))
  {
    HeaderParts(PAYLOAD_ONLY, |payload|, payload + tail);
    assert [PAYLOAD_ONLY] + Put16(|payload|) + payload + tail ==
           [PAYLOAD_ONLY] + Put16(|payload|) + (payload + tail);
  }

  // ---- whole runs --------------------------------------------------------------------

  /** Writing a sequence of packets one after the other, whatever fails: everything that went
      out, and the packets whose write succeeded. */
  function Sent(last: Option<Address>, ps: seq<Packet>): (seq<byte>, seq<Packet>)
    decreases ps
  {
    if ps == [] then ([], [])
    else
      var (r, next) := WritePacket(last, ps[0]);
      var (bytes, accepted) := Sent(next, ps[1..]);
      if r.Ok? then (r.value + bytes, [ps[0]] + accepted) else (bytes, accepted)
  }

  /** Reading `n` packets one after the other. */
  function Received(last: Option<Address>, data: seq<byte>, n: nat): Result<(seq<Packet>, seq<byte>)>
    decreases n
  {
    if n == 0 then Ok(([], data))
    else
      match ReadPacket(last, data)
      case Err => Err
      case Ok((p, rest)) =>
        match Received(Some(p.addr), rest, n - 1)
        case Err => Err
        case Ok((ps, left)) => Ok(([p] + ps, left))
  }

  ghost predicate AllSendable(ps: seq<Packet>) {
    forall i :: 0 <= i < |ps| ==> Sendable(ps[i].addr)
  }

  ghost predicate AllValid(ps: seq<Packet>) {
    forall i :: 0 <= i < |ps| ==> ps[i].addr.Valid()
  }

  /** The two ends remember the same address, as far as it matters: a writer that remembers
      nothing, or an address it cannot have sent, will send the next address in full. */
  ghost predicate Agree(w: Option<Address>, r: Option<Address>) {
    w.None? || w == r || !Sendable(w.value)
  }

  /** The packet goes out with its address, or the reader remembers that address. */
  ghost predicate Resolves(w: Option<Address>, r: Option<Address>, p: Packet) {
    w == Some(p.addr) ==> r == w
  }

  /** A write that succeeds reads back exactly if its address is sent or remembered, and then
      both ends remember it. In agreement that is so for every sendable address, and it stays
      so whether the write succeeds or not. */
  lemma PacketStep(w: Option<Address>, r: Option<Address>, p: Packet, tail: seq<byte>)
    requires p.addr.Valid()
    ensures var (out, w') := WritePacket(w, p);
      && (out.Ok? ==>
            && w' == Some(p.addr)
            && (ReadPacket(r, out.value + tail) == Ok((p, tail)) <==> Resolves(w, r, p))
            && (ReadPacket(r, out.value + tail).Ok? && !Resolves(w, r, p) ==>
                  ReadPacket(r, out.value + tail).value.0 != p))
      && (Agree(w, r) ==> Agree(w', if out.Ok? then Some(p.addr) else r))
      && (Agree(w, r) && Sendable(p.addr) ==> Resolves(w, r, p))
  {
    var (out, w') := WritePacket(w, p);
    if out.Ok? {
      if w == Some(p.addr) {
        ShortPacketReads(r, p.payload, tail);
      } else {
        FullPacketReads(r, p, tail);
      }
    }
  }

  /** Reading back what was sent gives the packets accepted, and nothing else. */
  ghost predicate ReadsBack(r: Option<Address>, bytes: seq<byte>, accepted: seq<Packet>, tail: seq<byte>) {
    Received(r, bytes + tail, |accepted|) == Ok((accepted, tail))
  }

  /** The same with the wrong packets coming out, or a failure. */
  ghost predicate ReadsWrong(r: Option<Address>, bytes: seq<byte>, accepted: seq<Packet>, tail: seq<byte>) {
    var got := Received(r, bytes + tail, |accepted|);
    got.Err? || got.value.0 != accepted
  }

  lemma AcceptedCons(r: Option<Address>, out: seq<byte>, p: Packet, bytes: seq<byte>,
                     accepted: seq<Packet>, tail: seq<byte>)
    ensures ReadPacket(r, out + (bytes + tail)) == Ok((p, bytes + tail)) ==>
              && (ReadsBack(Some(p.addr), bytes, accepted, tail) ==>
                    ReadsBack(r, out + bytes, [p] + accepted, tail))
              && (ReadsWrong(Some(p.addr), bytes, accepted, tail) ==>
                    ReadsWrong(r, out + bytes, [p] + accepted, tail))
    ensures (ReadPacket(r, out + (bytes + tail)).Ok? ==>
               ReadPacket(r, out + (bytes + tail)).value.0 != p) ==>
            ReadsWrong(r, out + bytes, [p] + accepted, tail)
  {
    assert out + bytes + tail == out + (bytes + tail);
    var all := [p] + accepted;
    assert all[0] == p && all[1..] == accepted;
    var got := Received(r, out + bytes + tail, |all|);
    if got.Ok? {
      var first := ReadPacket(r, out + (bytes + tail)).value;
      var more := Received(Some(first.0.addr), first.1, |accepted|);
      assert got.value.0 == [first.0] + more.value.0;
      assert got.value.0[0] == first.0 && got.value.0[1..] == more.value.0;
    }
  }

  /** No address is offered again while the writer remembers it and the reader does not: one
      that was not agreed upon from the start, or a name too long to be sent. A packet with
      too long a payload changes nothing. */
  ghost predicate Recovers(w: Option<Address>, r: Option<Address>, ps: seq<Packet>)
    decreases ps
  {
    if ps == [] then true
    else
      var p, rest := ps[0], ps[1..];
      if |p.payload| > U16_MAX then Recovers(w, r, rest)
      else
        && Resolves(w, r, p)
        && Recovers(Some(p.addr), if Sendable(p.addr) then Some(p.addr) else r, rest)
  }

  /** For every sequence of packets and whatever addresses the two ends start from, reading
      what one writer sent yields exactly the packets whose write succeeded, with nothing left
      over, exactly if no address is offered again in this way. */
  lemma {:induction false} StreamRoundTripExact(w: Option<Address>, r: Option<Address>,
                                                ps: seq<Packet>, tail: seq<byte>)
    requires AllValid(ps)
    ensures var (bytes, accepted) := Sent(w, ps);
      if Recovers(w, r, ps) then ReadsBack(r, bytes, accepted, tail)
      else ReadsWrong(r, bytes, accepted, tail)
    decreases ps
  {
    if ps == [] {
      assert [] + tail == tail;
    } else {
      var p, rest := ps[0], ps[1..];
      var (out, w') := WritePacket(w, p);
      var (bytes, accepted) := Sent(w', rest);
      assert AllValid(rest);
      if out.Err? {
        StreamRoundTripExact(w', r, rest, tail);
      } else {
        PacketStep(w, r, p, bytes + tail);
        AcceptedCons(r, out.value, p, bytes, accepted, tail);
        if Resolves(w, r, p) {
          StreamRoundTripExact(w', Some(p.addr), rest, tail);
        }
      }
    }
  }

  /** In particular everything reads back between two ends in agreement, new ones say, when
      every name can be sent. */
  lemma {:induction false} SendableRecovers(w: Option<Address>, r: Option<Address>, ps: seq<Packet>)
    requires Agree(w, r) && AllSendable(ps)
    ensures Recovers(w, r, ps)
    decreases ps
  {
    if ps != [] {
      assert Sendable(ps[0].addr);
      if |ps[0].payload| > U16_MAX {
        SendableRecovers(w, r, ps[1..]);
      } else {
        SendableRecovers(Some(ps[0].addr), Some(ps[0].addr), ps[1..]);
      }
    }
  }

  /** The refused name that goes out after all: 65536 bytes, written twice; the reader takes
      the second packet for one to its own address. */
  lemma LongNameTwice(r: Address, payload: seq<byte>)
    requires |payload| <= U16_MAX && Sendable(r)
    ensures var p := Packet(payload, Name(seq(U16_MAX + 1, _ => 0x61), 80));
      var (bytes, accepted) := Sent(None, [p, p]);
      accepted == [p] && Received(Some(r), bytes, 1) == Ok(([Packet(payload, r)], []))
  {
    var p := Packet(payload, Name(seq(U16_MAX + 1, _ => 0x61), 80));
    var out := [PAYLOAD_ONLY] + Put16(|payload|) + payload;
    assert [p, p][1..] == [p] && [p][1..] == [];
    assert WritePacket(Some(p.addr), p) == (Ok(out), Some(p.addr));
    assert Sent(Some(p.addr), []) == ([], []);
    assert Sent(Some(p.addr), [p]) == (out + [], [p] + []);
    assert WritePacket(None, p) == (Err, Some(p.addr));
    ShortPacketReads(Some(r), payload, []);
    assert out + [] + [] == out + [] == out;
    assert ReadPacket(Some(r), out) == Ok((Packet(payload, r), []));
    assert Received(Some(r), [], 0) == Ok(([], []));
    assert [Packet(payload, r)] + [] == [Packet(payload, r)];
  }
}
