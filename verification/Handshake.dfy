/** Finding out what a proxy client speaks: three parsers race on a growing buffer. The
    answer must not depend on how the bytes were cut into reads. */
module Handshake {
  import opened Bytes
  import opened SocksAddress
  import opened Socks
  import opened RWBuffers

  const AUTH_NO_PASSWORD: byte := 0
  const AUTH_NOT_ACCEPTED: byte := 0xFF
  const CONNECT_TCP: byte := 1
  const BIND_UDP: byte := 3
  const SOCKS4_REQUEST_TCP: byte := 1
  const DEFAULT_ADDRESS: Address := IP(V4([0, 0, 0, 0]), 0)
  const UNSUPPORTED_COMMAND: byte := 7
  const UNSUPPORTED_REPLY: seq<byte> :=
    [VERSION5, UNSUPPORTED_COMMAND, 0, ATYP_V4, 0, 0, 0, 0, 0, 0]

  // ---- the far end and the HTTP library -----------------------------------------------

  /** A connection: reads deliver any non-empty part of what is left until the end. */
  class Stream {
    var unread: seq<byte>
    var written: seq<byte>

    /** Reads into `dst[from..]`; zero is the end of the input, or an empty destination. */
    method Read(dst: array<byte>, from: nat) returns (n: nat)
      requires from <= dst.Length
      modifies this`unread, dst
      ensures n <= dst.Length - from && n <= |old(unread)|
      ensures n == 0 <==> from == dst.Length || old(unread) == []
      ensures unread == old(unread)[n..]
      ensures dst[..from] == old(dst[..from])
      ensures dst[from..from + n] == old(unread)[..n]
    {
      if from == dst.Length || unread == [] {
        return 0;
      }
      var k: nat :| 0 < k <= dst.Length - from && k <= |unread|;
      forall i | 0 <= i < k {
        dst[from + i] := unread[i];
      }
      n := k;
      unread := unread[n..];
    }

    method WriteAll(data: seq<byte>)
      modifies this`written
      ensures written == old(written) + data
    {
      written := written + data;
    }
  }

  datatype HttpRequest = HttpRequest(headers: seq<(string, seq<byte>)>, httpMethod: string, path: string)

  datatype HandshakeRequest =
    | Tcp(dst: Address)
    | Udp(udpDst: Option<Address>)
    | HttpProxy(httpDst: Address, https: bool, req: HttpRequest)

  /** The HTTP request parser, and what handshake_http makes of a parsed request. */
  datatype HttpLib = HttpLib(parse: seq<byte> -> Parse<HttpRequest>,
                             request: HttpRequest -> Result<HandshakeRequest>)
  {
    /** The parser is incremental, and no HTTP request starts with byte 4 or 5. */
    ghost predicate Lawful() {
      && PrefixStable(parse)
      && forall s :: RejectsSocks(s)
    }

    ghost predicate RejectsSocks(s: seq<byte>) {
      s != [] && (s[0] == VERSION4 || s[0] == VERSION5) ==> parse(s).Failed?
    }
  }

  // ---- what the whole input means ------------------------------------------------------

  datatype Detected =
    | Greeted(greetEnd: nat, auths: seq<byte>)
    | Asked4(request4End: nat, request4: Request4)
    | AskedHttp(httpEnd: nat, http: HttpRequest)
    | Nothing

  /** The first byte decides which protocol it can be, and that parser decides the rest. */
  function Detect(lib: HttpLib, all: seq<byte>): (d: Detected)
    ensures d.Greeted? ==> d.greetEnd <= |all|
  {
    if all == [] then Nothing
    else if all[0] == VERSION5 then
      match GreetingAt(all) case Complete(k, auths) => Greeted(k, auths) case _ => Nothing
    else if all[0] == VERSION4 then
      match Socks4At(all) case Complete(k, r) => Asked4(k, r) case _ => Nothing
    else
      match lib.parse(all) case Complete(k, h) => AskedHttp(k, h) case _ => Nothing
  }

  /** The answer, how many bytes were consumed for it, and what was sent back meanwhile. */
  datatype Outcome = Outcome(result: Result<HandshakeRequest>, consumed: nat, reply: seq<byte>)

  function CommandAnswer(req: ConnRequest): Result<HandshakeRequest> {
    if req.cmd == CONNECT_TCP then Ok(Tcp(req.address))
    else if req.cmd == BIND_UDP then
      Ok(Udp(if IsUnspecified(req.address) then None else Some(req.address)))
    else Err
  }

  /** After an accepted greeting. */
  function RequestOutcome(lit: IpLiteral, rest: seq<byte>): Outcome {
    match RequestAt(lit, rest)
    case Complete(k, req) =>
      if CommandAnswer(req).Ok? then Outcome(CommandAnswer(req), k, [])
      else Outcome(Err, 0, UNSUPPORTED_REPLY)
    case _ => Outcome(Err, 0, [])
  }

  function Socks5Outcome(lit: IpLiteral, auths: seq<byte>, rest: seq<byte>): Outcome {
    if AUTH_NO_PASSWORD !in auths then Outcome(Err, 0, [VERSION5, AUTH_NOT_ACCEPTED])
    else
      var o := RequestOutcome(lit, rest);
      o.(reply := [VERSION5, AUTH_NO_PASSWORD] + o.reply)
  }

  function Socks4Answer(r: Request4): Result<HandshakeRequest> {
    if r.cmd == SOCKS4_REQUEST_TCP then Ok(Tcp(r.addr)) else Err
  }

  function Expected(lit: IpLiteral, lib: HttpLib, all: seq<byte>): Outcome {
    match Detect(lib, all)
    case Nothing => Outcome(Err, 0, [])
    case Asked4(k, r) => Outcome(Socks4Answer(r), k, [])
    case AskedHttp(k, h) => Outcome(lib.request(h), k, [])
    case Greeted(k, auths) =>
      var o := Socks5Outcome(lit, auths, all[k..]);
      o.(consumed := k + o.consumed)
  }

  // ---- one turn of the detection loop --------------------------------------------------

  datatype ParseState = Init | Socks5Partial | Socks4Partial | HttpPartial

  datatype Turn = Found(d: Detected) | GiveUp | ReadOn(state: ParseState)

  /** The match over the three parsers' answers, in its order of preference. */
  function InitTurn(g: Parse<seq<byte>>, f: Parse<Request4>, h: Parse<HttpRequest>): Turn {
    match (g, f, h)
    case (Complete(k, auths), _, _) => Found(Greeted(k, auths))
    case (_, Complete(k, r), _) => Found(Asked4(k, r))
    case (_, _, Complete(k, r)) => Found(AskedHttp(k, r))
    case (Failed, Failed, Failed) => GiveUp
    case (Failed, Failed, Incomplete) => ReadOn(HttpPartial)
    case (Incomplete, Failed, Failed) => ReadOn(Socks5Partial)
    case (Failed, Incomplete, Failed) => ReadOn(Socks4Partial)
    case _ => ReadOn(Init)
  }

  function TurnOf(lib: HttpLib, state: ParseState, b: seq<byte>): Turn {
    match state
    case Init => InitTurn(GreetingAt(b), Socks4At(b), lib.parse(b))
    case HttpPartial =>
      (match lib.parse(b)
       case Incomplete => ReadOn(state) case Failed => GiveUp case Complete(k, h) => Found(AskedHttp(k, h)))
    case Socks5Partial =>
      (match GreetingAt(b)
       case Incomplete => ReadOn(state) case Failed => GiveUp case Complete(k, a) => Found(Greeted(k, a)))
    case Socks4Partial =>
      (match Socks4At(b)
       case Incomplete => ReadOn(state) case Failed => GiveUp case Complete(k, r) => Found(Asked4(k, r)))
  }

  /** What a partial state has learned about the bytes seen so far. A Socks4Partial state is
      also entered on fewer than nine bytes that no parser can accept any more. */
  ghost predicate Knows(lib: HttpLib, state: ParseState, b: seq<byte>) {
    match state
    case Init => true
    case Socks5Partial => b != [] && b[0] == VERSION5
    case Socks4Partial => b != [] && b[0] != VERSION5 && (b[0] == VERSION4 || lib.parse(b).Failed?)
    case HttpPartial => b != [] && b[0] != VERSION5 && b[0] != VERSION4
  }

  lemma KnowsMore(lib: HttpLib, state: ParseState, b: seq<byte>, more: seq<byte>)
    requires lib.Lawful() && Knows(lib, state, b)
    ensures Knows(lib, state, b + more)
  {
    assert FinalOn(lib.parse, b, more);
  }

  /** Every turn is right about the whole input, however little of it has arrived. */
  lemma TurnIsRight(lib: HttpLib, state: ParseState, b: seq<byte>, more: seq<byte>)
    requires lib.Lawful() && Knows(lib, state, b)
    ensures match TurnOf(lib, state, b)
      case Found(d) => Detect(lib, b + more) == d && d != Nothing
      case GiveUp => Detect(lib, b + more) == Nothing
      case ReadOn(next) => Knows(lib, next, b) && (more == [] ==> Detect(lib, b + more) == Nothing)
  {
    GreetingStable();
    Socks4Stable();
    assert FinalOn(GreetingAt, b, more) && FinalOn(Socks4At, b, more);
    assert FinalOn(lib.parse, b, more) && lib.RejectsSocks(b);
    if b == [] {
      NoHttpFromNothing(lib);
    } else {
      assert (b + more)[0] == b[0];
    }
    if more == [] {
      assert b + more == b;
    }
  }

  /** An incremental parser that rejects some input cannot accept the empty one. */
  lemma NoHttpFromNothing(lib: HttpLib)
    requires lib.Lawful()
    ensures !lib.parse([]).Complete?
  {
    assert FinalOn(lib.parse, [], [VERSION5]) && lib.RejectsSocks([] + [VERSION5]);
  }

  /** The detection loop on an input that arrives as `chunks` after the bytes `b`. */
  function DetectLoop(lib: HttpLib, state: ParseState, b: seq<byte>, chunks: seq<seq<byte>>): Detected
    decreases chunks
  {
    match TurnOf(lib, state, b)
    case Found(d) => d
    case GiveUp => Nothing
    case ReadOn(next) =>
      if chunks == [] then Nothing else DetectLoop(lib, next, b + chunks[0], chunks[1..])
  }

  lemma {:induction false} LoopIsDetect(lib: HttpLib, state: ParseState, b: seq<byte>, chunks: seq<seq<byte>>)
    requires lib.Lawful() && Knows(lib, state, b)
    ensures DetectLoop(lib, state, b, chunks) == Detect(lib, b + Flatten(chunks))
    decreases chunks
  {
    TurnIsRight(lib, state, b, Flatten(chunks));
    var turn := TurnOf(lib, state, b);
    if turn.ReadOn? && chunks != [] {
      KnowsMore(lib, turn.state, b, chunks[0]);
      LoopIsDetect(lib, turn.state, b + chunks[0], chunks[1..]);
      assert b + chunks[0] + Flatten(chunks[1..]) == b + (chunks[0] + Flatten(chunks[1..]));
    }
  }

  /** Detection is independent of chunking: however the same bytes are cut, the loop finds
      the same protocol, the same message and the same number of consumed bytes, or fails. */
  lemma DetectionIgnoresChunking(lib: HttpLib, one: seq<seq<byte>>, other: seq<seq<byte>>)
    requires lib.Lawful() && Flatten(one) == Flatten(other)
    ensures DetectLoop(lib, Init, [], one) == DetectLoop(lib, Init, [], other)
  {
    LoopIsDetect(lib, Init, [], one);
    LoopIsDetect(lib, Init, [], other);
  }

  // ---- the loops -----------------------------------------------------------------------

  /** One read into the buffer; zero means the end of the input, or a buffer that is full and
      too small to grow. */
  method ReadMore(stream: Stream, buf: RWBuffer) returns (n: nat)
    requires buf.Valid()
    modifies stream`unread, buf, buf.buf
    ensures buf.Valid() && (buf.buf == old(buf.buf) || fresh(buf.buf))
    ensures buf.buf.Length >= old(buf.buf.Length)
    ensures n == 0 <==>
            old(stream.unread) == [] || (old(buf.RemainingWrite()) == 0 && old(buf.buf.Length) < 2)
    ensures n <= |old(stream.unread)| && stream.unread == old(stream.unread)[n..]
    ensures buf.Contents() == old(buf.Contents()) + old(stream.unread)[..n]
  {
    buf.WriteBuf();
    n := ReadInto(stream, buf);
  }

  /** The read into the free part of the buffer. */
  method ReadInto(stream: Stream, buf: RWBuffer) returns (n: nat)
    requires buf.Valid()
    modifies stream`unread, buf`writeCursor, buf.buf
    ensures buf.Valid()
    ensures n == 0 <==> old(stream.unread) == [] || old(buf.RemainingWrite()) == 0
    ensures n <= |old(stream.unread)| && stream.unread == old(stream.unread)[n..]
    ensures buf.Contents() == old(buf.Contents()) + old(stream.unread)[..n]
  {
    ghost var before := buf.buf[..];
    n := stream.Read(buf.buf, buf.writeCursor);
    QueueKept(before, buf.buf[..], buf.readCursor, buf.writeCursor);
    buf.AdvanceWrite(n);
  }

  lemma QueueKept(a: seq<byte>, b: seq<byte>, from: nat, end: nat)
    requires from <= end <= |a| == |b| && a[..end] == b[..end]
    ensures a[from..end] == b[from..end]
  {
    assert a[from..end] == a[..end][from..] && b[from..end] == b[..end][from..];
  }

  method TakeTurn(lib: HttpLib, state: ParseState, b: seq<byte>) returns (turn: Turn)
    ensures turn == TurnOf(lib, state, b)
  {
    match state {
      case Init =>
        var g := ParseGreeting(b);
        var f := ParseSocks4(b);
        turn := InitTurn(g, f, lib.parse(b));
      case HttpPartial =>
        var h := lib.parse(b);
        turn := match h
          case Incomplete => ReadOn(state) case Failed => GiveUp case Complete(k, r) => Found(AskedHttp(k, r));
      case Socks5Partial =>
        var g := ParseGreeting(b);
        turn := match g
          case Incomplete => ReadOn(state) case Failed => GiveUp case Complete(k, a) => Found(Greeted(k, a));
      case Socks4Partial =>
        var f := ParseSocks4(b);
        turn := match f
          case Incomplete => ReadOn(state) case Failed => GiveUp case Complete(k, r) => Found(Asked4(k, r));
    }
  }

  function EndOf(d: Detected): nat {
    match d
    case Greeted(k, _) => k
    case Asked4(k, _) => k
    case AskedHttp(k, _) => k
    case Nothing => 0
  }

  /** A parser never claims more bytes than it was shown. */
  lemma FoundFits(lib: HttpLib, state: ParseState, b: seq<byte>)
    requires lib.Lawful() && TurnOf(lib, state, b).Found?
    ensures EndOf(TurnOf(lib, state, b).d) <= |b|
  {
    GreetingStable();
    Socks4Stable();
    assert SelfDelimitingOn(GreetingAt, b) && SelfDelimitingOn(Socks4At, b);
    assert SelfDelimitingOn(lib.parse, b);
  }

  /** One turn on the bytes `b` with `more` still to come, as the loop uses it. */
  lemma TurnSettles(lib: HttpLib, state: ParseState, b: seq<byte>, more: seq<byte>, all: seq<byte>)
    requires lib.Lawful() && Knows(lib, state, b) && all == b + more
    ensures match TurnOf(lib, state, b)
      case Found(d) =>
        d == Detect(lib, all) && EndOf(d) <= |b| && b[EndOf(d)..] + more == all[EndOf(d)..]
      case GiveUp => Detect(lib, all) == Nothing
      case ReadOn(next) => Knows(lib, next, b) && (more == [] ==> Detect(lib, all) == Nothing)
  {
    TurnIsRight(lib, state, b, more);
    if TurnOf(lib, state, b).Found? {
      FoundFits(lib, state, b);
    }
  }

  lemma ReadKeepsAll(lib: HttpLib, state: ParseState, b: seq<byte>, more: seq<byte>, n: nat)
    requires lib.Lawful() && Knows(lib, state, b) && n <= |more|
    ensures Knows(lib, state, b + more[..n])
    ensures b + more[..n] + more[n..] == b + more
  {
    KnowsMore(lib, state, b, more[..n]);
    assert more[..n] + more[n..] == more;
  }

  /** `d` is what was found in the input `all`, and `left` is what follows it; a vector that
      cannot grow may have hidden a part of the input. */
  ghost predicate RightlyDetected(lib: HttpLib, all: seq<byte>, canGrow: bool, d: Detected, left: seq<byte>) {
    && (canGrow || d != Nothing ==> d == Detect(lib, all))
    && EndOf(d) <= |all| && left == all[EndOf(d)..]
  }

  /** One turn of the loop: either it is over, or the state moves on and bytes arrive. */
  method DetectTurn(lib: HttpLib, state: ParseState, stream: Stream, buf: RWBuffer, ghost all: seq<byte>)
    returns (d: Option<Detected>, next: ParseState)
    requires lib.Lawful() && buf.Valid()
    requires buf.Contents() + stream.unread == all && Knows(lib, state, buf.Contents())
    modifies stream`unread, buf, buf.buf
    ensures buf.Valid() && (buf.buf == old(buf.buf) || fresh(buf.buf))
    ensures buf.buf.Length >= old(buf.buf.Length)
    ensures d.Some? ==>
              RightlyDetected(lib, all, old(buf.buf.Length) >= 2, d.value, buf.Contents() + stream.unread)
    ensures d.None? ==>
              && buf.Contents() + stream.unread == all && Knows(lib, next, buf.Contents())
              && |stream.unread| < |old(stream.unread)|
  {
    ghost var more := stream.unread;
    var b := buf.ReadBuf();
    var turn := TakeTurn(lib, state, b);
    TurnSettles(lib, state, b, more, all);
    assert all[0..] == all;
    match turn {
      case Found(found) =>
        buf.AdvanceRead(EndOf(found));
        d, next := Some(found), state;
      case GiveUp =>
        d, next := Some(Nothing), state;
      case ReadOn(nextState) =>
        var n := ReadMore(stream, buf);
        ReadKeepsAll(lib, nextState, b, more, n);
        d, next := if n == 0 then Some(Nothing) else None, nextState;
    }
  }

  /** The first loop of Handshaker::start: reads until a protocol is found, and consumes
      exactly the message that was found. */
  method DetectProtocol(lib: HttpLib, stream: Stream, buf: RWBuffer) returns (d: Detected)
    requires lib.Lawful() && buf.Valid()
    modifies stream`unread, buf, buf.buf
    ensures buf.Valid() && (buf.buf == old(buf.buf) || fresh(buf.buf))
    ensures buf.buf.Length >= old(buf.buf.Length)
    ensures RightlyDetected(lib, old(buf.Contents() + stream.unread), old(buf.buf.Length) >= 2, d,
                      buf.Contents() + stream.unread)
  {
    ghost var all := buf.Contents() + stream.unread;
    var state := Init;
    while true
      invariant buf.Valid() && (buf.buf == old(buf.buf) || fresh(buf.buf))
      invariant buf.buf.Length >= old(buf.buf.Length)
      invariant buf.Contents() + stream.unread == all && Knows(lib, state, buf.Contents())
      decreases |stream.unread|
    {
      var found;
      found, state := DetectTurn(lib, state, stream, buf, all);
      if found.Some? {
        return found.value;
      }
    }
  }

  // ---- the SOCKS5 request, and everything together --------------------------------------

  /** The call ended as `o` says for the input `all`; a failure may also come from a vector
      that cannot grow. */
  ghost predicate EndsAs(o: Outcome, all: seq<byte>, canGrow: bool,
                         r: Result<HandshakeRequest>, reply: seq<byte>, left: seq<byte>)
  {
    canGrow || r.Ok? ==>
      r == o.result && reply == o.reply && o.consumed <= |all| && left == all[o.consumed..]
  }

  /** One turn of the second loop: what the request parser says about `b` it says about the
      whole input. */
  lemma RequestSettles(lit: IpLiteral, b: seq<byte>, more: seq<byte>, rest: seq<byte>)
    requires rest == b + more
    ensures Decided(RequestAt(lit, b)) || more == [] ==> RequestAt(lit, rest) == RequestAt(lit, b)
    ensures RequestAt(lit, b).Complete? ==>
              var k := RequestAt(lit, b).offset;
              k <= |b| && b[k..] + more == rest[k..]
  {
    if Decided(RequestAt(lit, b)) {
      RequestLongerBuffer(lit, b, more);
    } else if more == [] {
      assert rest == b;
    }
    if RequestAt(lit, b).Complete? {
      RequestOnItsOwn(lit, b);
    }
  }

  /** The command of a complete request, after its bytes were read. */
  method AnswerRequest(stream: Stream, buf: RWBuffer, k: nat, req: ConnRequest)
    returns (r: Result<HandshakeRequest>)
    requires buf.Valid() && k <= buf.RemainingRead()
    modifies stream`written, buf`readCursor, buf`writeCursor
    ensures buf.Valid()
    ensures r == CommandAnswer(req) && (r.Ok? <==> req.cmd == 1 || req.cmd == 3)
    ensures req.cmd == 1 ==> r.value == Tcp(req.address)
    ensures req.cmd == 3 ==> r.value.Udp? && r.value.udpDst in {None, Some(req.address)}
    ensures buf.Contents() == old(buf.Contents())[if r.Ok? then k else 0..]
    ensures stream.written == old(stream.written) +
                              (if r.Ok? then [] else [5, 7, 0, 1, 0, 0, 0, 0, 0, 0])
  {
    if req.cmd == CONNECT_TCP {
      buf.AdvanceRead(k);
      r := Ok(Tcp(req.address));
    } else if req.cmd == BIND_UDP {
      buf.AdvanceRead(k);
      r := Ok(Udp(if IsUnspecified(req.address) then None else Some(req.address)));
    } else {
      assert Encoded(DEFAULT_ADDRESS).value == [ATYP_V4, 0, 0, 0, 0, 0, 0];
      stream.WriteAll([VERSION5, UNSUPPORTED_COMMAND, 0] + Encoded(DEFAULT_ADDRESS).value);
      r := Err;
    }
  }

  method HandshakeSocks5(lit: IpLiteral, stream: Stream, buf: RWBuffer, auths: seq<byte>)
    returns (r: Result<HandshakeRequest>, ghost reply: seq<byte>)
    requires buf.Valid()
    modifies stream, buf, buf.buf
    ensures buf.Valid() && stream.written == old(stream.written) + reply
    ensures var rest := old(buf.Contents() + stream.unread);
      EndsAs(Socks5Outcome(lit, auths, rest), rest, old(buf.buf.Length) >= 2, r, reply,
             buf.Contents() + stream.unread)
  {
    if AUTH_NO_PASSWORD !in auths {
      ghost var rest := buf.Contents() + stream.unread;
      assert rest[0..] == rest;
      reply := [VERSION5, AUTH_NOT_ACCEPTED];
      stream.WriteAll([VERSION5, AUTH_NOT_ACCEPTED]);
      r := Err;
    } else {
      stream.WriteAll([VERSION5, AUTH_NO_PASSWORD]);
      r, reply := ServeRequest(lit, stream, buf);
      reply := [VERSION5, AUTH_NO_PASSWORD] + reply;
    }
  }

  method ServeRequest(lit: IpLiteral, stream: Stream, buf: RWBuffer)
    returns (r: Result<HandshakeRequest>, ghost reply: seq<byte>)
    requires buf.Valid()
    modifies stream, buf, buf.buf
    ensures buf.Valid() && stream.written == old(stream.written) + reply
    ensures var rest := old(buf.Contents() + stream.unread);
      EndsAs(RequestOutcome(lit, rest), rest, old(buf.buf.Length) >= 2, r, reply,
             buf.Contents() + stream.unread)
  {
    ghost var rest := buf.Contents() + stream.unread;
    assert rest[0..] == rest;
    var request := ReadRequest(lit, stream, buf);
    reply := [];
    if request.Err? {
      r := Err;
    } else {
      r := AnswerRequest(stream, buf, request.value.0, request.value.1);
      reply := if r.Ok? then [] else UNSUPPORTED_REPLY;
    }
  }

  /** One more read for the request; what the queue and the connection hold together stays. */
  method AwaitMore(stream: Stream, buf: RWBuffer, ghost rest: seq<byte>) returns (n: nat)
    requires buf.Valid() && buf.Contents() + stream.unread == rest
    modifies stream`unread, buf, buf.buf
    ensures buf.Valid() && (buf.buf == old(buf.buf) || fresh(buf.buf))
    ensures buf.buf.Length >= old(buf.buf.Length)
    ensures buf.Contents() + stream.unread == rest && |stream.unread| == |old(stream.unread)| - n
    ensures n == 0 && old(buf.buf.Length) >= 2 ==> old(stream.unread) == []
  {
    ghost var b, more := buf.Contents(), stream.unread;
    n := ReadMore(stream, buf);
    assert b + more[..n] + more[n..] == rest by {
      assert more[..n] + more[n..] == more;
    }
  }

  /** The loop that waits for a complete request; nothing is consumed yet. */
  method ReadRequest(lit: IpLiteral, stream: Stream, buf: RWBuffer)
    returns (r: Result<(nat, ConnRequest)>)
    requires buf.Valid()
    modifies stream`unread, buf, buf.buf
    ensures buf.Valid() && (buf.buf == old(buf.buf) || fresh(buf.buf))
    ensures buf.Contents() + stream.unread == old(buf.Contents() + stream.unread)
    ensures var rest := old(buf.Contents() + stream.unread);
      && (r.Ok? ==>
            && RequestAt(lit, rest) == Complete(r.value.0, r.value.1)
            && r.value.0 <= buf.RemainingRead()
            && buf.Contents()[r.value.0..] + stream.unread == rest[r.value.0..])
      && (r.Err? && old(buf.buf.Length) >= 2 ==> !RequestAt(lit, rest).Complete?)
  {
    ghost var rest := buf.Contents() + stream.unread;
    while true
      invariant buf.Valid() && (buf.buf == old(buf.buf) || fresh(buf.buf))
      invariant buf.buf.Length >= old(buf.buf.Length)
      invariant buf.Contents() + stream.unread == rest
      decreases |stream.unread|
    {
      ghost var more := stream.unread;
      var b := buf.ReadBuf();
      var parsed := ParseRequest(lit, b);
      RequestSettles(lit, b, more, rest);
      if parsed.Complete? {
        return Ok((parsed.offset, parsed.value));
      }
      if parsed.Failed? {
        return Err;
      }
      var n := AwaitMore(stream, buf, rest);
      if n == 0 {
        return Err;
      }
    }
  }

  /** Handshaker::start: for every input and every way to cut it into reads the same request
      (or a failure), the same replies, and a remainder that starts right behind the parsed
      messages, split between the buffer and what is still unread. */
  method Start(lit: IpLiteral, lib: HttpLib, stream: Stream, buf: RWBuffer)
    returns (r: Result<HandshakeRequest>, ghost reply: seq<byte>)
    requires lib.Lawful() && buf.Valid()
    modifies stream, buf, buf.buf
    ensures buf.Valid() && stream.written == old(stream.written) + reply
    ensures var all := old(buf.Contents() + stream.unread);
      EndsAs(Expected(lit, lib, all), all, old(buf.buf.Length) >= 2, r, reply,
             buf.Contents() + stream.unread)
  {
    ghost var all := buf.Contents() + stream.unread;
    var d := DetectProtocol(lib, stream, buf);
    reply := [];
    match d {
      case Nothing => r := Err;
      case Asked4(_, request) => r := Socks4Answer(request);
      case AskedHttp(_, http) => r := lib.request(http);
      case Greeted(k, auths) =>
        r, reply := HandshakeSocks5(lit, stream, buf, auths);
    }
  }
}
