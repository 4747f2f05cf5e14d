/** The messages of the udpman protocol: a flag byte says which optional parts follow. */
module UdpmanMessage {
  import opened Bytes
  import opened Io
  import opened SocksAddress

  const UUID_MAX: nat := 255

  datatype SocketAddr = SocketAddr(ip: IpAddr, port: u16)

  datatype Message =
    | Connect(uuid: seq<byte>, initialData: seq<byte>, initialDataNonce: Option<u16>, dst: SocketAddr)
    | Establish(uuid: seq<byte>, connId: u16, initialReply: Option<(seq<byte>, SocketAddr)>)
    | Data(dataConnId: Option<u16>, addr: Option<SocketAddr>, payload: seq<byte>, encNonce: Option<u16>)

  // ---- flags -------------------------------------------------------------------------

  datatype MessageFlags =
    | ConnectFlags(isIpv6: bool, hasNonce: bool)
    | EstablishFlags(hasReply: bool, replyInIpv6: bool)
    | DataFlags(hasConnId: bool, hasAddr: bool, addrInIpv6: bool, dataHasNonce: bool)

  /** Bit `i` of a byte. */
  predicate Bit(b: byte, i: nat)
    requires i < 8
  {
    (b as int / [1, 2, 4, 8, 16, 32, 64, 128][i]) % 2 == 1
  }

  /** The type is in the top three bits; bits the type does not use are ignored. */
  function DecodeFlags(b: byte): Result<MessageFlags> {
    match b / 32
    case 0 => Ok(ConnectFlags(Bit(b, 0), Bit(b, 1)))
    case 1 => Ok(EstablishFlags(Bit(b, 0), Bit(b, 1)))
    case 2 => Ok(DataFlags(Bit(b, 0), Bit(b, 1), Bit(b, 2), Bit(b, 3)))
    case _ => Err
  }

  /** The flag bits are or-ed into a variable one after the other; each is set at most once. */
  method EncodeFlags(f: MessageFlags) returns (b: byte)
    ensures b == FlagByte(f)
  {
    var flags: byte := 0;
    match f {
      case ConnectFlags(v6, nonce) =>
        if v6 { flags := flags + 1; }
        if nonce { flags := flags + 2; }
        b := 0 * 32 + flags;
      case EstablishFlags(reply, v6) =>
        if reply { flags := flags + 1; }
        if v6 { flags := flags + 2; }
        b := 1 * 32 + flags;
      case DataFlags(id, addr, v6, nonce) =>
        if id { flags := flags + 1; }
        if addr { flags := flags + 2; }
        if v6 { flags := flags + 4; }
        if nonce { flags := flags + 8; }
        b := 2 * 32 + flags;
    }
  }

  function FlagByte(f: MessageFlags): (b: byte)
    ensures DecodeFlags(b) == Ok(f)
  {
    match f
    case ConnectFlags(v6, nonce) => 0 + (if v6 then 1 else 0) + (if nonce then 2 else 0)
    case EstablishFlags(reply, v6) => 32 + (if reply then 1 else 0) + (if v6 then 2 else 0)
    case DataFlags(id, addr, v6, nonce) =>
      64 + (if id then 1 else 0) + (if addr then 2 else 0) + (if v6 then 4 else 0) + (if nonce then 8 else 0)
  }

  // ---- the parts of a message ----------------------------------------------------------

  function UuidBytes(u: seq<byte>): seq<byte>
    requires |u| <= UUID_MAX
  {
    [|u| as byte] + u
  }

  function AddrBytes(a: SocketAddr): seq<byte> {
    (match a.ip case V4(o) => o case V6(o) => o) + Put16(a.port)
  }

  function OptBytes(n: Option<u16>): seq<byte> {
    match n case None => [] case Some(n) => Put16(n)
  }

  function TakeUuid(b: seq<byte>): Result<(seq<byte>, seq<byte>)> {
    if b == [] || |b| < b[0] as int + 1 then Err
    else Ok((b[1..b[0] as int + 1], b[b[0] as int + 1..]))
  }

  function TakeAddr(b: seq<byte>, v6: bool): Result<(SocketAddr, seq<byte>)> {
    if v6 then
      if |b| < 18 then Err else Ok((SocketAddr(V6(b[..16]), Get16(b[16..])), b[18..]))
    else
      if |b| < 6 then Err else Ok((SocketAddr(V4(b[..4]), Get16(b[4..])), b[6..]))
  }

  function TakeU16(b: seq<byte>): Result<(u16, seq<byte>)> {
    if |b| < 2 then Err else Ok((Get16(b), b[2..]))
  }

  function TakeOpt(b: seq<byte>, has: bool): Result<(Option<u16>, seq<byte>)> {
    if !has then Ok((None, b))
    else
      var (n, rest) :- TakeU16(b);
      Ok((Some(n), rest))
  }

  function TakeOptAddr(b: seq<byte>, has: bool, v6: bool): Result<(Option<SocketAddr>, seq<byte>)> {
    if !has then Ok((None, b))
    else
      var (a, rest) :- TakeAddr(b, v6);
      Ok((Some(a), rest))
  }

  /** Each part is taken exactly when its bytes stand in front. */
  lemma UuidExact(b: seq<byte>, u: seq<byte>, rest: seq<byte>)
    ensures TakeUuid(b) == Ok((u, rest)) <==> |u| <= UUID_MAX && b == UuidBytes(u) + rest
  {
    if TakeUuid(b) == Ok((u, rest)) {
      assert b == [b[0]] + u + rest;
    }
  }

  lemma U16Exact(b: seq<byte>, n: u16, rest: seq<byte>)
    ensures TakeU16(b) == Ok((n, rest)) <==> b == Put16(n) + rest
  {
    if |b| >= 2 {
      Put16Get16(b);
      assert b == b[..2] + b[2..];
    }
  }

  lemma AddrExact(b: seq<byte>, v6: bool, a: SocketAddr, rest: seq<byte>)
    ensures TakeAddr(b, v6) == Ok((a, rest)) <==> a.ip.V6? == v6 && b == AddrBytes(a) + rest
  {
    var size := if v6 then 16 else 4;
    if |b| >= size + 2 {
      U16Exact(b[size..], a.port, rest);
      assert b == b[..size] + b[size..];
      assert b[size..][2..] == b[size + 2..];
      assert b[..size] + Put16(a.port) + rest == b[..size] + (Put16(a.port) + rest);
    }
    if a.ip.V6? == v6 && b == AddrBytes(a) + rest {
      assert b[size..] == Put16(a.port) + rest;
      assert b[..size] == if v6 then a.ip.v6 else a.ip.v4;
    }
  }

  lemma OptExact(b: seq<byte>, has: bool, n: Option<u16>, rest: seq<byte>)
    ensures TakeOpt(b, has) == Ok((n, rest)) <==> n.Some? == has && b == OptBytes(n) + rest
  {
    if has && n.Some? {
      U16Exact(b, n.value, rest);
    } else {
      assert [] + rest == rest;
    }
  }

  lemma OptAddrExact(b: seq<byte>, has: bool, v6: bool, a: Option<SocketAddr>, rest: seq<byte>)
    ensures TakeOptAddr(b, has, v6) == Ok((a, rest)) <==>
            a.Some? == has && (has ==> a.value.ip.V6? == v6) && b == OptAddrBytes(a) + rest
  {
    if has && a.Some? {
      AddrExact(b, v6, a.value, rest);
    } else {
      assert [] + rest == rest;
    }
  }

  function OptAddrBytes(a: Option<SocketAddr>): seq<byte> {
    match a case None => [] case Some(a) => AddrBytes(a)
  }

  // ---- whole messages ------------------------------------------------------------------

  function ParsedBody(f: MessageFlags, b: seq<byte>): Result<Message> {
    match f
    case ConnectFlags(v6, hasNonce) =>
      var (uuid, b1) :- TakeUuid(b);
      var (dst, b2) :- TakeAddr(b1, v6);
      var (nonce, b3) :- TakeOpt(b2, hasNonce);
      Ok(Connect(uuid, b3, nonce, dst))
    case EstablishFlags(hasReply, v6) =>
      var (uuid, b1) :- TakeUuid(b);
      var (connId, b2) :- TakeU16(b1);
      var (from, b3) :- TakeOptAddr(b2, hasReply, v6);
      Ok(Establish(uuid, connId, if from.Some? then Some((b3, from.value)) else None))
    case DataFlags(hasId, hasAddr, v6, hasNonce) =>
      var (connId, b1) :- TakeOpt(b, hasId);
      var (addr, b2) :- TakeOptAddr(b1, hasAddr, v6);
      var (nonce, b3) :- TakeOpt(b2, hasNonce);
      Ok(Data(connId, addr, b3, nonce))
  }

  function Parsed(b: seq<byte>): Result<Message> {
    if b == [] then Err
    else
      var f :- DecodeFlags(b[0]);
      ParsedBody(f, b[1..])
  }

  /** A UUID has a one-byte length. */
  predicate Writable(m: Message) {
    match m
    case Connect(uuid, _, _, _) => |uuid| <= UUID_MAX
    case Establish(uuid, _, _) => |uuid| <= UUID_MAX
    case Data(_, _, _, _) => true
  }

  function FlagsOf(m: Message): MessageFlags {
    match m
    case Connect(_, _, nonce, dst) => ConnectFlags(dst.ip.V6?, nonce.Some?)
    case Establish(_, _, reply) => EstablishFlags(reply.Some?, reply.Some? && reply.value.1.ip.V6?)
    case Data(id, addr, _, nonce) =>
      DataFlags(id.Some?, addr.Some?, addr.Some? && addr.value.ip.V6?, nonce.Some?)
  }

  /** What follows the flag byte. */
  function Body(m: Message): seq<byte>
    requires Writable(m)
  {
    match m
    case Connect(uuid, data, nonce, dst) =>
      UuidBytes(uuid) + (AddrBytes(dst) + (OptBytes(nonce) + data))
    case Establish(uuid, id, None) => UuidBytes(uuid) + (Put16(id) + [])
    case Establish(uuid, id, Some((data, from))) => UuidBytes(uuid) + (Put16(id) + (AddrBytes(from) + data))
    case Data(id, addr, payload, nonce) =>
      OptBytes(id) + (OptAddrBytes(addr) + (OptBytes(nonce) + payload))
  }

  function Written(m: Message): seq<byte>
    requires Writable(m)
  {
    [FlagByte(FlagsOf(m))] + Body(m)
  }

  /** The flags say what `m` contains; the IPv6 flag of an absent address says nothing. */
  predicate FlagsFit(f: MessageFlags, m: Message) {
    match (f, m)
    case (ConnectFlags(_, _), Connect(_, _, _, _)) => f == FlagsOf(m)
    case (EstablishFlags(has, v6), Establish(_, _, reply)) =>
      has == reply.Some? && (has ==> v6 == reply.value.1.ip.V6?)
    case (DataFlags(id, has, v6, nonce), Data(_, addr, _, _)) =>
      && id == m.dataConnId.Some? && nonce == m.encNonce.Some?
      && has == addr.Some? && (has ==> v6 == addr.value.ip.V6?)
    case _ => false
  }

  /** Only an Establish without a reply leaves room for bytes that mean nothing. */
  predicate BodyFits(m: Message, b: seq<byte>)
    requires Writable(m)
  {
    if m.Establish? && m.initialReply.None? then Body(m) <= b else b == Body(m)
  }

  /** Exactly which byte strings mean a message. */
  lemma ParsedExact(b: seq<byte>, m: Message)
    ensures Parsed(b) == Ok(m) <==>
            && Writable(m) && b != [] && DecodeFlags(b[0]).Ok?
            && FlagsFit(DecodeFlags(b[0]).value, m) && BodyFits(m, b[1..])
  {
    if b != [] && DecodeFlags(b[0]).Ok? {
      var f := DecodeFlags(b[0]).value;
      match m {
        case Connect(_, _, _, _) => ConnectExact(f, b[1..], m);
        case Establish(_, _, _) => EstablishExact(f, b[1..], m);
        case Data(_, _, _, _) => DataExact(f, b[1..], m);
      }
    }
  }

  lemma ConnectExact(f: MessageFlags, b: seq<byte>, m: Message)
    requires m.Connect?
    ensures ParsedBody(f, b) == Ok(m) <==> Writable(m) && FlagsFit(f, m) && BodyFits(m, b)
  {
    if f.ConnectFlags? {
      var b2 := OptBytes(m.initialDataNonce) + m.initialData;
      var b1 := AddrBytes(m.dst) + b2;
      UuidExact(b, m.uuid, b1);
      AddrExact(b1, f.isIpv6, m.dst, b2);
      OptExact(b2, f.hasNonce, m.initialDataNonce, m.initialData);
      if ParsedBody(f, b) == Ok(m) {
        var r1 := TakeUuid(b).value.1;
        var r2 := TakeAddr(r1, f.isIpv6).value.1;
        UuidExact(b, m.uuid, r1);
        AddrExact(r1, f.isIpv6, m.dst, r2);
        OptExact(r2, f.hasNonce, m.initialDataNonce, m.initialData);
      }
    }
  }

  lemma EstablishExact(f: MessageFlags, b: seq<byte>, m: Message)
    requires m.Establish?
    ensures ParsedBody(f, b) == Ok(m) <==> Writable(m) && FlagsFit(f, m) && BodyFits(m, b)
  {
    if Writable(m) && FlagsFit(f, m) && BodyFits(m, b) {
      EstablishReads(f, b, m);
    }
    if f.EstablishFlags? && ParsedBody(f, b) == Ok(m) {
      EstablishFits(f, b, m);
    }
  }

  lemma EstablishFits(f: MessageFlags, b: seq<byte>, m: Message)
    requires m.Establish? && f.EstablishFlags? && ParsedBody(f, b) == Ok(m)
    ensures Writable(m) && FlagsFit(f, m) && BodyFits(m, b)
  {
    var r1 := TakeUuid(b).value.1;
    var r2 := TakeU16(r1).value.1;
    var (from, r3) := TakeOptAddr(r2, f.hasReply, f.replyInIpv6).value;
    UuidExact(b, m.uuid, r1);
    U16Exact(r1, m.connId, r2);
    OptAddrExact(r2, f.hasReply, f.replyInIpv6, from, r3);
    if from.None? {
      Chain(UuidBytes(m.uuid), Put16(m.connId), [], [], r3);
      assert r2 == [] + r3 && [] + ([] + r3) == r3;
      assert Body(m) == UuidBytes(m.uuid) + Put16(m.connId) + [] + [];
    } else {
      assert m.initialReply == Some((r3, from.value));
    }
  }

  lemma EstablishReads(f: MessageFlags, b: seq<byte>, m: Message)
    requires m.Establish? && Writable(m) && FlagsFit(f, m) && BodyFits(m, b)
    ensures ParsedBody(f, b) == Ok(m)
  {
    var (from, data) := match m.initialReply
      case Some((data, from)) => (Some(from), data)
      case None => (None, b[|Body(m)|..]);
    var b2 := OptAddrBytes(from) + data;
    var b1 := Put16(m.connId) + b2;
    assert b == UuidBytes(m.uuid) + b1;
    UuidExact(b, m.uuid, b1);
    U16Exact(b1, m.connId, b2);
    OptAddrExact(b2, f.hasReply, f.replyInIpv6, from, data);
  }

  lemma DataExact(f: MessageFlags, b: seq<byte>, m: Message)
    requires m.Data?
    ensures ParsedBody(f, b) == Ok(m) <==> Writable(m) && FlagsFit(f, m) && BodyFits(m, b)
  {
    if FlagsFit(f, m) && BodyFits(m, b) {
      DataReads(f, b, m);
    }
    if f.DataFlags? && ParsedBody(f, b) == Ok(m) {
      var r1 := TakeOpt(b, f.hasConnId).value.1;
      var r2 := TakeOptAddr(r1, f.hasAddr, f.addrInIpv6).value.1;
      OptExact(b, f.hasConnId, m.dataConnId, r1);
      OptAddrExact(r1, f.hasAddr, f.addrInIpv6, m.addr, r2);
      OptExact(r2, f.dataHasNonce, m.encNonce, m.payload);
    }
  }

  lemma DataReads(f: MessageFlags, b: seq<byte>, m: Message)
    requires m.Data? && FlagsFit(f, m) && BodyFits(m, b)
    ensures ParsedBody(f, b) == Ok(m)
  {
    var b2 := OptBytes(m.encNonce) + m.payload;
    var b1 := OptAddrBytes(m.addr) + b2;
    OptExact(b, f.hasConnId, m.dataConnId, b1);
    OptAddrExact(b1, f.hasAddr, f.addrInIpv6, m.addr, b2);
    OptExact(b2, f.dataHasNonce, m.encNonce, m.payload);
  }

  /** Parsing undoes writing. */
  lemma MessageRoundTrip(m: Message)
    requires Writable(m)
    ensures Parsed(Written(m)) == Ok(m)
  {
    var b := Written(m);
    assert b[1..] == Body(m);
    ParsedExact(b, m);
  }

  /** Whatever was ignored in `b`, writing the parsed message and parsing it again changes
      nothing. */
  lemma ParseIsStable(b: seq<byte>)
    requires Parsed(b).Ok?
    ensures Writable(Parsed(b).value) && Parsed(Written(Parsed(b).value)) == Parsed(b)
  {
    ParsedExact(b, Parsed(b).value);
    MessageRoundTrip(Parsed(b).value);
  }

  // ---- parsing and writing step by step --------------------------------------------------

  method ParseUuid(b: Input) returns (r: Result<seq<byte>>)
    modifies b
    ensures r.Ok? <==> TakeUuid(old(b.unread)).Ok?
    ensures r.Ok? ==> TakeUuid(old(b.unread)) == Ok((r.value, b.unread))
  {
    ghost var all := b.unread;
    var len := b.ReadExact(1);
    if len.Err? {
      return Err;
    }
    r := b.ReadExact(len.value[0] as int);
    if r.Ok? {
      assert r.value == all[1..len.value[0] as int + 1];
    }
  }

  method ParseU16(b: Input) returns (r: Result<u16>)
    modifies b
    ensures r.Ok? <==> TakeU16(old(b.unread)).Ok?
    ensures r.Ok? ==> TakeU16(old(b.unread)) == Ok((r.value, b.unread))
  {
    var n := b.ReadExact(2);
    r := if n.Ok? then Ok(Get16(n.value)) else Err;
  }

  method ParseSocketAddr(b: Input, v6: bool) returns (r: Result<SocketAddr>)
    modifies b
    ensures r.Ok? <==> TakeAddr(old(b.unread), v6).Ok?
    ensures r.Ok? ==> TakeAddr(old(b.unread), v6) == Ok((r.value, b.unread))
  {
    ghost var all := b.unread;
    var size := if v6 then 16 else 4;
    var ip := b.ReadExact(size);
    if ip.Err? {
      return Err;
    }
    var port := ParseU16(b);
    if port.Err? {
      return Err;
    }
    assert all[size..][2..] == all[size + 2..];
    r := Ok(SocketAddr(if v6 then V6(ip.value) else V4(ip.value), port.value));
  }

  method ParseNonce(b: Input, has: bool) returns (r: Result<Option<u16>>)
    modifies b
    ensures r.Ok? <==> TakeOpt(old(b.unread), has).Ok?
    ensures r.Ok? ==> TakeOpt(old(b.unread), has) == Ok((r.value, b.unread))
  {
    if !has {
      return Ok(None);
    }
    var n := ParseU16(b);
    r := if n.Ok? then Ok(Some(n.value)) else Err;
  }

  method ParseOptAddr(b: Input, has: bool, v6: bool) returns (r: Result<Option<SocketAddr>>)
    modifies b
    ensures r.Ok? <==> TakeOptAddr(old(b.unread), has, v6).Ok?
    ensures r.Ok? ==> TakeOptAddr(old(b.unread), has, v6) == Ok((r.value, b.unread))
  {
    if !has {
      return Ok(None);
    }
    var a := ParseSocketAddr(b, v6);
    r := if a.Ok? then Ok(Some(a.value)) else Err;
  }

  method Parse(bytes: seq<byte>) returns (r: Result<Message>)
    ensures r == Parsed(bytes)
  {
    var b := new Input(bytes);
    var flagByte := b.ReadExact(1);
    if flagByte.Err? {
      return Err;
    }
    var flags := DecodeFlags(flagByte.value[0]);
    if flags.Err? {
      return Err;
    }
    match flags.value {
      case ConnectFlags(v6, hasNonce) =>
        var uuid := ParseUuid(b);
        if uuid.Err? { return Err; }
        var dst := ParseSocketAddr(b, v6);
        if dst.Err? { return Err; }
        var nonce := ParseNonce(b, hasNonce);
        if nonce.Err? { return Err; }
        r := Ok(Connect(uuid.value, b.unread, nonce.value, dst.value));
      case EstablishFlags(hasReply, v6) =>
        var uuid := ParseUuid(b);
        if uuid.Err? { return Err; }
        var connId := ParseU16(b);
        if connId.Err? { return Err; }
        var from := ParseOptAddr(b, hasReply, v6);
        if from.Err? { return Err; }
        r := Ok(Establish(uuid.value, connId.value,
                          if from.value.Some? then Some((b.unread, from.value.value)) else None));
      case DataFlags(hasId, hasAddr, v6, hasNonce) =>
        var connId := ParseNonce(b, hasId);
        if connId.Err? { return Err; }
        var addr := ParseOptAddr(b, hasAddr, v6);
        if addr.Err? { return Err; }
        var nonce := ParseNonce(b, hasNonce);
        if nonce.Err? { return Err; }
        r := Ok(Data(connId.value, addr.value, b.unread, nonce.value));
    }
  }

  method WriteUuid(w: Output, uuid: seq<byte>) returns (ok: bool)
    modifies w
    ensures ok <==> |uuid| <= UUID_MAX
    ensures w.bytes == old(w.bytes) + (if ok then UuidBytes(uuid) else [])
  {
    if |uuid| > UUID_MAX {
      return false;
    }
    w.Put8(|uuid| as byte);
    w.PutAll(uuid);
    ok := true;
  }

  method WriteSocketAddr(w: Output, a: SocketAddr)
    modifies w
    ensures w.bytes == old(w.bytes) + AddrBytes(a)
  {
    w.PutAll(match a.ip case V4(o) => o case V6(o) => o);
    w.Put16(a.port);
  }

  method WriteOpt(w: Output, n: Option<u16>)
    modifies w
    ensures w.bytes == old(w.bytes) + OptBytes(n)
  {
    if n.Some? {
      w.Put16(n.value);
    } else {
      assert w.bytes == w.bytes + [];
    }
  }

  method WriteConnect(w: Output, m: Message) returns (ok: bool)
    requires m.Connect?
    modifies w
    ensures ok <==> Writable(m)
    ensures ok ==> w.bytes == old(w.bytes) + Body(m)
  {
    ghost var before := w.bytes;
    ok := WriteUuid(w, m.uuid);
    if ok {
      WriteSocketAddr(w, m.dst);
      WriteOpt(w, m.initialDataNonce);
      w.PutAll(m.initialData);
      Chain(before, UuidBytes(m.uuid), AddrBytes(m.dst), OptBytes(m.initialDataNonce), m.initialData);
    }
  }

  method WriteEstablish(w: Output, m: Message) returns (ok: bool)
    requires m.Establish?
    modifies w
    ensures ok <==> Writable(m)
    ensures ok ==> w.bytes == old(w.bytes) + Body(m)
  {
    ghost var before := w.bytes;
    ok := WriteUuid(w, m.uuid);
    if ok {
      w.Put16(m.connId);
      if m.initialReply.Some? {
        var (data, from) := m.initialReply.value;
        WriteSocketAddr(w, from);
        w.PutAll(data);
        Chain(before, UuidBytes(m.uuid), Put16(m.connId), AddrBytes(from), data);
      } else {
        assert w.bytes == before + (UuidBytes(m.uuid) + (Put16(m.connId) + []));
      }
    }
  }

  method WriteData(w: Output, m: Message)
    requires m.Data?
    modifies w
    ensures w.bytes == old(w.bytes) + Body(m)
  {
    ghost var before := w.bytes;
    WriteOpt(w, m.dataConnId);
    if m.addr.Some? {
      WriteSocketAddr(w, m.addr.value);
    } else {
      assert w.bytes == w.bytes + OptAddrBytes(m.addr);
    }
    WriteOpt(w, m.encNonce);
    w.PutAll(m.payload);
    Chain(before, OptBytes(m.dataConnId), OptAddrBytes(m.addr), OptBytes(m.encNonce), m.payload);
  }

  /** to_writer on a fresh buffer; only a UUID that is too long makes it fail. */
  method ToBytes(m: Message) returns (r: Result<seq<byte>>)
    ensures r == if Writable(m) then Ok(Written(m)) else Err
  {
    var w := new Output();
    var flags := EncodeFlags(FlagsOf(m));
    w.Put8(flags);
    assert w.bytes == [flags];
    var ok := true;
    match m {
      case Connect(_, _, _, _) => ok := WriteConnect(w, m);
      case Establish(_, _, _) => ok := WriteEstablish(w, m);
      case Data(_, _, _, _) => WriteData(w, m);
    }
    r := if ok then Ok(w.bytes) else Err;
  }

  lemma Chain(a: seq<byte>, b: seq<byte>, c: seq<byte>, d: seq<byte>, e: seq<byte>)
    ensures a + b + c + d + e == a + (b + (c + (d + e)))
  {
  }
}
