/** The SOCKS messages a proxy client sends: the SOCKS5 greeting and request (sections 3 and 4
    of RFC 1928), its UDP header (section 7), and the SOCKS4/4a request. */
module Socks {
  import opened Bytes
  import opened Io
  import opened Utf8
  import opened SocksAddress

  const VERSION5: byte := 5
  const VERSION4: byte := 4

  // ---- SOCKS5 greeting ---------------------------------------------------------------

  function GreetingAt(buf: seq<byte>): (r: Parse<seq<byte>>)
    ensures r.Complete? ==> r.offset <= |buf|
  {
    if |buf| < 2 then Incomplete
    else if buf[0] != VERSION5 then Failed
    else if |buf| < buf[1] as int + 2 then Incomplete
    else Complete(buf[1] as int + 2, buf[2..buf[1] as int + 2])
  }

  method ParseGreeting(input: seq<byte>) returns (r: Parse<seq<byte>>)
    ensures r == GreetingAt(input)
  {
    var buf, offset := input, 0;
    if |buf| < 2 {
      return Incomplete;
    }
    var version := buf[0];
    buf := buf[1..];
    if version != VERSION5 {
      return Failed;
    }
    offset := offset + 1;
    var len := buf[0] as int;
    buf := buf[1..];
    if |buf| < len {
      return Incomplete;
    }
    offset := offset + len + 1;
    assert buf[..len] == input[2..len + 2];
    r := Complete(offset, buf[..len]);
  }

  lemma GreetingStable()
    ensures PrefixStable(GreetingAt)
  {
    forall a, more ensures FinalOn(GreetingAt, a, more) {
      if GreetingAt(a).Complete? {
        assert (a + more)[2..a[1] as int + 2] == a[2..a[1] as int + 2];
      }
    }
    forall a ensures SelfDelimitingOn(GreetingAt, a) {
      if GreetingAt(a).Complete? {
        var k := GreetingAt(a).offset;
        assert a[..k][2..k] == a[2..k];
      }
    }
  }

  /** The greeting a client writes comes back, with any suffix untouched. */
  lemma GreetingRoundTrip(auths: seq<byte>, rest: seq<byte>)
    requires |auths| <= 255
    ensures GreetingAt([5, |auths| as byte] + auths + rest) == Complete(2 + |auths|, auths)
  {
    var b := [5, |auths| as byte] + auths + rest;
    assert b[2..|auths| + 2] == auths;
  }

  /** Any other buffer is no greeting, or not yet one. */
  lemma OtherGreetings(b: seq<byte>)
    ensures GreetingAt(b).Failed? <==> |b| >= 2 && b[0] != 5
    ensures GreetingAt(b).Incomplete? <==> |b| < 2 || (b[0] == 5 && |b| < 2 + b[1] as int)
  {
  }

  // ---- SOCKS5 request ----------------------------------------------------------------

  datatype ConnRequest = ConnRequest(cmd: byte, address: Address)

  function RequestAt(lit: IpLiteral, buf: seq<byte>): Parse<ConnRequest> {
    if |buf| < 3 then Incomplete
    else if buf[0] != VERSION5 || buf[2] != 0 then Failed
    else
      match AddressAt(lit, buf[3..])
      case Incomplete => Incomplete
      case Failed => Failed
      case Complete(k, a) => Complete(3 + k, ConnRequest(buf[1], a))
  }

  method ParseRequest(lit: IpLiteral, input: seq<byte>) returns (r: Parse<ConnRequest>)
    ensures r == RequestAt(lit, input)
  {
    var buf := input;
    if |buf| < 3 {
      return Incomplete;
    }
    var version := buf[0];
    buf := buf[1..];
    if version != VERSION5 {
      return Failed;
    }
    var cmd := buf[0];
    buf := buf[1..];
    var rsv := buf[0];
    buf := buf[1..];
    if rsv != 0 {
      return Failed;
    }
    assert buf == input[3..];
    var address := ParseAddress(lit, buf);
    match address {
      case Incomplete => r := Incomplete;
      case Failed => r := Failed;
      case Complete(k, a) => r := Complete(3 + k, ConnRequest(cmd, a));
    }
  }

  lemma RequestStable(lit: IpLiteral)
    ensures PrefixStable((b: seq<byte>) => RequestAt(lit, b))
  {
    var p := (b: seq<byte>) => RequestAt(lit, b);
    forall a, more ensures FinalOn(p, a, more) {
      if Decided(RequestAt(lit, a)) {
        RequestLongerBuffer(lit, a, more);
      }
    }
    forall a ensures SelfDelimitingOn(p, a) {
      if RequestAt(lit, a).Complete? {
        RequestOnItsOwn(lit, a);
      }
    }
  }

  lemma RequestLongerBuffer(lit: IpLiteral, a: seq<byte>, more: seq<byte>)
    requires Decided(RequestAt(lit, a))
    ensures RequestAt(lit, a + more) == RequestAt(lit, a)
  {
    if a[0] == VERSION5 && a[2] == 0 {
      assert (a + more)[3..] == a[3..] + more;
      AddressLongerBuffer(lit, a[3..], (a + more)[3..]);
    }
  }

  lemma RequestOnItsOwn(lit: IpLiteral, a: seq<byte>)
    requires RequestAt(lit, a).Complete?
    ensures RequestAt(lit, a).offset <= |a|
    ensures RequestAt(lit, a[..RequestAt(lit, a).offset]) == RequestAt(lit, a)
  {
    var k := RequestAt(lit, a).offset;
    AddressOnItsOwn(lit, a[3..]);
    assert a[..k][3..] == a[3..][..k - 3];
  }

  /** The request a client writes comes back, with any suffix untouched, exactly if its
      address is not a name that spells an IP address. */
  lemma RequestRoundTripExact(lit: IpLiteral, req: ConnRequest, rest: seq<byte>)
    requires req.address.Valid() && Encoded(req.address).Ok?
    ensures var b := [5, req.cmd, 0] + Encoded(req.address).value + rest;
      RequestAt(lit, b) == Complete(3 + WriteLen(req.address), req) <==> !IsLiteral(lit, req.address)
  {
    var b := [5, req.cmd, 0] + Encoded(req.address).value + rest;
    assert b[3..] == Encoded(req.address).value + rest;
    AddressRoundTripExact(lit, req.address, rest);
  }

  /** Version and reserved byte must be 5 and 0; the rest is up to the address. */
  lemma OtherRequests(lit: IpLiteral, b: seq<byte>)
    ensures RequestAt(lit, b).Failed? <==>
            |b| >= 3 && (b[0] != 5 || b[2] != 0 || AddressAt(lit, b[3..]).Failed?)
    ensures RequestAt(lit, b).Incomplete? <==>
            |b| < 3 || (b[0] == 5 && b[2] == 0 && AddressAt(lit, b[3..]).Incomplete?)
  {
  }

  // ---- SOCKS4 and SOCKS4a request ----------------------------------------------------

  datatype Request4 = Request4(cmd: byte, addr: Address)

  /** Where the first zero byte at or after `from` is. */
  function FirstZero(buf: seq<byte>, from: nat): (r: Option<nat>)
    requires from <= |buf|
    ensures r.Some? ==> from <= r.value < |buf| && buf[r.value] == 0 && 0 !in buf[from..r.value]
    ensures r.None? ==> 0 !in buf[from..]
    decreases |buf| - from
  {
    if from == |buf| then None
    else if buf[from] == 0 then Some(from)
    else FirstZero(buf, from + 1)
  }

  /** An address 0.0.0.x with x not zero announces a host name after the user name. */
  predicate AnnouncesName(ip: Octets4) {
    ip[0] == 0 && ip[1] == 0 && ip[2] == 0 && ip[3] != 0
  }

  /** The fields of a request as they stand in the buffer. */
  datatype Raw4 = Raw4(cmd: byte, port: u16, ip: Octets4, name: Option<seq<byte>>)

  function Raw4At(buf: seq<byte>): Parse<Raw4> {
    if |buf| < 9 then Incomplete
    else if buf[0] != VERSION4 then Failed
    else
      var port, ip: Octets4 := Get16(buf[2..]), buf[4..8];
      match FirstZero(buf, 8)
      case None => Incomplete
      case Some(u) =>
        if !AnnouncesName(ip) then Complete(u + 1, Raw4(buf[1], port, ip, None))
        else
          match FirstZero(buf, u + 1)
          case None => Incomplete
          case Some(d) => Complete(d + 1, Raw4(buf[1], port, ip, Some(buf[u + 1..d])))
  }

  function RequestOf(raw: Raw4): Request4 {
    Request4(raw.cmd, if raw.name.Some? then Name(Lossy(raw.name.value), raw.port)
                      else IP(V4(raw.ip), raw.port))
  }

  function Socks4At(buf: seq<byte>): Parse<Request4> {
    match Raw4At(buf)
    case Incomplete => Incomplete
    case Failed => Failed
    case Complete(k, raw) => Complete(k, RequestOf(raw))
  }

  /** The library search for a zero byte in a slice. */
  method Position0(s: seq<byte>) returns (r: Option<nat>)
    ensures r == FirstZero(s, 0)
  {
    var i := 0;
    while i < |s| && s[i] != 0
      invariant 0 <= i <= |s| && FirstZero(s, 0) == FirstZero(s, i)
    {
      i := i + 1;
    }
    r := if i < |s| then Some(i) else None;
  }

  lemma {:induction false} FirstZeroShift(buf: seq<byte>, base: nat, from: nat)
    requires base <= from <= |buf|
    ensures FirstZero(buf[base..], from - base) ==
            match FirstZero(buf, from) case None => None case Some(i) => Some(i - base)
    decreases |buf| - from
  {
    if from < |buf| && buf[from] != 0 {
      FirstZeroShift(buf, base, from + 1);
    }
  }

  method ParseSocks4(input: seq<byte>) returns (r: Parse<Request4>)
    ensures r == Socks4At(input)
  {
    var buf := input;
    if |buf| < 9 {
      return Incomplete;
    }
    var offset := 0;
    var version := buf[0];
    buf := buf[1..];
    if version != VERSION4 {
      return Failed;
    }
    offset := offset + 1;
    var cmd := buf[0];
    buf := buf[1..];
    offset := offset + 1;
    var port := Get16(buf);
    buf := buf[2..];
    offset := offset + 2;
    var ip: Octets4 := buf[..4];
    offset := offset + 4;
    buf := buf[4..];
    assert buf == input[8..] && ip == input[4..8];
    var raw := ParseSocks4Texts(input, buf, offset, cmd, port, ip);
    r := if raw.Complete? then Complete(raw.offset, RequestOf(raw.value)) else Incomplete;
  }

  /** The zero-terminated texts at the end of the request: a user name, which is skipped,
      and for SOCKS4a the host name. */
  method ParseSocks4Texts(ghost input: seq<byte>, rest: seq<byte>, start: nat,
                          cmd: byte, port: u16, ip: Octets4)
    returns (r: Parse<Raw4>)
    requires |input| >= 9 && input[0] == VERSION4 && start == 8 && rest == input[8..]
    requires cmd == input[1] && port == Get16(input[2..]) && ip == input[4..8]
    ensures r == Raw4At(input)
  {
    var buf, offset := rest, start;
    FirstZeroShift(input, 8, 8);
    var user := Position0(buf);
    if user.None? {
      return Incomplete;
    }
    offset := offset + user.value + 1;
    buf := buf[user.value + 1..];
    assert buf == input[offset..];
    if !AnnouncesName(ip) {
      return Complete(offset, Raw4(cmd, port, ip, None));
    }
    var end, name := ParseHostName(input, buf, offset);
    r := if name.Some? then Complete(end, Raw4(cmd, port, ip, name)) else Incomplete;
  }

  /** The host name at `offset`, and where the request ends. */
  method ParseHostName(ghost input: seq<byte>, buf: seq<byte>, offset: nat)
    returns (end: nat, name: Option<seq<byte>>)
    requires offset <= |input| && buf == input[offset..]
    ensures match FirstZero(input, offset)
            case None => name == None
            case Some(d) => end == d + 1 && name == Some(input[offset..d])
  {
    FirstZeroShift(input, offset, offset);
    if |buf| == 0 {
      return 0, None;
    }
    var domain := Position0(buf);
    if domain.None? {
      return 0, None;
    }
    assert buf[..domain.value] == input[offset..offset + domain.value];
    end, name := offset + domain.value + 1, Some(buf[..domain.value]);
  }

  lemma {:induction false} FirstZeroPrefix(a: seq<byte>, whole: seq<byte>, from: nat)
    requires a <= whole && from <= |a| && FirstZero(a, from).Some?
    ensures FirstZero(whole, from) == FirstZero(a, from)
    decreases |a| - from
  {
    if a[from] != 0 {
      FirstZeroPrefix(a, whole, from + 1);
    }
  }

  lemma Socks4LongerBuffer(a: seq<byte>, whole: seq<byte>)
    requires Decided(Raw4At(a)) && a <= whole
    ensures Raw4At(whole) == Raw4At(a)
  {
    if Raw4At(a).Complete? {
      assert whole[4..8] == a[4..8] && Get16(whole[2..]) == Get16(a[2..]);
      FirstZeroPrefix(a, whole, 8);
      if AnnouncesName(a[4..8]) {
        NameTextLonger(a, whole, FirstZero(a, 8).value + 1);
      }
    }
  }

  lemma NameTextLonger(a: seq<byte>, whole: seq<byte>, from: nat)
    requires a <= whole && from <= |a| && FirstZero(a, from).Some?
    ensures FirstZero(whole, from) == FirstZero(a, from)
    ensures whole[from..FirstZero(a, from).value] == a[from..FirstZero(a, from).value]
  {
    FirstZeroPrefix(a, whole, from);
  }

  lemma {:induction false} FirstZeroCut(a: seq<byte>, from: nat, k: nat)
    requires from <= |a| && FirstZero(a, from).Some? && FirstZero(a, from).value < k <= |a|
    ensures FirstZero(a[..k], from) == FirstZero(a, from)
    decreases |a| - from
  {
    if a[from] != 0 {
      FirstZeroCut(a, from + 1, k);
    }
  }

  lemma Socks4OnItsOwn(a: seq<byte>)
    requires Raw4At(a).Complete?
    ensures 9 <= Raw4At(a).offset <= |a|
    ensures Raw4At(a[..Raw4At(a).offset]) == Raw4At(a)
  {
    var k := Raw4At(a).offset;
    var u := FirstZero(a, 8).value;
    FirstZeroCut(a, 8, k);
    if AnnouncesName(a[4..8]) {
      FirstZeroCut(a, u + 1, k);
    }
    Socks4LongerBuffer(a[..k], a);
  }

  lemma Socks4Stable()
    ensures PrefixStable(Socks4At)
  {
    forall a, more ensures FinalOn(Socks4At, a, more) {
      if Decided(Socks4At(a)) {
        Socks4LongerBuffer(a, a + more);
      }
    }
    forall a ensures SelfDelimitingOn(Socks4At, a) {
      if Socks4At(a).Complete? {
        Socks4OnItsOwn(a);
      }
    }
  }

  lemma {:induction false} FirstZeroIs(b: seq<byte>, from: nat, at: nat)
    requires from <= at < |b| && b[at] == 0 && forall i :: from <= i < at ==> b[i] != 0
    ensures FirstZero(b, from) == Some(at)
    decreases at - from
  {
    if from < at {
      FirstZeroIs(b, from + 1, at);
    }
  }

  /** The front of a request, up to the zero byte behind the user name. */
  function Socks4Head(cmd: byte, port: u16, ip: Octets4, user: seq<byte>): seq<byte> {
    [VERSION4, cmd] + Put16(port) + ip + user + [0]
  }

  lemma Socks4HeadParts(cmd: byte, port: u16, ip: Octets4, user: seq<byte>, more: seq<byte>)
    requires 0 !in user
    ensures var b := Socks4Head(cmd, port, ip, user) + more;
      && |b| >= 9 && b[0] == VERSION4 && b[1] == cmd && Get16(b[2..]) == port && b[4..8] == ip
      && FirstZero(b, 8) == Some(8 + |user|) && b[9 + |user|..] == more
  {
    var b := Socks4Head(cmd, port, ip, user) + more;
    assert b[2..][0] == Put16(port)[0] && b[2..][1] == Put16(port)[1];
    forall i | 8 <= i < 8 + |user| ensures b[i] != 0 {
      assert b[i] == user[i - 8] && user[i - 8] in user;
    }
    FirstZeroIs(b, 8, 8 + |user|);
  }

  lemma TextAt(b: seq<byte>, from: nat, text: seq<byte>, rest: seq<byte>)
    requires from <= |b| && b[from..] == text + [0] + rest && 0 !in text
    ensures FirstZero(b, from) == Some(from + |text|) && b[from..from + |text|] == text
  {
    forall i | from <= i < from + |text| ensures b[i] != 0 {
      assert b[i] == b[from..][i - from] == text[i - from] && text[i - from] in text;
    }
    assert b[from + |text|] == b[from..][|text|];
    FirstZeroIs(b, from, from + |text|);
    assert b[from..from + |text|] == b[from..][..|text|];
  }

  /** The head of a request in bytes, and the addresses 0.0.0.x with x not zero. */
  lemma Socks4HeadBytes(cmd: byte, hi: byte, lo: byte, ip: Octets4, user: seq<byte>)
    ensures Socks4Head(cmd, Number(hi, lo), ip, user) == [4, cmd, hi, lo] + ip + user + [0]
    ensures AnnouncesName(ip) <==> ip[..3] == [0, 0, 0] && ip[3] != 0
  {
    NumberBytes(hi, lo);
    assert [4, cmd] + [hi, lo] == [4, cmd, hi, lo];
    assert ip[..3] == [ip[0], ip[1], ip[2]];
  }

  /** A SOCKS4 request with any user name is read as its address, any suffix untouched. */
  lemma Socks4Reads(cmd: byte, hi: byte, lo: byte, ip: Octets4, user: seq<byte>, rest: seq<byte>)
    requires 0 !in user && !(ip[..3] == [0, 0, 0] && ip[3] != 0)
    ensures Socks4At([4, cmd, hi, lo] + ip + user + [0] + rest) ==
            Complete(9 + |user|, Request4(cmd, IP(V4(ip), Number(hi, lo))))
  {
    Socks4HeadBytes(cmd, hi, lo, ip, user);
    Socks4HeadParts(cmd, Number(hi, lo), ip, user, rest);
  }

  /** A SOCKS4a request is read as the host name behind the user name; a name that spells an
      IP address stays a name here. */
  lemma Socks4aReads(cmd: byte, hi: byte, lo: byte, ip: Octets4, user: seq<byte>, host: seq<byte>,
                     rest: seq<byte>)
    requires ip[..3] == [0, 0, 0] && ip[3] != 0
    requires 0 !in user && 0 !in host && IsUtf8(host)
    ensures Socks4At([4, cmd, hi, lo] + ip + user + [0] + (host + [0] + rest)) ==
            Complete(10 + |user| + |host|, Request4(cmd, Name(host, Number(hi, lo))))
  {
    Socks4HeadBytes(cmd, hi, lo, ip, user);
    LossyKeepsUtf8(host);
    Socks4aAnswers(cmd, Number(hi, lo), ip, user, host, rest, Request4(cmd, Name(host, Number(hi, lo))));
  }

  /** Another first byte is no SOCKS4 request; a request is incomplete without nine bytes, or
      without the zero byte after a text it has to contain. */
  lemma OtherSocks4(b: seq<byte>)
    ensures Socks4At(b).Failed? <==> |b| >= 9 && b[0] != 4
    ensures |b| < 9 ==> Socks4At(b).Incomplete?
    ensures |b| >= 9 && b[0] == 4 && 0 !in b[8..] ==> Socks4At(b).Incomplete?
  {
    if |b| >= 9 && FirstZero(b, 8).Some? {
      assert b[8..][FirstZero(b, 8).value - 8] == 0;
    }
  }

  lemma Socks4aAnswers(cmd: byte, port: u16, ip: Octets4, user: seq<byte>, host: seq<byte>,
                       rest: seq<byte>, r: Request4)
    requires 0 !in user && 0 !in host && AnnouncesName(ip)
    requires r == RequestOf(Raw4(cmd, port, ip, Some(host)))
    ensures Socks4At(Socks4Head(cmd, port, ip, user) + (host + [0] + rest)) ==
            Complete(10 + |user| + |host|, r)
  {
    Raw4aReads(cmd, port, ip, user, host, rest);
  }

  lemma Raw4aReads(cmd: byte, port: u16, ip: Octets4, user: seq<byte>, host: seq<byte>, rest: seq<byte>)
    requires 0 !in user && 0 !in host && AnnouncesName(ip)
    ensures Raw4At(Socks4Head(cmd, port, ip, user) + (host + [0] + rest)) ==
            Complete(10 + |user| + |host|, Raw4(cmd, port, ip, Some(host)))
  {
    Socks4HeadParts(cmd, port, ip, user, host + [0] + rest);
    Socks4aFrom(Socks4Head(cmd, port, ip, user) + (host + [0] + rest), 8 + |user|, host, rest);
  }

  lemma Socks4aFrom(b: seq<byte>, u: nat, host: seq<byte>, rest: seq<byte>)
    requires |b| >= 9 && b[0] == VERSION4 && AnnouncesName(b[4..8])
    requires FirstZero(b, 8) == Some(u) && b[u + 1..] == host + [0] + rest
    requires 0 !in host
    ensures Raw4At(b) == Complete(u + |host| + 2, Raw4(b[1], Get16(b[2..]), b[4..8], Some(host)))
  {
    TextAt(b, u + 1, host, rest);
  }

  // ---- SOCKS5 UDP header -------------------------------------------------------------

  datatype UdpPacket = UdpPacket(buf: seq<byte>, dataOffset: nat) {
    function FragNo(): byte
      requires |buf| > 2
    {
      buf[2]
    }

    /** The bytes that addr() parses again and unwraps. */
    function AddrBytes(): seq<byte>
      requires 3 <= dataOffset <= |buf|
    {
      buf[3..dataOffset]
    }

    function Payload(): seq<byte>
      requires dataOffset <= |buf|
    {
      buf[dataOffset..]
    }
  }

  /** Where the payload of a packet starts, if its header is sound. */
  function UdpHeader(lit: IpLiteral, buf: seq<byte>): Result<nat> {
    if |buf| < 3 || Get16(buf) != 0 then Err
    else
      match AddressAt(lit, buf[3..])
      case Complete(k, _) => Ok(3 + k)
      case _ => Err
  }

  /** Two zero bytes, a fragment number and an address; the payload starts behind it. */
  lemma UdpHeaderExact(lit: IpLiteral, b: seq<byte>)
    ensures UdpHeader(lit, b).Ok? <==>
            |b| >= 3 && b[0] == 0 && b[1] == 0 && AddressAt(lit, b[3..]).Complete?
    ensures UdpHeader(lit, b).Ok? ==> UdpHeader(lit, b).value == 3 + AddressAt(lit, b[3..]).offset
  {
  }

  method NewChecked(lit: IpLiteral, buf: seq<byte>) returns (r: Result<UdpPacket>)
    ensures r == match UdpHeader(lit, buf) case Ok(k) => Ok(UdpPacket(buf, k)) case Err => Err
  {
    var b, offset := buf, 0;
    if |b| < 2 || Get16(b) != 0 {
      return Err;
    }
    b := b[2..];
    offset := offset + 2;
    if |b| < 1 {
      return Err;
    }
    b := b[1..];
    offset := offset + 1;
    assert b == buf[3..];
    var address := ParseAddress(lit, b);
    if !address.Complete? {
      return Err;
    }
    r := Ok(UdpPacket(buf, offset + address.offset));
  }

  /** A checked packet can be taken apart: both unwraps in addr() succeed, and they give the
      address that was seen when the packet was checked. */
  lemma CheckedPacketHasAddr(lit: IpLiteral, buf: seq<byte>)
    requires UdpHeader(lit, buf).Ok?
    ensures var p := UdpPacket(buf, UdpHeader(lit, buf).value);
      && 3 < p.dataOffset <= |buf|
      && AddressAt(lit, p.AddrBytes()) == AddressAt(lit, buf[3..])
      && AddressAt(lit, p.AddrBytes()).Complete?
      && buf == buf[..3] + p.AddrBytes() + p.Payload()
  {
    AddressOnItsOwn(lit, buf[3..]);
    var k := UdpHeader(lit, buf).value;
    assert buf[3..k] == buf[3..][..k - 3];
  }

  /** to_packet: header and payload, checked again. */
  method ToPacket(lit: IpLiteral, addr: Address, fragNo: byte, payload: seq<byte>)
    returns (r: Result<UdpPacket>)
    ensures r.Ok? ==> Encoded(addr).Ok? && r.value.buf == [0, 0, fragNo] + Encoded(addr).value + payload
    ensures r == if Encoded(addr).Err? then Err
                 else
                   var buf := [0, 0, fragNo] + Encoded(addr).value + payload;
                   match UdpHeader(lit, buf) case Ok(k) => Ok(UdpPacket(buf, k)) case Err => Err
  {
    var out := new Output();
    out.Put16(0);
    out.Put8(fragNo);
    assert out.bytes == [0, 0, fragNo];
    var ok := WriteTo(addr, out);
    if !ok {
      return Err;
    }
    out.PutAll(payload);
    r := NewChecked(lit, out.bytes);
  }

  /** What to_packet builds reads back as the same fragment number, payload and address,
      the address exactly if it is not a name that spells an IP address. */
  lemma UdpRoundTripExact(lit: IpLiteral, addr: Address, fragNo: byte, payload: seq<byte>)
    requires addr.Valid() && Encoded(addr).Ok?
    ensures var buf := [0, 0, fragNo] + Encoded(addr).value + payload;
      && UdpHeader(lit, buf) == Ok(3 + WriteLen(addr))
      && var p := UdpPacket(buf, 3 + WriteLen(addr));
      && p.FragNo() == fragNo && p.dataOffset <= |buf| && p.Payload() == payload
      && (AddressAt(lit, p.AddrBytes()) == Complete(WriteLen(addr), addr) <==> !IsLiteral(lit, addr))
  {
    var buf := [0, 0, fragNo] + Encoded(addr).value + payload;
    assert buf[3..] == Encoded(addr).value + payload;
    assert Get16(buf) == 0;
    AddressRoundTripExact(lit, addr, payload);
    CheckedPacketHasAddr(lit, buf);
    assert buf[3 + WriteLen(addr)..] == payload;
  }
}
