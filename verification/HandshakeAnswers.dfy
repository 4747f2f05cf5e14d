/** What a proxy client is answered, in terms of the bytes it sends. */
module HandshakeAnswers {
  import opened Bytes
  import opened Utf8
  import opened SocksAddress
  import opened Socks
  import opened Handshake

  // ---- SOCKS5 ----------------------------------------------------------------------------

  /** A greeting that offers these methods. */
  function Greeting(methods: seq<byte>): seq<byte>
    requires |methods| <= 255
  {
    [5, |methods| as byte] + methods
  }

  /** A request for command `cmd` with address `a`. */
  function Request(cmd: byte, a: Address): seq<byte>
    requires Encoded(a).Ok?
  {
    [5, cmd, 0] + Encoded(a).value
  }

  /** The address as the server understands it: a name that spells an IP address is one. */
  function Heard(lit: IpLiteral, a: Address): Address {
    if a.Name? && lit(a.host).Some? then IP(lit(a.host).value, a.port) else a
  }

  lemma AfterGreeting(lit: IpLiteral, lib: HttpLib, methods: seq<byte>, more: seq<byte>)
    requires |methods| <= 255
    ensures var all := Greeting(methods) + more;
      Expected(lit, lib, all) ==
      if 0 in methods then
        var o := RequestOutcome(lit, more);
        Outcome(o.result, 2 + |methods| + o.consumed, [5, 0] + o.reply)
      else Outcome(Err, 2 + |methods|, [5, 0xFF])
  {
    var all := Greeting(methods) + more;
    GreetingRoundTrip(methods, more);
    assert all[2 + |methods|..] == more;
  }

  lemma RequestHeard(lit: IpLiteral, cmd: byte, a: Address, rest: seq<byte>)
    requires a.Valid() && Encoded(a).Ok?
    ensures RequestAt(lit, Request(cmd, a) + rest) ==
            Complete(|Request(cmd, a)|, ConnRequest(cmd, Heard(lit, a)))
  {
    var b := Request(cmd, a) + rest;
    AddressRoundTripExact(lit, a, rest);
    assert b[3..] == Encoded(a).value + rest;
    assert b[0] == 5 && b[1] == cmd && b[2] == 0;
  }

  lemma RequestAnswered(lit: IpLiteral, lib: HttpLib, methods: seq<byte>, cmd: byte, a: Address,
                        rest: seq<byte>)
    requires |methods| <= 255 && 0 in methods && a.Valid() && Encoded(a).Ok?
    ensures var answer := CommandAnswer(ConnRequest(cmd, Heard(lit, a)));
      Expected(lit, lib, Greeting(methods) + (Request(cmd, a) + rest)) ==
      if answer.Ok? then Outcome(answer, |Greeting(methods)| + |Request(cmd, a)|, [5, 0])
      else Outcome(Err, |Greeting(methods)|, [5, 0] + [5, 7, 0, 1, 0, 0, 0, 0, 0, 0])
  {
    AfterGreeting(lit, lib, methods, Request(cmd, a) + rest);
    RequestHeard(lit, cmd, a, rest);
    assert [5, 0] + [] == [5, 0];
  }

  /** Command 1 is a TCP connection: both messages are consumed, and one reply went out. */
  lemma ConnectIsTcp(lit: IpLiteral, lib: HttpLib, methods: seq<byte>, a: Address, rest: seq<byte>)
    requires |methods| <= 255 && 0 in methods && a.Valid() && Encoded(a).Ok?
    ensures Expected(lit, lib, Greeting(methods) + (Request(1, a) + rest)) ==
            Outcome(Ok(Tcp(Heard(lit, a))), |Greeting(methods)| + |Request(1, a)|, [5, 0])
  {
    RequestAnswered(lit, lib, methods, 1, a, rest);
  }

  function Text(s: string): seq<byte>
    requires forall i :: 0 <= i < |s| ==> s[i] < 128 as char
  {
    seq(|s|, i requires 0 <= i < |s| => s[i] as byte)
  }

  /** Four or sixteen zero bytes, or one of two spellings. */
  predicate Nowhere(a: Address) {
    match a
    case IP(V4(o), _) => o == [0, 0, 0, 0]
    case IP(V6(o), _) => o == seq(16, _ => 0)
    case Name(host, _) => host == Text("0.0.0.0") || host == Text("::/128")
  }

  lemma UnspecifiedIsNowhere(a: Address)
    ensures IsUnspecified(a) <==> Nowhere(a)
  {
    assert Text("0.0.0.0") == [0x30, 0x2E, 0x30, 0x2E, 0x30, 0x2E, 0x30];
    assert Text("::/128") == [0x3A, 0x3A, 0x2F, 0x31, 0x32, 0x38];
  }

  /** Command 3 is UDP, with no destination exactly for an address that means nowhere. */
  lemma AssociateIsUdp(lit: IpLiteral, lib: HttpLib, methods: seq<byte>, a: Address, rest: seq<byte>)
    requires |methods| <= 255 && 0 in methods && a.Valid() && Encoded(a).Ok?
    ensures var dst := if Nowhere(Heard(lit, a)) then None else Some(Heard(lit, a));
      Expected(lit, lib, Greeting(methods) + (Request(3, a) + rest)) ==
      Outcome(Ok(Udp(dst)), |Greeting(methods)| + |Request(3, a)|, [5, 0])
  {
    RequestAnswered(lit, lib, methods, 3, a, rest);
    UnspecifiedIsNowhere(Heard(lit, a));
  }

  /** Any other command is refused with a reply of ten bytes, and the request is not consumed. */
  lemma OthersAreRefused(lit: IpLiteral, lib: HttpLib, methods: seq<byte>, cmd: byte, a: Address,
                         rest: seq<byte>)
    requires |methods| <= 255 && 0 in methods && a.Valid() && Encoded(a).Ok?
    requires cmd != 1 && cmd != 3
    ensures Expected(lit, lib, Greeting(methods) + (Request(cmd, a) + rest)) ==
            Outcome(Err, |Greeting(methods)|, [5, 0, 5, 7, 0, 1, 0, 0, 0, 0, 0, 0])
  {
    RequestAnswered(lit, lib, methods, cmd, a, rest);
    assert [5, 0] + [5, 7, 0, 1, 0, 0, 0, 0, 0, 0] == [5, 0, 5, 7, 0, 1, 0, 0, 0, 0, 0, 0];
  }

  /** Without method 0 the greeting is refused, whatever follows. */
  lemma NoMethodIsRefused(lit: IpLiteral, lib: HttpLib, methods: seq<byte>, more: seq<byte>)
    requires |methods| <= 255 && 0 !in methods
    ensures Expected(lit, lib, Greeting(methods) + more) ==
            Outcome(Err, |Greeting(methods)|, [5, 0xFF])
  {
    AfterGreeting(lit, lib, methods, more);
  }

  /** An accepted greeting without a complete request behind it fails with nothing but its own
      reply. */
  lemma NoRequestFails(lit: IpLiteral, lib: HttpLib, methods: seq<byte>, more: seq<byte>)
    requires |methods| <= 255 && 0 in methods && !RequestAt(lit, more).Complete?
    ensures Expected(lit, lib, Greeting(methods) + more) == Outcome(Err, |Greeting(methods)|, [5, 0])
  {
    AfterGreeting(lit, lib, methods, more);
    assert [5, 0] + [] == [5, 0];
  }

  // ---- SOCKS4 ----------------------------------------------------------------------------

  /** A SOCKS4 request is consumed without a reply, and served exactly for command 1. */
  lemma Socks4Answered(lit: IpLiteral, lib: HttpLib, cmd: byte, hi: byte, lo: byte, ip: Octets4,
                       user: seq<byte>, rest: seq<byte>)
    requires 0 !in user && !(ip[..3] == [0, 0, 0] && ip[3] != 0)
    ensures var b := [4, cmd, hi, lo] + ip + user + [0];
      Expected(lit, lib, b + rest) ==
      Outcome(if cmd == 1 then Ok(Tcp(IP(V4(ip), Number(hi, lo)))) else Err, |b|, [])
  {
    Socks4Reads(cmd, hi, lo, ip, user, rest);
    FirstIsFour(cmd, hi, lo, ip, user, rest);
    Socks4Outcome(lit, lib, [4, cmd, hi, lo] + ip + user + [0] + rest, 9 + |user|, Request4(cmd, IP(V4(ip), Number(hi, lo))));
  }

  lemma Socks4aAnswered(lit: IpLiteral, lib: HttpLib, cmd: byte, hi: byte, lo: byte, ip: Octets4,
                        user: seq<byte>, host: seq<byte>, rest: seq<byte>)
    requires ip[..3] == [0, 0, 0] && ip[3] != 0
    requires 0 !in user && 0 !in host && IsUtf8(host)
    ensures Expected(lit, lib, [4, cmd, hi, lo] + ip + user + [0] + (host + [0] + rest)) ==
            Outcome(if cmd == 1 then Ok(Tcp(Name(host, Number(hi, lo)))) else Err,
                    10 + |user| + |host|, [])
  {
    Socks4aReads(cmd, hi, lo, ip, user, host, rest);
    FirstIsFour(cmd, hi, lo, ip, user, host + [0] + rest);
    Socks4Outcome(lit, lib, [4, cmd, hi, lo] + ip + user + [0] + (host + [0] + rest),
                  10 + |user| + |host|, Request4(cmd, Name(host, Number(hi, lo))));
  }

  lemma FirstIsFour(cmd: byte, hi: byte, lo: byte, ip: Octets4, user: seq<byte>, more: seq<byte>)
    ensures var all := [4, cmd, hi, lo] + ip + user + [0] + more;
      all != [] && all[0] == 4
  {
  }

  lemma Socks4Outcome(lit: IpLiteral, lib: HttpLib, all: seq<byte>, k: nat, r: Request4)
    requires all != [] && all[0] == 4 && Socks4At(all) == Complete(k, r)
    ensures Expected(lit, lib, all) == Outcome(if r.cmd == 1 then Ok(Tcp(r.addr)) else Err, k, [])
  {
  }

  // ---- everything else ---------------------------------------------------------------------

  /** Any other first byte is HTTP, and what the library makes of the request is the answer. */
  lemma HttpAnswered(lit: IpLiteral, lib: HttpLib, all: seq<byte>)
    requires all != [] && all[0] != 4 && all[0] != 5
    ensures Expected(lit, lib, all) ==
            match lib.parse(all)
            case Complete(k, h) => Outcome(lib.request(h), k, [])
            case _ => Outcome(Err, 0, [])
  {
  }

  /** A message that never becomes complete fails without a reply. */
  lemma NothingAnswered(lit: IpLiteral, lib: HttpLib, all: seq<byte>)
    requires all == [] || (all[0] == 5 && !GreetingAt(all).Complete?) ||
             (all[0] == 4 && !Socks4At(all).Complete?)
    ensures Expected(lit, lib, all) == Outcome(Err, 0, [])
  {
  }
}
