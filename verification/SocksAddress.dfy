/** The address format of SOCKS5 (section 5 of RFC 1928), shared by most of the protocols. */
module SocksAddress {
  import opened Bytes
  import opened Io
  import opened Utf8

  type Octets4 = s: seq<byte> | |s| == 4 witness [0, 0, 0, 0]
  type Octets16 = s: seq<byte> | |s| == 16 witness seq(16, _ => 0)

  /** Flow label and scope of an IPv6 socket address never travel and are left out. */
  datatype IpAddr = V4(v4: Octets4) | V6(v6: Octets16)

  /** A host name is a Rust string, kept as its UTF-8 bytes. */
  datatype Address = IP(ip: IpAddr, port: u16) | Name(host: seq<byte>, port: u16) {
    ghost predicate Valid() {
      Name? ==> IsUtf8(host)
    }
  }

  /** Rust's parser for textual IP addresses, a parameter here. */
  type IpLiteral = seq<byte> -> Option<IpAddr>

  const ATYP_V4: byte := 1
  const ATYP_NAME: byte := 3
  const ATYP_V6: byte := 4
  const NAME_MAX: nat := 255

  /** A host and a port become an IP address when the host is written as one. */
  function FromHost(lit: IpLiteral, host: seq<byte>, port: u16): Address {
    match lit(host)
    case Some(ip) => IP(ip, port)
    case None => Name(host, port)
  }

  predicate IsLiteral(lit: IpLiteral, a: Address) {
    a.Name? && lit(a.host).Some?
  }

  predicate IsUnspecified(a: Address) {
    match a
    case IP(V4(o), _) => o == [0, 0, 0, 0]
    case IP(V6(o), _) => forall i :: 0 <= i < 16 ==> o[i] == 0
    case Name(host, _) =>
      host == [0x30, 0x2E, 0x30, 0x2E, 0x30, 0x2E, 0x30] ||
      host == [0x3A, 0x3A, 0x2F, 0x31, 0x32, 0x38]
  }

  // ---- writing -----------------------------------------------------------------------

  function Encoded(a: Address): Result<seq<byte>> {
    match a
    case IP(V4(o), port) => Ok([ATYP_V4] + o + Put16(port))
    case IP(V6(o), port) => Ok([ATYP_V6] + o + Put16(port))
    case Name(host, port) =>
      if |host| > NAME_MAX then Err
      else Ok([ATYP_NAME, |host| as byte] + host + Put16(port))
  }

  function WriteLen(a: Address): nat {
    1 + (match a
         case IP(V4(_), _) => 4
         case IP(V6(_), _) => 16
         case Name(host, _) => 1 + |host|) + 2
  }

  /** write_to: nothing is written for a name that is too long. */
  method WriteTo(a: Address, out: Output) returns (ok: bool)
    modifies out
    ensures ok <==> Encoded(a).Ok?
    ensures out.bytes == old(out.bytes) + (if ok then Encoded(a).value else [])
    ensures ok ==> |out.bytes| == |old(out.bytes)| + WriteLen(a)
  {
    ghost var before := out.bytes;
    match a {
      case IP(V4(o), port) =>
        out.Put8(ATYP_V4);
        out.PutAll(o);
        out.Put16(port);
        JoinedParts(before, [ATYP_V4], o, Put16(port));
      case IP(V6(o), port) =>
        out.Put8(ATYP_V6);
        out.PutAll(o);
        out.Put16(port);
        JoinedParts(before, [ATYP_V6], o, Put16(port));
      case Name(host, port) =>
        if |host| > NAME_MAX {
          return false;
        }
        out.Put8(ATYP_NAME);
        out.Put8(|host| as byte);
        out.PutAll(host);
        out.Put16(port);
        assert before + [ATYP_NAME] + [|host| as byte] == before + [ATYP_NAME, |host| as byte];
        JoinedParts(before, [ATYP_NAME, |host| as byte], host, Put16(port));
    }
    EncodedLength(a);
    ok := true;
  }

  lemma JoinedParts(before: seq<byte>, a: seq<byte>, b: seq<byte>, c: seq<byte>)
    ensures before + a + b + c == before + (a + b + c)
  {
  }

  lemma EncodedLength(a: Address)
    requires Encoded(a).Ok?
    ensures |Encoded(a).value| == WriteLen(a)
  {
  }

  // ---- reading from a buffer ---------------------------------------------------------

  /** What the front of `buf` says about an address. */
  function AddressAt(lit: IpLiteral, buf: seq<byte>): (r: Parse<Address>)
    ensures r.Complete? ==> 0 < r.offset <= |buf|
  {
    if buf == [] then Incomplete
    else if buf[0] == ATYP_V4 then
      if |buf| < 7 then Incomplete
      else Complete(7, IP(V4(buf[1..5]), Get16(buf[5..])))
    else if buf[0] == ATYP_NAME then
      if |buf| < 2 || |buf| < buf[1] as int + 4 then Incomplete
      else
        var end := buf[1] as int + 2;
        Complete(end + 2, FromHost(lit, Lossy(buf[2..end]), Get16(buf[end..])))
    else if buf[0] == ATYP_V6 then
      if |buf| < 19 then Incomplete
      else Complete(19, IP(V6(buf[1..17]), Get16(buf[17..])))
    else Failed
  }

  /** Address::parse, which eats its way through the slice and counts. */
  method ParseAddress(lit: IpLiteral, input: seq<byte>) returns (r: Parse<Address>)
    ensures r == AddressAt(lit, input)
  {
    var buf := input;
    if |buf| == 0 {
      return Incomplete;
    }
    var position := 1;
    var kind := buf[0];
    buf := buf[1..];
    if kind == ATYP_V4 {
      if |buf| < 6 {
        return Incomplete;
      }
      var addr := buf[..4];
      buf := buf[4..];
      var port := Get16(buf);
      position := position + 6;
      assert addr == input[1..5] && buf == input[5..];
      return Complete(position, IP(V4(addr), port));
    } else if kind == ATYP_NAME {
      if |buf| < 1 {
        return Incomplete;
      }
      position := position + 1;
      var nameLen := buf[0] as int;
      buf := buf[1..];
      if |buf| < nameLen + 2 {
        return Incomplete;
      }
      position := position + nameLen + 2;
      var host := Lossy(buf[..nameLen]);
      assert buf[..nameLen] == input[2..2 + nameLen];
      buf := buf[nameLen..];
      assert buf == input[2 + nameLen..];
      return Complete(position, FromHost(lit, host, Get16(buf)));
    } else if kind == ATYP_V6 {
      if |buf| < 18 {
        return Incomplete;
      }
      var addr := buf[..16];
      buf := buf[16..];
      var port := Get16(buf);
      position := position + |addr| + 2;
      assert addr == input[1..17] && buf == input[17..];
      return Complete(position, IP(V6(addr), port));
    } else {
      return Failed;
    }
  }

  // ---- reading from a stream ---------------------------------------------------------

  /** The address at the front of `data`, if it is there in full; a name stays a name, and
      bytes that are not UTF-8 are an error. */
  function AddressIn(data: seq<byte>): Result<(nat, Address)> {
    if data == [] then Err
    else if data[0] == ATYP_V4 then
      if |data| < 7 then Err else Ok((7, IP(V4(data[1..5]), Get16(data[5..]))))
    else if data[0] == ATYP_NAME then
      if |data| < 2 || |data| < data[1] as int + 4 then Err
      else
        var end := data[1] as int + 2;
        if IsUtf8(data[2..end]) then Ok((end + 2, Name(data[2..end], Get16(data[end..])))) else Err
    else if data[0] == ATYP_V6 then
      if |data| < 19 then Err else Ok((19, IP(V6(data[1..17]), Get16(data[17..]))))
    else Err
  }

  /** `size` octets and a port, as both kinds of IP address are read. */
  method ReadIp(input: Input, size: nat) returns (r: Result<(seq<byte>, u16)>)
    modifies input
    ensures r.Ok? <==> size + 2 <= |old(input.unread)|
    ensures r.Ok? ==>
              && r.value.0 == old(input.unread)[..size]
              && r.value.1 == Get16(old(input.unread)[size..])
              && input.unread == old(input.unread)[size + 2..]
  {
    ghost var data := input.unread;
    var buf := input.ReadExact(size + 2);
    if buf.Err? {
      return Err;
    }
    assert buf.value[..size] == data[..size];
    r := Ok((buf.value[..size], Get16(buf.value[size..])));
  }

  /** A length, a name and a port. */
  method ReadName(input: Input) returns (r: Result<Address>)
    modifies input
    ensures var spec := AddressIn([ATYP_NAME] + old(input.unread));
      && (r.Ok? <==> spec.Ok?)
      && (r.Ok? ==> r.value == spec.value.1 && input.unread == old(input.unread)[spec.value.0 - 1..])
  {
    ghost var data := input.unread;
    ghost var whole := [ATYP_NAME] + data;
    var len := input.ReadExact(1);
    if len.Err? {
      return Err;
    }
    var n := len.value[0] as int;
    var host := input.ReadExact(n);
    if host.Err? {
      return Err;
    }
    assert host.value == data[1..n + 1] == whole[2..n + 2];
    var port := input.ReadExact(2);
    if port.Err? || !IsUtf8(host.value) {
      return Err;
    }
    assert port.value == data[n + 1..][..2] && whole[n + 2..] == data[n + 1..];
    assert input.unread == data[n + 3..];
    r := Ok(Name(host.value, Get16(port.value)));
  }

  /** Address::parse_async. */
  method ParseAsync(input: Input) returns (r: Result<Address>)
    modifies input
    ensures var spec := AddressIn(old(input.unread));
      && (r.Ok? <==> spec.Ok?)
      && (r.Ok? ==> r.value == spec.value.1 && input.unread == old(input.unread)[spec.value.0..])
  {
    ghost var data := input.unread;
    var kind := input.ReadExact(1);
    if kind.Err? {
      return Err;
    }
    ghost var tail := input.unread;
    assert data == [data[0]] + tail;
    if kind.value[0] == ATYP_NAME {
      r := ReadName(input);
    } else if kind.value[0] == ATYP_V4 {
      var ip := ReadIp(input, 4);
      assert |data| >= 7 ==> tail[..4] == data[1..5] && tail[4..] == data[5..];
      r := if ip.Ok? then Ok(IP(V4(ip.value.0), ip.value.1)) else Err;
    } else if kind.value[0] == ATYP_V6 {
      var ip := ReadIp(input, 16);
      assert |data| >= 19 ==> tail[..16] == data[1..17] && tail[16..] == data[17..];
      r := if ip.Ok? then Ok(IP(V6(ip.value.0), ip.value.1)) else Err;
    } else {
      r := Err;
    }
  }

  // ---- properties --------------------------------------------------------------------

  /** More bytes behind `a` do not change an answer. */
  ghost predicate FinalOn<T(!new)>(p: seq<byte> -> Parse<T>, a: seq<byte>, more: seq<byte>) {
    Decided(p(a)) ==> p(a + more) == p(a)
  }

  /** A complete answer on `a` depends on nothing beyond the bytes it claims. */
  ghost predicate SelfDelimitingOn<T(!new)>(p: seq<byte> -> Parse<T>, a: seq<byte>) {
    p(a).Complete? ==> p(a).offset <= |a| && p(a[..p(a).offset]) == p(a)
  }

  /** An incremental parser whose answers are final and self-delimiting on every buffer. */
  ghost predicate PrefixStable<T(!new)>(p: seq<byte> -> Parse<T>) {
    && (forall a, more :: FinalOn(p, a, more))
    && (forall a :: SelfDelimitingOn(p, a))
  }

  lemma AddressStable(lit: IpLiteral)
    ensures PrefixStable((b: seq<byte>) => AddressAt(lit, b))
  {
    var p := (b: seq<byte>) => AddressAt(lit, b);
    forall a, more ensures FinalOn(p, a, more) {
      if Decided(AddressAt(lit, a)) {
        AddressLongerBuffer(lit, a, a + more);
      }
    }
    forall a ensures SelfDelimitingOn(p, a) {
      if AddressAt(lit, a).Complete? {
        AddressOnItsOwn(lit, a);
      }
    }
  }

  lemma AddressLongerBuffer(lit: IpLiteral, a: seq<byte>, whole: seq<byte>)
    requires Decided(AddressAt(lit, a)) && a <= whole
    ensures AddressAt(lit, whole) == AddressAt(lit, a)
  {
    if a[0] == ATYP_NAME {
      var end := a[1] as int + 2;
      assert whole[2..end] == a[2..end];
    } else if a[0] == ATYP_V4 {
      assert whole[1..5] == a[1..5];
    } else if a[0] == ATYP_V6 {
      assert whole[1..17] == a[1..17];
    }
  }

  lemma AddressOnItsOwn(lit: IpLiteral, a: seq<byte>)
    requires AddressAt(lit, a).Complete?
    ensures AddressAt(lit, a[..AddressAt(lit, a).offset]) == AddressAt(lit, a)
  {
    var k := AddressAt(lit, a).offset;
    AddressLongerBuffer(lit, a[..k], a);
  }

  lemma EncodedParts(a: Address, rest: seq<byte>)
    requires Encoded(a).Ok?
    ensures |Encoded(a).value| == WriteLen(a)
    ensures var b := Encoded(a).value + rest;
      match a
      case IP(V4(o), port) => b[0] == ATYP_V4 && b[1..5] == o && Get16(b[5..]) == port
      case IP(V6(o), port) => b[0] == ATYP_V6 && b[1..17] == o && Get16(b[17..]) == port
      case Name(host, port) =>
        var end := |host| + 2;
        b[0] == ATYP_NAME && b[1] as int == |host| && b[2..end] == host && Get16(b[end..]) == port
  {
  }

  /** Written and parsed from a buffer, an address comes back with any suffix untouched,
      exactly if it is not a name that spells an IP address. */
  lemma AddressRoundTripExact(lit: IpLiteral, a: Address, rest: seq<byte>)
    requires a.Valid() && Encoded(a).Ok?
    ensures |Encoded(a).value| == WriteLen(a)
    ensures AddressAt(lit, Encoded(a).value + rest) == Complete(WriteLen(a), a) <==> !IsLiteral(lit, a)
    ensures IsLiteral(lit, a) ==>
              AddressAt(lit, Encoded(a).value + rest) ==
              Complete(WriteLen(a), IP(lit(a.host).value, a.port))
  {
    EncodedParts(a, rest);
    if a.Name? {
      LossyKeepsUtf8(a.host);
    }
  }

  /** Read from a stream it always comes back. */
  lemma AddressStreamRoundTrip(a: Address, rest: seq<byte>)
    requires a.Valid() && Encoded(a).Ok?
    ensures AddressIn(Encoded(a).value + rest) == Ok((WriteLen(a), a))
  {
    EncodedParts(a, rest);
  }
}
