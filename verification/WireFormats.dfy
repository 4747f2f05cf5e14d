/** The formats byte by byte, with every number written out: what the constants shared by a
    writer and its reader have to be. */
module WireFormats {
  import opened Bytes
  import opened Utf8
  import opened SocksAddress
  import opened PacketStream
  import opened UdpmanMessage

  // ---- SOCKS5 addresses ------------------------------------------------------------------

  /** Type 1: four octets and a port, high byte first. */
  lemma V4AddressBytes(lit: IpLiteral, o: Octets4, hi: byte, lo: byte, rest: seq<byte>)
    ensures Encoded(IP(V4(o), Number(hi, lo))) == Ok([1] + o + [hi, lo])
    ensures AddressAt(lit, [1] + o + [hi, lo] + rest) == Complete(7, IP(V4(o), Number(hi, lo)))
  {
    NumberBytes(hi, lo);
    AddressRoundTripExact(lit, IP(V4(o), Number(hi, lo)), rest);
  }

  /** Type 4: sixteen octets and a port. */
  lemma V6AddressBytes(lit: IpLiteral, o: Octets16, hi: byte, lo: byte, rest: seq<byte>)
    ensures Encoded(IP(V6(o), Number(hi, lo))) == Ok([4] + o + [hi, lo])
    ensures AddressAt(lit, [4] + o + [hi, lo] + rest) == Complete(19, IP(V6(o), Number(hi, lo)))
  {
    NumberBytes(hi, lo);
    AddressRoundTripExact(lit, IP(V6(o), Number(hi, lo)), rest);
  }

  /** Type 3: a length, that many bytes, and a port; a longer name cannot be written. */
  lemma NameAddressBytes(lit: IpLiteral, host: seq<byte>, hi: byte, lo: byte, rest: seq<byte>)
    requires IsUtf8(host)
    ensures Encoded(Name(host, Number(hi, lo))) ==
            if |host| <= 255 then Ok([3, |host| as byte] + host + [hi, lo]) else Err
    ensures |host| <= 255 ==>
              AddressAt(lit, [3, |host| as byte] + host + [hi, lo] + rest) ==
              Complete(|host| + 4, if lit(host).Some? then IP(lit(host).value, Number(hi, lo))
                                   else Name(host, Number(hi, lo)))
  {
    NumberBytes(hi, lo);
    if |host| <= 255 {
      AddressRoundTripExact(lit, Name(host, Number(hi, lo)), rest);
    }
  }

  /** Every other first byte is an error, and a buffer that ends too early is incomplete. */
  lemma OtherAddresses(lit: IpLiteral, b: seq<byte>)
    ensures AddressAt(lit, b).Failed? <==> b != [] && b[0] != 1 && b[0] != 3 && b[0] != 4
    ensures AddressAt(lit, b).Incomplete? <==>
            || b == [] || (b[0] == 1 && |b| < 7) || (b[0] == 4 && |b| < 19)
            || (b[0] == 3 && (|b| < 2 || |b| < b[1] as int + 4))
  {
  }

  /** A stream must have all the bytes, and a name must be text. */
  lemma AddressesInStreams(b: seq<byte>)
    ensures AddressIn(b).Ok? <==>
            && b != []
            && (|| (b[0] == 1 && |b| >= 7)
                || (b[0] == 4 && |b| >= 19)
                || (b[0] == 3 && |b| >= 2 && |b| >= b[1] as int + 4 && IsUtf8(b[2..b[1] as int + 2])))
  {
  }

  // ---- UDP packets over a stream ---------------------------------------------------------

  /** Packet type 1 leaves the address out. */
  lemma ShortPacketBytes(a: Address, r: Option<Address>, payload: seq<byte>, hi: byte, lo: byte,
                         tail: seq<byte>)
    requires |payload| == Number(hi, lo)
    ensures WritePacket(Some(a), Packet(payload, a)).0 == Ok([1, hi, lo] + payload)
    ensures ReadPacket(r, [1, hi, lo] + payload + tail) ==
            if r.Some? then Ok((Packet(payload, r.value), tail)) else Err
  {
    NumberBytes(hi, lo);
    assert [1] + [hi, lo] == [1, hi, lo];
    ShortPacketReads(r, payload, tail);
  }

  /** Types 2, 3 and 4 send it along: IPv4, IPv6, or a name with a two-byte length. */
  lemma FullPacketBytes(w: Option<Address>, a: Address, payload: seq<byte>, hi: byte, lo: byte)
    requires w != Some(a) && |payload| == Number(hi, lo)
    ensures var port := Put16(a.port);
      WritePacket(w, Packet(payload, a)).0 ==
      match a
      case IP(V4(o), _) => Ok([2, hi, lo] + (o + port) + payload)
      case IP(V6(o), _) => Ok([3, hi, lo] + (o + port) + payload)
      case Name(host, _) =>
        if |host| <= 0xFFFF then Ok([4, hi, lo] + (Put16(|host|) + host + port) + payload) else Err
  {
    NumberBytes(hi, lo);
    assert forall k: byte :: [k] + [hi, lo] == [k, hi, lo];
  }

  /** A packet is read exactly if its bytes are all there, an address that was left out is
      remembered, and a name is text; no longer payload is written. */
  lemma OtherPackets(r: Option<Address>, d: seq<byte>, w: Option<Address>, p: Packet)
    ensures ReadPacket(r, d).Ok? <==>
            && |d| >= 3
            && var len := Number(d[1], d[2]);
            || (d[0] == 1 && r.Some? && |d| >= 3 + len)
            || (d[0] == 2 && |d| >= 9 + len)
            || (d[0] == 3 && |d| >= 21 + len)
            || (d[0] == 4 && |d| >= 5 && NameFits(d, Number(d[3], d[4]), len))
    ensures |p.payload| > 0xFFFF ==> WritePacket(w, p) == (Err, w)
  {
    if |d| >= 5 && d[0] == 4 {
      var n: nat := Number(d[3], d[4]);
      assert Get16(d[3..]) == n;
      if |d| >= 7 + n {
        assert d[3..][2..n + 2] == d[5..5 + n];
      }
    }
  }

  predicate NameFits(d: seq<byte>, n: nat, len: nat) {
    |d| >= 7 + n + len && IsUtf8(d[5..5 + n])
  }

  // ---- udpman messages -------------------------------------------------------------------

  function Octets(ip: IpAddr): seq<byte> {
    match ip case V4(o) => o case V6(o) => o
  }


  /** Type 0: IPv6 is bit 0, a nonce bit 1; UUID, destination, nonce, data. */
  lemma ConnectBytes(uuid: seq<byte>, data: seq<byte>, nonce: Option<u16>, dst: SocketAddr)
    requires |uuid| <= 255
    ensures Written(Connect(uuid, data, nonce, dst)) ==
            [(if dst.ip.V6? then 1 else 0) + (if nonce.Some? then 2 else 0), |uuid| as byte] + uuid +
            Octets(dst.ip) + Put16(dst.port) + (if nonce.Some? then Put16(nonce.value) else []) + data
  {
    var m := Connect(uuid, data, nonce, dst);
    Flat(FlagByte(FlagsOf(m)), uuid, Octets(dst.ip), Put16(dst.port), OptBytes(nonce), data);
  }

  /** Type 1: a reply is bit 0, its IPv6 address bit 1; UUID, id, address and data. */
  lemma EstablishBytes(uuid: seq<byte>, id: u16, data: seq<byte>, from: SocketAddr)
    requires |uuid| <= 255
    ensures Written(Establish(uuid, id, None)) == [32, |uuid| as byte] + uuid + Put16(id)
    ensures Written(Establish(uuid, id, Some((data, from)))) ==
            [if from.ip.V6? then 35 else 33, |uuid| as byte] + uuid + Put16(id) +
            Octets(from.ip) + Put16(from.port) + data
  {
    var m := Establish(uuid, id, Some((data, from)));
    assert Written(Establish(uuid, id, None)) == [32] + (([|uuid| as byte] + uuid) + (Put16(id) + []));
    Flat(FlagByte(FlagsOf(m)), uuid, Put16(id), Octets(from.ip), Put16(from.port), data);
  }

  lemma Flat(flag: byte, u: seq<byte>, a: seq<byte>, b: seq<byte>, c: seq<byte>, d: seq<byte>)
    requires |u| <= 255
    ensures [flag] + (([|u| as byte] + u) + ((a + b) + (c + d))) == [flag, |u| as byte] + u + a + b + c + d
    ensures [flag] + (([|u| as byte] + u) + (a + ((b + c) + d))) == [flag, |u| as byte] + u + a + b + c + d
  {
  }

  /** Type 2: id, address, IPv6 and nonce are bits 0 to 3, and come in this order. */
  lemma DataBytes(id: Option<u16>, addr: Option<SocketAddr>, payload: seq<byte>, nonce: Option<u16>)
    ensures Written(Data(id, addr, payload, nonce)) ==
            [64 + (if id.Some? then 1 else 0) + (if addr.Some? then 2 else 0) +
             (if addr.Some? && addr.value.ip.V6? then 4 else 0) + (if nonce.Some? then 8 else 0)] +
            (if id.Some? then Put16(id.value) else []) +
            (if addr.Some? then Octets(addr.value.ip) + Put16(addr.value.port) else []) +
            (if nonce.Some? then Put16(nonce.value) else []) + payload
  {
    var m := Data(id, addr, payload, nonce);
    FlatData(FlagByte(FlagsOf(m)), OptBytes(id), OptAddrBytes(addr), OptBytes(nonce), payload);
  }

  lemma FlatData(flag: byte, a: seq<byte>, b: seq<byte>, c: seq<byte>, d: seq<byte>)
    ensures [flag] + (a + (b + (c + d))) == [flag] + a + b + c + d
  {
  }

  /** Any other type in the top three bits, or no byte at all, is no message. */
  lemma OtherMessages(b: seq<byte>)
    ensures b == [] || b[0] >= 96 ==> Parsed(b).Err?
  {
  }
}
