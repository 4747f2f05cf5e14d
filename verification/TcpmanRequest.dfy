/** The request a tcpman client sends inside the cipher stream: kind, destination and the
    first bytes of data. */
module TcpmanRequest {
  import opened Bytes
  import opened Io
  import opened SocksAddress

  datatype Kind = TCP | UDP

  datatype Request = Request(kind: Kind, dst: Address, initialData: seq<byte>)

  function KindByte(k: Kind): byte {
    match k case TCP => 0 case UDP => 1
  }

  function Parsed(lit: IpLiteral, buf: seq<byte>): Result<Request> {
    if buf == [] || buf[0] > 1 then Err
    else
      match AddressAt(lit, buf[1..])
      case Complete(k, dst) =>
        Ok(Request(if buf[0] == 0 then TCP else UDP, dst, buf[1 + k..]))
      case _ => Err
  }

  method Parse(lit: IpLiteral, input: seq<byte>) returns (r: Result<Request>)
    ensures r == Parsed(lit, input)
  {
    var buf := input;
    if |buf| < 1 {
      return Err;
    }
    var t := buf[0];
    buf := buf[1..];
    if t > 1 {
      return Err;
    }
    var kind := if t == 0 then TCP else UDP;
    var address := ParseAddress(lit, buf);
    if !address.Complete? {
      return Err;
    }
    buf := buf[address.offset..];
    assert buf == input[1 + address.offset..];
    r := Ok(Request(kind, address.value, buf));
  }

  /** The source unwraps the address writer, so a longer name would panic. */
  method ToVec(r: Request) returns (v: seq<byte>)
    requires Encoded(r.dst).Ok?
    ensures v == [if r.kind == TCP then 0 else 1] + Encoded(r.dst).value + r.initialData
    ensures |v| == 1 + WriteLen(r.dst) + |r.initialData|
  {
    var buf := new Output();
    buf.Put8(KindByte(r.kind));
    var ok := WriteTo(r.dst, buf);
    buf.PutAll(r.initialData);
    v := buf.bytes;
  }

  /** Everything else is refused. */
  lemma OtherRequests(lit: IpLiteral, b: seq<byte>)
    ensures Parsed(lit, b).Err? <==>
            b == [] || (b[0] != 0 && b[0] != 1) || !AddressAt(lit, b[1..]).Complete?
  {
  }

  /** Parsing undoes printing exactly if the destination is not a name that spells an IP
      address; one that does comes back as that IP address. */
  lemma RequestRoundTripExact(lit: IpLiteral, r: Request)
    requires r.dst.Valid() && Encoded(r.dst).Ok?
    ensures var v := [if r.kind == TCP then 0 else 1] + Encoded(r.dst).value + r.initialData;
      && (Parsed(lit, v) == Ok(r) <==> !IsLiteral(lit, r.dst))
      && (IsLiteral(lit, r.dst) ==>
            Parsed(lit, v) == Ok(r.(dst := IP(lit(r.dst.host).value, r.dst.port))))
  {
    var v := [KindByte(r.kind)] + Encoded(r.dst).value + r.initialData;
    assert v[1..] == Encoded(r.dst).value + r.initialData;
    AddressRoundTripExact(lit, r.dst, r.initialData);
    assert v[1 + WriteLen(r.dst)..] == r.initialData;
  }
}
