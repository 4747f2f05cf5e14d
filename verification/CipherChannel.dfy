/** Setting up the two ends of a tcpman cipher stream: the client sends its parameters in
    the request path and its first bytes, already encrypted, in a header. */
module CipherChannel {
  import opened Bytes
  import opened Keystreams
  import opened CipherSuite
  import opened CipherParameters
  import opened CipherStreams
  import opened Sessions
  import opened Io

  const CHACHA20: byte := 1
  const KEY_LEN := 32
  const IV_LEN := 12

  /** ChaCha20 (section 2.4 of RFC 8439): key and nonce give a keystream. */
  type ChaCha20 = (seq<byte>, seq<byte>) -> Keystream

  /** create_cipher: only cipher type 1 exists, with fixed key and nonce lengths. */
  predicate CanCreate(cipherType: byte, key: seq<byte>, iv: seq<byte>) {
    cipherType == CHACHA20 && |key| == KEY_LEN && |iv| == IV_LEN
  }

  /** `isize` holds the limit; on a larger one PartialStreamCipher panics. */
  predicate Wrappable(s: EncryptionStrategy) {
    s.FirstN? ==> s.n <= ISIZE_MAX
  }

  // ---- what the server makes of a request --------------------------------------------

  datatype Answer =
    | NotFound
    | InvalidType
    | Panicked
    | BadHeader
    | Accept(params: CipherParams, initial: Option<seq<byte>>)

  function Answering(chacha: ChaCha20, b64: Base64, path: string, header: Option<string>): Answer {
    match ParseParams(b64, path)
    case Err => NotFound
    case Ok(p) =>
      if !CanCreate(p.cipherType, p.key, p.iv) then InvalidType
      else if !Wrappable(p.sendStrategy) || !Wrappable(p.recvStrategy) then Panicked
      else if header.None? then Accept(p, None)
      else
        match b64.decode(header.value)
        case None => BadHeader
        case Some(data) =>
          Accept(p, Some(Mask(p.sendStrategy.Masks(chacha(p.key, p.iv)), 0, data)))
  }

  /** Which answer is given when: key, nonce and type are checked first, then the limits, then
      the header. */
  lemma AnsweringExact(chacha: ChaCha20, b64: Base64, path: string, header: Option<string>)
    ensures var parsed, answer := ParseParams(b64, path), Answering(chacha, b64, path, header);
      && (answer == NotFound <==> parsed.Err?)
      && (parsed.Ok? ==>
            var p := parsed.value;
            var known := p.cipherType == 1 && |p.key| == 32 && |p.iv| == 12;
            var long := (p.sendStrategy.FirstN? && p.sendStrategy.n >= 0x8000_0000_0000_0000)
                     || (p.recvStrategy.FirstN? && p.recvStrategy.n >= 0x8000_0000_0000_0000);
            var bad := header.Some? && b64.decode(header.value).None?;
            && (answer == InvalidType <==> !known)
            && (answer == Panicked <==> known && long)
            && (answer == BadHeader <==> known && !long && bad)
            && (answer.Accept? <==> known && !long && !bad)
            && (answer.Accept? ==> answer.params == p && answer.initial.Some? == header.Some?))
  {
  }

  // ---- the two ends ------------------------------------------------------------------

  /** Runs a fresh cipher over `data` in place, as both ends do with the initial data. */
  method ProcessInitial(s: EncryptionStrategy, ks: Keystream, data: array<byte>)
    returns (c: StrategyCipher)
    requires s.Valid() && Wrappable(s)
    modifies data
    ensures c.Tracks(s, ks, data.Length) && fresh(c.Objects())
    ensures data[..] == Mask(s.Masks(ks), 0, old(data[..]))
  {
    var cipher := new SeekableCipher(ks);
    c := WrapCipher(s, cipher);
    assert data[..data.Length] == data[..];
    if data.Length > 0 {
      c.ApplyKeystream(data, data.Length, s, ks, 0);
      assert data[..data.Length] == data[..];
    }
  }

  /** Encrypts the initial data in place and leaves the write cipher behind it. The random
      key and nonce are parameters, the HTTP exchange itself is not part of this model. */
  method Connect(chacha: ChaCha20, b64: Base64, key: seq<byte>, iv: seq<byte>,
                 send: EncryptionStrategy, recv: EncryptionStrategy,
                 initialData: array<byte>, r: Reader, w: Writer)
    returns (path: string, header: string, stream: CipherStream)
    requires |key| == KEY_LEN && |iv| == IV_LEN
    requires send.Valid() && recv.Valid() && Wrappable(send) && Wrappable(recv)
    modifies initialData
    ensures path == ParamsText(b64, CipherParams(key, iv, send, recv, CHACHA20))
    ensures header == b64.encode(Mask(send.Masks(chacha(key, iv)), 0, old(initialData[..])))
    ensures stream.Valid() && stream.r == r && stream.w == w && fresh(stream.Repr - {r, w})
    ensures stream.View() == WriteView(w.wire, initialData.Length, None) && stream.rdPosition == 0
    ensures stream.wrStrategy == send && stream.wrKs == chacha(key, iv)
    ensures stream.rdStrategy == recv && stream.rdKs == chacha(key, iv)
  {
    stream := ConnectCiphers(chacha(key, iv), send, recv, initialData, r, w);
    path := ParamsText(b64, CipherParams(key, iv, send, recv, CHACHA20));
    header := b64.encode(initialData[..]);
  }

  /** The ciphers of connect: `initialData` is encrypted in place. */
  method ConnectCiphers(ks: Keystream, send: EncryptionStrategy, recv: EncryptionStrategy,
                        initialData: array<byte>, r: Reader, w: Writer)
    returns (s: CipherStream)
    requires send.Valid() && recv.Valid() && Wrappable(send) && Wrappable(recv)
    modifies initialData
    ensures initialData[..] == Mask(send.Masks(ks), 0, old(initialData[..]))
    ensures s.Valid() && s.r == r && s.w == w && fresh(s.Repr - {r, w})
    ensures s.View() == WriteView(w.wire, initialData.Length, None) && s.rdPosition == 0
    ensures s.wrStrategy == send && s.rdStrategy == recv && s.wrKs == ks && s.rdKs == ks
  {
    var wrCipher := ProcessInitial(send, ks, initialData);
    var cipher := new SeekableCipher(ks);
    var rdCipher := WrapCipher(recv, cipher);
    s := new CipherStream(r, w, rdCipher, wrCipher, recv, ks, 0, send, ks, initialData.Length);
  }

  /** check_request and accept_client: the client's send strategy is the server's read
      strategy and the other way round. */
  method AcceptClient(chacha: ChaCha20, b64: Base64, path: string, header: Option<string>,
                      r: Reader, w: Writer)
    returns (answer: Answer, stream: Option<CipherStream>)
    ensures answer == Answering(chacha, b64, path, header)
    ensures stream.Some? <==> answer.Accept?
    ensures answer.Accept? ==>
              var p, s := answer.params, stream.value;
              && s.Valid() && s.r == r && s.w == w && fresh(s.Repr - {r, w})
              && s.View() == WriteView(w.wire, 0, None)
              && s.rdPosition == (if answer.initial.Some? then |answer.initial.value| else 0)
              && s.rdStrategy == p.sendStrategy && s.wrStrategy == p.recvStrategy
              && s.rdKs == s.wrKs == chacha(p.key, p.iv)
  {
    var parsed := ParseParams(b64, path);
    if parsed.Err? {
      return NotFound, None;
    }
    var p := parsed.value;
    if !CanCreate(p.cipherType, p.key, p.iv) {
      return InvalidType, None;
    }
    if !Wrappable(p.sendStrategy) || !Wrappable(p.recvStrategy) {
      return Panicked, None;
    }
    var encrypted := [];
    if header.Some? {
      var decoded := b64.decode(header.value);
      if decoded.None? {
        return BadHeader, None;
      }
      encrypted := decoded.value;
    }
    var data := new byte[|encrypted|](i requires 0 <= i < |encrypted| => encrypted[i]);
    assert data[..] == encrypted;
    var s := AcceptCiphers(p, chacha(p.key, p.iv), data, r, w);
    answer := Accept(p, if header.Some? then Some(data[..]) else None);
    stream := Some(s);
  }

  /** The ciphers of accept_client: `data` is decrypted in place. */
  method AcceptCiphers(p: CipherParams, ks: Keystream, data: array<byte>, r: Reader, w: Writer)
    returns (s: CipherStream)
    requires p.sendStrategy.Valid() && p.recvStrategy.Valid()
    requires Wrappable(p.sendStrategy) && Wrappable(p.recvStrategy)
    modifies data
    ensures data[..] == Mask(p.sendStrategy.Masks(ks), 0, old(data[..]))
    ensures s.Valid() && s.r == r && s.w == w && fresh(s.Repr - {r, w})
    ensures s.View() == WriteView(w.wire, 0, None) && s.rdPosition == data.Length
    ensures s.rdStrategy == p.sendStrategy && s.wrStrategy == p.recvStrategy
    ensures s.rdKs == ks && s.wrKs == ks
  {
    var rdCipher := ProcessInitial(p.sendStrategy, ks, data);
    var cipher := new SeekableCipher(ks);
    var wrCipher := WrapCipher(p.recvStrategy, cipher);
    s := new CipherStream(r, w, rdCipher, wrCipher, p.sendStrategy, ks, data.Length, p.recvStrategy, ks, 0);
  }

  /** Whatever a client's request can express, the server accepts it with the client's
      parameters and recovers the initial data, exactly unless a limit does not fit `isize`;
      then it panics. */
  lemma HandshakeAgrees(chacha: ChaCha20, b64: Base64, p: CipherParams, first: seq<byte>)
    requires b64.Lawful() && CanCreate(p.cipherType, p.key, p.iv)
    requires Expressible(p.sendStrategy) && Expressible(p.recvStrategy)
    ensures var header := b64.encode(Mask(p.sendStrategy.Masks(chacha(p.key, p.iv)), 0, first));
      Answering(chacha, b64, ParamsText(b64, p), Some(header)) ==
      if Wrappable(p.sendStrategy) && Wrappable(p.recvStrategy) then Accept(p, Some(first))
      else Panicked
  {
    ParamsRoundTrip(b64, p);
    MaskInvolutive(p.sendStrategy.Masks(chacha(p.key, p.iv)), 0, first);
  }

  /** A request for one byte more than the largest `isize` to be encrypted reaches the panic,
      whatever the header is. */
  lemma LongLimitPanics(chacha: ChaCha20, b64: Base64, key: seq<byte>, iv: seq<byte>,
                        header: Option<string>)
    requires b64.Lawful() && |key| == KEY_LEN && |iv| == IV_LEN
    ensures var p := CipherParams(key, iv, FirstN(ISIZE_MAX + 1), Always, CHACHA20);
      Answering(chacha, b64, ParamsText(b64, p), header) == Panicked
  {
    ParamsRoundTrip(b64, CipherParams(key, iv, FirstN(ISIZE_MAX + 1), Always, CHACHA20));
  }

  lemma PrefixJoins(first: seq<byte>, got: seq<byte>, told: seq<byte>)
    requires got <= told
    ensures first + got <= first + told
  {
  }

  /** End to end, for every strategy, any mix of plain and orderly vectored writes and any
      chunking: what the server read from the header and then from the stream is a prefix of
      the client's initial data and what it sent after it, and all of it once the wire is
      drained; the same holds from server to client. */
  lemma EndToEnd(chacha: ChaCha20, b64: Base64, p: CipherParams, first: seq<byte>,
                 cCalls: seq<Call>, cv: WriteView, sReads: seq<ReadCall>,
                 sCalls: seq<Call>, sv: WriteView, cReads: seq<ReadCall>)
    requires b64.Lawful() && CanCreate(p.cipherType, p.key, p.iv)
    requires p.sendStrategy.Valid() && p.recvStrategy.Valid()
    requires Wrappable(p.sendStrategy) && Wrappable(p.recvStrategy)
    requires Carries(p.sendStrategy, chacha(p.key, p.iv), |first|, cCalls, cv, sReads)
    requires Carries(p.recvStrategy, chacha(p.key, p.iv), 0, sCalls, sv, cReads)
    ensures var header := b64.encode(Mask(p.sendStrategy.Masks(chacha(p.key, p.iv)), 0, first));
      var answer := Answering(chacha, b64, ParamsText(b64, p), Some(header));
      && answer.Accept? && answer.params == p && answer.initial.Some?
      && var received, sent := answer.initial.value + Delivered(sReads), first + AllTold(cCalls);
         received <= sent && (Consumed(sReads) == cv.wire ==> received == sent)
    ensures Delivered(cReads) <= AllTold(sCalls)
    ensures Consumed(cReads) == sv.wire ==> Delivered(cReads) == AllTold(sCalls)
  {
    var ks := chacha(p.key, p.iv);
    HandshakeAgrees(chacha, b64, p, first);
    StreamDelivers(p.sendStrategy, ks, |first|, cCalls, cv, sReads);
    PrefixJoins(first, Delivered(sReads), AllTold(cCalls));
    StreamDelivers(p.recvStrategy, ks, 0, sCalls, sv, cReads);
  }
}
