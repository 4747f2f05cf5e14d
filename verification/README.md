# Verified model of the cpxy protocol cores

cpxy is a proxy. This project models the stateful parts of it that have to behave the same
however the network cuts, delays and refuses bytes, and proves what they are for. Verify with
`dafny verify dfyconfig.toml`.

What is modelled, one file a component:

- **Keystreams** (`Bytes`, `Keystreams`, `CipherSuite`): ChaCha20 is an arbitrary keystream, a
  mask byte for every position, with a mutable position; XOR is defined on bits. On top of it
  stand the cipher that stops after N bytes and the encryption strategies.
- **tcpman cipher stream** (`Io`, `CipherStreams`, `LateBytes`, `VectoredOrder`, `Sessions`,
  `CipherParameters`, `CipherChannel`): writes encrypt a copy, offer it to a writer that may
  take all, some or none of it, and rewind. A view of one stream (wire, position, last written
  size) and a step relation say what one poll does, the class is proved to take exactly these
  steps, a vectored write to be a certain run of them, and the theorems are about every run
  and about both ends together.
- **firetcp stream** (`FireTcp`, `FireTcpRuns`, `FireTcpLate`): two ciphers one after the
  other, counted by each end alone.
- **Packet framing** (`PacketStream`): UDP packets over a stream with remembered addresses.
- **udpman** (`UdpmanMessage`, `UdpmanServer`): the bit-flag codec, the sorted connection
  table, the id allocator, and the server's steps in every interleaving.
- **Handshake** (`RWBuffers`, `Utf8`, `SocksAddress`, `Socks`, `Handshake`,
  `HandshakeAnswers`): the growing buffer, the SOCKS parsers, the detection loop that races
  them, and what a client that sends certain bytes is answered.
- **tcpman request** (`TcpmanRequest`) and **rule tables** (`RuleTables`): the interpreter of
  possibly cyclic tables with its level cap.
- **Formats** (`WireFormats`): what a writer and its reader share, with every number written
  out.

Writers and readers are nondeterministic: a poll may be pending, fail, or take any count the
interface allows. They keep a ghost log of what they were offered or asked and what they
answered, and the streams are proved to make exactly the polls they should and to pass the
answers on. What the model cannot see enters as a parameter: the keystream of a key and
nonce, base64 (with the two laws of section 5 of RFC 4648 that are used), the parser of IP
address literals, the HTTP request parser (incremental, and rejecting first bytes 4 and 5),
what the HTTP request path means, which rule patterns match a packet, and what a channel
answers when a payload is offered.

## Where the code does not do what one would expect

The code is modelled as it is. Where a natural property is false, the project proves exactly
when it holds.

- After a failed `poll_write` the tcpman cipher is not rewound (src/protocol/tcpman/cipher/stream.rs:97). Everything
  accepted arrives, under every keystream, exactly if no byte was accepted after a failed poll
  that had data on offer to be encrypted (`LateBytes.AllArrivesExact`); a single byte arrives
  exactly if it was not accepted after such a poll, or lies where nothing is encrypted any more
  (`LateBytes.ByteArrivesExact`). `LateBytes.FailedPollLosesPosition` is the smallest example.
- A firetcp write that is pending leaves without rewinding (src/protocol/firetcp/cipher/write.rs:77 and 99). A byte
  arrives, whatever the ciphers, exactly if no poll of the same phase cost keystream before it
  (`FireTcpLate.ByteArrivesExact`); the change-over makes up for the first phase
  (`FireTcpLate.SecondPhaseArrives`). `FireTcpRuns.PendingPollDrifts` is the smallest example.
- A firetcp reader whose first phase has no bytes answers its first read with 0, as at the end
  of the input, whatever is there to read; with any other first phase 0 means the end
  (`CipherRead.PollRead`).
- A vectored write goes on to the next slice after a short write of one, and the stream cuts
  slices itself: it offers at most the larger of 512 and what the last write took (4096 on a
  new stream). What goes out is a front part of the joined slices, for every content, exactly
  if nothing was taken after a slice that was cut short (`VectoredPrefixExact`). So even to a
  writer that takes everything it is offered, slices go out in order exactly if every one that
  starts encrypted and has bytes after it fits that offer (`GenerousPrefixExact`); 100, 600
  and 50 bytes do not (`LongSliceIsCut`).
- `PacketWriter` remembers an address before it finds its name too long, so the same packet
  written again goes out without an address. Reading gives back what was accepted exactly if
  no such name is offered again while it is remembered (`StreamRoundTripExact`,
  `LongNameTwice`). `create_udp_sink` gives up its writer after the first write that fails
  (src/protocol/tcpman/dgram.rs:36-40), so this concerns direct users of `PacketWriter`.
- A name that spells an IP address comes back from `Address::parse` as that address, but as a
  name from `Address::parse_async` and from SOCKS4a (`AddressRoundTripExact`).
- A buffer of length 0 or 1 never grows, so a full one makes a read look like the end of the
  input (`RWBuffer.WriteBuf`); every caller starts with at least 8 bytes.
- Jumps nested deeper than ten lose the verdict, and only they do (`EvaluatorRightExact`).
- A FirstN limit above the largest `isize` makes the server panic when it sets up its ciphers:
  of all requests a client can express, exactly these are not accepted (`HandshakeAgrees`,
  `LongLimitPanics`).

## Model

| member | source | states |
|---|---|---|
| CipherSuite.SeekableCipher.Rewind | src/protocol/tcpman/cipher/suite.rs:16-18 | rewinding subtracts from the position and must not go below zero |
| CipherSuite.PartialRewindExact | src/protocol/tcpman/cipher/partial.rs:16-46 | a rewind after an application equals applying only the kept bytes exactly if bytes were left to encrypt (or nothing is rewound), wherever the limit falls |
| CipherSuite.PartialStreamCipher.ApplyKeystream | src/protocol/tcpman/cipher/partial.rs:34-46 | in place, the bytes below the limit are masked and the others kept; inner position = limit - max(n, 0) is kept |
| CipherSuite.PartialStreamCipher.Rewind | src/protocol/tcpman/cipher/partial.rs:16-22 | the count goes back and the inner cipher with it, never below zero |
| CipherSuite.StrategyCipher.ApplyKeystream | src/protocol/tcpman/cipher/strategy.rs:79-90 | every strategy masks data as its keystream says and stands where the stream stands |
| CipherSuite.StrategyCipher.Rewind | src/protocol/tcpman/cipher/strategy.rs:101-107 | the stream position goes back by the count, for every strategy |
| CipherSuite.TrackedCipher | src/protocol/tcpman/cipher/strategy.rs:93-99 | a cipher that follows its stream modifies data exactly while its position is covered, and its inner position is min(position, limit) |
| CipherSuite.WrapCipher | src/protocol/tcpman/cipher/strategy.rs:41-52 | a fresh cipher behind a strategy follows that strategy from position 0 |
| Keystreams.MaskInvolutive | src/protocol/tcpman/cipher/suite.rs:5-19 | masking twice at the same position gives the data back |
| Keystreams.MaskConcat | src/protocol/tcpman/cipher/suite.rs:5-19 | masking in two pieces is masking in one |
| CipherStreams.CipherStream.constructor | src/protocol/tcpman/cipher/stream.rs:24-36 | a new stream stands where its two ciphers stand |
| CipherStreams.CipherStream.PollRead | src/protocol/tcpman/cipher/stream.rs:41-70 | every answered read is one step of the read relation, the transport is polled once with the whole buffer, and its answer passed on; the chunk is delivered masked in place and nothing else of the buffer changes |
| CipherStreams.CipherStream.PollWriteEncrypted | src/protocol/tcpman/cipher/stream.rs:83-119 | one encrypted poll offers the masked front of the buffer once and passes the answer on: pending changes nothing, a short write puts exactly the taken bytes on the wire and keeps the position with them, a failure moves the position on |
| CipherStreams.CipherStream.SettleWrite | src/protocol/tcpman/cipher/stream.rs:90-117 | after a poll the cipher stands behind what was taken, except after a failure |
| CipherStreams.CipherStream.PollWrite | src/protocol/tcpman/cipher/stream.rs:76-134 | every write, also after the cipher is dropped, is one step of the step relation and one poll of the writer with exactly these bytes, whose answer is the result |
| CipherStreams.StepRemembers | src/protocol/tcpman/cipher/stream.rs:90-117 | a pending poll leaves everything as it was; only a count on encrypted data is remembered as the last written size |
| CipherStreams.CipherStream.PollWriteSlices | src/protocol/tcpman/cipher/stream.rs:143-157 | the loop is one poll for each slice, each an ordinary write with its bound on what is offered, logged by the writer, until a poll has no count or nothing is left to encrypt; the answer is the sum of the counts |
| CipherStreams.CipherStream.PollWriteVectored | src/protocol/tcpman/cipher/stream.rs:136-172 | exactly which polls of the writer a vectored write consists of, the switch to one plain poll for all slices left, and the answer they add up to |
| CipherStreams.VectoredRunIsRun | src/protocol/tcpman/cipher/stream.rs:136-172 | a vectored write is a run of ordinary polls; a count it returns is what went out, a pending one took nothing, and a failure is told exactly if a poll failed |
| CipherStreams.WriteRunMasks | src/protocol/tcpman/cipher/stream.rs:76-134 | over every run of pending, short, full and failed polls the position keeps to the accepted plaintext exactly if every poll was harmless, and then the wire is exactly the accepted plaintext, masked |
| LateBytes.AllArrivesExact | src/protocol/tcpman/cipher/stream.rs:84-117 | over every run of polls everything accepted goes out right under every keystream exactly if no byte was accepted after the first poll that was not harmless |
| LateBytes.ByteArrivesExact | src/protocol/tcpman/cipher/stream.rs:84-117 | in every run a single accepted byte is recovered under every keystream exactly if it was not accepted after such a poll or lies beyond the encrypted part |
| LateBytes.FailedPollLosesPosition | src/protocol/tcpman/cipher/stream.rs:97 | a byte whose write failed and is tried again is delivered as it was exactly if two keystream bytes are equal |
| CipherStreams.ReadRunMasks | src/protocol/tcpman/cipher/stream.rs:41-70 | reading in any chunks delivers the whole input masked |
| Sessions.CallIsRun | src/protocol/tcpman/cipher/stream.rs:76-172 | a plain or vectored call is a run of polls, and an orderly one tells its caller what went out |
| Sessions.SessionIsRun | src/protocol/tcpman/cipher/stream.rs:76-172 | over every mix of plain and orderly vectored calls the callers are told exactly what went out, in order |
| Sessions.StreamDelivers | src/protocol/tcpman/cipher/stream.rs:38-172 | what one end reads is at every moment a prefix of what callers at the other end were told went out, and all of it once the wire is drained, for any mix of calls and any chunking on both sides |
| VectoredOrder.VectoredPrefixExact | src/protocol/tcpman/cipher/stream.rs:136-172 | whatever the writer answers, what goes out is a front part of the joined slices, for every content, exactly if nothing was taken after a slice cut short |
| VectoredOrder.InOrderIsPrefix | src/protocol/tcpman/cipher/stream.rs:143-157 | slices taken whole up to one cut short give a front part |
| VectoredOrder.OutOfOrder | src/protocol/tcpman/cipher/stream.rs:143-157 | for every broken order there are slices and a run of polls that send them wrongly |
| VectoredOrder.GenerousPrefixExact | src/protocol/tcpman/cipher/stream.rs:84-88 | with a writer that takes all it is offered the order is kept exactly if every slice that starts encrypted and has bytes after it fits its offer |
| VectoredOrder.FitsExact | src/protocol/tcpman/cipher/stream.rs:84-85 | a slice fits exactly if it is no longer than 512 or the slice before it, for the first one 512 or what the last write took, 4096 if there was none |
| VectoredOrder.LongSliceIsCut | src/protocol/tcpman/cipher/stream.rs:84-88 | of slices of 100, 600 and 50 bytes on a new stream the second loses its last 88 bytes before the third goes out |
| CipherParameters.DecimalRoundTrip | src/protocol/tcpman/cipher/strategy.rs:55-63 | printing and parsing a count gives it back |
| CipherParameters.StrategyRoundTrip | src/protocol/tcpman/cipher/strategy.rs:15-71 | a printed strategy parses to itself and has no slash in it |
| CipherParameters.StrategyExact | src/protocol/tcpman/cipher/strategy.rs:55-71 | exactly "a" and "n" mean always and never, and exactly the positive counts of 64 bits the first bytes |
| CipherParameters.UnsignedExact | src/protocol/tcpman/cipher/strategy.rs:58-63 | exactly digits, or digits behind a plus sign, that do not overflow are a count |
| CipherParameters.SplitPath | src/protocol/tcpman/cipher/client.rs:42-55 | splitting a path of slash-free segments gives the segments |
| CipherParameters.ParamsRoundTrip | src/protocol/tcpman/cipher/client.rs:26-56 | printed parameters parse to themselves |
| CipherParameters.PathText | src/protocol/tcpman/cipher/client.rs:26-36 | the path is key, nonce, send strategy, receive strategy and type, in this order |
| CipherParameters.PathExtras | src/protocol/tcpman/cipher/client.rs:42-55 | what stands before the first slash and after the fifth segment is ignored |
| CipherParameters.ShortPath | src/protocol/tcpman/cipher/client.rs:42-55 | fewer than five segments are no parameters |
| CipherChannel.Connect | src/protocol/tcpman/cipher/client.rs:68-108 | the path carries the parameters, the header the initial data encrypted in place, and the write cipher stands behind it while the read cipher stands at 0 |
| CipherChannel.AcceptClient | src/protocol/tcpman/cipher/server.rs:92-124 | the server answers as specified for every path and header, with the client's strategies swapped and its read cipher behind the decrypted header |
| CipherChannel.AnsweringExact | src/protocol/tcpman/cipher/server.rs:15-47 | which answer is given exactly when, in the order path, key and type, limits, header |
| CipherChannel.ProcessInitial | src/protocol/tcpman/cipher/client.rs:79-81 | initial data is masked from position 0 in place and the cipher stands behind it |
| CipherChannel.HandshakeAgrees | src/protocol/tcpman/cipher/server.rs:15-47 | a request for any strategies that can be expressed is accepted with the same parameters and the initial data recovered, exactly unless a limit does not fit `isize` |
| CipherChannel.LongLimitPanics | src/protocol/tcpman/cipher/partial.rs:26-31 | a limit one above the largest `isize` makes the server panic, whatever the header |
| CipherChannel.EndToEnd | src/protocol/tcpman/cipher/server.rs:92-124 | for every strategy, any mix of calls and any chunking the server's initial data followed by what it reads is a prefix of the client's initial data followed by what it sent, and all of it once the wire is drained; likewise from server to client |
| FireTcp.CipherWrite.constructor | src/protocol/firetcp/cipher/write.rs:33-43 | a new writer has its whole first phase ahead |
| FireTcp.CipherWrite.SetEstablishCipher | src/protocol/firetcp/cipher/write.rs:45-54 | a cipher can be chosen exactly before the change-over, and is remembered with its position |
| FireTcp.CipherWrite.OfferEncrypted | src/protocol/firetcp/cipher/write.rs:72-80 | the whole count is offered once, masked; the taken bytes are on the wire and the cipher behind them; when not ready the cipher has moved on by all that was offered |
| FireTcp.CipherWrite.PollWriteInit | src/protocol/firetcp/cipher/write.rs:71-90 | the first phase takes no byte too many, changes over exactly at its end, and the scratch buffer is never overrun |
| FireTcp.CipherWrite.PollWrite | src/protocol/firetcp/cipher/write.rs:60-108 | every poll is one step of the writer's step relation and one poll of the transport with all that the phase and the scratch buffer leave room for, whose answer is passed on |
| FireTcp.CipherRead.PollRead | src/protocol/firetcp/cipher/read.rs:54-89 | every answered read is one step of the reader's step relation, decrypted in place; the transport is polled once with all the room that the buffer has and the first phase needs, its answer is passed on, and 0 means the end of the input unless the first phase has no bytes |
| FireTcp.CipherRead.PassInit | src/protocol/firetcp/cipher/read.rs:64-76 | the first phase is decrypted with the first cipher and changes over at its end |
| FireTcp.CipherRead.SetEstablishCipher | src/protocol/firetcp/cipher/read.rs:41-50 | a cipher can be chosen exactly before the change-over |
| FireTcpLate.ByteArrivesExact | src/protocol/firetcp/cipher/write.rs:60-108 | in every run an accepted byte is recovered, whatever the ciphers, exactly if no poll of the same phase cost keystream before it |
| FireTcpLate.AllArrivesExact | src/protocol/firetcp/cipher/write.rs:60-108 | everything accepted is recovered, whatever the ciphers, exactly if no byte was accepted after a poll of the same phase that cost keystream |
| FireTcpLate.SecondPhaseArrives | src/protocol/firetcp/cipher/write.rs:81-87 | bytes after the change-over are recovered whatever polls of the first phase cost |
| FireTcpRuns.DriftIsHarm | src/protocol/firetcp/cipher/write.rs:60-108 | the writer is out of step exactly if a poll of the phase cost keystream, which shows in the calls and answers alone |
| FireTcpRuns.NeverDriftsExact | src/protocol/firetcp/cipher/write.rs:60-108 | over every run the writer is never out of step exactly if no poll cost keystream |
| FireTcpRuns.PendingPollDrifts | src/protocol/firetcp/cipher/write.rs:77 | a byte whose write was pending and is tried again is delivered as it was exactly if two keystream bytes are equal |
| FireTcpRuns.WriteRunMasks | src/protocol/firetcp/cipher/write.rs:60-108 | over every run with nothing accepted after a costly poll of its phase the wire is the accepted plaintext under one two-phase keystream |
| FireTcpRuns.ReadRunMasks | src/protocol/firetcp/cipher/read.rs:54-89 | any chunks deliver the input under one two-phase keystream |
| FireTcpRuns.PairDelivers | src/protocol/firetcp/cipher/read.rs:54-89 | if the ciphers set last before the end of the first phase agree, the reader holds a prefix of the accepted plaintext, and all of it once the wire is drained |
| FireTcpRuns.BothChangeOver | src/protocol/firetcp/cipher/write.rs:81-89 | both ends change over exactly at the last byte of the first phase |
| FireTcpRuns.WriterTakesChosen | src/protocol/firetcp/cipher/write.rs:45-90 | over every run of writes and choices the cipher in force after the first phase is the last one set before as many bytes were accepted |
| FireTcpRuns.ReaderTakesChosen | src/protocol/firetcp/cipher/read.rs:41-76 | the same over every run of reads and choices |
| Utf8.LossyKeepsUtf8 | src/socks5/addr.rs:214 | the lossy conversion keeps text that is UTF-8 |
| Utf8.LossyIsUtf8 | src/socks5/addr.rs:214 | whatever the bytes, the lossy conversion gives UTF-8 |
| Utf8.LossyReplaces | src/socks5/addr.rs:214 | behind valid text the longest start of a character that cannot go on becomes U+FFFD |
| SocksAddress.WriteTo | src/socks5/addr.rs:293-314 | write_len bytes are appended, nothing for a name over 255 bytes |
| SocksAddress.ParseAddress | src/socks5/addr.rs:177-241 | the eating parser answers as the buffer's layout says |
| SocksAddress.ParseAsync | src/socks5/addr.rs:127-175 | reads exactly one address off a stream, a name only if it is UTF-8 |
| SocksAddress.AddressStable | src/socks5/addr.rs:177-241 | a decided answer is not changed by more bytes and depends on none behind its offset |
| SocksAddress.AddressRoundTripExact | src/socks5/addr.rs:177-314 | written and parsed, an address comes back with any suffix untouched, exactly if it is no name that spells an IP address |
| SocksAddress.AddressStreamRoundTrip | src/socks5/addr.rs:127-175 | written and read from a stream it always comes back |
| WireFormats.V4AddressBytes | src/socks5/addr.rs:177-314 | type 1, four octets, port with the high byte first |
| WireFormats.V6AddressBytes | src/socks5/addr.rs:177-314 | type 4, sixteen octets, port |
| WireFormats.NameAddressBytes | src/socks5/addr.rs:177-314 | type 3, length, name, port; a name over 255 bytes cannot be written, one that spells an IP address is read as that |
| WireFormats.OtherAddresses | src/socks5/addr.rs:177-241 | exactly which buffers are incomplete and which are errors |
| WireFormats.AddressesInStreams | src/socks5/addr.rs:127-175 | exactly which streams start with an address |
| Socks.ParseGreeting | src/socks5/greeting.rs:17-39 | the eating parser answers as the buffer's layout says |
| Socks.GreetingStable | src/socks5/greeting.rs:17-39 | the greeting parser's answers are final and self-delimiting |
| Socks.GreetingRoundTrip | src/socks5/greeting.rs:50-54 | a written greeting is read back, suffix untouched |
| Socks.OtherGreetings | src/socks5/greeting.rs:17-39 | exactly which buffers are no greeting, and which not yet one |
| Socks.ParseRequest | src/socks5/req.rs:40-68 | the eating parser answers as the buffer's layout says |
| Socks.RequestStable | src/socks5/req.rs:40-68 | the request parser's answers are final and self-delimiting |
| Socks.RequestRoundTripExact | src/socks5/req.rs:70-74 | a written request is read back exactly if its address is no name that spells an IP address |
| Socks.OtherRequests | src/socks5/req.rs:40-68 | exactly which buffers are no request, and which not yet one |
| Socks.ParseSocks4 | src/socks4.rs:16-69 | the eating parser answers as the buffer's layout says |
| Socks.ParseSocks4Texts | src/socks4.rs:39-68 | the user name is skipped and a host name read up to its zero byte |
| Socks.Socks4Stable | src/socks4.rs:16-69 | the SOCKS4 parser's answers are final and self-delimiting |
| Socks.Socks4Reads | src/socks4.rs:27-69 | a SOCKS4 request, byte by byte, with any user name and an address other than 0.0.0.x, x not zero, gives its command, address and length |
| Socks.Socks4aReads | src/socks4.rs:47-60 | a request for an address 0.0.0.x, x not zero, gives the host name behind the user name, which stays a name |
| Socks.OtherSocks4 | src/socks4.rs:16-69 | any other first byte of nine is refused; without nine bytes or the zero byte behind the user name a request is incomplete |
| Socks.NewChecked | src/socks5/udp.rs:29-49 | a packet is accepted exactly if its header is sound, with the offset of its payload |
| Socks.UdpHeaderExact | src/socks5/udp.rs:29-49 | a header is sound exactly if it starts with two zero bytes and has a complete address |
| Socks.CheckedPacketHasAddr | src/socks5/udp.rs:55-60 | both unwraps in addr() succeed on a checked packet and give the address seen before |
| Socks.ToPacket | src/socks5/udp.rs:88-96 | header, address and payload in this order, checked again |
| Socks.UdpRoundTripExact | src/socks5/udp.rs:79-97 | what was put together reads back, the address exactly if it is no name that spells an IP address |
| RWBuffers.RWBuffer.Grow | src/buf.rs:24-31 | contents kept; the vector grows exactly if its length is at least 2 |
| RWBuffers.RWBuffer.AdvanceRead | src/buf.rs:37-44 | the front of the queue is dropped |
| RWBuffers.RWBuffer.AdvanceWrite | src/buf.rs:50-53 | the stored bytes join the queue |
| RWBuffers.RWBuffer.WriteBuf | src/buf.rs:63-68 | contents kept; the free part is empty exactly for a full vector of length 0 or 1 |
| RWBuffers.RWBuffer.Compact | src/buf.rs:70-83 | contents kept, moved to the front in place |
| RWBuffers.RWBuffer.Write | src/buf.rs:87-98 | one put of as much as fits beside the queue |
| RWBuffers.RWBuffer.Read | src/buf.rs:106-113 | one take: the front of the queue is moved out, as much as there is room for |
| RWBuffers.QueueIsFifo | src/buf.rs:24-113 | over every run of the steps that the methods are proved to take nothing is lost, added or reordered |
| Handshake.TurnIsRight | src/handshake.rs:79-143 | every turn of the detection loop is right about the whole input, however little has arrived |
| Handshake.LoopIsDetect | src/handshake.rs:79-149 | the loop over any chunks finds what the whole input means |
| Handshake.DetectionIgnoresChunking | src/handshake.rs:79-149 | any two ways to cut the same bytes give the same detection |
| Handshake.TakeTurn | src/handshake.rs:80-143 | the state's match over the parsers' answers, in its order of preference |
| Handshake.ReadMore | src/handshake.rs:145-148 | one read moves bytes from the connection behind the queue; zero means the end of input, or a full buffer of length 0 or 1 |
| Handshake.DetectProtocol | src/handshake.rs:72-149 | ends, with the detection of the whole input, and the remainder starts right behind the message |
| Handshake.ReadRequest | src/handshake.rs:279-313 | ends, with the first complete request of the whole input, or failure if there is none |
| Handshake.AnswerRequest | src/handshake.rs:282-306 | command 1 is served as TCP to the address, command 3 as UDP, both consumed; any other is refused with the ten reply bytes and left in the buffer |
| Handshake.HandshakeSocks5 | src/handshake.rs:267-314 | the outcome and replies depend on the whole input only |
| Handshake.Start | src/handshake.rs:72-167 | for every input and chunking the same request or failure, the same replies, and a remainder that starts right behind the parsed messages |
| HandshakeAnswers.ConnectIsTcp | src/handshake.rs:267-289 | any greeting with method 0 and a request 5,1,0 for an address gives TCP to it, the reply 5,0, and consumes exactly both messages |
| HandshakeAnswers.AssociateIsUdp | src/handshake.rs:290-297 | a request 5,3,0 gives UDP, without a destination exactly for all-zero octets or the names 0.0.0.0 and ::/128 |
| HandshakeAnswers.OthersAreRefused | src/handshake.rs:298-306 | any other command fails with the reply 5,0 and then 5,7,0,1 and six zero bytes |
| HandshakeAnswers.NoMethodIsRefused | src/handshake.rs:272-275 | a greeting without method 0 fails with the reply 5,255 |
| HandshakeAnswers.NoRequestFails | src/handshake.rs:308-311 | a request that never becomes complete fails behind the reply 5,0 |
| HandshakeAnswers.Socks4Answered | src/handshake.rs:229-237 | a SOCKS4 request is consumed without a reply and served as TCP exactly for command 1 |
| HandshakeAnswers.Socks4aAnswered | src/handshake.rs:229-237 | the same with a host name |
| HandshakeAnswers.HttpAnswered | src/handshake.rs:80-143 | any other first byte is HTTP, answered as the library makes of it |
| HandshakeAnswers.NothingAnswered | src/handshake.rs:80-149 | a first message that never becomes complete fails without a reply |
| PacketStream.PacketWriter.Write | src/protocol/tcpman/udp_stream.rs:149-206 | what goes out and is remembered, failures included |
| PacketStream.PacketWriter.WriteHeader | src/protocol/tcpman/udp_stream.rs:170-200 | the header of each address kind |
| PacketStream.PacketReader.Read | src/protocol/tcpman/udp_stream.rs:57-137 | reads one packet, remembers its address, and nothing on failure |
| PacketStream.PacketStep | src/protocol/tcpman/udp_stream.rs:57-206 | a written packet reads back exactly if its address went along or the reader remembers it, and ends in agreement stay so |
| PacketStream.StreamRoundTripExact | src/protocol/tcpman/udp_stream.rs:57-206 | for every sequence of packets and any addresses remembered at the start the reader gets exactly the accepted packets, nothing left over, exactly if no address is offered again while only the writer remembers it |
| PacketStream.SendableRecovers | src/protocol/tcpman/udp_stream.rs:57-206 | ends in agreement recover every sequence of packets whose names can be sent |
| PacketStream.LongNameTwice | src/protocol/tcpman/udp_stream.rs:160-192 | a refused name goes out after all when written twice, and is delivered to the wrong address |
| WireFormats.ShortPacketBytes | src/protocol/tcpman/udp_stream.rs:57-206 | packet type 1: length and payload, the address is the one remembered |
| WireFormats.FullPacketBytes | src/protocol/tcpman/udp_stream.rs:149-206 | types 2, 3 and 4: length, IPv4, IPv6 or name with port, payload; a name over 65535 bytes is refused |
| WireFormats.OtherPackets | src/protocol/tcpman/udp_stream.rs:57-137 | exactly which bytes start with a packet; a name must be text |
| TcpmanRequest.Parse | src/protocol/tcpman/proto.rs:28-49 | the eating parser answers as the buffer's layout says |
| TcpmanRequest.ToVec | src/protocol/tcpman/proto.rs:51-62 | kind, address and data, of the length announced |
| TcpmanRequest.RequestRoundTripExact | src/protocol/tcpman/proto.rs:28-62 | parsing undoes printing exactly if the destination is no name that spells an IP address |
| TcpmanRequest.OtherRequests | src/protocol/tcpman/proto.rs:28-49 | exactly which buffers are no request |
| UdpmanMessage.FlagByte | src/protocol/udpman/proto.rs:64-138 | every set of flags survives packing and unpacking |
| UdpmanMessage.EncodeFlags | src/protocol/udpman/proto.rs:89-138 | bit by bit, the flag byte |
| UdpmanMessage.Parse | src/protocol/udpman/proto.rs:196-272 | the cursor parser answers as specified |
| UdpmanMessage.ToBytes | src/protocol/udpman/proto.rs:274-354 | the writer writes as specified and fails exactly on a UUID over 255 bytes |
| UdpmanMessage.ParsedExact | src/protocol/udpman/proto.rs:196-272 | exactly which byte strings mean a message: the right flags, its body, and trailing bytes only behind an Establish without a reply |
| UdpmanMessage.MessageRoundTrip | src/protocol/udpman/proto.rs:196-348 | parsing undoes writing for every message that can be written |
| UdpmanMessage.ParseIsStable | src/protocol/udpman/proto.rs:196-348 | writing a parsed message and parsing it again changes nothing, whatever was ignored |
| WireFormats.ConnectBytes | src/protocol/udpman/proto.rs:89-348 | type 0, IPv6 in bit 0, nonce in bit 1; UUID, destination, nonce, data |
| WireFormats.EstablishBytes | src/protocol/udpman/proto.rs:89-348 | type 1, reply in bit 0, its IPv6 address in bit 1; UUID, id, address, data |
| WireFormats.DataBytes | src/protocol/udpman/proto.rs:89-348 | type 2, id, address, IPv6 and nonce in bits 0 to 3; parts in this order |
| WireFormats.OtherMessages | src/protocol/udpman/proto.rs:64-88 | any other type is no message |
| UdpmanServer.ConnMap.BinarySearch | src/protocol/udpman/server.rs:166 | finds the id or its place (the library's search) |
| UdpmanServer.ConnMap.Insert | src/protocol/udpman/server.rs:165-174 | the deque stays sorted and its map is updated at the id |
| UdpmanServer.ConnMap.Get | src/protocol/udpman/server.rs:176-181 | looks up the map |
| UdpmanServer.ConnMap.Remove | src/protocol/udpman/server.rs:183-188 | the deque stays sorted and its map loses the id |
| UdpmanServer.ConnMap.FindAvailableId | src/protocol/udpman/server.rs:190-209 | one above the largest id, else the least free one, and nothing exactly if all 65536 are taken |
| UdpmanServer.ConnMap.FindGap | src/protocol/udpman/server.rs:198-208 | the least free id, or nothing exactly if all are taken |
| UdpmanServer.Server.Handle | src/protocol/udpman/server.rs:69-137 | every message is one step on the table, a disconnect a second one |
| UdpmanServer.Server.Finished | src/protocol/udpman/server.rs:225-230 | removal by number |
| UdpmanServer.TableIsHistory | src/protocol/udpman/server.rs:69-137 | in every interleaving the table is exactly what the history says: the live connections, each with exactly its payloads in order |
| UdpmanServer.LiveSince | src/protocol/udpman/server.rs:69-137 | from its connect until its id is removed or given out again a connection is live with exactly the payloads taken for it, oldest first |
| UdpmanServer.ConnectionsAreIndependent | src/protocol/udpman/server.rs:111-132 | a connection depends on no event for another id |
| UdpmanServer.ConnectNeverReplaces | src/protocol/udpman/server.rs:79-110 | no connect takes over a live connection, and one is refused exactly if all ids are live |
| UdpmanServer.ConnectGets | src/protocol/udpman/server.rs:190-209 | a connect gets 1 from an empty table, else the id above all live ones while 65535 is not live, else the least that is not |
| RuleTables.MatchesDest | src/rule.rs:222-230 | all destinations of the rule match |
| RuleTables.ExecuteTable | src/rule.rs:200-271 | the loop with its recursion terminates and computes the evaluation and the number of rules examined |
| RuleTables.ExecuteRules | src/rule.rs:273-288 | the main table's verdict, where a return is none |
| RuleTables.VerdictExact | src/rule.rs:200-271 | there is a verdict exactly if the tables mean it with jumps nested at most ten deep; which rules apply and what each action says is written out |
| RuleTables.JudgeExact | src/rule.rs:273-288 | the verdict on a packet is that of the table "main" to this depth, a return excepted |
| RuleTables.VerdictHasRule | src/rule.rs:221-270 | every verdict comes from a rule that applies and names it: a proxy, a group or a rejection |
| RuleTables.EvaluatorRightExact | src/rule.rs:208-211 | where the tables mean something the evaluator is right exactly if that is no verdict or the nesting is at most ten |
| RuleTables.LongChainsLoseVerdicts | src/rule.rs:208-211 | a chain of jumps from the main table keeps its verdict exactly up to ten jumps |
| RuleTables.MeaningIsUnique | src/rule.rs:221-270 | the tables mean at most one thing |
| RuleTables.OnlyMatchingRulesMatter | src/rule.rs:221-239 | deleting all rules that do not match changes no result |
| RuleTables.WorkIsBounded | src/rule.rs:200-271 | with tables of at most k rules at most k + k^2 + ... + k^11 rules are examined |
| RuleTables.ChainWork | src/rule.rs:200-271 | on a chain of jumps exactly one rule for each table is examined, at most eleven |

## Left out

- Sockets, executors, wakers, timers, TLS, iptables, JNI, Android and the web front end: no protocol logic.
- The inside of ChaCha20 and its end after 2^32 blocks, base64, httparse and the IP literal parser: libraries, taken as parameters.
- Widths of lengths and positions: `usize` is unbounded except where the code checks it (the 16-bit lengths, the 8-bit lengths, the parsed strategy count and its `isize` limit, the connection ids).
- The HTTP exchange that carries the path and the header of the cipher stream, and bytes of the response body buffered with it.
- How `connect` and the callers choose strategies (`new_send`, `new_receive`): a table of constants.
- Parsing of rule texts and the patterns themselves: clap, regular expressions, GeoIP and block lists are libraries and data.
- PacketStream.StreamRoundTripExact: speaks of a transport whose writes do not fail.
- Sessions.StreamDelivers: asks for vectored calls that keep their slices in order and did not fail halfway, because the others lose bytes (`VectoredPrefixExact`), and for nothing accepted after a failure (`LateBytes.AllArrivesExact`).
- Handshake.Start: promises the outcome for buffers of length at least 2, because a smaller one cannot grow; a connection that fails in the middle of a read is not modelled.
- UdpmanServer.TableIsHistory: does not follow who owns an id, because removal is by number and depends on when a finished connection is cleaned up.
- UdpmanServer.ConnMap.BinarySearch: stands for the library's binary search on a deque.
- Host names are kept as their UTF-8 bytes, flow label and scope of IPv6 addresses are never sent and left out.
- The contents of error messages, logging and statistics.
- The chunked branch of the HTTP body reader, upstream scoring, configuration edits and URL splitting.
