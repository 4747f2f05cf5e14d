/** The firetcp stream: the first bytes of a connection use one cipher, then an optional
    second cipher, or none, takes over. Writer and reader count on their own, so both must
    change over at the same byte. */
module FireTcp {
  import opened Bytes
  import opened Keystreams
  import opened CipherSuite
  import opened Io

  const SCRATCH_MIN: nat := 512

  // ---- one end of the stream, on values -----------------------------------------------

  /** A cipher as it was handed over: its keystream and where it stood. */
  datatype Tap = Tap(ks: Keystream, base: nat)

  datatype Phase = Starting(left: nat) | Running(cipher: Option<Tap>)

  /** `passed` bytes went through; `pending` is the cipher set for after the change-over. */
  datatype End = End(passed: nat, phase: Phase, pending: Option<Tap>)

  function Fresh(initial: nat): End {
    End(0, Starting(initial), None)
  }

  /** The byte counts of an end whose first phase is `initial` bytes long. */
  ghost predicate Counts(initial: nat, e: End) {
    match e.phase
    case Starting(left) => e.passed + left == initial && (left == 0 ==> initial == 0)
    case Running(_) => e.passed >= initial && e.pending.None?
  }

  /** `n` more bytes pass, none of them beyond the end of the first phase. */
  function Advance(e: End, n: nat): End
    requires e.phase.Starting? ==> n <= e.phase.left
  {
    match e.phase
    case Starting(left) =>
      if n == left then End(e.passed + n, Running(e.pending), None)
      else End(e.passed + n, Starting(left - n), e.pending)
    case Running(_) => e.(passed := e.passed + n)
  }

  /** set_establish_cipher, refused once the change-over has happened. */
  function Choose(e: End, c: Option<Tap>): Result<End> {
    if e.phase.Running? then Err else Ok(e.(pending := c))
  }

  /** The keystream of the whole connection when `second` takes over after `initial` bytes. */
  function TwoPhase(initial: nat, first: Tap, second: Option<Tap>): Keystream {
    (i: nat) =>
      if i < initial then first.ks(first.base + i)
      else if second.Some? then second.value.ks(second.value.base + (i - initial))
      else 0
  }

  /** The bytes the current cipher of `e` makes of `data`, `drift` positions too far on. */
  function Through(initial: nat, first: Tap, e: End, drift: nat, data: seq<byte>): (r: seq<byte>)
    requires Counts(initial, e)
    ensures |r| == |data|
  {
    match e.phase
    case Starting(_) => Mask(first.ks, first.base + e.passed + drift, data)
    case Running(Some(t)) => Mask(t.ks, t.base + (e.passed - initial) + drift, data)
    case Running(None) => data
  }

  /** In step, that is the keystream of the connection. */
  lemma ThroughIsTwoPhase(initial: nat, first: Tap, second: Option<Tap>, e: End, data: seq<byte>)
    requires Counts(initial, e)
    requires e.phase.Starting? ==> |data| <= e.phase.left
    requires e.phase.Running? ==> second == e.phase.cipher
    ensures Through(initial, first, e, 0, data) == Mask(TwoPhase(initial, first, second), e.passed, data)
  {
    var whole := TwoPhase(initial, first, second);
    forall i | 0 <= i < |data|
      ensures Through(initial, first, e, 0, data)[i] == Mask(whole, e.passed, data)[i]
    {
      XorInvolutive(data[i], 0);
    }
  }

  // ---- the writer ---------------------------------------------------------------------

  /** `drift` counts the keystream bytes spent on data that never went out. */
  datatype WriterView = WriterView(wire: seq<byte>, end: End, drift: nat)

  /** What a write offers to the transport, given a scratch buffer of `scratch` bytes. */
  function Offered(e: End, scratch: nat, buf: seq<byte>): nat {
    match e.phase
    case Starting(left) => Min(|buf|, left)
    case Running(Some(_)) => Min(|buf|, scratch)
    case Running(None) => |buf|
  }

  /** Whether an offer costs keystream bytes. */
  predicate Encrypting(e: End) {
    e.phase != Running(None)
  }

  datatype WriteOp = Write(buf: seq<byte>, res: Poll) | SetCipher(c: Option<Tap>)

  ghost predicate WriteStep(initial: nat, scratch: nat, first: Tap,
                            v: WriterView, op: WriteOp, v': WriterView)
  {
    Counts(initial, v.end) &&
    match op
    case SetCipher(c) =>
      v' == v.(end := match Choose(v.end, c) case Ok(e) => e case Err => v.end)
    case Write(buf, res) =>
      if buf == [] then res == Ready(0) && v' == v
      else
        var offered := Offered(v.end, scratch, buf);
        match res
        case Ready(n) =>
          && n <= offered
          && v'.wire == v.wire + Through(initial, first, v.end, v.drift, buf[..n])
          && v'.end == Advance(v.end, n)
          && v'.drift == if v'.end.phase.Running? && v.end.phase.Starting? then 0 else v.drift
        case _ => v' == v.(drift := if Encrypting(v.end) then v.drift + offered else v.drift)
  }

  /** The poll of the transport behind a write: the front of the buffer, masked as the phase
      asks for, and the answer, which is passed on. */
  function OfferOf(initial: nat, scratch: nat, first: Tap, v: WriterView, buf: seq<byte>, res: Poll): Offer
    requires Counts(initial, v.end)
  {
    Offer(Through(initial, first, v.end, v.drift, buf[..Offered(v.end, scratch, buf)]), res)
  }

  lemma InitStep(initial: nat, scratch: nat, first: Tap, v: WriterView, data: seq<byte>, n: nat,
                 v': WriterView)
    requires Counts(initial, v.end) && v.end.phase.Starting? && data != []
    requires n <= Min(|data|, v.end.phase.left) && v'.end == Advance(v.end, n)
    requires v'.wire == v.wire + Mask(first.ks, first.base + v.end.passed + v.drift, data[..n])
    requires v'.drift == if v'.end.phase.Running? then 0 else v.drift
    ensures WriteStep(initial, scratch, first, v, Write(data, Ready(n)), v')
  {
  }

  datatype WriteState =
    | WriteInit(bytesLeft: nat, cipher: SeekableCipher)
    | WriteEstablished(next: Option<SeekableCipher>)

  class CipherWrite {
    const w: Writer
    const buf: array<byte>
    var establishCipher: Option<SeekableCipher>
    var state: WriteState

    ghost const initial: nat
    ghost const first: Tap
    ghost var end: End
    ghost var drift: nat

    static function ObjectsOf(c: Option<SeekableCipher>): set<object> {
      if c.Some? then {c.value} else {}
    }

    ghost function Ciphers(): set<object>
      reads this
    {
      ObjectsOf(establishCipher) +
      (match state case WriteInit(_, c) => {c} case WriteEstablished(c) => ObjectsOf(c))
    }

    ghost predicate Valid()
      reads this, Ciphers()
    {
      ValidAt(0)
    }

    /** The current cipher is `ahead` bytes further than what has been counted. */
    ghost predicate ValidAt(ahead: nat)
      reads this, Ciphers()
    {
      && Counts(initial, end) && initial <= buf.Length && SCRATCH_MIN <= buf.Length
      && {this, w, buf} !! Ciphers()
      && (match establishCipher
          case None => end.pending == None
          case Some(c) => end.pending == Some(Tap(c.ks, c.pos)))
      && match state
         case WriteInit(left, c) =>
           && end.phase == Starting(left) && establishCipher != Some(c)
           && c.ks == first.ks && c.pos == first.base + end.passed + drift + ahead
         case WriteEstablished(None) => end.phase == Running(None)
         case WriteEstablished(Some(c)) =>
           && end.phase.Running? && end.phase.cipher.Some? && c.ks == end.phase.cipher.value.ks
           && c.pos == end.phase.cipher.value.base + (end.passed - initial) + drift + ahead
    }

    ghost function View(): WriterView
      reads this, w
    {
      WriterView(w.wire, end, drift)
    }

    constructor (w: Writer, initialSize: nat, initialCipher: SeekableCipher)
      ensures Valid() && this.w == w && initial == initialSize && fresh(buf)
      ensures buf.Length == Max(initialSize, 512)
      ensures first == Tap(initialCipher.ks, initialCipher.pos)
      ensures View() == WriterView(w.wire, Fresh(initialSize), 0)
      ensures Ciphers() == {initialCipher}
    {
      this.w := w;
      establishCipher := None;
      buf := new byte[Max(initialSize, SCRATCH_MIN)];
      state := WriteInit(initialSize, initialCipher);
      initial, first := initialSize, Tap(initialCipher.ks, initialCipher.pos);
      end, drift := Fresh(initialSize), 0;
    }

    method SetEstablishCipher(c: Option<SeekableCipher>) returns (ok: bool)
      requires Valid() && {this, w, buf} + Ciphers() !! ObjectsOf(c)
      modifies this`establishCipher, this`end
      ensures Valid()
      ensures var tap := if c.Some? then Some(Tap(c.value.ks, c.value.pos)) else None;
        && (ok <==> Choose(old(end), tap).Ok?)
        && WriteStep(initial, buf.Length, first, old(View()), SetCipher(tap), View())
    {
      if state.WriteEstablished? {
        return false;
      }
      establishCipher := c;
      end := end.(pending := if c.Some? then Some(Tap(c.value.ks, c.value.pos)) else None);
      ok := true;
    }

    /** Encrypts the first `count` bytes of `data` into the scratch buffer and offers them;
        the cipher is rewound after a short write, but not when the poll is not ready. */
    method OfferEncrypted(cipher: SeekableCipher, data: seq<byte>, count: nat) returns (res: Poll)
      requires count <= |data| && count <= buf.Length
      requires buf as object != cipher
      modifies w, buf, cipher`pos
      ensures res.Ready? ==>
                && res.n <= count && cipher.pos == old(cipher.pos) + res.n
                && w.wire == old(w.wire) + Mask(cipher.ks, old(cipher.pos), data[..res.n])
      ensures !res.Ready? ==> w.wire == old(w.wire) && cipher.pos == old(cipher.pos) + count
      ensures w.log == old(w.log) + [Offer(Mask(cipher.ks, old(cipher.pos), data[..count]), res)]
    {
      ghost var at := cipher.pos;
      forall i | 0 <= i < count {
        buf[i] := data[i];
      }
      assert buf[..count] == data[..count];
      cipher.ApplyKeystream(buf, count);
      res := w.PollWrite(buf[..count]);
      if res.Ready? {
        if res.n < count {
          cipher.Rewind(count - res.n);
        }
        MaskPrefix(cipher.ks, at, data, count, res.n);
      }
    }

    /** Counts `n` bytes of the first phase and changes over when it is complete; the cipher
        has already moved on by `n`. */
    method PassInit(bytesLeft: nat, cipher: SeekableCipher, n: nat)
      requires state == WriteInit(bytesLeft, cipher) && end.phase == Starting(bytesLeft)
      requires n <= bytesLeft && ValidAt(n)
      modifies this`state, this`establishCipher, this`end, this`drift
      ensures Valid() && Ciphers() <= old(Ciphers()) && end == Advance(old(end), n)
      ensures drift == if end.phase.Running? then 0 else old(drift)
    {
      end := Advance(end, n);
      if bytesLeft - n == 0 {
        state := WriteEstablished(establishCipher);
        establishCipher, drift := None, 0;
      } else {
        state := WriteInit(bytesLeft - n, cipher);
      }
    }

    /** The first phase: never writes past its end. */
    method PollWriteInit(bytesLeft: nat, cipher: SeekableCipher, data: seq<byte>) returns (res: Poll)
      requires Valid() && state == WriteInit(bytesLeft, cipher) && data != []
      modifies this`state, this`establishCipher, this`end, this`drift, w, buf, cipher`pos
      ensures Valid() && Ciphers() <= old(Ciphers())
      ensures WriteStep(initial, buf.Length, first, old(View()), Write(data, res), View())
      ensures w.log == old(w.log) + [OfferOf(initial, buf.Length, first, old(View()), data, res)]
    {
      var count := Min(|data|, bytesLeft);
      ghost var v := View();
      res := OfferEncrypted(cipher, data, count);
      if res.Ready? {
        PassInit(bytesLeft, cipher, res.n);
        InitStep(initial, buf.Length, first, v, data, res.n, View());
      } else {
        drift := drift + count;
      }
    }

    method PollWrite(data: seq<byte>) returns (res: Poll)
      requires Valid()
      modifies this, w, buf, Ciphers()
      ensures Valid() && Ciphers() <= old(Ciphers())
      ensures WriteStep(initial, buf.Length, first, old(View()), Write(data, res), View())
      ensures w.log == old(w.log) +
                       if data == [] then []
                       else [OfferOf(initial, buf.Length, first, old(View()), data, res)]
      ensures data != [] ==>
                |w.log[|w.log| - 1].bytes| ==
                match old(end.phase)
                case Starting(left) => Min(|data|, left)
                case Running(Some(_)) => Min(|data|, buf.Length)
                case Running(None) => |data|
    {
      if |data| == 0 {
        return Ready(0);
      }
      match state {
        case WriteInit(bytesLeft, cipher) =>
          res := PollWriteInit(bytesLeft, cipher, data);
        case WriteEstablished(next) =>
          res := PollWriteEstablished(next, data);
      }
    }

    /** The second phase, with or without a cipher. */
    method PollWriteEstablished(next: Option<SeekableCipher>, data: seq<byte>) returns (res: Poll)
      requires Valid() && state == WriteEstablished(next) && data != []
      modifies this`end, this`drift, w, buf, ObjectsOf(next)
      ensures Valid()
      ensures WriteStep(initial, buf.Length, first, old(View()), Write(data, res), View())
      ensures w.log == old(w.log) + [OfferOf(initial, buf.Length, first, old(View()), data, res)]
    {
      match next {
        case Some(cipher) =>
          var count := Min(|data|, buf.Length);
          res := OfferEncrypted(cipher, data, count);
          if res.Ready? {
            end := Advance(end, res.n);
          } else {
            drift := drift + count;
          }
        case None =>
          assert data[..|data|] == data;
          res := w.PollWrite(data);
          if res.Ready? {
            end := Advance(end, res.n);
          }
      }
    }
  }

  // ---- the reader ---------------------------------------------------------------------

  /** A poll_read that answered with data (what left the transport, what was delivered), or
      a choice of the second cipher. Polls without an answer change nothing. */
  datatype ReadOp = Read(chunk: seq<byte>, got: seq<byte>) | SetReadCipher(c: Option<Tap>)

  ghost predicate ReadStep(initial: nat, first: Tap, e: End, op: ReadOp, e': End) {
    Counts(initial, e) &&
    match op
    case SetReadCipher(c) => e' == (match Choose(e, c) case Ok(x) => x case Err => e)
    case Read(chunk, got) =>
      && (e.phase.Starting? ==> |chunk| <= e.phase.left)
      && got == Through(initial, first, e, 0, chunk)
      && e' == Advance(e, |chunk|)
  }

  datatype ReadState =
    | ReadInit(bytesLeft: nat, cipher: SeekableCipher)
    | ReadEstablished(next: Option<SeekableCipher>)

  class CipherRead {
    const r: Reader
    var establishCipher: Option<SeekableCipher>
    var state: ReadState

    ghost const initial: nat
    ghost const first: Tap
    ghost var end: End

    ghost function Ciphers(): set<object>
      reads this
    {
      CipherWrite.ObjectsOf(establishCipher) +
      (match state case ReadInit(_, c) => {c} case ReadEstablished(c) => CipherWrite.ObjectsOf(c))
    }

    ghost predicate Valid()
      reads this, Ciphers()
    {
      && Counts(initial, end) && {this, r} !! Ciphers()
      && (match establishCipher
          case None => end.pending == None
          case Some(c) => end.pending == Some(Tap(c.ks, c.pos)))
      && match state
         case ReadInit(left, c) =>
           && end.phase == Starting(left) && establishCipher != Some(c)
           && c.ks == first.ks && c.pos == first.base + end.passed
         case ReadEstablished(None) => end.phase == Running(None)
         case ReadEstablished(Some(c)) =>
           && end.phase.Running? && end.phase.cipher.Some? && c.ks == end.phase.cipher.value.ks
           && c.pos == end.phase.cipher.value.base + (end.passed - initial)
    }

    constructor (r: Reader, initialSize: nat, initialCipher: SeekableCipher)
      ensures Valid() && this.r == r && initial == initialSize && end == Fresh(initialSize)
      ensures first == Tap(initialCipher.ks, initialCipher.pos) && Ciphers() == {initialCipher}
    {
      this.r := r;
      establishCipher := None;
      state := ReadInit(initialSize, initialCipher);
      initial, first := initialSize, Tap(initialCipher.ks, initialCipher.pos);
      end := Fresh(initialSize);
    }

    method SetEstablishCipher(c: Option<SeekableCipher>) returns (ok: bool)
      requires Valid() && {this, r} + Ciphers() !! CipherWrite.ObjectsOf(c)
      modifies this`establishCipher, this`end
      ensures Valid()
      ensures var tap := if c.Some? then Some(Tap(c.value.ks, c.value.pos)) else None;
        && (ok <==> Choose(old(end), tap).Ok?)
        && ReadStep(initial, first, old(end), SetReadCipher(tap), end)
    {
      if state.ReadEstablished? {
        return false;
      }
      establishCipher := c;
      end := end.(pending := if c.Some? then Some(Tap(c.value.ks, c.value.pos)) else None);
      ok := true;
    }

    /** Decrypts `n` bytes of the first phase and changes over when it is complete. */
    method PassInit(buf: array<byte>, bytesLeft: nat, cipher: SeekableCipher, n: nat)
      requires Valid() && state == ReadInit(bytesLeft, cipher) && n <= bytesLeft && n <= buf.Length
      modifies this`state, this`establishCipher, this`end, buf, cipher`pos
      ensures Valid() && Ciphers() <= old(Ciphers()) && end == Advance(old(end), n)
      ensures buf[..n] == Through(initial, first, old(end), 0, old(buf[..n]))
      ensures buf[n..] == old(buf[n..])
    {
      cipher.ApplyKeystream(buf, n);
      if bytesLeft - n == 0 {
        state := ReadEstablished(establishCipher);
        establishCipher := None;
      } else {
        state := ReadInit(bytesLeft - n, cipher);
      }
      end := Advance(end, n);
    }

    /** Decrypts `n` bytes of the second phase, if it has a cipher. */
    method PassEstablished(buf: array<byte>, next: Option<SeekableCipher>, n: nat)
      requires Valid() && state == ReadEstablished(next) && n <= buf.Length && buf !in Ciphers()
      modifies this`end, buf, CipherWrite.ObjectsOf(next)
      ensures Valid() && end == Advance(old(end), n)
      ensures buf[..n] == Through(initial, first, old(end), 0, old(buf[..n]))
      ensures buf[n..] == old(buf[n..])
    {
      if next.Some? {
        next.value.ApplyKeystream(buf, n);
      }
      end := Advance(end, n);
    }

    /** Decrypts in place what the transport delivered into the front of `buf`. */
    method PollRead(buf: array<byte>) returns (res: Poll)
      requires Valid() && buf !in Ciphers()
      modifies this, r, buf, Ciphers()
      ensures Valid() && Ciphers() <= old(Ciphers())
      ensures buf.Length == 0 ==> res == Ready(0) && end == old(end) && r.unread == old(r.unread)
      ensures res.Ready? ==>
                && res.n <= buf.Length && res.n <= |old(r.unread)|
                && r.unread == old(r.unread)[res.n..] && buf[res.n..] == old(buf[res.n..])
      ensures res.Ready? && buf.Length > 0 ==>
                ReadStep(initial, first, old(end), Read(old(r.unread)[..res.n], buf[..res.n]), end)
      ensures buf.Length == 0 ==> r.log == old(r.log)
      ensures buf.Length > 0 ==>
                var room := if old(end.phase).Starting? then Min(buf.Length, old(end.phase).left)
                            else buf.Length;
                r.log == old(r.log) + [Inquiry(room, res)]
      ensures res == Ready(0) ==>
                buf.Length == 0 || old(r.unread) == [] || old(end.phase) == Starting(0)
      ensures !res.Ready? ==>
                r.unread == old(r.unread) && buf[..] == old(buf[..]) && end == old(end)
    {
      if buf.Length == 0 {
        return Ready(0);
      }
      match state {
        case ReadInit(bytesLeft, cipher) =>
          res := r.PollRead(buf, Min(buf.Length, bytesLeft));
          if res.Ready? {
            PassInit(buf, bytesLeft, cipher, res.n);
          }
        case ReadEstablished(next) =>
          res := r.PollRead(buf, buf.Length);
          if res.Ready? {
            PassEstablished(buf, next, res.n);
          }
      }
    }
  }
}
