/** The tcpman stream ciphers: a seekable cipher, the one that stops after N bytes, and the
    strategy that picks between them. */
module CipherSuite {
  import opened Bytes
  import opened Keystreams

  const ISIZE_MAX: nat := 0x7FFF_FFFF_FFFF_FFFF

  /** ChaCha20 seen as a keystream with a mutable position. */
  class SeekableCipher {
    const ks: Keystream
    var pos: nat

    constructor (ks: Keystream)
      ensures this.ks == ks && pos == 0
    {
      this.ks := ks;
      this.pos := 0;
    }

    /** XORs the first `len` bytes of `buf` in place and moves on. */
    method ApplyKeystream(buf: array<byte>, len: nat)
      requires len <= buf.Length
      modifies this`pos, buf
      ensures pos == old(pos) + len
      ensures buf[..len] == Mask(ks, old(pos), old(buf[..len]))
      ensures buf[len..] == old(buf[len..])
    {
      forall i | 0 <= i < len {
        buf[i] := Xor(buf[i], ks(pos + i));
      }
      pos := pos + len;
    }

    /** Seeks back; the subtraction in the source must not go below zero. */
    method Rewind(cnt: nat)
      requires cnt <= pos
      modifies this`pos
      ensures pos == old(pos) - cnt
    {
      pos := pos - cnt;
    }
  }

  // ---- the cipher that stops after N bytes ------------------------------------------

  /** The two numbers a PartialStreamCipher of limit N lives on: its signed count of bytes
      left, which may fall below zero, and the position of the cipher inside. */
  datatype PartialState = PartialState(n: int, inner: nat)

  function PartialApply(s: PartialState, len: nat): PartialState {
    if s.n > 0 then PartialState(s.n - len, s.inner + Min(s.n, len)) else s
  }

  /** How far the inner cipher has to seek back when `cnt` bytes are rewound. */
  function InnerRewind(s: PartialState, cnt: nat): int {
    if s.n + cnt > 0 then s.n + cnt - Max(s.n, 0) else 0
  }

  function PartialRewind(s: PartialState, cnt: nat): PartialState
    requires 0 <= InnerRewind(s, cnt) <= s.inner
  {
    PartialState(s.n + cnt, s.inner - InnerRewind(s, cnt))
  }

  /** The inner position that belongs to the count `n` under limit `limit`. */
  ghost predicate PartialInv(limit: nat, s: PartialState) {
    s.n <= limit && s.inner == limit - Max(s.n, 0)
  }

  /** Rewinding `cnt` of `len` applied bytes is possible and gives what applying only the
      kept bytes would have given. */
  ghost predicate RewindUndoes(s: PartialState, len: nat, cnt: nat)
    requires cnt <= len
  {
    var t := PartialApply(s, len);
    && 0 <= InnerRewind(t, cnt) <= t.inner
    && PartialRewind(t, cnt) == PartialApply(s, len - cnt)
  }

  /** Wherever the limit falls, a rewind is right exactly when the application it follows
      found bytes left to encrypt. */
  lemma PartialRewindExact(limit: nat, s: PartialState, len: nat, cnt: nat)
    requires PartialInv(limit, s) && cnt <= len
    ensures PartialInv(limit, PartialApply(s, len))
    ensures RewindUndoes(s, len, cnt) <==> s.n > 0 || cnt == 0
  {
  }

  /** What the limit means for a stretch of data, `some` bytes of which are below it. */
  lemma FirstNMask(limit: nat, ks: Keystream, at: nat, data: seq<byte>, some: nat)
    requires some <= |data| && at + some <= limit
    requires some < |data| ==> at + some == limit
    ensures Mask(FirstN(limit).Masks(ks), at, data) == Mask(ks, at, data[..some]) + data[some..]
  {
    var s, masks := FirstN(limit), FirstN(limit).Masks(ks);
    forall i | 0 <= i < |data|
      ensures Mask(masks, at, data)[i] == (Mask(ks, at, data[..some]) + data[some..])[i]
    {
      if i < some {
        assert s.Covers(at + i);
      } else {
        assert !s.Covers(at + i);
        XorInvolutive(data[i], 0);
      }
    }
  }

  lemma TailKept(before: seq<byte>, after: seq<byte>, some: nat, len: nat)
    requires some <= len <= |before| == |after|
    requires after[some..] == before[some..]
    ensures after[..len] == after[..some] + before[..len][some..]
    ensures after[len..] == before[len..]
  {
    assert before[..len][some..] == before[some..][..len - some];
    assert after[len..] == after[some..][len - some..];
    assert before[len..] == before[some..][len - some..];
  }

  class PartialStreamCipher {
    const inner: SeekableCipher
    ghost const limit: nat
    var n: int

    ghost predicate Valid()
      reads this, inner
    {
      PartialInv(limit, State())
    }

    function State(): PartialState
      reads this, inner
    {
      PartialState(n, inner.pos)
    }

    /** `isize` cannot hold a larger limit; the source panics on one. */
    constructor (n: nat, inner: SeekableCipher)
      requires 0 < n <= ISIZE_MAX && inner.pos == 0
      ensures Valid() && this.inner == inner && limit == n && this.n == n
    {
      this.inner := inner;
      this.limit := n;
      this.n := n;
    }

    predicate WillModifyData()
      reads this
    {
      n > 0
    }

    method ApplyKeystream(buf: array<byte>, len: nat)
      requires Valid() && len <= buf.Length
      modifies this`n, inner`pos, buf
      ensures Valid() && State() == PartialApply(old(State()), len)
      ensures buf[..len] ==
              Mask(FirstN(limit).Masks(inner.ks), limit - old(n), old(buf[..len]))
      ensures buf[len..] == old(buf[len..])
    {
      ghost var before := buf[..len];
      ghost var at := limit - n;
      if n > 0 {
        var some := Min(n, len);
        FirstNMask(limit, inner.ks, at, before, some);
        assert buf[..some] == before[..some];
        inner.ApplyKeystream(buf, some);
        n := n - len;
        TailKept(old(buf[..]), buf[..], some, len);
      } else {
        PlainBeyondStrategy(FirstN(limit), inner.ks, at, before);
      }
    }

    method Rewind(cnt: nat)
      requires Valid() && cnt <= limit - n
      modifies this`n, inner`pos
      ensures Valid() && n == old(n) + cnt
    {
      var oldN := n;
      n := n + cnt;
      if n > 0 {
        inner.Rewind(n - Max(oldN, 0));
      }
    }
  }

  // ---- the strategy ------------------------------------------------------------------

  datatype StrategyCipher =
    | CipherFirstN(partial: PartialStreamCipher)
    | CipherAlways(cipher: SeekableCipher)
    | CipherNever
  {
    function Objects(): set<object> {
      match this
      case CipherFirstN(p) => {p, p.inner}
      case CipherAlways(c) => {c}
      case CipherNever => {}
    }

    /** This cipher implements `s` over `ks` and stands at position `at` of its stream. */
    ghost predicate Tracks(s: EncryptionStrategy, ks: Keystream, at: nat)
      reads Objects()
    {
      match this
      case CipherFirstN(p) =>
        p.Valid() && s == FirstN(p.limit) && p.inner.ks == ks && p.limit - p.n == at
      case CipherAlways(c) => s == Always && c.ks == ks && c.pos == at
      case CipherNever => s == Never
    }

    predicate WillModifyData()
      reads Objects()
    {
      match this
      case CipherFirstN(p) => p.WillModifyData()
      case CipherAlways(c) => true
      case CipherNever => false
    }

    method ApplyKeystream(buf: array<byte>, len: nat,
                          ghost s: EncryptionStrategy, ghost ks: Keystream, ghost at: nat)
      requires Tracks(s, ks, at) && len <= buf.Length && buf !in Objects()
      modifies Objects(), buf
      ensures Tracks(s, ks, if old(WillModifyData()) then at + len else at)
      ensures buf[..len] == Mask(s.Masks(ks), at, old(buf[..len]))
      ensures buf[len..] == old(buf[len..])
    {
      match this {
        case CipherFirstN(p) =>
          p.ApplyKeystream(buf, len);
        case CipherAlways(c) =>
          c.ApplyKeystream(buf, len);
          MaskAgree(ks, at, s.Masks(ks), at, old(buf[..len]));
        case CipherNever =>
          PlainBeyondStrategy(s, ks, at, buf[..len]);
      }
    }

    method Rewind(cnt: nat,
                  ghost s: EncryptionStrategy, ghost ks: Keystream, ghost at: nat)
      requires Tracks(s, ks, at) && cnt <= at
      modifies Objects()
      ensures Tracks(s, ks, at - cnt)
    {
      match this {
        case CipherFirstN(p) => p.Rewind(cnt);
        case CipherAlways(c) => c.Rewind(cnt);
        case CipherNever =>
      }
    }
  }

  /** Where a cipher stands that follows its stream: it still modifies data exactly while the
      position is covered, and the cipher inside has spent min(position, limit) bytes. */
  lemma TrackedCipher(c: StrategyCipher, s: EncryptionStrategy, ks: Keystream, at: nat)
    requires c.Tracks(s, ks, at)
    ensures c.WillModifyData() <==> s.Covers(at)
    ensures c.CipherFirstN? ==> s.FirstN? && c.partial.inner.pos == Min(at, s.n)
    ensures c.CipherAlways? ==> c.cipher.pos == at
  {
  }

  /** A freshly created cipher put behind strategy `s`. */
  method WrapCipher(s: EncryptionStrategy, c: SeekableCipher) returns (r: StrategyCipher)
    requires s.Valid() && c.pos == 0
    requires s.FirstN? ==> s.n <= ISIZE_MAX
    ensures r.Tracks(s, c.ks, 0)
    ensures fresh(r.Objects() - {c})
  {
    match s {
      case FirstN(n) =>
        var p := new PartialStreamCipher(n, c);
        r := CipherFirstN(p);
      case Always => r := CipherAlways(c);
      case Never => r := CipherNever;
    }
  }
}
