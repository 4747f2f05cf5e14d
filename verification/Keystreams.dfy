/** The mathematical side of both cipher streams: a keystream assigns a mask byte to every
    position of a byte stream, and a position without encryption has mask 0. */
module Keystreams {
  import opened Bytes

  type Keystream = nat -> byte

  /** `data` as it travels when its first byte stands at position `at` of the stream. */
  function Mask(ks: Keystream, at: nat, data: seq<byte>): (r: seq<byte>)
    ensures |r| == |data|
  {
    seq(|data|, i requires 0 <= i < |data| => Xor(data[i], ks(at + i)))
  }

  lemma MaskConcat(ks: Keystream, at: nat, a: seq<byte>, b: seq<byte>)
    ensures Mask(ks, at, a + b) == Mask(ks, at, a) + Mask(ks, at + |a|, b)
  {
    var l, r := Mask(ks, at, a + b), Mask(ks, at, a) + Mask(ks, at + |a|, b);
    forall i | 0 <= i < |l| ensures l[i] == r[i] {
      if i >= |a| {
        assert at + |a| + (i - |a|) == at + i;
      }
    }
  }

  lemma MaskInvolutive(ks: Keystream, at: nat, data: seq<byte>)
    ensures Mask(ks, at, Mask(ks, at, data)) == data
  {
    forall i | 0 <= i < |data| ensures Mask(ks, at, Mask(ks, at, data))[i] == data[i] {
      XorInvolutive(data[i], ks(at + i));
    }
  }

  lemma MaskPrefix(ks: Keystream, at: nat, data: seq<byte>, m: nat, k: nat)
    requires k <= m <= |data|
    ensures Mask(ks, at, data[..m])[..k] == Mask(ks, at, data[..k])
  {
  }

  lemma PrefixUnmasks(masks: Keystream, at: nat, plain: seq<byte>, part: seq<byte>)
    requires part <= Mask(masks, at, plain)
    ensures Mask(masks, at, part) == plain[..|part|]
  {
    forall i | 0 <= i < |part| ensures Mask(masks, at, part)[i] == plain[i] {
      assert part[i] == Mask(masks, at, plain)[i];
      XorInvolutive(plain[i], masks(at + i));
    }
  }

  /** Only the keystream bytes actually used matter. */
  lemma MaskAgree(ks: Keystream, at: nat, ks': Keystream, at': nat, data: seq<byte>)
    requires forall i: nat :: at <= i < at + |data| ==> ks(i) == ks'(at' + (i - at))
    ensures Mask(ks, at, data) == Mask(ks', at', data)
  {
    forall i | 0 <= i < |data| ensures Mask(ks, at, data)[i] == Mask(ks', at', data)[i] {
      assert ks(at + i) == ks'(at' + (at + i - at));
      assert at + i - at == i;
    }
  }

  lemma MaskPlain(ks: Keystream, at: nat, data: seq<byte>)
    requires forall i: nat :: at <= i < at + |data| ==> ks(i) == 0
    ensures Mask(ks, at, data) == data
  {
    forall i | 0 <= i < |data| ensures Mask(ks, at, data)[i] == data[i] {
      XorInvolutive(data[i], 0);
    }
  }

  datatype EncryptionStrategy = FirstN(n: nat) | Always | Never {
    /** FirstN wraps a non-zero count. */
    predicate Valid() {
      FirstN? ==> n > 0
    }

    /** Whether the byte at position `i` of the stream is encrypted. */
    predicate Covers(i: nat) {
      match this
      case FirstN(n) => i < n
      case Always => true
      case Never => false
    }

    function Masks(ks: Keystream): Keystream {
      (i: nat) => if this.Covers(i) then ks(i) else 0
    }
  }

  lemma PlainBeyondStrategy(s: EncryptionStrategy, ks: Keystream, at: nat, data: seq<byte>)
    requires !s.Covers(at)
    ensures Mask(s.Masks(ks), at, data) == data
  {
    forall i: nat | at <= i < at + |data| ensures s.Masks(ks)(i) == 0 {
      assert !s.Covers(i);
    }
    MaskPlain(s.Masks(ks), at, data);
  }
}
