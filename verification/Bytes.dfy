/** Octets, big-endian integers and the small result types every other module uses. */
module Bytes {
  newtype byte = x: int | 0 <= x < 256
  type u16 = n: nat | n < 0x1_0000

  datatype Option<+T> = None | Some(value: T)

  datatype Result<+T> = Ok(value: T) | Err {
    predicate IsFailure() {
      Err?
    }

    function PropagateFailure<U>(): Result<U>
      requires Err?
    {
      Err
    }

    function Extract(): T
      requires Ok?
    {
      value
    }
  }

  /** What an incremental parser says about a buffer: more bytes are needed, the bytes
      are wrong, or a value was read from the first `offset` bytes. */
  datatype Parse<+T> = Incomplete | Failed | Complete(offset: nat, value: T)

  /** `p` decides: appending bytes to the buffer cannot change its answer any more. */
  predicate Decided<T>(p: Parse<T>) {
    !p.Incomplete?
  }

  function Min(a: int, b: int): int {
    if a <= b then a else b
  }

  function Max(a: int, b: int): int {
    if a >= b then a else b
  }

  function Put16(n: u16): (r: seq<byte>)
    ensures |r| == 2 && Get16(r) == n
  {
    [(n / 256) as byte, (n % 256) as byte]
  }

  function Get16(s: seq<byte>): (n: u16)
    requires |s| >= 2
  {
    s[0] as int * 256 + s[1] as int
  }

  /** The number that two bytes stand for, the high one first. */
  function Number(hi: byte, lo: byte): u16 {
    hi as int * 256 + lo as int
  }

  lemma NumberBytes(hi: byte, lo: byte)
    ensures Put16(Number(hi, lo)) == [hi, lo]
  {
    var n := hi as int * 256 + lo as int;
    assert n / 256 == hi as int && n % 256 == lo as int;
  }

  lemma Put16Get16(s: seq<byte>)
    requires |s| >= 2
    ensures Put16(Get16(s)) == s[..2]
  {
    var n := s[0] as int * 256 + s[1] as int;
    assert n / 256 == s[0] as int && n % 256 == s[1] as int;
  }

  function Flatten<T>(parts: seq<seq<T>>): seq<T> {
    if parts == [] then [] else parts[0] + Flatten(parts[1..])
  }

  lemma {:induction false} FlattenConcat<T>(a: seq<seq<T>>, b: seq<seq<T>>)
    ensures Flatten(a + b) == Flatten(a) + Flatten(b)
  {
    if a == [] {
      assert a + b == b;
    } else {
      assert (a + b)[0] == a[0] && (a + b)[1..] == a[1..] + b;
      FlattenConcat(a[1..], b);
    }
  }

  lemma IndexInConcat(a: seq<byte>, b: seq<byte>, all: seq<byte>, j: nat)
    requires all == a + b && j < |all|
    ensures if j < |a| then all[j] == a[j] else j - |a| < |b| && all[j] == b[j - |a|]
  {
  }

  // ---- exclusive or --------------------------------------------------------------

  function Pow2(width: nat): (r: nat)
    ensures r > 0
  {
    if width == 0 then 1 else 2 * Pow2(width - 1)
  }

  /** The exclusive or of the low `width` bits of two numbers. */
  function XorBits(a: nat, b: nat, width: nat): (r: nat)
    ensures r < Pow2(width)
  {
    if width == 0 then 0
    else (if a % 2 != b % 2 then 1 else 0) + 2 * XorBits(a / 2, b / 2, width - 1)
  }

  lemma {:induction false} XorBitsInvolutive(a: nat, b: nat, width: nat)
    requires a < Pow2(width)
    ensures XorBits(XorBits(a, b, width), b, width) == a
    ensures XorBits(a, 0, width) == a
  {
    if width > 0 {
      XorBitsInvolutive(a / 2, b / 2, width - 1);
      assert XorBits(a, b, width) / 2 == XorBits(a / 2, b / 2, width - 1);
    }
  }

  function Xor(a: byte, b: byte): byte {
    assert Pow2(8) == 256;
    XorBits(a as nat, b as nat, 8) as byte
  }

  lemma XorInvolutive(a: byte, b: byte)
    ensures Xor(Xor(a, b), b) == a
    ensures Xor(a, 0) == a
  {
    assert Pow2(8) == 256;
    XorBitsInvolutive(a as nat, b as nat, 8);
  }

  lemma {:induction false} XorBitsTwice(a: nat, x: nat, y: nat, width: nat)
    requires a < Pow2(width) && x < Pow2(width) && y < Pow2(width)
    ensures XorBits(XorBits(a, x, width), y, width) == a <==> x == y
  {
    if width > 0 {
      XorBitsTwice(a / 2, x / 2, y / 2, width - 1);
      assert XorBits(a, x, width) / 2 == XorBits(a / 2, x / 2, width - 1);
    }
  }

  /** Two different masks do not cancel. */
  lemma XorTwice(a: byte, x: byte, y: byte)
    ensures Xor(Xor(a, x), y) == a <==> x == y
  {
    assert Pow2(8) == 256;
    XorBitsTwice(a as nat, x as nat, y as nat, 8);
  }
}
