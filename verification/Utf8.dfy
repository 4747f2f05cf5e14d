/** UTF-8 as Rust's `str::from_utf8` and `String::from_utf8_lossy` see it (Table 3-7 of the
    Unicode Standard). Text is kept as its bytes throughout the project. */
module Utf8 {
  import opened Bytes

  const REPLACEMENT: seq<byte> := [0xEF, 0xBF, 0xBD]

  datatype Piece = Good(n: nat) | Bad(n: nat)

  predicate Cont(s: seq<byte>, i: nat) {
    i < |s| && 0x80 <= s[i] <= 0xBF
  }

  /** The second byte allowed after a three- or four-byte lead. */
  predicate SecondOk(lead: byte, s: seq<byte>) {
    && Cont(s, 1)
    && (lead == 0xE0 ==> s[1] >= 0xA0) && (lead == 0xED ==> s[1] <= 0x9F)
    && (lead == 0xF0 ==> s[1] >= 0x90) && (lead == 0xF4 ==> s[1] <= 0x8F)
  }

  /** The first character of `s`, or the longest start of one that cannot go on. */
  function First(s: seq<byte>): (p: Piece)
    requires s != []
    ensures 0 < p.n <= |s|
  {
    var lead := s[0];
    if lead < 0x80 then Good(1)
    else if 0xC2 <= lead <= 0xDF then
      if Cont(s, 1) then Good(2) else Bad(1)
    else if 0xE0 <= lead <= 0xEF then
      if !SecondOk(lead, s) then Bad(1) else if Cont(s, 2) then Good(3) else Bad(2)
    else if 0xF0 <= lead <= 0xF4 then
      if !SecondOk(lead, s) then Bad(1)
      else if !Cont(s, 2) then Bad(2) else if Cont(s, 3) then Good(4) else Bad(3)
    else Bad(1)
  }

  predicate IsUtf8(s: seq<byte>) {
    s == [] || (First(s).Good? && IsUtf8(s[First(s).n..]))
  }

  /** Every run of bytes that is no character becomes one replacement character. */
  function Lossy(s: seq<byte>): seq<byte> {
    if s == [] then []
    else
      match First(s)
      case Good(n) => s[..n] + Lossy(s[n..])
      case Bad(n) => REPLACEMENT + Lossy(s[n..])
  }

  lemma {:induction false} LossyKeepsUtf8(s: seq<byte>)
    requires IsUtf8(s)
    ensures Lossy(s) == s
  {
    if s != [] {
      LossyKeepsUtf8(s[First(s).n..]);
    }
  }

  lemma FirstStays(s: seq<byte>, more: seq<byte>)
    requires s != [] && First(s).Good?
    ensures First(s + more) == First(s)
  {
    assert forall i :: 0 <= i < |s| ==> (s + more)[i] == s[i];
  }

  lemma {:induction false} LossyAfterUtf8(a: seq<byte>, s: seq<byte>)
    requires IsUtf8(a)
    ensures Lossy(a + s) == a + Lossy(s)
  {
    if a == [] {
      assert a + s == s;
    } else {
      var n := First(a).n;
      FirstStays(a, s);
      LossyAfterUtf8(a[n..], s);
      LossyOfGood(a + s, a[..n], a[n..] + s);
      Rejoin(a, n, Lossy(s));
    }
  }

  lemma LossyOfGood(s: seq<byte>, c: seq<byte>, rest: seq<byte>)
    requires s != [] && First(s) == Good(|c|) && s == c + rest
    ensures Lossy(s) == c + Lossy(rest)
  {
    assert s[..|c|] == c && s[|c|..] == rest;
  }

  lemma Rejoin(a: seq<byte>, n: nat, more: seq<byte>)
    requires n <= |a|
    ensures a[..n] + (a[n..] + more) == a + more
  {
  }

  /** Behind valid text, the longest start of a character that cannot go on becomes U+FFFD. */
  lemma LossyReplaces(text: seq<byte>, bad: seq<byte>, rest: seq<byte>)
    requires IsUtf8(text) && bad != [] && First(bad + rest) == Bad(|bad|)
    ensures Lossy(text + (bad + rest)) == text + ([0xEF, 0xBF, 0xBD] + Lossy(rest))
  {
    LossyAfterUtf8(text, bad + rest);
    assert (bad + rest)[|bad|..] == rest;
  }

  lemma Utf8Cons(c: seq<byte>, rest: seq<byte>)
    requires c != [] && First(c) == Good(|c|) && IsUtf8(rest)
    ensures IsUtf8(c + rest)
  {
    var s := c + rest;
    assert forall i :: 0 <= i < |c| ==> s[i] == c[i];
    assert First(s) == Good(|c|);
    assert s[|c|..] == rest;
  }

  /** What comes out of the lossy conversion is a Rust string. */
  lemma {:induction false} LossyIsUtf8(s: seq<byte>)
    ensures IsUtf8(Lossy(s))
  {
    if s != [] {
      var n := First(s).n;
      LossyIsUtf8(s[n..]);
      if First(s).Good? {
        assert First(s[..n]) == Good(n);
        Utf8Cons(s[..n], Lossy(s[n..]));
      } else {
        Utf8Cons(REPLACEMENT, Lossy(s[n..]));
      }
    }
  }
}
