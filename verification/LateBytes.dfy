/** What a failed poll of the cipher stream does to the data that follows. The cipher has moved
    on by what was on offer, so bytes accepted later are masked from too far ahead. */
module LateBytes {
  import opened Bytes
  import opened Keystreams
  import opened CipherStreams
  import opened Io

  /** Whether byte j of a writer that starts at position `at` comes after a poll that
      was not harmless. */
  predicate Late(s: EncryptionStrategy, at: nat, lost: bool, calls: seq<WriteCall>, j: nat)
    decreases calls
  {
    if calls == [] then lost
    else
      var n := |Taken(calls[0])|;
      if j < n then lost
      else Late(s, at + n, lost || !Harmless(s, at, calls[0]), calls[1..], j - n)
  }

  /** No byte was accepted after the first poll that was not harmless. */
  predicate NothingLate(s: EncryptionStrategy, at: nat, calls: seq<WriteCall>)
    decreases calls
  {
    if calls == [] then true
    else if Harmless(s, at, calls[0]) then NothingLate(s, at + |Taken(calls[0])|, calls[1..])
    else Accepted(calls[1..]) == []
  }

  /** The wire grows by as many bytes as were accepted. */
  lemma {:induction false} WireExtends(s: EncryptionStrategy, ks: Keystream,
                                       v: WriteView, calls: seq<WriteCall>, v': WriteView)
    requires WriteRun(s, ks, v, calls, v')
    ensures |v'.wire| == |v.wire| + |Accepted(calls)| && v.wire <= v'.wire
    decreases calls
  {
    if calls != [] {
      WireExtends(s, ks, Next(s, ks, v, calls[0]), calls[1..], v');
    }
  }

  /** The same polls are possible under any other keystream. */
  lemma {:induction false} OtherKeystream(s: EncryptionStrategy, ks: Keystream, v: WriteView,
                                          calls: seq<WriteCall>, v': WriteView,
                                          ks1: Keystream, u: WriteView)
    returns (u': WriteView)
    requires WriteRun(s, ks, v, calls, v')
    requires u.position == v.position && u.lastWritten == v.lastWritten
    ensures WriteRun(s, ks1, u, calls, u')
    decreases calls
  {
    if calls == [] {
      u' := u;
    } else {
      u' := OtherKeystream(s, ks, Next(s, ks, v, calls[0]), calls[1..], v', ks1, Next(s, ks1, u, calls[0]));
    }
  }

  // ---- one byte --------------------------------------------------------------------------

  function KeyAt(masks: Keystream, i: nat): byte {
    masks(i)
  }

  /** Where the cipher stood when it masked accepted byte j. */
  function Place(s: EncryptionStrategy, ks: Keystream, v: WriteView, calls: seq<WriteCall>, j: nat): nat
    decreases calls
  {
    if calls == [] then v.position + j
    else
      var n := |Taken(calls[0])|;
      if j < n then v.position + j else Place(s, ks, Next(s, ks, v, calls[0]), calls[1..], j - n)
  }

  lemma StepLoses(s: EncryptionStrategy, ks: Keystream, at: nat, lost: bool,
                  v: WriteView, c: WriteCall, v': WriteView)
    requires WriteStep(s, ks, v, c, v') && v.position >= at && (v.position > at <==> lost)
    ensures var at' := at + |Taken(c)|;
      v'.position >= at' && (v'.position > at' <==> lost || !Harmless(s, at, c))
  {
    StepKeeps(s, ks, v, c, v');
  }

  /** For a writer that should have started at `at` that is the byte's own place exactly if it
      is not late, and else a later one. */
  lemma {:induction false} LateIsFurther(s: EncryptionStrategy, ks: Keystream, at: nat, lost: bool,
                                         v: WriteView, calls: seq<WriteCall>, v': WriteView, j: nat)
    requires WriteRun(s, ks, v, calls, v')
    requires v.position >= at && (v.position > at <==> lost)
    ensures Place(s, ks, v, calls, j) >= at + j
    ensures Place(s, ks, v, calls, j) > at + j <==> Late(s, at, lost, calls, j)
    decreases calls
  {
    if calls != [] && j >= |Taken(calls[0])| {
      var c, n := calls[0], |Taken(calls[0])|;
      var mid := Next(s, ks, v, c);
      StepLoses(s, ks, at, lost, v, c, mid);
      LateIsFurther(s, ks, at + n, lost || !Harmless(s, at, c), mid, calls[1..], v', j - n);
    }
  }

  /** The bytes that go out. */
  function Sent(s: EncryptionStrategy, ks: Keystream, v: WriteView, calls: seq<WriteCall>): (r: seq<byte>)
    ensures |r| == |Accepted(calls)|
    decreases calls
  {
    if calls == [] then []
    else
      Mask(s.Masks(ks), v.position, Taken(calls[0])) + Sent(s, ks, Next(s, ks, v, calls[0]), calls[1..])
  }

  lemma {:induction false} WireIsSent(s: EncryptionStrategy, ks: Keystream,
                                      v: WriteView, calls: seq<WriteCall>, v': WriteView)
    requires WriteRun(s, ks, v, calls, v')
    ensures v'.wire == v.wire + Sent(s, ks, v, calls)
    decreases calls
  {
    if calls != [] {
      var mid := Next(s, ks, v, calls[0]);
      var out := Mask(s.Masks(ks), v.position, Taken(calls[0]));
      StepSends(s, ks, v, calls[0], mid);
      WireIsSent(s, ks, mid, calls[1..], v');
      Regroup(v.wire, out, Sent(s, ks, mid, calls[1..]), mid.wire, v'.wire);
    }
  }

  lemma StepSends(s: EncryptionStrategy, ks: Keystream, v: WriteView, c: WriteCall, v': WriteView)
    requires WriteStep(s, ks, v, c, v')
    ensures v'.wire == v.wire + Mask(s.Masks(ks), v.position, Taken(c))
  {
    if !c.res.Ready? {
      assert v.wire + Mask(s.Masks(ks), v.position, []) == v.wire;
    }
  }

  lemma Regroup(a: seq<byte>, b: seq<byte>, c: seq<byte>, mid: seq<byte>, all: seq<byte>)
    requires mid == a + b && all == mid + c
    ensures all == a + (b + c)
  {
  }

  lemma {:induction false} SentAt(s: EncryptionStrategy, ks: Keystream, v: WriteView,
                                  calls: seq<WriteCall>, j: nat)
    requires j < |Accepted(calls)|
    ensures Sent(s, ks, v, calls)[j] ==
            Xor(Accepted(calls)[j], KeyAt(s.Masks(ks), Place(s, ks, v, calls, j)))
    decreases calls
  {
    var mid, n := Next(s, ks, v, calls[0]), |Taken(calls[0])|;
    var out := Mask(s.Masks(ks), v.position, Taken(calls[0]));
    IndexInConcat(out, Sent(s, ks, mid, calls[1..]), Sent(s, ks, v, calls), j);
    IndexInConcat(Taken(calls[0]), Accepted(calls[1..]), Accepted(calls), j);
    if j < n {
      MaskAt(s.Masks(ks), v.position, Taken(calls[0]), j);
    } else {
      SentAt(s, ks, mid, calls[1..], j - n);
    }
  }

  lemma MaskAt(masks: Keystream, at: nat, data: seq<byte>, j: nat)
    requires j < |data|
    ensures Mask(masks, at, data)[j] == Xor(data[j], KeyAt(masks, at + j))
  {
  }

  /** What a reader level with the writer at `v` makes of the byte that is j-th on the wire. */
  function ReadAt(s: EncryptionStrategy, ks: Keystream, v: WriteView, v': WriteView, j: nat): byte
    requires |v.wire| + j < |v'.wire|
  {
    Xor(v'.wire[|v.wire| + j], KeyAt(s.Masks(ks), v.position + j))
  }

  /** Under every keystream the reader recovers byte j. */
  ghost predicate ByteArrives(s: EncryptionStrategy, v: WriteView, calls: seq<WriteCall>, j: nat)
    requires j < |Accepted(calls)|
  {
    forall ks, v' :: WriteRun(s, ks, v, calls, v') ==>
      |v.wire| + j < |v'.wire| && ReadAt(s, ks, v, v', j) == Accepted(calls)[j]
  }

  /** The byte is late, and is encrypted. */
  predicate Spoiled(s: EncryptionStrategy, at: nat, calls: seq<WriteCall>, j: nat)
    requires j < |Accepted(calls)|
  {
    Late(s, at, false, calls, j) && s.Covers(at + j)
  }

  /** The reader recovers a byte exactly if it was masked as it should have been. */
  lemma ReadExact(s: EncryptionStrategy, ks: Keystream, v: WriteView,
                  calls: seq<WriteCall>, v': WriteView, j: nat)
    requires WriteRun(s, ks, v, calls, v') && j < |Accepted(calls)|
    ensures |v.wire| + j < |v'.wire|
    ensures ReadAt(s, ks, v, v', j) == Accepted(calls)[j] <==>
            KeyAt(s.Masks(ks), Place(s, ks, v, calls, j)) == KeyAt(s.Masks(ks), v.position + j)
  {
    WireIsSent(s, ks, v, calls, v');
    SentAt(s, ks, v, calls, j);
    ReadOf(s, ks, v, v', j, Accepted(calls)[j], Place(s, ks, v, calls, j));
  }

  lemma ReadOf(s: EncryptionStrategy, ks: Keystream, v: WriteView, v': WriteView, j: nat,
               b: byte, q: nat)
    requires |v.wire| + j < |v'.wire| && v'.wire[|v.wire| + j] == Xor(b, KeyAt(s.Masks(ks), q))
    ensures ReadAt(s, ks, v, v', j) == b <==>
            KeyAt(s.Masks(ks), q) == KeyAt(s.Masks(ks), v.position + j)
  {
    XorTwice(b, KeyAt(s.Masks(ks), q), KeyAt(s.Masks(ks), v.position + j));
  }

  lemma SameMask(s: EncryptionStrategy, ks: Keystream, here: nat, q: nat)
    requires q == here || (q > here && !s.Covers(here))
    ensures KeyAt(s.Masks(ks), q) == KeyAt(s.Masks(ks), here)
  {
    assert !s.Covers(here) ==> !s.Covers(q);
  }

  lemma UnspoiledArrives(s: EncryptionStrategy, ks: Keystream, v: WriteView,
                         calls: seq<WriteCall>, v': WriteView, j: nat)
    requires WriteRun(s, ks, v, calls, v') && j < |Accepted(calls)|
    requires !Spoiled(s, v.position, calls, j)
    ensures |v.wire| + j < |v'.wire| && ReadAt(s, ks, v, v', j) == Accepted(calls)[j]
  {
    SameKey(s, ks, v, calls, v', j);
    ReadExact(s, ks, v, calls, v', j);
  }

  lemma SameKey(s: EncryptionStrategy, ks: Keystream, v: WriteView,
                calls: seq<WriteCall>, v': WriteView, j: nat)
    requires WriteRun(s, ks, v, calls, v') && j < |Accepted(calls)|
    requires !Spoiled(s, v.position, calls, j)
    ensures KeyAt(s.Masks(ks), Place(s, ks, v, calls, j)) == KeyAt(s.Masks(ks), v.position + j)
  {
    LateIsFurther(s, ks, v.position, false, v, calls, v', j);
    SameMask(s, ks, v.position + j, Place(s, ks, v, calls, j));
  }

  /** A keystream that is zero but at one place. */
  function Spike(at: nat): Keystream {
    (i: nat) => if i == at then 1 else 0
  }

  lemma SpoiledIsLost(s: EncryptionStrategy, v: WriteView, calls: seq<WriteCall>, v': WriteView, j: nat)
    requires j < |Accepted(calls)| && Spoiled(s, v.position, calls, j)
    requires WriteRun(s, Spike(v.position + j), v, calls, v')
    ensures |v.wire| + j < |v'.wire|
    ensures ReadAt(s, Spike(v.position + j), v, v', j) != Accepted(calls)[j]
  {
    var ks := Spike(v.position + j);
    LateIsFurther(s, ks, v.position, false, v, calls, v', j);
    assert KeyAt(s.Masks(ks), Place(s, ks, v, calls, j)) == 0;
    ReadExact(s, ks, v, calls, v', j);
  }

  /** In every run of polls an accepted byte arrives under every keystream exactly if it is not
      late, or lies where the strategy does not encrypt any more. */
  lemma ByteArrivesExact(s: EncryptionStrategy, ks: Keystream, v: WriteView,
                         calls: seq<WriteCall>, v': WriteView, j: nat)
    requires WriteRun(s, ks, v, calls, v') && j < |Accepted(calls)|
    ensures ByteArrives(s, v, calls, j) <==> !Spoiled(s, v.position, calls, j)
  {
    if !Spoiled(s, v.position, calls, j) {
      forall ks1, u | WriteRun(s, ks1, v, calls, u)
        ensures |v.wire| + j < |u.wire| && ReadAt(s, ks1, v, u, j) == Accepted(calls)[j]
      {
        UnspoiledArrives(s, ks1, v, calls, u, j);
      }
    } else {
      var u := OtherKeystream(s, ks, v, calls, v', Spike(v.position + j), v);
      SpoiledIsLost(s, v, calls, u, j);
    }
  }

  // ---- the whole of what was accepted ------------------------------------------------------

  lemma WireJoins(masks: Keystream, wire: seq<byte>, at: nat, a: seq<byte>, b: seq<byte>,
                  mid: seq<byte>, wire': seq<byte>)
    requires mid == wire + Mask(masks, at, a) && wire' == mid + Mask(masks, at + |a|, b)
    ensures wire' == wire + Mask(masks, at, a + b)
  {
    MaskConcat(masks, at, a, b);
  }

  /** With nothing late the wire holds what was accepted, masked. */
  lemma {:induction false} NothingLateMasks(s: EncryptionStrategy, ks: Keystream,
                                            v: WriteView, calls: seq<WriteCall>, v': WriteView)
    requires WriteRun(s, ks, v, calls, v') && NothingLate(s, v.position, calls)
    ensures v'.wire == v.wire + Mask(s.Masks(ks), v.position, Accepted(calls))
    decreases calls
  {
    if calls != [] {
      var masks, c, rest := s.Masks(ks), calls[0], Accepted(calls[1..]);
      var mid := Next(s, ks, v, c);
      StepKeeps(s, ks, v, c, mid);
      if Harmless(s, v.position, c) {
        NothingLateMasks(s, ks, mid, calls[1..], v');
        WireJoins(masks, v.wire, v.position, Taken(c), rest, mid.wire, v'.wire);
      } else {
        WireExtends(s, ks, mid, calls[1..], v');
        assert Accepted(calls) == [] && v'.wire == v.wire;
      }
    }
  }

  lemma {:induction false} AllLate(s: EncryptionStrategy, at: nat, calls: seq<WriteCall>)
    ensures forall j :: 0 <= j < |Accepted(calls)| ==> Late(s, at, true, calls, j)
    decreases calls
  {
    if calls != [] {
      AllLate(s, at + |Taken(calls[0])|, calls[1..]);
    }
  }

  /** The first late byte stands where the failed poll stood, and so it is encrypted. */
  lemma {:induction false} FirstLate(s: EncryptionStrategy, at: nat, calls: seq<WriteCall>) returns (j: nat)
    requires !NothingLate(s, at, calls)
    ensures j < |Accepted(calls)| && Spoiled(s, at, calls, j)
    decreases calls
  {
    var c := calls[0];
    var n := |Taken(c)|;
    if Harmless(s, at, c) {
      j := FirstLate(s, at + n, calls[1..]);
      j := j + n;
      assert at + n + (j - n) == at + j;
    } else {
      j := 0;
      AllLate(s, at, calls[1..]);
    }
  }

  /** Under every keystream the wire holds what was accepted, masked. */
  ghost predicate AllArrives(s: EncryptionStrategy, v: WriteView, calls: seq<WriteCall>) {
    forall ks, v' :: WriteRun(s, ks, v, calls, v') ==>
      v'.wire == v.wire + Mask(s.Masks(ks), v.position, Accepted(calls))
  }

  lemma MaskedIsRead(s: EncryptionStrategy, ks: Keystream, v: WriteView, plain: seq<byte>,
                     v': WriteView, j: nat)
    requires v'.wire == v.wire + Mask(s.Masks(ks), v.position, plain) && j < |plain|
    ensures ReadAt(s, ks, v, v', j) == plain[j]
  {
    assert v'.wire[|v.wire| + j] == Xor(plain[j], KeyAt(s.Masks(ks), v.position + j));
    XorInvolutive(plain[j], KeyAt(s.Masks(ks), v.position + j));
  }

  /** Over every run of polls, everything accepted goes out right under every keystream exactly
      if no byte was accepted after the first poll that was not harmless. */
  lemma AllArrivesExact(s: EncryptionStrategy, ks: Keystream, v: WriteView,
                        calls: seq<WriteCall>, v': WriteView)
    requires WriteRun(s, ks, v, calls, v')
    ensures AllArrives(s, v, calls) <==> NothingLate(s, v.position, calls)
  {
    if NothingLate(s, v.position, calls) {
      forall ks1, u | WriteRun(s, ks1, v, calls, u)
        ensures u.wire == v.wire + Mask(s.Masks(ks1), v.position, Accepted(calls))
      {
        NothingLateMasks(s, ks1, v, calls, u);
      }
    } else {
      var j := FirstLate(s, v.position, calls);
      var spike := Spike(v.position + j);
      var u := OtherKeystream(s, ks, v, calls, v', spike, v);
      SpoiledIsLost(s, v, calls, u, j);
      if u.wire == v.wire + Mask(s.Masks(spike), v.position, Accepted(calls)) {
        MaskedIsRead(s, spike, v, Accepted(calls), u, j);
      }
    }
  }

  // ---- an example --------------------------------------------------------------------------

  /** One failed poll is enough to deliver wrong data: the cipher has moved on, and when the
      byte 7 is written again the reader gets something else, unless the first two keystream
      bytes happen to be equal. */
  lemma FailedPollLosesPosition(ks: Keystream)
    ensures var v, calls := WriteView([], 0, None), [WriteCall([7], Error), WriteCall([7], Ready(1))];
      var wire := Mask(ks, 1, [7]);
      var got := Mask(ks, 0, wire);
      && WriteRun(Always, ks, v, calls, WriteView(wire, 2, Some(1))) && Accepted(calls) == [7]
      && ReadRun(Always, ks, 0, [ReadCall(wire, got)])
      && (got == [7] <==> ks(0) == ks(1))
  {
    SevenWritten(ks);
    SevenRead(ks);
    var v, v1 := WriteView([], 0, None), WriteView([], 1, None);
    var c1, c2 := WriteCall([7], Error), WriteCall([7], Ready(1));
    assert [c1, c2][1..] == [c2] && Next(Always, ks, v, c1) == v1;
  }

  lemma SevenWritten(ks: Keystream)
    ensures var c := WriteCall([7], Ready(1));
      var v' := WriteView(Mask(ks, 1, [7]), 2, Some(1));
      WriteRun(Always, ks, WriteView([], 1, None), [c], v') && Accepted([c]) == [7]
  {
    var c, wire := WriteCall([7], Ready(1)), Mask(ks, 1, [7]);
    assert [c][1..] == [] && [7][..1] == [7] && [7] + Accepted([]) == [7];
    assert Mask(Always.Masks(ks), 1, [7]) == wire && [] + wire == wire;
  }

  lemma SevenRead(ks: Keystream)
    ensures var wire := Mask(ks, 1, [7]);
      var got := Mask(ks, 0, wire);
      ReadRun(Always, ks, 0, [ReadCall(wire, got)]) && (got == [7] <==> ks(0) == ks(1))
  {
    var wire := Mask(ks, 1, [7]);
    assert [ReadCall(wire, Mask(ks, 0, wire))][1..] == [];
    assert Mask(Always.Masks(ks), 0, wire) == Mask(ks, 0, wire);
    XorTwice(7, ks(1), ks(0));
    assert Mask(ks, 0, wire)[0] == Xor(Xor(7, ks(1)), ks(0));
  }
}
