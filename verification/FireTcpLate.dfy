/** What an unanswered poll of the firetcp writer does to the data that follows. Its keystream
    is spent, so the bytes accepted later in the same phase are masked from too far ahead. */
module FireTcpLate {
  import opened Bytes
  import opened Keystreams
  import opened Io
  import opened FireTcp
  import opened FireTcpRuns

  /** Whether byte j was accepted after a poll of the same phase that cost keystream. */
  predicate Late(initial: nat, scratch: nat, ops: seq<WriteOp>, j: nat) {
    if ops == [] then false
    else
      var before := ops[..|ops| - 1];
      if j < |Accepted(before)| then Late(initial, scratch, before, j)
      else Harmed(initial, scratch, before)
  }

  lemma AcceptedSnoc(ops: seq<WriteOp>, j: nat)
    requires ops != [] && j < |Accepted(ops)|
    ensures var n := |ops| - 1;
      var a := |Accepted(ops[..n])|;
      if j < a then Accepted(ops)[j] == Accepted(ops[..n])[j]
      else j - a < |Taken(ops[n])| && Accepted(ops)[j] == Taken(ops[n])[j - a]
  {
    var n := |ops| - 1;
    IndexInConcat(Accepted(ops[..n]), Taken(ops[n]), Accepted(ops), j);
  }

  // ---- one byte, whatever the ciphers -------------------------------------------------------

  /** The keystream byte `d` places after the one for byte j of the connection. */
  function Key(initial: nat, first: Tap, second: Option<Tap>, j: nat, d: nat): byte {
    if j < initial then first.ks(first.base + j + d)
    else if second.Some? then second.value.ks(second.value.base + (j - initial) + d)
    else 0
  }

  /** How far ahead the cipher was when it masked byte j. */
  ghost function DriftAt(vs: seq<WriterView>, ops: seq<WriteOp>, j: nat): nat
    requires |vs| == |ops| + 1 && j < |Accepted(ops)|
    decreases ops
  {
    AcceptedSnoc(ops, j);
    var n := |ops| - 1;
    if j < |Accepted(ops[..n])| then DriftAt(vs[..n + 1], ops[..n], j) else vs[n].drift
  }

  lemma {:induction false} LateIsDrift(initial: nat, scratch: nat, first: Tap,
                                       vs: seq<WriterView>, ops: seq<WriteOp>, j: nat)
    requires WriteRun(initial, scratch, first, vs, ops) && j < |Accepted(ops)|
    ensures DriftAt(vs, ops, j) > 0 <==> Late(initial, scratch, ops, j)
    decreases ops
  {
    AcceptedSnoc(ops, j);
    var n := |ops| - 1;
    if j < |Accepted(ops[..n])| {
      LateIsDrift(initial, scratch, first, vs[..n + 1], ops[..n], j);
    } else {
      DriftIsHarm(initial, scratch, first, vs[..n + 1], ops[..n]);
    }
  }

  /** One step puts what it takes on the wire, each byte masked with its key. */
  lemma StepPlaces(initial: nat, scratch: nat, first: Tap, v: WriterView, op: WriteOp,
                   v': WriterView, on: bool, chosen: Option<Tap>, k: nat)
    requires WriteStep(initial, scratch, first, v, op, v') && Holds(initial, v.end, on, chosen)
    requires k < |Taken(op)|
    ensures |v'.wire| == |v.wire| + |Taken(op)| && v.wire <= v'.wire
    ensures v'.wire[|v.wire| + k] ==
            Xor(Taken(op)[k], Key(initial, first, chosen, v.end.passed + k, v.drift))
    ensures on ==> v.end.passed + k < initial
  {
    XorInvolutive(Taken(op)[k], 0);
  }

  lemma StepExtends(initial: nat, scratch: nat, first: Tap, v: WriterView, op: WriteOp, v': WriterView)
    requires WriteStep(initial, scratch, first, v, op, v')
    ensures |v'.wire| == |v.wire| + |Taken(op)| && v.wire <= v'.wire
  {
  }

  lemma {:induction false} WireLength(initial: nat, scratch: nat, first: Tap,
                                      vs: seq<WriterView>, ops: seq<WriteOp>)
    requires WriteRun(initial, scratch, first, vs, ops)
    ensures |vs[|ops|].wire| == |Accepted(ops)|
    decreases ops
  {
    if ops != [] {
      var n := |ops| - 1;
      WireLength(initial, scratch, first, vs[..n + 1], ops[..n]);
      StepExtends(initial, scratch, first, vs[n], ops[n], vs[n + 1]);
    }
  }

  /** A byte beyond the first phase was accepted when the choice had been made. */
  lemma KeyStays(initial: nat, scratch: nat, first: Tap, vs: seq<WriterView>, ops: seq<WriteOp>,
                 j: nat, d: nat)
    requires WriteRun(initial, scratch, first, vs, ops) && ops != []
    requires j < |Accepted(ops[..|ops| - 1])|
    ensures Key(initial, first, Chosen(initial, ops), j, d) ==
            Key(initial, first, Chosen(initial, ops[..|ops| - 1]), j, d)
  {
    WriterTakesChosen(initial, scratch, first, vs[..|ops|], ops[..|ops| - 1]);
  }

  lemma {:induction false} WireAt(initial: nat, scratch: nat, first: Tap,
                                  vs: seq<WriterView>, ops: seq<WriteOp>, j: nat)
    requires WriteRun(initial, scratch, first, vs, ops) && j < |Accepted(ops)|
    ensures |vs[|ops|].wire| == |Accepted(ops)|
    ensures vs[|ops|].wire[j] ==
            Xor(Accepted(ops)[j], Key(initial, first, Chosen(initial, ops), j, DriftAt(vs, ops, j)))
    decreases ops
  {
    var n := |ops| - 1;
    var before, vs1, a := ops[..n], vs[..n + 1], |Accepted(ops[..n])|;
    assert vs1[|before|] == vs[n] && vs[|ops|] == vs[n + 1];
    AcceptedSnoc(ops, j);
    WireLength(initial, scratch, first, vs, ops);
    WireLength(initial, scratch, first, vs1, before);
    StepExtends(initial, scratch, first, vs[n], ops[n], vs[n + 1]);
    if j < a {
      WireAt(initial, scratch, first, vs1, before, j);
      KeyStays(initial, scratch, first, vs, ops, j, DriftAt(vs1, before, j));
      assert vs[n + 1].wire[j] == vs[n].wire[j];
    } else {
      FreshByte(initial, scratch, first, vs, ops, j);
    }
  }

  /** A byte that the last call took. */
  lemma FreshByte(initial: nat, scratch: nat, first: Tap,
                  vs: seq<WriterView>, ops: seq<WriteOp>, j: nat)
    requires WriteRun(initial, scratch, first, vs, ops) && ops != []
    requires |Accepted(ops[..|ops| - 1])| <= j < |Accepted(ops)| == |vs[|ops|].wire|
    requires |vs[|ops| - 1].wire| == |Accepted(ops[..|ops| - 1])|
    ensures vs[|ops|].wire[j] ==
            Xor(Accepted(ops)[j], Key(initial, first, Chosen(initial, ops), j, vs[|ops| - 1].drift))
  {
    var n := |ops| - 1;
    var before := ops[..n];
    var k := j - |Accepted(before)|;
    AcceptedSnoc(ops, j);
    WriterTakesChosen(initial, scratch, first, vs[..n + 1], before);
    assert Chosen(initial, ops) == Chosen(initial, before);
    StepPlacesAt(initial, scratch, first, vs[n], ops[n], vs[n + 1],
                 StillFirst(initial, before), Chosen(initial, ops), j, Accepted(ops)[j]);
  }

  lemma StepPlacesAt(initial: nat, scratch: nat, first: Tap, v: WriterView, op: WriteOp,
                     v': WriterView, on: bool, chosen: Option<Tap>, j: nat, b: byte)
    requires WriteStep(initial, scratch, first, v, op, v') && Holds(initial, v.end, on, chosen)
    requires v.end.passed == |v.wire| <= j < |v.wire| + |Taken(op)| && b == Taken(op)[j - |v.wire|]
    requires j < |v'.wire|
    ensures v'.wire[j] == Xor(b, Key(initial, first, chosen, j, v.drift))
  {
    StepPlaces(initial, scratch, first, v, op, v', on, chosen, j - |v.wire|);
  }

  /** What a reader with the ciphers of the connection makes of byte j of the wire. */
  function ReadAt(initial: nat, first: Tap, second: Option<Tap>, wire: seq<byte>, j: nat): byte
    requires j < |wire|
  {
    Xor(wire[j], Key(initial, first, second, j, 0))
  }

  lemma ReadOf(initial: nat, first: Tap, second: Option<Tap>, wire: seq<byte>, j: nat, b: byte, d: nat)
    requires j < |wire| && wire[j] == Xor(b, Key(initial, first, second, j, d))
    ensures ReadAt(initial, first, second, wire, j) == b <==>
            Key(initial, first, second, j, d) == Key(initial, first, second, j, 0)
  {
    XorTwice(b, Key(initial, first, second, j, d), Key(initial, first, second, j, 0));
  }

  /** The reader recovers byte j exactly if its keystream byte and the one used agree. */
  lemma ReadExact(initial: nat, scratch: nat, first: Tap,
                  vs: seq<WriterView>, ops: seq<WriteOp>, j: nat)
    requires WriteRun(initial, scratch, first, vs, ops) && j < |Accepted(ops)|
    ensures |vs[|ops|].wire| == |Accepted(ops)|
    ensures var second := Chosen(initial, ops);
      ReadAt(initial, first, second, vs[|ops|].wire, j) == Accepted(ops)[j] <==>
      Key(initial, first, second, j, DriftAt(vs, ops, j)) == Key(initial, first, second, j, 0)
  {
    WireAt(initial, scratch, first, vs, ops, j);
    ReadOf(initial, first, Chosen(initial, ops), vs[|ops|].wire, j, Accepted(ops)[j], DriftAt(vs, ops, j));
  }

  // ---- the same calls with other ciphers ------------------------------------------------------

  ghost predicate SameCall(a: WriteOp, b: WriteOp) {
    match (a, b)
    case (SetCipher(c), SetCipher(d)) => c.Some? == d.Some?
    case _ => a == b
  }

  ghost predicate SameCalls(a: seq<WriteOp>, b: seq<WriteOp>)
    decreases a
  {
    && |a| == |b|
    && (a == [] ||
        (SameCalls(a[..|a| - 1], b[..|b| - 1]) && SameCall(a[|a| - 1], b[|b| - 1])))
  }

  lemma {:induction false} SameOutcome(initial: nat, a: seq<WriteOp>, b: seq<WriteOp>)
    requires SameCalls(a, b)
    ensures Accepted(a) == Accepted(b) && Answered(a) == Answered(b)
    ensures StillFirst(initial, a) == StillFirst(initial, b)
    ensures Chosen(initial, a).Some? == Chosen(initial, b).Some?
    decreases a
  {
    if a != [] {
      SameOutcome(initial, a[..|a| - 1], b[..|b| - 1]);
    }
  }

  lemma {:induction false} SameHarm(initial: nat, scratch: nat, a: seq<WriteOp>, b: seq<WriteOp>)
    requires SameCalls(a, b)
    ensures Harmed(initial, scratch, a) == Harmed(initial, scratch, b)
    decreases a
  {
    if a != [] {
      SameHarm(initial, scratch, a[..|a| - 1], b[..|b| - 1]);
      SameOutcome(initial, a[..|a| - 1], b[..|b| - 1]);
      SameOutcome(initial, a, b);
    }
  }

  lemma {:induction false} SameLate(initial: nat, scratch: nat, a: seq<WriteOp>, b: seq<WriteOp>, j: nat)
    requires SameCalls(a, b)
    ensures Late(initial, scratch, a, j) == Late(initial, scratch, b, j)
    decreases a
  {
    if a != [] {
      SameLate(initial, scratch, a[..|a| - 1], b[..|b| - 1], j);
      SameOutcome(initial, a[..|a| - 1], b[..|b| - 1]);
      SameHarm(initial, scratch, a[..|a| - 1], b[..|b| - 1]);
    }
  }

  // ---- a run with one cipher throughout -------------------------------------------------------

  ghost predicate Swapped(c: Option<Tap>, t: Tap, d: Option<Tap>) {
    d == if c.Some? then Some(t) else None
  }

  /** `u` is `v` with cipher `t` in the place of every other. */
  ghost predicate Parallel(v: WriterView, t: Tap, u: WriterView) {
    && u.end.passed == v.end.passed && u.drift == v.drift
    && Swapped(v.end.pending, t, u.end.pending)
    && match v.end.phase
       case Starting(left) => u.end.phase == Starting(left)
       case Running(c) => u.end.phase.Running? && Swapped(c, t, u.end.phase.cipher)
  }

  lemma ParallelStep(initial: nat, scratch: nat, first: Tap, v: WriterView, op: WriteOp, v': WriterView,
                     t: Tap, u: WriterView)
    returns (op': WriteOp, u': WriterView)
    requires WriteStep(initial, scratch, first, v, op, v') && Parallel(v, t, u)
    ensures WriteStep(initial, scratch, t, u, op', u') && Parallel(v', t, u') && SameCall(op, op')
    ensures op'.SetCipher? && op'.c.Some? ==> op'.c.value == t
  {
    match op {
      case SetCipher(c) =>
        op' := SetCipher(if c.Some? then Some(t) else None);
        u' := u.(end := match Choose(u.end, op'.c) case Ok(e) => e case Err => u.end);
      case Write(buf, res) =>
        op' := op;
        if buf == [] || !res.Ready? {
          u' := u.(drift := v'.drift);
        } else {
          var e := Advance(u.end, res.n);
          u' := WriterView(u.wire + Through(initial, t, u.end, u.drift, buf[..res.n]), e, v'.drift);
        }
    }
  }

  lemma {:induction false} OtherCipher(initial: nat, scratch: nat, first: Tap,
                                       vs: seq<WriterView>, ops: seq<WriteOp>, t: Tap)
    returns (us: seq<WriterView>, ops': seq<WriteOp>)
    requires WriteRun(initial, scratch, first, vs, ops)
    ensures WriteRun(initial, scratch, t, us, ops') && SameCalls(ops, ops')
    ensures Chosen(initial, ops').Some? ==> Chosen(initial, ops').value == t
    ensures Parallel(vs[|ops|], t, us[|ops'|])
    decreases ops
  {
    if ops == [] {
      us, ops' := [WriterView([], Fresh(initial), 0)], [];
    } else {
      var n := |ops| - 1;
      var us1, ops1 := OtherCipher(initial, scratch, first, vs[..n + 1], ops[..n], t);
      var op, u := ParallelStep(initial, scratch, first, vs[n], ops[n], vs[n + 1], t, us1[n]);
      us, ops' := us1 + [u], ops1 + [op];
      assert us[..n + 1] == us1 && ops'[..n] == ops1;
    }
  }

  // ---- which bytes arrive -----------------------------------------------------------------------

  /** Whatever the ciphers, the reader recovers byte j of what these calls sent. */
  ghost predicate ByteArrives(initial: nat, scratch: nat, ops: seq<WriteOp>, j: nat)
    requires j < |Accepted(ops)|
  {
    forall first: Tap, vs: seq<WriterView>, ops': seq<WriteOp> ::
      SameCalls(ops, ops') && WriteRun(initial, scratch, first, vs, ops') ==>
      && j < |vs[|ops'|].wire|
      && ReadAt(initial, first, Chosen(initial, ops'), vs[|ops'|].wire, j) == Accepted(ops)[j]
  }

  lemma PunctualArrives(initial: nat, scratch: nat, first: Tap,
                        vs: seq<WriterView>, ops: seq<WriteOp>, j: nat)
    requires WriteRun(initial, scratch, first, vs, ops) && j < |Accepted(ops)|
    requires !Late(initial, scratch, ops, j)
    ensures j < |vs[|ops|].wire|
    ensures ReadAt(initial, first, Chosen(initial, ops), vs[|ops|].wire, j) == Accepted(ops)[j]
  {
    LateIsDrift(initial, scratch, first, vs, ops, j);
    ReadExact(initial, scratch, first, vs, ops, j);
  }

  /** A cipher whose keystream is zero but for byte j of the connection. */
  function Spike(initial: nat, j: nat): Tap {
    Tap((i: nat) => if i == (if j < initial then j else j - initial) then 1 else 0, 0)
  }

  /** A late byte has a cipher. */
  lemma LateIsMasked(initial: nat, scratch: nat, first: Tap,
                     vs: seq<WriterView>, ops: seq<WriteOp>, j: nat)
    requires WriteRun(initial, scratch, first, vs, ops) && j < |Accepted(ops)|
    requires Late(initial, scratch, ops, j) && j >= initial
    ensures Chosen(initial, ops).Some?
    decreases ops
  {
    var n := |ops| - 1;
    var before := ops[..n];
    WriterTakesChosen(initial, scratch, first, vs[..n + 1], before);
    AcceptedSnoc(ops, j);
    if j < |Accepted(before)| {
      LateIsMasked(initial, scratch, first, vs[..n + 1], before, j);
    } else {
      StepPlaces(initial, scratch, first, vs[n], ops[n], vs[n + 1],
                 StillFirst(initial, before), Chosen(initial, before), j - |Accepted(before)|);
      HarmedHasCipher(initial, scratch, before);
    }
  }

  lemma {:induction false} HarmedHasCipher(initial: nat, scratch: nat, ops: seq<WriteOp>)
    requires Harmed(initial, scratch, ops) && !StillFirst(initial, ops)
    ensures Chosen(initial, ops).Some?
    decreases ops
  {
    var n := |ops| - 1;
    if Harmed(initial, scratch, ops[..n]) {
      HarmedHasCipher(initial, scratch, ops[..n]);
    }
  }

  lemma LateIsLost(initial: nat, scratch: nat, vs: seq<WriterView>, ops: seq<WriteOp>, j: nat)
    requires WriteRun(initial, scratch, Spike(initial, j), vs, ops) && j < |Accepted(ops)|
    requires Late(initial, scratch, ops, j)
    requires Chosen(initial, ops).Some? ==> Chosen(initial, ops).value == Spike(initial, j)
    ensures j < |vs[|ops|].wire|
    ensures ReadAt(initial, Spike(initial, j), Chosen(initial, ops), vs[|ops|].wire, j) != Accepted(ops)[j]
  {
    var t := Spike(initial, j);
    if j >= initial {
      LateIsMasked(initial, scratch, t, vs, ops, j);
    }
    LateIsDrift(initial, scratch, t, vs, ops, j);
    SpikeDiffers(initial, Chosen(initial, ops), j, DriftAt(vs, ops, j));
    ReadExact(initial, scratch, t, vs, ops, j);
  }

  lemma SpikeDiffers(initial: nat, second: Option<Tap>, j: nat, d: nat)
    requires d > 0 && (j >= initial ==> second == Some(Spike(initial, j)))
    ensures var t := Spike(initial, j);
      Key(initial, t, second, j, d) != Key(initial, t, second, j, 0)
  {
  }

  /** In every run an accepted byte arrives whatever the ciphers exactly if no poll of the same
      phase cost keystream before it. */
  lemma ByteArrivesExact(initial: nat, scratch: nat, first: Tap,
                         vs: seq<WriterView>, ops: seq<WriteOp>, j: nat)
    requires WriteRun(initial, scratch, first, vs, ops) && j < |Accepted(ops)|
    ensures ByteArrives(initial, scratch, ops, j) <==> !Late(initial, scratch, ops, j)
  {
    if !Late(initial, scratch, ops, j) {
      forall t: Tap, us: seq<WriterView>, ops': seq<WriteOp> |
        SameCalls(ops, ops') && WriteRun(initial, scratch, t, us, ops')
        ensures j < |us[|ops'|].wire|
        ensures ReadAt(initial, t, Chosen(initial, ops'), us[|ops'|].wire, j) == Accepted(ops)[j]
      {
        SameOutcome(initial, ops, ops');
        SameLate(initial, scratch, ops, ops', j);
        PunctualArrives(initial, scratch, t, us, ops', j);
      }
    } else {
      var us, ops' := OtherCipher(initial, scratch, first, vs, ops, Spike(initial, j));
      SameOutcome(initial, ops, ops');
      SameLate(initial, scratch, ops, ops', j);
      LateIsLost(initial, scratch, us, ops', j);
    }
  }

  /** Nothing is late exactly if no byte is. */
  ghost predicate NoByteLate(initial: nat, scratch: nat, ops: seq<WriteOp>) {
    forall j :: 0 <= j < |Accepted(ops)| ==> !Late(initial, scratch, ops, j)
  }

  lemma LateSnoc(initial: nat, scratch: nat, ops: seq<WriteOp>)
    requires ops != []
    ensures var before, last := ops[..|ops| - 1], ops[|ops| - 1];
      NoByteLate(initial, scratch, ops) <==>
        NoByteLate(initial, scratch, before) && (Taken(last) != [] ==> !Harmed(initial, scratch, before))
  {
    var before := ops[..|ops| - 1];
    var a := |Accepted(before)|;
    forall j | 0 <= j < |Accepted(ops)|
      ensures Late(initial, scratch, ops, j) ==
              if j < a then Late(initial, scratch, before, j) else Harmed(initial, scratch, before)
    {
    }
    if Taken(ops[|ops| - 1]) != [] {
      assert Late(initial, scratch, ops, a) == Harmed(initial, scratch, before);
    }
    if NoByteLate(initial, scratch, ops) {
      forall j | 0 <= j < a ensures !Late(initial, scratch, before, j) {
        assert !Late(initial, scratch, ops, j);
      }
    }
  }

  lemma {:induction false} NothingLateExact(initial: nat, scratch: nat, ops: seq<WriteOp>)
    ensures NothingLate(initial, scratch, ops) <==> NoByteLate(initial, scratch, ops)
    decreases ops
  {
    if ops != [] {
      NothingLateExact(initial, scratch, ops[..|ops| - 1]);
      LateSnoc(initial, scratch, ops);
    }
  }

  /** Whatever the ciphers, everything these calls sent arrives. */
  ghost predicate AllArrives(initial: nat, scratch: nat, ops: seq<WriteOp>) {
    forall j :: 0 <= j < |Accepted(ops)| ==> ByteArrives(initial, scratch, ops, j)
  }

  /** In every run everything accepted arrives whatever the ciphers exactly if no byte was
      accepted after a poll of the same phase that cost keystream. */
  lemma AllArrivesExact(initial: nat, scratch: nat, first: Tap,
                        vs: seq<WriterView>, ops: seq<WriteOp>)
    requires WriteRun(initial, scratch, first, vs, ops)
    ensures AllArrives(initial, scratch, ops) <==> NothingLate(initial, scratch, ops)
  {
    NothingLateExact(initial, scratch, ops);
    forall j | 0 <= j < |Accepted(ops)|
      ensures ByteArrives(initial, scratch, ops, j) <==> !Late(initial, scratch, ops, j)
    {
      ByteArrivesExact(initial, scratch, first, vs, ops, j);
    }
  }

  /** No poll after the change-over cost keystream. */
  predicate SecondUnharmed(initial: nat, scratch: nat, ops: seq<WriteOp>) {
    ops == [] ||
    var n := |ops| - 1;
    && SecondUnharmed(initial, scratch, ops[..n])
    && (!StillFirst(initial, ops[..n]) ==> !Costs(initial, scratch, ops[..n], ops[n]))
  }

  lemma {:induction false} UnharmedAgain(initial: nat, scratch: nat, ops: seq<WriteOp>)
    requires SecondUnharmed(initial, scratch, ops) && !StillFirst(initial, ops)
    ensures !Harmed(initial, scratch, ops)
    decreases ops
  {
    var n := |ops| - 1;
    if !StillFirst(initial, ops[..n]) {
      UnharmedAgain(initial, scratch, ops[..n]);
    }
  }

  /** Whatever went wrong in the first phase, bytes after the change-over arrive again. */
  lemma {:induction false} SecondPhaseArrives(initial: nat, scratch: nat, first: Tap,
                                              vs: seq<WriterView>, ops: seq<WriteOp>, j: nat)
    requires WriteRun(initial, scratch, first, vs, ops) && SecondUnharmed(initial, scratch, ops)
    requires initial <= j < |Accepted(ops)|
    ensures !Late(initial, scratch, ops, j) && ByteArrives(initial, scratch, ops, j)
    decreases ops
  {
    var n := |ops| - 1;
    var before := ops[..n];
    AcceptedSnoc(ops, j);
    WriterTakesChosen(initial, scratch, first, vs[..n + 1], before);
    if j < |Accepted(before)| {
      SecondPhaseArrives(initial, scratch, first, vs[..n + 1], before, j);
    } else {
      StepPlaces(initial, scratch, first, vs[n], ops[n], vs[n + 1],
                 StillFirst(initial, before), Chosen(initial, before), j - |Accepted(before)|);
      UnharmedAgain(initial, scratch, before);
    }
    ByteArrivesExact(initial, scratch, first, vs, ops, j);
  }
}
