/** Whole runs of both ends of a firetcp stream: what goes out and what comes in, whichever
    ciphers are chosen, and whatever polls cost keystream without an answer. */
module FireTcpRuns {
  import opened Bytes
  import opened Keystreams
  import opened Io
  import opened FireTcp

  // ---- whole runs of the writer ---------------------------------------------------------

  /** Views before and after each of a sequence of operations. */
  ghost predicate WriteRun(initial: nat, scratch: nat, first: Tap,
                           vs: seq<WriterView>, ops: seq<WriteOp>)
    decreases ops
  {
    && |vs| == |ops| + 1
    && if ops == [] then vs[0] == WriterView([], Fresh(initial), 0)
       else
         var n := |ops| - 1;
         && WriteRun(initial, scratch, first, vs[..n + 1], ops[..n])
         && WriteStep(initial, scratch, first, vs[n], ops[n], vs[n + 1])
  }

  /** The plaintext the caller was told went out. */
  function Accepted(ops: seq<WriteOp>): seq<byte> {
    if ops == [] then [] else Accepted(ops[..|ops| - 1]) + Taken(ops[|ops| - 1])
  }

  function Taken(op: WriteOp): seq<byte> {
    if op.Write? && op.res.Ready? && op.res.n <= |op.buf| then op.buf[..op.res.n] else []
  }

  ghost predicate NeverDrifts(vs: seq<WriterView>) {
    forall i :: 0 <= i < |vs| ==> vs[i].drift == 0
  }

  // ---- which cipher takes over, writing ---------------------------------------------------

  predicate Answered(ops: seq<WriteOp>) {
    if ops == [] then false
    else
      var op := ops[|ops| - 1];
      (op.Write? && op.buf != [] && op.res.Ready?) || Answered(ops[..|ops| - 1])
  }

  /** The first phase is not over: less than `initial` bytes were accepted; a first phase
      without bytes ends with the first write that is answered with a count. */
  predicate StillFirst(initial: nat, ops: seq<WriteOp>) {
    if initial > 0 then |Accepted(ops)| < initial else !Answered(ops)
  }

  /** The last cipher set before the first phase was over. */
  function Chosen(initial: nat, ops: seq<WriteOp>): Option<Tap> {
    if ops == [] then None
    else
      var n := |ops| - 1;
      if ops[n].SetCipher? && StillFirst(initial, ops[..n]) then ops[n].c
      else Chosen(initial, ops[..n])
  }

  /** `e` is in the phase, and has the cipher, that a first phase which is still on (or not)
      and the choice made in it call for. */
  ghost predicate Holds(initial: nat, e: End, first: bool, chosen: Option<Tap>) {
    Counts(initial, e) &&
    if first then e.phase.Starting? && e.pending == chosen else e.phase == Running(chosen)
  }

  lemma AdvanceHolds(initial: nat, e: End, on: bool, chosen: Option<Tap>, n: nat)
    requires Holds(initial, e, on, chosen) && (on ==> n <= e.phase.left)
    ensures Holds(initial, Advance(e, n), initial > 0 && e.passed + n < initial, chosen)
  {
  }

  lemma WriteStepHolds(initial: nat, scratch: nat, first: Tap, v: WriterView, op: WriteOp,
                       v': WriterView, on: bool, chosen: Option<Tap>)
    requires WriteStep(initial, scratch, first, v, op, v') && Holds(initial, v.end, on, chosen)
    ensures v'.end.passed == v.end.passed + |Taken(op)|
    ensures Holds(initial, v'.end,
                  if initial > 0 then v'.end.passed < initial
                  else on && !(op.Write? && op.buf != [] && op.res.Ready?),
                  if op.SetCipher? && on then op.c else chosen)
  {
    if op.Write? && op.buf != [] && op.res.Ready? {
      AdvanceHolds(initial, v.end, on, chosen, op.res.n);
    }
  }

  /** Over every run the writer has changed over exactly when the first phase is over, to the
      cipher chosen last in it. */
  lemma {:induction false} WriterTakesChosen(initial: nat, scratch: nat, first: Tap,
                                             vs: seq<WriterView>, ops: seq<WriteOp>)
    requires WriteRun(initial, scratch, first, vs, ops)
    ensures Holds(initial, vs[|ops|].end, StillFirst(initial, ops), Chosen(initial, ops))
    ensures vs[|ops|].end.passed == |Accepted(ops)|
    decreases ops
  {
    if ops != [] {
      var n := |ops| - 1;
      var before := ops[..n];
      WriterTakesChosen(initial, scratch, first, vs[..n + 1], before);
      WriteStepHolds(initial, scratch, first, vs[n], ops[n], vs[n + 1],
                     StillFirst(initial, before), Chosen(initial, before));
    }
  }

  // ---- polls that cost keystream ------------------------------------------------------------

  /** After `before`, this poll is not answered with a count and so keystream is lost: anything
      on offer in a first phase with bytes, or to a second cipher. */
  predicate Costs(initial: nat, scratch: nat, before: seq<WriteOp>, op: WriteOp) {
    op.Write? && !op.res.Ready? && op.buf != [] &&
    if StillFirst(initial, before) then initial > 0 else scratch > 0 && Chosen(initial, before).Some?
  }

  predicate AllHarmless(initial: nat, scratch: nat, ops: seq<WriteOp>) {
    ops == [] ||
    var n := |ops| - 1;
    AllHarmless(initial, scratch, ops[..n]) && !Costs(initial, scratch, ops[..n], ops[n])
  }

  /** A poll of the phase that is still on has cost keystream; the change-over to the second
      cipher makes up for it. */
  predicate Harmed(initial: nat, scratch: nat, ops: seq<WriteOp>) {
    if ops == [] then false
    else
      var n := |ops| - 1;
      && !(StillFirst(initial, ops[..n]) && !StillFirst(initial, ops))
      && (Harmed(initial, scratch, ops[..n]) || Costs(initial, scratch, ops[..n], ops[n]))
  }

  /** No byte was accepted after a poll of the same phase that cost keystream. */
  predicate NothingLate(initial: nat, scratch: nat, ops: seq<WriteOp>) {
    ops == [] ||
    var n := |ops| - 1;
    && NothingLate(initial, scratch, ops[..n])
    && (Taken(ops[n]) != [] ==> !Harmed(initial, scratch, ops[..n]))
  }

  lemma StepDrift(initial: nat, scratch: nat, first: Tap, v: WriterView, op: WriteOp, v': WriterView,
                  on: bool, chosen: Option<Tap>)
    requires WriteStep(initial, scratch, first, v, op, v') && Holds(initial, v.end, on, chosen)
    ensures v'.drift > 0 <==>
            && !(on && v'.end.phase.Running?)
            && (v.drift > 0 ||
                (op.Write? && !op.res.Ready? && op.buf != [] &&
                 if on then initial > 0 else scratch > 0 && chosen.Some?))
  {
  }

  /** Over every run the writer is out of step exactly if a poll of the phase has cost
      keystream, which shows in the operations alone. */
  lemma {:induction false} DriftIsHarm(initial: nat, scratch: nat, first: Tap,
                                       vs: seq<WriterView>, ops: seq<WriteOp>)
    requires WriteRun(initial, scratch, first, vs, ops)
    ensures vs[|ops|].drift > 0 <==> Harmed(initial, scratch, ops)
    decreases ops
  {
    if ops != [] {
      var n := |ops| - 1;
      var before := ops[..n];
      DriftIsHarm(initial, scratch, first, vs[..n + 1], before);
      WriterTakesChosen(initial, scratch, first, vs[..n + 1], before);
      WriterTakesChosen(initial, scratch, first, vs, ops);
      StepDrift(initial, scratch, first, vs[n], ops[n], vs[n + 1],
                StillFirst(initial, before), Chosen(initial, before));
    }
  }

  lemma {:induction false} HarmlessIsUnharmed(initial: nat, scratch: nat, ops: seq<WriteOp>)
    requires AllHarmless(initial, scratch, ops)
    ensures !Harmed(initial, scratch, ops) && NothingLate(initial, scratch, ops)
    decreases ops
  {
    if ops != [] {
      HarmlessIsUnharmed(initial, scratch, ops[..|ops| - 1]);
    }
  }

  lemma Prefix(vs: seq<WriterView>)
    requires vs != []
    ensures NeverDrifts(vs) <==> NeverDrifts(vs[..|vs| - 1]) && vs[|vs| - 1].drift == 0
  {
    var n := |vs| - 1;
    assert forall i :: 0 <= i < n ==> vs[..n][i] == vs[i];
  }

  /** Over every run of writes and cipher choices the writer is never out of step exactly if no
      poll cost keystream. */
  lemma {:induction false} NeverDriftsExact(initial: nat, scratch: nat, first: Tap,
                                            vs: seq<WriterView>, ops: seq<WriteOp>)
    requires WriteRun(initial, scratch, first, vs, ops)
    ensures NeverDrifts(vs) <==> AllHarmless(initial, scratch, ops)
    decreases ops
  {
    if ops != [] {
      var n := |ops| - 1;
      NeverDriftsExact(initial, scratch, first, vs[..n + 1], ops[..n]);
      DriftIsHarm(initial, scratch, first, vs, ops);
      Prefix(vs);
      if AllHarmless(initial, scratch, ops[..n]) {
        HarmlessIsUnharmed(initial, scratch, ops[..n]);
        CostlyPollDoesNotPass(initial, ops);
      }
    }
  }

  lemma CostlyPollDoesNotPass(initial: nat, ops: seq<WriteOp>)
    requires ops != []
    ensures var n := |ops| - 1;
      ops[n].Write? && !ops[n].res.Ready? ==>
        StillFirst(initial, ops) == StillFirst(initial, ops[..n])
  {
  }

  // ---- what goes out ---------------------------------------------------------------------------

  /** `plain` is what went through; the wire holds it under the keystream of the connection,
      whatever cipher will be chosen if the change-over is still to come. */
  ghost predicate Carried(initial: nat, first: Tap, v: WriterView, plain: seq<byte>, second: Option<Tap>) {
    && Counts(initial, v.end) && v.end.passed == |plain|
    && ((v.end.phase.Running? ==> second == v.end.phase.cipher) ==>
        v.wire == Mask(TwoPhase(initial, first, second), 0, plain))
  }

  lemma StepCarries(initial: nat, scratch: nat, first: Tap, v: WriterView, op: WriteOp,
                    v': WriterView, plain: seq<byte>, second: Option<Tap>)
    requires WriteStep(initial, scratch, first, v, op, v') && (Taken(op) != [] ==> v.drift == 0)
    requires Carried(initial, first, v, plain, second)
    ensures Carried(initial, first, v', plain + Taken(op), second)
  {
    var data := Taken(op);
    if data == [] {
      assert plain + data == plain;
    } else if v'.end.phase.Running? ==> second == v'.end.phase.cipher {
      assert v'.end == Advance(v.end, |data|);
      ThroughIsTwoPhase(initial, first, second, v.end, data);
      MasksJoin(TwoPhase(initial, first, second), plain, data, v.wire, v'.wire);
    }
  }

  lemma MasksJoin(whole: Keystream, plain: seq<byte>, data: seq<byte>, wire: seq<byte>, wire': seq<byte>)
    requires wire == Mask(whole, 0, plain) && wire' == wire + Mask(whole, |plain|, data)
    ensures wire' == Mask(whole, 0, plain + data)
  {
    MaskConcat(whole, 0, plain, data);
  }

  /** With nothing late the wire holds the accepted plaintext under one two-phase keystream:
      the first cipher up to byte `initial`, from there on the cipher chosen before. */
  lemma {:induction false} WriteRunMasks(initial: nat, scratch: nat, first: Tap,
                                         vs: seq<WriterView>, ops: seq<WriteOp>, second: Option<Tap>)
    requires WriteRun(initial, scratch, first, vs, ops) && NothingLate(initial, scratch, ops)
    ensures Carried(initial, first, vs[|ops|], Accepted(ops), second)
    decreases ops
  {
    if ops != [] {
      var n := |ops| - 1;
      WriteRunMasks(initial, scratch, first, vs[..n + 1], ops[..n], second);
      DriftIsHarm(initial, scratch, first, vs[..n + 1], ops[..n]);
      StepCarries(initial, scratch, first, vs[n], ops[n], vs[n + 1], Accepted(ops[..n]), second);
    }
  }

  // ---- whole runs of the reader --------------------------------------------------------------

  ghost predicate ReadRun(initial: nat, first: Tap, es: seq<End>, ops: seq<ReadOp>)
    decreases ops
  {
    && |es| == |ops| + 1
    && if ops == [] then es[0] == Fresh(initial)
       else
         var n := |ops| - 1;
         && ReadRun(initial, first, es[..n + 1], ops[..n])
         && ReadStep(initial, first, es[n], ops[n], es[n + 1])
  }

  function Consumed(ops: seq<ReadOp>): seq<byte> {
    if ops == [] then [] else Consumed(ops[..|ops| - 1]) + Chunk(ops[|ops| - 1])
  }

  function Delivered(ops: seq<ReadOp>): seq<byte> {
    if ops == [] then [] else Delivered(ops[..|ops| - 1]) + Got(ops[|ops| - 1])
  }

  function Chunk(op: ReadOp): seq<byte> {
    if op.Read? then op.chunk else []
  }

  function Got(op: ReadOp): seq<byte> {
    if op.Read? then op.got else []
  }

  lemma StepReads(initial: nat, first: Tap, e: End, op: ReadOp, e': End, second: Option<Tap>,
                  consumed: seq<byte>)
    requires ReadStep(initial, first, e, op, e') && e.passed == |consumed|
    requires e'.phase.Running? ==> second == e'.phase.cipher
    ensures Counts(initial, e') && e'.passed == |consumed + Chunk(op)|
    ensures e.phase.Running? ==> second == e.phase.cipher
    ensures var whole := TwoPhase(initial, first, second);
      Mask(whole, 0, consumed) + Got(op) == Mask(whole, 0, consumed + Chunk(op))
  {
    if op.Read? {
      ThroughIsTwoPhase(initial, first, second, e, op.chunk);
    }
    MaskConcat(TwoPhase(initial, first, second), 0, consumed, Chunk(op));
  }

  /** What the reader delivered is what it consumed under one two-phase keystream. */
  lemma {:induction false} ReadRunMasks(initial: nat, first: Tap, es: seq<End>, ops: seq<ReadOp>,
                                        second: Option<Tap>)
    requires ReadRun(initial, first, es, ops)
    ensures Counts(initial, es[|ops|]) && es[|ops|].passed == |Consumed(ops)|
    ensures (es[|ops|].phase.Running? ==> second == es[|ops|].phase.cipher) ==>
              Delivered(ops) == Mask(TwoPhase(initial, first, second), 0, Consumed(ops))
    decreases ops
  {
    if ops != [] {
      var n := |ops| - 1;
      ReadRunMasks(initial, first, es[..n + 1], ops[..n], second);
      if es[n + 1].phase.Running? ==> second == es[n + 1].phase.cipher {
        StepReads(initial, first, es[n], ops[n], es[n + 1], second, Consumed(ops[..n]));
      }
    }
  }

  // ---- which cipher takes over, reading ---------------------------------------------------

  predicate HasRead(ops: seq<ReadOp>) {
    if ops == [] then false else ops[|ops| - 1].Read? || HasRead(ops[..|ops| - 1])
  }

  predicate StillFirstRead(initial: nat, ops: seq<ReadOp>) {
    if initial > 0 then |Consumed(ops)| < initial else !HasRead(ops)
  }

  function ChosenRead(initial: nat, ops: seq<ReadOp>): Option<Tap> {
    if ops == [] then None
    else
      var n := |ops| - 1;
      if ops[n].SetReadCipher? && StillFirstRead(initial, ops[..n]) then ops[n].c
      else ChosenRead(initial, ops[..n])
  }

  lemma ReadStepHolds(initial: nat, first: Tap, e: End, op: ReadOp, e': End,
                      on: bool, chosen: Option<Tap>)
    requires ReadStep(initial, first, e, op, e') && Holds(initial, e, on, chosen)
    ensures e'.passed == e.passed + |Chunk(op)|
    ensures Holds(initial, e',
                  if initial > 0 then e'.passed < initial else on && !op.Read?,
                  if op.SetReadCipher? && on then op.c else chosen)
  {
    if op.Read? {
      AdvanceHolds(initial, e, on, chosen, |op.chunk|);
    }
  }

  /** The same for the reader. */
  lemma {:induction false} ReaderTakesChosen(initial: nat, first: Tap, es: seq<End>, ops: seq<ReadOp>)
    requires ReadRun(initial, first, es, ops)
    ensures Holds(initial, es[|ops|], StillFirstRead(initial, ops), ChosenRead(initial, ops))
    ensures es[|ops|].passed == |Consumed(ops)|
    decreases ops
  {
    if ops != [] {
      var n := |ops| - 1;
      var before := ops[..n];
      ReaderTakesChosen(initial, first, es[..n + 1], before);
      ReadStepHolds(initial, first, es[n], ops[n], es[n + 1],
                    StillFirstRead(initial, before), ChosenRead(initial, before));
    }
  }

  // ---- both ends ----------------------------------------------------------------------------

  /** Both ends have left the first phase only with the same cipher set in it. */
  ghost predicate SameChoice(initial: nat, wops: seq<WriteOp>, rops: seq<ReadOp>) {
    !StillFirst(initial, wops) && !StillFirstRead(initial, rops) ==>
      Chosen(initial, wops) == ChosenRead(initial, rops)
  }

  /** Whatever the short writes and read chunks were, both ends of a connection change over
      exactly at byte `initial`. */
  lemma {:induction false} BothChangeOver(initial: nat, scratch: nat, first: Tap,
                                          vs: seq<WriterView>, wops: seq<WriteOp>, es: seq<End>, rops: seq<ReadOp>)
    requires initial > 0
    requires WriteRun(initial, scratch, first, vs, wops) && ReadRun(initial, first, es, rops)
    ensures vs[|wops|].end.phase.Running? <==> |Accepted(wops)| >= initial
    ensures es[|rops|].phase.Running? <==> |Consumed(rops)| >= initial
  {
    WriterTakesChosen(initial, scratch, first, vs, wops);
    ReaderTakesChosen(initial, first, es, rops);
  }

  /** And if the same cipher was set last at either end before that, the reader holds a prefix
      of the plaintext, and all of it once the wire is drained. */
  lemma {:induction false} PairDelivers(initial: nat, scratch: nat, first: Tap,
                                        vs: seq<WriterView>, wops: seq<WriteOp>, es: seq<End>, rops: seq<ReadOp>)
    requires WriteRun(initial, scratch, first, vs, wops) && NothingLate(initial, scratch, wops)
    requires ReadRun(initial, first, es, rops) && Consumed(rops) <= vs[|wops|].wire
    requires SameChoice(initial, wops, rops)
    ensures Delivered(rops) <= Accepted(wops) && |Delivered(rops)| == |Consumed(rops)|
    ensures Consumed(rops) == vs[|wops|].wire ==> Delivered(rops) == Accepted(wops)
  {
    WriterTakesChosen(initial, scratch, first, vs, wops);
    ReaderTakesChosen(initial, first, es, rops);
    var second := if StillFirst(initial, wops) then ChosenRead(initial, rops) else Chosen(initial, wops);
    var whole, plain := TwoPhase(initial, first, second), Accepted(wops);
    WriteRunMasks(initial, scratch, first, vs, wops, second);
    ReadRunMasks(initial, first, es, rops, second);
    PrefixUnmasks(whole, 0, plain, Consumed(rops));
  }

  /** One pending poll is enough to deliver wrong data: a byte of keystream is lost, and when
      the byte 7 is written again the reader gets something else, unless the first two
      keystream bytes happen to be equal. */
  lemma PendingPollDrifts(initial: nat, scratch: nat, first: Tap)
    requires initial > 0
    ensures var wire := Mask(first.ks, first.base + 1, [7]);
      var got := Mask(first.ks, first.base, wire);
      var v, ops := WriterView([], Fresh(initial), 0), [Write([7], Pending), Write([7], Ready(1))];
      var passed := Advance(Fresh(initial), 1);
      && WriteRun(initial, scratch, first,
                  [v, v.(drift := 1), WriterView(wire, passed, if initial == 1 then 0 else 1)], ops)
      && Accepted(ops) == [7]
      && ReadRun(initial, first, [Fresh(initial), passed], [Read(wire, got)])
      && (got == [7] <==> first.ks(first.base) == first.ks(first.base + 1))
  {
    LostByteWrites(initial, scratch, first);
    LostByteReads(initial, first);
    assert [Fresh(initial), Advance(Fresh(initial), 1)][..1] == [Fresh(initial)];
    assert ReadRun(initial, first, [Fresh(initial)], []);
  }

  lemma LostByteWrites(initial: nat, scratch: nat, first: Tap)
    requires initial > 0
    ensures var v, passed := WriterView([], Fresh(initial), 0), Advance(Fresh(initial), 1);
      var v2 := WriterView(Mask(first.ks, first.base + 1, [7]), passed, if initial == 1 then 0 else 1);
      var ops := [Write([7], Pending), Write([7], Ready(1))];
      WriteRun(initial, scratch, first, [v, v.(drift := 1), v2], ops) && Accepted(ops) == [7]
  {
    var v, passed := WriterView([], Fresh(initial), 0), Advance(Fresh(initial), 1);
    var wire := Mask(first.ks, first.base + 1, [7]);
    var v1, v2 := v.(drift := 1), WriterView(wire, passed, if initial == 1 then 0 else 1);
    var op1, op2 := Write([7], Pending), Write([7], Ready(1));
    assert [v, v1, v2][..2] == [v, v1] && [v, v1][..1] == [v];
    assert [op1, op2][..1] == [op1] && [op1][..0] == [];
    assert WriteRun(initial, scratch, first, [v], []);
    assert WriteStep(initial, scratch, first, v, op1, v1);
    assert WriteRun(initial, scratch, first, [v, v1], [op1]);
    assert [7][..1] == [7] && [] + wire == wire;
    assert WriteStep(initial, scratch, first, v1, op2, v2);
    assert Accepted([op1]) == [];
  }

  lemma LostByteReads(initial: nat, first: Tap)
    requires initial > 0
    ensures var wire := Mask(first.ks, first.base + 1, [7]);
      var got := Mask(first.ks, first.base, wire);
      && ReadStep(initial, first, Fresh(initial), Read(wire, got), Advance(Fresh(initial), 1))
      && (got == [7] <==> first.ks(first.base) == first.ks(first.base + 1))
  {
    var wire := Mask(first.ks, first.base + 1, [7]);
    XorTwice(7, first.ks(first.base + 1), first.ks(first.base));
    assert Mask(first.ks, first.base, wire)[0] ==
           Xor(Xor(7, first.ks(first.base + 1)), first.ks(first.base));
  }
}
