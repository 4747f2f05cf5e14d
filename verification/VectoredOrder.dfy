/** When a vectored write of the cipher stream keeps its slices in order. After a short write
    of one slice the source goes on to the next slice, so the bytes left behind are missing
    from the middle of what went out; and the stream itself cuts slices that are longer than
    what it offers at once. */
module VectoredOrder {
  import opened Bytes
  import opened Keystreams
  import opened CipherStreams
  import opened Io

  function Lengths(bufs: seq<seq<byte>>): seq<nat> {
    if bufs == [] then [] else [|bufs[0]|] + Lengths(bufs[1..])
  }

  function Total(lens: seq<nat>): nat {
    if lens == [] then 0 else lens[0] + Total(lens[1..])
  }

  lemma {:induction false} FlattenTotal(bufs: seq<seq<byte>>)
    ensures |Flatten(bufs)| == Total(Lengths(bufs))
  {
    if bufs != [] {
      FlattenTotal(bufs[1..]);
      assert Lengths(bufs)[1..] == Lengths(bufs[1..]);
    }
  }

  // ---- the writer's answers -----------------------------------------------------------

  function Answers(calls: seq<WriteCall>): seq<Poll> {
    if calls == [] then [] else [calls[0].res] + Answers(calls[1..])
  }

  /** Whether a writer can answer like this, one poll after the other, when slices of lengths
      `lens` are written from position `at` on. */
  predicate CanAnswer(s: EncryptionStrategy, at: nat, last: Option<nat>, lens: seq<nat>, answers: seq<Poll>)
    decreases |answers|
  {
    if answers == [] then lens == []
    else if lens == [] then false
    else if !s.Covers(at) then |answers| == 1 && (answers[0].Ready? ==> answers[0].n <= Total(lens))
    else if !answers[0].Ready? then |answers| == 1
    else
      && answers[0].n <= Offered(last, lens[0])
      && CanAnswer(s, at + answers[0].n, Some(answers[0].n), lens[1..], answers[1..])
  }

  predicate TakesNothing(answers: seq<Poll>) {
    if answers == [] then true
    else (answers[0].Ready? ==> answers[0].n == 0) && TakesNothing(answers[1..])
  }

  /** Every slice was taken whole, up to one that may have been cut short; after that one
      nothing was taken any more. What goes out in one plain write cannot lose its order. */
  predicate InOrder(s: EncryptionStrategy, at: nat, lens: seq<nat>, answers: seq<Poll>)
    decreases |answers|
  {
    if answers == [] || lens == [] || !s.Covers(at) || !answers[0].Ready? then true
    else if answers[0].n == lens[0] then InOrder(s, at + lens[0], lens[1..], answers[1..])
    else TakesNothing(answers[1..])
  }

  // ---- kept orders ----------------------------------------------------------------------

  lemma {:induction false} NothingAccepted(calls: seq<WriteCall>)
    requires TakesNothing(Answers(calls))
    ensures Accepted(calls) == []
  {
    if calls != [] {
      assert Answers(calls)[1..] == Answers(calls[1..]);
      NothingAccepted(calls[1..]);
    }
  }

  lemma {:induction false} InOrderIsPrefix(s: EncryptionStrategy, ks: Keystream, bufs: seq<seq<byte>>,
                                           v: WriteView, calls: seq<WriteCall>, v': WriteView)
    requires SlicesRun(s, ks, bufs, [], v, calls, v')
    requires InOrder(s, v.position, Lengths(bufs), Answers(calls))
    ensures Accepted(calls) <= Flatten(bufs)
    decreases calls
  {
    if calls != [] {
      var c := calls[0];
      assert Answers(calls)[1..] == Answers(calls[1..]);
      assert Lengths(bufs)[1..] == Lengths(bufs[1..]);
      if !s.Covers(v.position) || !c.res.Ready? {
        assert calls[1..] == [] && Accepted(calls) == Taken(c);
      } else if c.res.n == |bufs[0]| {
        InOrderIsPrefix(s, ks, bufs[1..], Next(s, ks, v, c), calls[1..], v');
        assert Taken(c) == bufs[0];
        PrefixCancels(bufs[0], Accepted(calls[1..]), Flatten(bufs[1..]));
      } else {
        NothingAccepted(calls[1..]);
      }
    }
  }

  // ---- broken orders --------------------------------------------------------------------

  /** A writer with these answers: the polls of the call it makes of slices `bufs`. */
  lemma {:induction false} Play(s: EncryptionStrategy, ks: Keystream, bufs: seq<seq<byte>>,
                                v: WriteView, answers: seq<Poll>)
    returns (calls: seq<WriteCall>, v': WriteView)
    requires CanAnswer(s, v.position, v.lastWritten, Lengths(bufs), answers)
    ensures SlicesRun(s, ks, bufs, [], v, calls, v') && Answers(calls) == answers
    decreases |answers|
  {
    if answers == [] {
      calls, v' := [], v;
    } else {
      var c := WriteCall(Offering(s, v, bufs), answers[0]);
      FlattenTotal(bufs);
      assert Lengths(bufs)[1..] == Lengths(bufs[1..]);
      var rest, mid := Remaining(s, v, bufs, c), Next(s, ks, v, c);
      var calls1;
      calls1, v' := Play(s, ks, rest, mid, answers[1..]);
      calls := [c] + calls1;
      assert calls[1..] == calls1;
    }
  }

  /** Slices of the given lengths filled with one byte. */
  function Filled(lens: seq<nat>, b: byte): (r: seq<seq<byte>>)
    ensures Lengths(r) == lens
    ensures forall i :: 0 <= i < |Flatten(r)| ==> Flatten(r)[i] == b
  {
    if lens == [] then [] else [seq(lens[0], _ => b)] + Filled(lens[1..], b)
  }

  ghost predicate AllAre(data: seq<byte>, b: byte) {
    forall i :: 0 <= i < |data| ==> data[i] == b
  }

  lemma {:induction false} AcceptedFilled(s: EncryptionStrategy, ks: Keystream, lens: seq<nat>, b: byte,
                                          v: WriteView, calls: seq<WriteCall>, v': WriteView)
    requires SlicesRun(s, ks, Filled(lens, b), [], v, calls, v')
    ensures AllAre(Accepted(calls), b)
    ensures Accepted(calls) == [] ==> TakesNothing(Answers(calls))
    decreases calls
  {
    if calls != [] {
      var bufs, c := Filled(lens, b), calls[0];
      var rest := if s.Covers(v.position) && c.res.Ready? then lens[1..] else [];
      assert Answers(calls)[1..] == Answers(calls[1..]);
      assert Remaining(s, v, bufs, c) == Filled(rest, b);
      AcceptedFilled(s, ks, rest, b, Next(s, ks, v, c), calls[1..], v');
    }
  }

  lemma CutAndGoneOn(first: seq<byte>, k: nat, later: seq<byte>, slices: seq<byte>)
    requires AllAre(first, 0) && k < |first| && AllAre(later, 1) && later != []
    ensures !(first[..k] + later <= first + slices)
  {
    var out := first[..k] + later;
    assert out[k] == later[0];
    assert (first + slices)[k] == first[k];
  }

  /** Whenever the order is broken there are slices of these lengths that a writer with these
      answers makes the stream send wrongly. */
  lemma {:induction false} OutOfOrder(s: EncryptionStrategy, ks: Keystream, v: WriteView,
                                      lens: seq<nat>, answers: seq<Poll>)
    returns (bufs: seq<seq<byte>>, calls: seq<WriteCall>, v': WriteView)
    requires CanAnswer(s, v.position, v.lastWritten, lens, answers)
    requires !InOrder(s, v.position, lens, answers)
    ensures Lengths(bufs) == lens && Answers(calls) == answers
    ensures SlicesRun(s, ks, bufs, [], v, calls, v') && !(Accepted(calls) <= Flatten(bufs))
    decreases |answers|
  {
    var first := seq(lens[0], _ => 0);
    var c := WriteCall(first, answers[0]);
    var mid := Next(s, ks, v, c);
    var bufs1, calls1;
    if answers[0].n == lens[0] {
      bufs1, calls1, v' := OutOfOrder(s, ks, mid, lens[1..], answers[1..]);
      assert Taken(c) == first;
    } else {
      bufs1 := Filled(lens[1..], 1);
      calls1, v' := Play(s, ks, bufs1, mid, answers[1..]);
      AcceptedFilled(s, ks, lens[1..], 1, mid, calls1, v');
      CutAndGoneOn(first, answers[0].n, Accepted(calls1), Flatten(bufs1));
    }
    bufs, calls := [first] + bufs1, [c] + calls1;
    assert bufs[1..] == bufs1 && calls[1..] == calls1;
    if answers[0].n == lens[0] {
      PrefixCancels(first, Accepted(calls1), Flatten(bufs1));
    }
  }

  lemma PrefixCancels(first: seq<byte>, a: seq<byte>, b: seq<byte>)
    ensures first + a <= first + b <==> a <= b
  {
    assert (first + a)[|first|..] == a && (first + b)[|first|..] == b;
  }

  /** Every call on slices of these lengths with these answers sends a front part of them. */
  ghost predicate AlwaysPrefix(s: EncryptionStrategy, ks: Keystream, v: WriteView,
                               lens: seq<nat>, answers: seq<Poll>)
  {
    forall bufs, calls, v' ::
      Lengths(bufs) == lens && Answers(calls) == answers && VectoredRun(s, ks, bufs, v, calls, v') ==>
        Accepted(calls) <= Flatten(bufs)
  }

  lemma VectoredInOrder(s: EncryptionStrategy, ks: Keystream, bufs: seq<seq<byte>>,
                        v: WriteView, calls: seq<WriteCall>, v': WriteView)
    requires VectoredRun(s, ks, bufs, v, calls, v')
    requires InOrder(s, v.position, Lengths(bufs), Answers(calls))
    ensures Accepted(calls) <= Flatten(bufs)
  {
    if s.Covers(v.position) {
      InOrderIsPrefix(s, ks, bufs, v, calls, v');
    } else {
      assert calls[1..] == [] && Accepted(calls) == Taken(calls[0]);
    }
  }

  /** What poll_write_vectored sends to a writer with these answers is the front part of the
      joined slices, for every content of slices of these lengths, exactly if the slices were
      taken in order. */
  lemma VectoredPrefixExact(s: EncryptionStrategy, ks: Keystream, v: WriteView,
                            lens: seq<nat>, answers: seq<Poll>)
    requires s.Covers(v.position) ==> CanAnswer(s, v.position, v.lastWritten, lens, answers)
    ensures AlwaysPrefix(s, ks, v, lens, answers) <==> InOrder(s, v.position, lens, answers)
  {
    if InOrder(s, v.position, lens, answers) {
      forall bufs, calls, v' |
        Lengths(bufs) == lens && Answers(calls) == answers && VectoredRun(s, ks, bufs, v, calls, v')
        ensures Accepted(calls) <= Flatten(bufs)
      {
        VectoredInOrder(s, ks, bufs, v, calls, v');
      }
    } else {
      var bufs, calls, v' := OutOfOrder(s, ks, v, lens, answers);
      assert VectoredRun(s, ks, bufs, v, calls, v');
    }
  }

  // ---- a writer that takes all it is offered ----------------------------------------------

  /** Every slice that starts encrypted and has bytes after it is no longer than the stream
      offers at once: the larger of 512 and the length of the slice before it; for the first
      slice, of 512 and what the last write took (4096 if there was none). */
  predicate Fits(s: EncryptionStrategy, at: nat, last: Option<nat>, lens: seq<nat>)
    decreases lens
  {
    if lens == [] || !s.Covers(at) then true
    else if lens[0] == Offered(last, lens[0]) then Fits(s, at + lens[0], Some(lens[0]), lens[1..])
    else Total(lens[1..]) == 0
  }

  /** What the stream offers of slice i at most, given that those before it fit. */
  function Limit(last: Option<nat>, lens: seq<nat>, i: nat): nat
    requires i < |lens|
  {
    if i > 0 then Max(lens[i - 1], 512)
    else if last.Some? then Max(last.value, 512)
    else 4096
  }

  /** Slice i is within its limit, or does not start encrypted, or has nothing after it. */
  ghost predicate FitsAt(s: EncryptionStrategy, at: nat, last: Option<nat>, lens: seq<nat>, i: nat)
    requires i < |lens|
  {
    s.Covers(at + Total(lens[..i])) && Total(lens[i + 1..]) > 0 ==> lens[i] <= Limit(last, lens, i)
  }

  /** The slices fit exactly if each of them does. */
  lemma {:induction false} FitsExact(s: EncryptionStrategy, at: nat, last: Option<nat>, lens: seq<nat>)
    ensures Fits(s, at, last, lens) <==> forall i :: 0 <= i < |lens| ==> FitsAt(s, at, last, lens, i)
    decreases lens
  {
    if lens != [] {
      var n, rest := lens[0], lens[1..];
      FirstFits(s, at, last, lens);
      if !s.Covers(at) {
        forall i | 0 <= i < |lens| ensures FitsAt(s, at, last, lens, i) {
          assert !s.Covers(at + Total(lens[..i]));
        }
      } else if n == Offered(last, n) {
        FitsExact(s, at + n, Some(n), rest);
        forall k | 1 <= k < |lens|
          ensures FitsAt(s, at, last, lens, k) <==> FitsAt(s, at + n, Some(n), rest, k - 1)
        {
          LaterFits(s, at, last, lens, k - 1);
        }
        if Fits(s, at, last, lens) {
          forall i | 0 <= i < |lens| ensures FitsAt(s, at, last, lens, i) {
            if i > 0 {
              assert FitsAt(s, at + n, Some(n), rest, i - 1);
            }
          }
        } else {
          var i :| 0 <= i < |rest| && !FitsAt(s, at + n, Some(n), rest, i);
          assert !FitsAt(s, at, last, lens, i + 1);
        }
      } else if Total(rest) == 0 {
        forall i | 0 <= i < |lens| ensures FitsAt(s, at, last, lens, i) {
          TotalSuffix(rest, i);
          assert lens[i + 1..] == rest[i..];
        }
      }
    }
  }

  lemma FirstFits(s: EncryptionStrategy, at: nat, last: Option<nat>, lens: seq<nat>)
    requires lens != []
    ensures FitsAt(s, at, last, lens, 0) <==>
            (s.Covers(at) && Total(lens[1..]) > 0 ==> lens[0] == Offered(last, lens[0]))
  {
    assert lens[..0] == [];
  }

  lemma LaterFits(s: EncryptionStrategy, at: nat, last: Option<nat>, lens: seq<nat>, i: nat)
    requires lens != [] && i < |lens| - 1 && lens[0] == Offered(last, lens[0])
    ensures FitsAt(s, at, last, lens, i + 1) <==> FitsAt(s, at + lens[0], Some(lens[0]), lens[1..], i)
  {
    var rest := lens[1..];
    assert lens[..i + 1] == [lens[0]] + rest[..i];
    assert lens[..i + 1][1..] == rest[..i];
    assert lens[i + 2..] == rest[i + 1..];
  }

  lemma {:induction false} TotalSuffix(lens: seq<nat>, i: nat)
    requires i <= |lens| && Total(lens) == 0
    ensures Total(lens[i..]) == 0
  {
    if i > 0 {
      TotalSuffix(lens[1..], i - 1);
      assert lens[i..] == lens[1..][i - 1..];
    } else {
      assert lens[0..] == lens;
    }
  }

  /** The answers of that writer. */
  function Generous(s: EncryptionStrategy, at: nat, last: Option<nat>, lens: seq<nat>): seq<Poll>
    decreases lens
  {
    if lens == [] then []
    else if !s.Covers(at) then [Ready(Total(lens))]
    else
      var n := Offered(last, lens[0]);
      [Ready(n)] + Generous(s, at + n, Some(n), lens[1..])
  }

  lemma {:induction false} GenerousCanAnswer(s: EncryptionStrategy, at: nat, last: Option<nat>, lens: seq<nat>)
    ensures CanAnswer(s, at, last, lens, Generous(s, at, last, lens))
    ensures TakesNothing(Generous(s, at, last, lens)) <==> Total(lens) == 0
    decreases lens
  {
    if lens != [] && s.Covers(at) {
      var n := Offered(last, lens[0]);
      GenerousCanAnswer(s, at + n, Some(n), lens[1..]);
      assert Generous(s, at, last, lens)[1..] == Generous(s, at + n, Some(n), lens[1..]);
    }
  }

  lemma {:induction false} GenerousInOrder(s: EncryptionStrategy, at: nat, last: Option<nat>, lens: seq<nat>)
    ensures InOrder(s, at, lens, Generous(s, at, last, lens)) <==> Fits(s, at, last, lens)
    decreases lens
  {
    if lens != [] && s.Covers(at) {
      var n := Offered(last, lens[0]);
      assert Generous(s, at, last, lens)[1..] == Generous(s, at + n, Some(n), lens[1..]);
      GenerousCanAnswer(s, at + n, Some(n), lens[1..]);
      GenerousInOrder(s, at + n, Some(n), lens[1..]);
    }
  }

  /** Even with a writer that takes everything it is offered the order is kept exactly if the
      slices fit, which a caller can tell from their lengths alone. */
  lemma GenerousPrefixExact(s: EncryptionStrategy, ks: Keystream, v: WriteView, lens: seq<nat>)
    ensures AlwaysPrefix(s, ks, v, lens, Generous(s, v.position, v.lastWritten, lens)) <==>
            Fits(s, v.position, v.lastWritten, lens)
  {
    GenerousCanAnswer(s, v.position, v.lastWritten, lens);
    GenerousInOrder(s, v.position, v.lastWritten, lens);
    VectoredPrefixExact(s, ks, v, lens, Generous(s, v.position, v.lastWritten, lens));
  }

  /** A slice that is encrypted, and the polls after it. */
  lemma SliceFirst(s: EncryptionStrategy, ks: Keystream, bufs: seq<seq<byte>>,
                   v: WriteView, n: nat, later: seq<WriteCall>, v': WriteView)
    requires bufs != [] && s.Covers(v.position) && n <= Offered(v.lastWritten, |bufs[0]|)
    requires SlicesRun(s, ks, bufs[1..], [], Next(s, ks, v, WriteCall(bufs[0], Ready(n))), later, v')
    ensures var calls := [WriteCall(bufs[0], Ready(n))] + later;
      && SlicesRun(s, ks, bufs, [], v, calls, v')
      && Answers(calls) == [Ready(n)] + Answers(later)
      && ResultOf(calls) == Plus(n, ResultOf(later))
      && Accepted(calls) == bufs[0][..n] + Accepted(later)
  {
    var calls := [WriteCall(bufs[0], Ready(n))] + later;
    assert calls[1..] == later;
  }

  /** An example on a new stream: of 100, 600 and 50 bytes the second slice is cut at 512 and
      its last 88 bytes are missing before the third, though every poll took all it was
      offered. */
  lemma LongSliceIsCut(ks: Keystream, a: seq<byte>, b: seq<byte>, c: seq<byte>)
    returns (calls: seq<WriteCall>, v': WriteView)
    requires |a| == 100 && |b| == 600 && |c| == 50
    ensures VectoredRun(Always, ks, [a, b, c], WriteView([], 0, None), calls, v')
    ensures Answers(calls) == [Ready(100), Ready(512), Ready(50)] && ResultOf(calls) == Ready(662)
    ensures Accepted(calls) == a + b[..512] + c
    ensures Accepted(calls) <= a + b + c <==> c == b[512..562]
  {
    var v := WriteView([], 0, None);
    var v1 := Next(Always, ks, v, WriteCall(a, Ready(100)));
    var v2 := Next(Always, ks, v1, WriteCall(b, Ready(512)));
    v' := Next(Always, ks, v2, WriteCall(c, Ready(50)));
    SliceFirst(Always, ks, [c], v2, 50, [], v');
    assert [b, c][1..] == [c] && [a, b, c][1..] == [b, c];
    SliceFirst(Always, ks, [b, c], v1, 512, [WriteCall(c, Ready(50))] + [], v');
    var later := [WriteCall(b, Ready(512))] + ([WriteCall(c, Ready(50))] + []);
    SliceFirst(Always, ks, [a, b, c], v, 100, later, v');
    calls := [WriteCall(a, Ready(100))] + later;
    CutPrefix(a, b, 512, c);
  }

  lemma CutPrefix(a: seq<byte>, b: seq<byte>, k: nat, c: seq<byte>)
    requires k + |c| <= |b|
    ensures a + (b[..k] + (c + [])) == a + b[..k] + c
    ensures a + b[..k] + c <= a + b + c <==> c == b[k..k + |c|]
  {
    var out, all := a + b[..k] + c, a + b + c;
    assert out[|a| + k..] == c && all[|a| + k..|a| + k + |c|] == b[k..k + |c|];
    assert out[..|a| + k] == all[..|a| + k];
    assert |out| == |a| + k + |c|;
    assert out == out[..|a| + k] + out[|a| + k..];
    assert all[..|out|] == all[..|a| + k] + all[|a| + k..|out|];
  }
}
