/** The decoder's state machine against the reference parser, byte by byte
    and over whole streams. */
module Correspondence {
  import opened Common
  import opened Bits
  import opened Wire
  import opened FrameMachine
  import opened MachineFacts
  import opened Simulation

  /** What the decoder should do on the byte that makes its bytes since the
      last reset `q`: emit the frame `q` holds once it is whole, otherwise
      move to the state for `q`. */
  function Expected(q: seq<bv8>): (r: (Machine, seq<Frame>)) {
    if Complete(q) then (Initial, [FrameAt(q)]) else (StateAfter(q), [])
  }

  /** The header of `q` has just ended, short of any masking key. */
  predicate LengthRead(q: seq<bv8>) {
    HasLength(q) && |q| == 2 + ExtSize(q[1])
  }

  /** A frame whose length bytes have just been read is whole exactly when it
      is unmasked and empty, and then it carries an empty body; otherwise the
      decoder waits for the key or the body. */
  lemma HeaderDone(q: seq<bv8>)
    requires LengthRead(q)
    ensures Complete(q) <==> Value(LengthWord(q)) == 0 && HighBit(q[1]) == 0
    ensures Complete(q) ==> FrameAt(q) == Record(q[0], q[1], [])
    ensures !Complete(q) && HighBit(q[1]) == 1 ==> StateAfter(q) == KeyState(q[0], q[1], LengthWord(q), [])
    ensures !Complete(q) && HighBit(q[1]) == 0 ==> StateAfter(q) == BodyState(q[0], q[1], LengthWord(q), Initial.key, [])
  {
    assert q[|q|..] == [];
    if Complete(q) {
      assert q[HeaderSize(q)..FrameSize(q)] == [];
    }
  }

  /** Leaving the length states once the header's length bytes are all read
      does what `Expected` says. */
  lemma EnterMatches(m: Machine, q: seq<bv8>)
    requires LengthRead(q) && m == Fields(q[0], q[1]).(phase := m.phase, length := LengthWord(q))
    ensures EnterPayload(m) == Expected(q)
  {
    FromHeader(m, q[0], q[1], LengthWord(q));
    HeaderDone(q);
  }

  /** Once all of them are read, the extended length bytes OR-ed in the
      decoder's way give the header's length word. */
  lemma ExtAccComplete(q: seq<bv8>)
    requires LengthRead(q) && ExtSize(q[1]) > 0
    ensures ExtAcc(q[2..], 8 * (ExtSize(q[1]) - 1)) == LengthWord(q)
  {
    if ExtSize(q[1]) == 2 {
      assert q[2..] == [q[2], q[3]];
      Ext16(q[2], q[3]);
    } else {
      assert q[2..] == [q[2], q[3], q[4], q[5], q[6], q[7], q[8], q[9]];
      Ext64Prefix8(q[2], q[3], q[4], q[5], q[6], q[7], q[8], q[9]);
    }
  }

  /** The first byte of a frame. */
  lemma StepFromReset(pending: seq<bv8>, x: bv8)
    requires |pending| == 0
    ensures Step(StateAfter(pending), x) == Expected(pending + [x])
  {
    FromInitial(x);
    assert (pending + [x])[0] == x;
  }

  /** The second byte: a length below 126 ends the header's length bytes,
      126 and 127 start the extended length. */
  lemma StepFromFirst(pending: seq<bv8>, x: bv8)
    requires |pending| == 1
    ensures Step(StateAfter(pending), x) == Expected(pending + [x])
  {
    var q := pending + [x];
    var b0 := pending[0];
    assert q[0] == b0 && q[1] == x;
    FromLen(b0, x);
    if Indicator(x) < 126 {
      EnterMatches(Fields(b0, x).(phase := Len, length := Word(0, 0, 0, Indicator(x))), q);
    } else {
      assert q[2..] == [];
    }
  }

  /** The state in the middle of the extended length bytes. */
  lemma StateInExt(q: seq<bv8>)
    requires 2 <= |q| < 2 + ExtSize(q[1])
    ensures !Complete(q)
    ensures StateAfter(q) == ExtState(q[0], q[1], |q| - 2, ExtAcc(q[2..], 8 * (ExtSize(q[1]) - 1)))
  {
  }

  /** The state and bytes around an extended length byte. */
  lemma ExtStepFacts(pending: seq<bv8>, x: bv8)
    requires 2 <= |pending| < 2 + ExtSize(pending[1])
    ensures var q := pending + [x];
            q[0] == pending[0] && q[1] == pending[1] && q[2..] == pending[2..] + [x]
    ensures StateAfter(pending) ==
              ExtState(pending[0], pending[1], |pending| - 2, ExtAcc(pending[2..], 8 * (ExtSize(pending[1]) - 1)))
  {
    assert (pending + [x])[2..] == pending[2..] + [x];
    StateInExt(pending);
  }

  /** The pattern after one more extended length byte short of the last. */
  function ExtNext(pending: seq<bv8>, x: bv8): Word
    requires 2 <= |pending| && |pending| + 1 < 2 + ExtSize(pending[1])
  {
    OrIn(ExtAcc(pending[2..], 8 * (ExtSize(pending[1]) - 1)), x, 8 * (ExtSize(pending[1]) - 1) - 8 * (|pending| - 2))
  }

  /** The machine ORs such a byte in and moves 8 bits down ... */
  lemma ExtMidStep(pending: seq<bv8>, x: bv8)
    requires 2 <= |pending| && |pending| + 1 < 2 + ExtSize(pending[1])
    ensures Step(StateAfter(pending), x) == (ExtState(pending[0], pending[1], |pending| - 1, ExtNext(pending, x)), [])
  {
    var n, top := |pending| - 2, 8 * (ExtSize(pending[1]) - 1);
    StateInExt(pending);
    FromExtMid(pending[0], pending[1], n, ExtAcc(pending[2..], top), x);
  }

  /** ... which is the state after the longer prefix. */
  lemma ExtMidExpected(pending: seq<bv8>, x: bv8)
    requires 2 <= |pending| && |pending| + 1 < 2 + ExtSize(pending[1])
    ensures Expected(pending + [x]) == (ExtState(pending[0], pending[1], |pending| - 1, ExtNext(pending, x)), [])
  {
    var q := pending + [x];
    ExtStepFacts(pending, x);
    ExtAccSnoc(pending[2..], x, 8 * (ExtSize(pending[1]) - 1));
    StateInExt(q);
  }

  /** An extended length byte before the last. */
  lemma StepInExtMid(pending: seq<bv8>, x: bv8)
    requires 2 <= |pending| && |pending| + 1 < 2 + ExtSize(pending[1])
    ensures Step(StateAfter(pending), x) == Expected(pending + [x])
  {
    ExtMidStep(pending, x);
    ExtMidExpected(pending, x);
  }

  /** The last extended length byte. */
  lemma StepInExtLast(pending: seq<bv8>, x: bv8)
    requires 2 <= |pending| && |pending| + 1 == 2 + ExtSize(pending[1])
    ensures Step(StateAfter(pending), x) == Expected(pending + [x])
  {
    var q := pending + [x];
    var b0, b1 := pending[0], pending[1];
    var n, es, top := |pending| - 2, pending[2..], 8 * (ExtSize(b1) - 1);
    ExtStepFacts(pending, x);
    ExtAccSnoc(es, x, top);
    FromExtLast(b0, b1, n, ExtAcc(es, top), x);
    ExtAccComplete(q);
    EnterMatches(Fields(b0, b1).(phase := ExtLen, length := OrIn(ExtAcc(es, top), x, 0)), q);
  }

  /** The header and state around a masking key byte. */
  lemma KeyStepFacts(pending: seq<bv8>, x: bv8)
    requires HasLength(pending) && 2 + ExtSize(pending[1]) <= |pending| < HeaderSize(pending)
    ensures var q := pending + [x];
            var start := 2 + ExtSize(pending[1]);
            q[0] == pending[0] && q[1] == pending[1] && HasLength(q) &&
            LengthWord(q) == LengthWord(pending) && HeaderSize(q) == HeaderSize(pending) &&
            q[start..] == pending[start..] + [x]
    ensures KeySize(pending[1]) == 4
    ensures StateAfter(pending) ==
              KeyState(pending[0], pending[1], LengthWord(pending), pending[2 + ExtSize(pending[1])..])
  {
    var q := pending + [x];
    LengthWordStable(pending, [x]);
    HeaderStable(pending, [x]);
    var start := 2 + ExtSize(pending[1]);
    assert q[start..] == pending[start..] + [x];
  }

  /** A masking key byte before the last. */
  lemma StepInKeyMid(pending: seq<bv8>, x: bv8)
    requires HasLength(pending) && 2 + ExtSize(pending[1]) <= |pending| && |pending| + 1 < HeaderSize(pending)
    ensures Step(StateAfter(pending), x) == Expected(pending + [x])
  {
    var q := pending + [x];
    var b0, b1 := pending[0], pending[1];
    var start, length := 2 + ExtSize(b1), LengthWord(pending);
    KeyStepFacts(pending, x);
    FromKeyMid(b0, b1, length, pending[start..], x);
    assert !Complete(q);
    assert StateAfter(q) == KeyState(b0, b1, length, q[start..]);
  }

  /** The last masking key byte of a frame with an empty payload. */
  lemma StepInKeyLastEmpty(pending: seq<bv8>, x: bv8)
    requires HasLength(pending) && |pending| + 1 == HeaderSize(pending) && KeySize(pending[1]) == 4
    requires Value(LengthWord(pending)) == 0
    ensures Step(StateAfter(pending), x) == Expected(pending + [x])
  {
    var q := pending + [x];
    var b0, b1 := pending[0], pending[1];
    var start, length := 2 + ExtSize(b1), LengthWord(pending);
    KeyStepFacts(pending, x);
    FromKeyLast(b0, b1, length, pending[start..], x);
    assert Complete(q) && FrameSize(q) == |q|;
    assert q[HeaderSize(q)..FrameSize(q)] == [];
    assert PayloadOf(q) == [];
  }

  /** The last masking key byte of a frame with a payload. */
  lemma StepInKeyLastBody(pending: seq<bv8>, x: bv8)
    requires HasLength(pending) && |pending| + 1 == HeaderSize(pending) && KeySize(pending[1]) == 4
    requires Value(LengthWord(pending)) > 0
    ensures Step(StateAfter(pending), x) == Expected(pending + [x])
  {
    var q := pending + [x];
    var b0, b1 := pending[0], pending[1];
    var start, length := 2 + ExtSize(b1), LengthWord(pending);
    KeyStepFacts(pending, x);
    FromKeyLast(b0, b1, length, pending[start..], x);
    assert !Complete(q);
    assert q[start..] == q[start..start + 4];
    assert KeyOf(q) == pending[start..] + [x];
    assert q[HeaderSize(q)..] == [];
  }

  /** The payload of a whole frame is its body bytes as the body states
      store them, under the key those states hold. */
  lemma PayloadReceived(q: seq<bv8>)
    requires Complete(q)
    ensures PayloadOf(q) == Received(HighBit(q[1]) == 1, q[HeaderSize(q)..FrameSize(q)], KeyOf(q))
    ensures FrameAt(q) == Record(q[0], q[1], PayloadOf(q))
  {
  }

  /** The header and state around a body byte. */
  lemma BodyStepFacts(pending: seq<bv8>, x: bv8)
    requires HasLength(pending) && HeaderSize(pending) <= |pending| && !Complete(pending)
    ensures var q := pending + [x];
            var h := HeaderSize(pending);
            q[0] == pending[0] && q[1] == pending[1] && HasLength(q) &&
            LengthWord(q) == LengthWord(pending) && HeaderSize(q) == h &&
            KeyOf(q) == KeyOf(pending) && q[h..] == pending[h..] + [x]
    ensures |pending| - HeaderSize(pending) < Value(LengthWord(pending))
    ensures StateAfter(pending) ==
              BodyState(pending[0], pending[1], LengthWord(pending), KeyOf(pending), pending[HeaderSize(pending)..])
  {
    var q := pending + [x];
    LengthWordStable(pending, [x]);
    HeaderStable(pending, [x]);
    var h := HeaderSize(pending);
    assert q[h..] == pending[h..] + [x];
    if KeySize(pending[1]) == 4 {
      var start := 2 + ExtSize(pending[1]);
      assert q[start..start + 4] == pending[start..start + 4];
    }
  }

  /** A body byte before the last. */
  lemma StepInBodyMid(pending: seq<bv8>, x: bv8)
    requires HasLength(pending) && HeaderSize(pending) <= |pending| && !Complete(pending)
    requires |pending| + 1 < FrameSize(pending)
    ensures Step(StateAfter(pending), x) == Expected(pending + [x])
  {
    var q := pending + [x];
    var h, length, key := HeaderSize(pending), LengthWord(pending), KeyOf(pending);
    BodyStepFacts(pending, x);
    FromBodyMid(pending[0], pending[1], length, key, pending[h..], x);
    assert !Complete(q);
  }

  /** The record that the last body byte completes. */
  function LastRecord(pending: seq<bv8>, x: bv8): Frame
    requires HasLength(pending) && HeaderSize(pending) <= |pending|
  {
    Record(pending[0], pending[1],
           Received(HighBit(pending[1]) == 1, pending[HeaderSize(pending)..] + [x], KeyOf(pending)))
  }

  /** The machine flushes that record on the last body byte ... */
  lemma BodyLastStep(pending: seq<bv8>, x: bv8)
    requires HasLength(pending) && HeaderSize(pending) <= |pending| && !Complete(pending)
    requires |pending| + 1 == FrameSize(pending)
    ensures Step(StateAfter(pending), x) == (Initial, [LastRecord(pending, x)])
  {
    var h, length, key := HeaderSize(pending), LengthWord(pending), KeyOf(pending);
    BodyStepFacts(pending, x);
    FromBodyLast(pending[0], pending[1], length, key, pending[h..], x);
  }

  /** ... which is the frame the reference parser reads. */
  lemma BodyLastFrame(pending: seq<bv8>, x: bv8)
    requires HasLength(pending) && HeaderSize(pending) <= |pending| && !Complete(pending)
    requires |pending| + 1 == FrameSize(pending)
    ensures Complete(pending + [x]) && FrameAt(pending + [x]) == LastRecord(pending, x)
  {
    var q := pending + [x];
    var h := HeaderSize(pending);
    BodyStepFacts(pending, x);
    assert Complete(q) && FrameSize(q) == |q|;
    assert q[h..FrameSize(q)] == pending[h..] + [x];
    PayloadReceived(q);
  }

  /** The last body byte. */
  lemma StepInBodyLast(pending: seq<bv8>, x: bv8)
    requires HasLength(pending) && HeaderSize(pending) <= |pending| && !Complete(pending)
    requires |pending| + 1 == FrameSize(pending)
    ensures Step(StateAfter(pending), x) == Expected(pending + [x])
  {
    BodyLastStep(pending, x);
    BodyLastFrame(pending, x);
  }

  /** Every byte does what `Expected` says. */
  lemma StepAfter(pending: seq<bv8>, x: bv8)
    requires !Complete(pending)
    ensures Step(StateAfter(pending), x) == Expected(pending + [x])
  {
    if |pending| == 0 {
      StepFromReset(pending, x);
    } else if |pending| == 1 {
      StepFromFirst(pending, x);
    } else if |pending| + 1 < 2 + ExtSize(pending[1]) {
      StepInExtMid(pending, x);
    } else if |pending| < 2 + ExtSize(pending[1]) {
      StepInExtLast(pending, x);
    } else if |pending| + 1 < HeaderSize(pending) {
      StepInKeyMid(pending, x);
    } else if |pending| < HeaderSize(pending) {
      if Value(LengthWord(pending)) == 0 {
        StepInKeyLastEmpty(pending, x);
      } else {
        StepInKeyLastBody(pending, x);
      }
    } else if |pending| + 1 < FrameSize(pending) {
      StepInBodyMid(pending, x);
    } else {
      StepInBodyLast(pending, x);
    }
  }

  /** The decoder run from its reset state over any byte stream emits exactly
      the reference parser's records, in order, and ends in the state for the
      bytes of the incomplete frame at the end of the stream. */
  lemma {:induction false} DecodeMatchesParse(bs: seq<bv8>)
    ensures Run(Initial, bs) == (StateAfter(ParseAll(bs).pending), ParseAll(bs).frames)
    decreases |bs|
  {
    if bs != [] {
      var init, x := bs[..|bs| - 1], bs[|bs| - 1];
      assert init + [x] == bs;
      DecodeMatchesParse(init);
      RunLast(Initial, bs);
      ParseAllSnoc(init, x);
      var p := ParseAll(init);
      StepAfter(p.pending, x);
      ConcatEmpty(p.frames);
    }
  }

  /** Any split of a byte stream into `decode` calls emits the reference
      parser's records for the whole stream. */
  lemma DecodeChunksMatchesParse(chunks: seq<seq<bv8>>)
    ensures var parsed := ParseAll(Concat(chunks));
            RunChunks(Initial, chunks) == (StateAfter(parsed.pending), parsed.frames)
  {
    RunChunksIsRun(Initial, chunks);
    DecodeMatchesParse(Concat(chunks));
  }
}
