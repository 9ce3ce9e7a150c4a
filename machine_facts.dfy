/** What the parsing loop does over whole byte sequences: chunk boundaries do
    not matter, and each phase of a frame (extended length, key, body) consumes
    exactly the bytes the wire format gives it. */
module MachineFacts {
  import opened Common
  import opened FrameMachine
  import opened Bits

  lemma RunOne(m: Machine, b: bv8)
    requires Valid(m)
    ensures Run(m, [b]) == Step(m, b)
  {
    assert [b][..0] == [];
    var r := Step(m, b);
    assert Run(m, [b]) == (r.0, [] + r.1);
    assert [] + r.1 == r.1;
  }

  /** `Run` on a non-empty sequence is `Run` on all but the last byte, then
      one step. */
  lemma RunLast(m: Machine, bs: seq<bv8>)
    requires Valid(m) && bs != []
    ensures var prev := Run(m, bs[..|bs| - 1]);
            var last := Step(prev.0, bs[|bs| - 1]);
            Run(m, bs) == (last.0, prev.1 + last.1)
  {
  }

  /** A quiet run followed by one step: the step's result, with nothing
      emitted before it. */
  lemma RunThenStep(m: Machine, bs: seq<bv8>, prev: Machine, r: (Machine, seq<Frame>))
    requires Valid(m) && bs != []
    requires Run(m, bs[..|bs| - 1]) == (prev, [])
    requires Valid(prev) && Step(prev, bs[|bs| - 1]) == r
    ensures Run(m, bs) == r
  {
    RunLast(m, bs);
    ConcatEmpty(r.1);
  }

  /** Feeding `a` and then `b` is feeding `a + b`: the state carries over and
      the records come out in order. */
  lemma {:induction false} RunAppend(m: Machine, a: seq<bv8>, b: seq<bv8>)
    requires Valid(m)
    ensures Run(m, a + b).0 == Run(Run(m, a).0, b).0
    ensures Run(m, a + b).1 == Run(m, a).1 + Run(Run(m, a).0, b).1
    decreases |b|
  {
    if b == [] {
      assert a + b == a;
    } else {
      var init, x := b[..|b| - 1], b[|b| - 1];
      var mid := Run(m, a).0;
      RunAppend(m, a, init);
      var prev := Run(m, a + init);
      var last := Step(prev.0, x);
      assert Run(m, a + b) == (last.0, prev.1 + last.1) by {
        assert (a + b)[..|a + b| - 1] == a + init;
        assert (a + b)[|a + b| - 1] == x;
        RunLast(m, a + b);
      }
      assert Run(mid, b) == (last.0, Run(mid, init).1 + last.1) by {
        RunLast(mid, b);
      }
      ConcatAssoc(Run(m, a).1, Run(mid, init).1, last.1);
    }
  }

  /** Splitting a stream into chunks changes nothing: successive calls on the
      chunks end in the state, and emit the records, of one call on their
      concatenation. */
  lemma {:induction false} RunChunksIsRun(m: Machine, chunks: seq<seq<bv8>>)
    requires Valid(m)
    ensures RunChunks(m, chunks) == Run(m, Concat(chunks))
    decreases |chunks|
  {
    if chunks != [] {
      var init := chunks[..|chunks| - 1];
      RunChunksIsRun(m, init);
      RunAppend(m, Concat(init), chunks[|chunks| - 1]);
      var prev := RunChunks(m, init);
      ConcatAssoc(Run(m, Concat(init)).1, Run(prev.0, chunks[|chunks| - 1]).1, []);
    }
  }

  /** Any two splits of the same byte stream give the same records and the
      same final state. */
  lemma ChunkBoundariesIrrelevant(m: Machine, split1: seq<seq<bv8>>, split2: seq<seq<bv8>>)
    requires Valid(m) && Concat(split1) == Concat(split2)
    ensures RunChunks(m, split1) == RunChunks(m, split2)
  {
    RunChunksIsRun(m, split1);
    RunChunksIsRun(m, split2);
  }

  /** `Step` is the step function of the current phase. */
  lemma StepDispatch(m: Machine, b: bv8)
    requires Valid(m)
    ensures m.phase == Len ==> Step(m, b) == StepLen(m, b)
    ensures m.phase == ExtLen ==> Step(m, b) == StepExtLen(m, b)
    ensures m.phase == Key ==> Step(m, b) == StepKey(m, b)
    ensures m.phase == RawBody || m.phase == MaskedBody ==> Step(m, b) == FrameMachine.StepBody(m, b)
  {
  }

  lemma StepExtMid(m: Machine, b: bv8)
    requires Valid(m) && m.phase == ExtLen && m.offset != 0
    ensures Step(m, b) == (m.(length := OrIn(m.length, b, m.offset), offset := m.offset - 8), [])
  {
    StepDispatch(m, b);
  }

  lemma StepExtLast(m: Machine, b: bv8)
    requires Valid(m) && m.phase == ExtLen && m.offset == 0
    ensures Step(m, b) == EnterPayload(m.(length := OrIn(m.length, b, 0)))
  {
    StepDispatch(m, b);
  }

  lemma StepKeyMid(m: Machine, b: bv8)
    requires Valid(m) && m.phase == Key && m.offset < 3
    ensures Step(m, b) == (m.(key := m.key[m.offset := b], offset := m.offset + 1), [])
  {
    StepDispatch(m, b);
  }

  lemma StepKeyLast(m: Machine, b: bv8)
    requires Valid(m) && m.phase == Key && m.offset == 3
    ensures var next := m.(key := m.key[3 := b], offset := 0, phase := MaskedBody, body := Some(Zeros(Value(m.length))));
            Step(m, b) == if Value(m.length) == 0 then Flush(next) else (next, [])
  {
    StepDispatch(m, b);
  }

  lemma StepBodyMid(m: Machine, b: bv8)
    requires Valid(m) && (m.phase == RawBody || m.phase == MaskedBody) && m.offset + 1 < Value(m.length)
    ensures Step(m, b) == (StoreNext(m, b), [])
  {
    StepDispatch(m, b);
  }

  lemma StepBodyLast(m: Machine, b: bv8)
    requires Valid(m) && (m.phase == RawBody || m.phase == MaskedBody) && m.offset + 1 == Value(m.length)
    ensures Step(m, b) == (Initial, [FrameOf(StoreNext(m, b))])
  {
    StepDispatch(m, b);
  }
}
