/** The decoder's state machine against the reference parser. `StateAfter`
    says which state the machine is in after the bytes of an incomplete frame;
    each byte then either moves it to the state after one more byte or, on the
    frame's last byte, resets it and emits exactly the record the reference
    parser reads. Over a whole stream the machine emits the reference
    parser's records and ends in the state for its pending bytes. */
module Simulation {
  import opened Common
  import opened Wire
  import opened FrameMachine
  import opened MachineFacts
  import opened Bits

  /** The body bytes as the decoder stores them: XOR-ed with the key in a
      masked frame, unchanged otherwise. */
  function Received(masked: bool, p: seq<bv8>, key: seq<bv8>): (r: seq<bv8>)
    requires |key| == 4
    ensures |r| == |p|
  {
    if masked then Unmask(p, key) else p
  }

  /** The header fields of the first two bytes, in an otherwise reset state. */
  function Fields(b0: bv8, b1: bv8): Machine {
    Initial.(fin := HighBit(b0), opcode := OpcodeBits(b0), mask := HighBit(b1))
  }

  /** After the first byte. */
  function LenState(b0: bv8): (m: Machine)
    ensures Valid(m)
  {
    Initial.(phase := Len, fin := HighBit(b0), opcode := OpcodeBits(b0))
  }

  /** After `n` extended length bytes, short of the last one, which OR-ed in
      give `length`. */
  function ExtState(b0: bv8, b1: bv8, n: nat, length: Word): (m: Machine)
    requires ExtSize(b1) > 0 && n < ExtSize(b1)
    ensures Valid(m)
  {
    Fields(b0, b1).(phase := ExtLen, offset := 8 * (ExtSize(b1) - 1 - n), length := length)
  }

  /** After the key bytes `k` of a masked frame, short of the fourth. */
  function KeyState(b0: bv8, b1: bv8, length: Word, k: seq<bv8>): (m: Machine)
    requires |k| < 4
    ensures Valid(m)
  {
    Fields(b0, b1).(phase := Key, offset := |k|, length := length, key := k + Zeros(4 - |k|),
                    body := Some(Zeros(Value(length))))
  }

  /** After the body bytes `p`, short of the length. */
  function BodyState(b0: bv8, b1: bv8, length: Word, key: seq<bv8>, p: seq<bv8>): (m: Machine)
    requires |key| == 4 && |p| < Value(length)
    ensures Valid(m)
  {
    var masked := HighBit(b1) == 1;
    Fields(b0, b1).(phase := if masked then MaskedBody else RawBody, offset := |p|, length := length,
                    key := key, body := Some(Received(masked, p, key) + Zeros(Value(length) - |p|)))
  }

  /** The key held in the body states: the frame's key when it is masked, the
      reset key otherwise. */
  function KeyOf(pending: seq<bv8>): (k: seq<bv8>)
    requires HasLength(pending) && HeaderSize(pending) <= |pending|
    ensures |k| == 4
  {
    if KeySize(pending[1]) == 4 then MaskKey(pending) else Initial.key
  }

  /** The state of the decoder after the bytes `pending` of an incomplete
      frame, starting from the reset state. */
  function StateAfter(pending: seq<bv8>): (m: Machine)
    requires !Complete(pending)
    ensures Valid(m)
  {
    if |pending| == 0 then Initial
    else if |pending| == 1 then LenState(pending[0])
    else
      var b0, b1 := pending[0], pending[1];
      var start := 2 + ExtSize(b1);
      if |pending| < start then ExtState(b0, b1, |pending| - 2, ExtAcc(pending[2..], 8 * (ExtSize(b1) - 1)))
      else if |pending| < HeaderSize(pending) then KeyState(b0, b1, LengthWord(pending), pending[start..])
      else BodyState(b0, b1, LengthWord(pending), KeyOf(pending), pending[HeaderSize(pending)..])
  }

  /** The record emitted for a frame with header bytes `b0`, `b1` and stored
      body `body`. */
  function Record(b0: bv8, b1: bv8, body: seq<bv8>): Frame {
    Frame(HighBit(b0), OpcodeBits(b0), HighBit(b1), PayloadFor(OpcodeBits(b0), body))
  }

  lemma FromInitial(x: bv8)
    ensures Step(Initial, x) == (LenState(x), [])
  {
  }

  /** Leaving the length states with payload length `length`. */
  lemma FromHeader(m: Machine, b0: bv8, b1: bv8, length: Word)
    requires m == Fields(b0, b1).(phase := m.phase, length := length)
    ensures EnterPayload(m) ==
      if Value(length) == 0 && HighBit(b1) == 0 then (Initial, [Record(b0, b1, [])])
      else if HighBit(b1) == 1 then (KeyState(b0, b1, length, []), [])
      else (BodyState(b0, b1, length, Initial.key, []), [])
  {
    if Value(length) == 0 && HighBit(b1) == 0 {
      assert Zeros(0) == [];
    } else if HighBit(b1) == 1 {
      assert [] + Zeros(4) == Initial.key;
    } else {
      assert Received(false, [], Initial.key) + Zeros(Value(length)) == Zeros(Value(length));
    }
  }

  lemma FromLen(b0: bv8, x: bv8)
    ensures Step(LenState(b0), x) ==
      if Indicator(x) < 126 then EnterPayload(Fields(b0, x).(phase := Len, length := Word(0, 0, 0, Indicator(x))))
      else (ExtState(b0, x, 0, ZeroWord), [])
  {
    StepDispatch(LenState(b0), x);
  }

  lemma FromExtMid(b0: bv8, b1: bv8, n: nat, length: Word, x: bv8)
    requires ExtSize(b1) > 0 && n + 1 < ExtSize(b1)
    ensures Step(ExtState(b0, b1, n, length), x) ==
              (ExtState(b0, b1, n + 1, OrIn(length, x, 8 * (ExtSize(b1) - 1 - n))), [])
  {
    StepExtMid(ExtState(b0, b1, n, length), x);
  }

  lemma FromExtLast(b0: bv8, b1: bv8, n: nat, length: Word, x: bv8)
    requires ExtSize(b1) > 0 && n + 1 == ExtSize(b1)
    ensures Step(ExtState(b0, b1, n, length), x) ==
              EnterPayload(Fields(b0, b1).(phase := ExtLen, length := OrIn(length, x, 0)))
  {
    StepExtLast(ExtState(b0, b1, n, length), x);
  }

  /** The key as the key state holds it: the bytes read, then zeros. */
  lemma KeyFill(k: seq<bv8>, x: bv8)
    requires |k| < 4
    ensures (k + Zeros(4 - |k|))[|k| := x] == (k + [x]) + Zeros(3 - |k|)
  {
  }

  lemma FromKeyMid(b0: bv8, b1: bv8, length: Word, k: seq<bv8>, x: bv8)
    requires HighBit(b1) == 1 && |k| < 3
    ensures Step(KeyState(b0, b1, length, k), x) == (KeyState(b0, b1, length, k + [x]), [])
  {
    KeyFill(k, x);
    StepKeyMid(KeyState(b0, b1, length, k), x);
  }

  /** The key after its fourth byte. */
  lemma KeyComplete(k: seq<bv8>, x: bv8)
    requires |k| == 3
    ensures (k + Zeros(1))[3 := x] == k + [x]
  {
    KeyFill(k, x);
    assert Zeros(0) == [];
    ConcatEmpty(k + [x]);
  }

  /** A body state with no body byte yet holds a zeroed body. */
  lemma EmptyReceived(masked: bool, key: seq<bv8>, n: nat)
    requires |key| == 4
    ensures Received(masked, [], key) + Zeros(n) == Zeros(n)
  {
    assert Received(masked, [], key) == [];
    ConcatEmpty(Zeros(n));
  }

  lemma FromKeyLast(b0: bv8, b1: bv8, length: Word, k: seq<bv8>, x: bv8)
    requires HighBit(b1) == 1 && |k| == 3
    ensures Step(KeyState(b0, b1, length, k), x) ==
      if Value(length) == 0 then (Initial, [Record(b0, b1, [])])
      else (BodyState(b0, b1, length, k + [x], []), [])
  {
    var m := KeyState(b0, b1, length, k);
    KeyComplete(k, x);
    StepKeyLast(m, x);
    if Value(length) == 0 {
      assert Zeros(0) == [];
    } else {
      EmptyReceived(true, k + [x], Value(length));
    }
  }

  /** Unmasking works byte by byte from the front. */
  lemma UnmaskSnoc(p: seq<bv8>, x: bv8, key: seq<bv8>)
    requires |key| == 4
    ensures Unmask(p + [x], key) == Unmask(p, key) + [x ^ key[|p| % 4]]
  {
    var u := Unmask(p, key) + [x ^ key[|p| % 4]];
    assert |u| == |p| + 1;
    forall i | 0 <= i < |p| + 1
      ensures Unmask(p + [x], key)[i] == u[i]
    {
    }
  }

  /** Writing the next byte into a zero-padded buffer extends its filled part. */
  lemma FillNext(filled: seq<bv8>, x: bv8, k: nat)
    requires k >= 1
    ensures (filled + Zeros(k))[|filled| := x] == (filled + [x]) + Zeros(k - 1)
  {
  }

  /** The body write of the body states stores the next received byte. */
  lemma StoreNextReceives(b0: bv8, b1: bv8, length: Word, key: seq<bv8>, p: seq<bv8>, x: bv8)
    requires |key| == 4 && |p| < Value(length)
    ensures var next := StoreNext(BodyState(b0, b1, length, key, p), x);
            next == Fields(b0, b1).(phase := next.phase, offset := |p| + 1, length := length, key := key,
                                    body := Some(Received(HighBit(b1) == 1, p + [x], key) + Zeros(Value(length) - |p| - 1)))
  {
    var masked := HighBit(b1) == 1;
    var m := BodyState(b0, b1, length, key, p);
    var stored := StoredByte(m, x);
    assert Received(masked, p + [x], key) == Received(masked, p, key) + [stored] by {
      if masked {
        UnmaskSnoc(p, x, key);
      }
    }
    FillNext(Received(masked, p, key), stored, Value(length) - |p|);
  }

  /** Short of the last body byte, the write leads to the body state of one
      more received byte. */
  lemma StoreNextMid(b0: bv8, b1: bv8, length: Word, key: seq<bv8>, p: seq<bv8>, x: bv8)
    requires |key| == 4 && |p| + 1 < Value(length)
    ensures StoreNext(BodyState(b0, b1, length, key, p), x) == BodyState(b0, b1, length, key, p + [x])
  {
    var next := StoreNext(BodyState(b0, b1, length, key, p), x);
    StoreNextReceives(b0, b1, length, key, p, x);
    assert next.phase == BodyState(b0, b1, length, key, p).phase;
  }

  lemma FromBodyMid(b0: bv8, b1: bv8, length: Word, key: seq<bv8>, p: seq<bv8>, x: bv8)
    requires |key| == 4 && |p| + 1 < Value(length)
    ensures Step(BodyState(b0, b1, length, key, p), x) == (BodyState(b0, b1, length, key, p + [x]), [])
  {
    var m := BodyState(b0, b1, length, key, p);
    StoreNextMid(b0, b1, length, key, p, x);
    StepBodyMid(m, x);
  }

  lemma FromBodyLast(b0: bv8, b1: bv8, length: Word, key: seq<bv8>, p: seq<bv8>, x: bv8)
    requires |key| == 4 && |p| + 1 == Value(length)
    ensures Step(BodyState(b0, b1, length, key, p), x) ==
              (Initial, [Record(b0, b1, Received(HighBit(b1) == 1, p + [x], key))])
  {
    StoreNextReceives(b0, b1, length, key, p, x);
    assert Zeros(0) == [];
    ConcatEmpty(Received(HighBit(b1) == 1, p + [x], key));
    StepBodyLast(BodyState(b0, b1, length, key, p), x);
  }
}
