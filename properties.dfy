/** Consequences of `Correspondence.DecodeMatchesParse` for single frames fed
    to a fresh decoder: when the record comes out, what it holds, how the
    length bytes are consumed, and what happens to empty frames. */
module DecoderProperties {
  import opened Common
  import opened Bits
  import opened Wire
  import opened FrameMachine
  import opened Simulation
  import opened Correspondence

  /** The bytes of a frame short of its end are an incomplete frame. */
  lemma PrefixIncomplete(q: seq<bv8>, n: nat)
    requires Complete(q) && n < FrameSize(q)
    ensures !Complete(q[..n])
  {
    if HasLength(q[..n]) {
      assert q[..n] + q[n..] == q;
      HeaderStable(q[..n], q[n..]);
    }
  }

  /** A fresh decoder emits nothing before the last byte of a frame. */
  lemma QuietBeforeLastByte(q: seq<bv8>, n: nat)
    requires Complete(q) && n < FrameSize(q)
    ensures Run(Initial, q[..n]).1 == []
    ensures !Complete(q[..n]) && Run(Initial, q[..n]).0 == StateAfter(q[..n])
  {
    PrefixIncomplete(q, n);
    DecodeMatchesParse(q[..n]);
  }

  /** On the last byte of a frame a fresh decoder emits that frame's record,
      and only it, and is reset. */
  lemma DecodeOneFrame(q: seq<bv8>)
    requires Complete(q) && FrameSize(q) == |q|
    ensures Run(Initial, q) == (Initial, [FrameAt(q)])
  {
    DecodeMatchesParse(q);
    ParseWhole(q);
  }

  /** The record of a frame carries `fin` and `opcode` from the first byte,
      `mask` from the second, and the payload bytes: each XOR-ed with key
      byte `i mod 4` when the frame is masked, as they are otherwise. */
  lemma DecodedRecord(q: seq<bv8>)
    requires Complete(q) && FrameSize(q) == |q|
    ensures |Run(Initial, q).1| == 1
    ensures var f := Run(Initial, q).1[0];
            var h := HeaderSize(q);
            f.fin == HighBit(q[0]) && f.opcode == OpcodeBits(q[0]) && f.mask == HighBit(q[1]) &&
            (f.body.Text? <==> f.opcode == 1) && |f.body.Bytes()| == PayloadLength(q) &&
            (forall i :: 0 <= i < PayloadLength(q) ==>
               f.body.Bytes()[i] == if f.mask == 1 then q[h + i] ^ MaskKey(q)[i % 4] else q[h + i])
  {
    DecodeOneFrame(q);
    RecordBytes(q);
  }

  /** Once the length bytes are read, the decoder of a frame that is not yet
      whole waits in the key state (masked) or the raw body state
      (unmasked), with `offset` back at 0, the payload length read, and a
      zeroed body of that length; before that, from the second byte on, it
      is still reading length bytes. */
  lemma LengthBytesConsumed(q: seq<bv8>)
    requires LengthRead(q) && !Complete(q)
    ensures var m := Run(Initial, q).0;
            Run(Initial, q).1 == [] && m.offset == 0 && Value(m.length) == PayloadLength(q) &&
            m.phase == (if HighBit(q[1]) == 1 then Key else RawBody) &&
            m.body == Some(Zeros(PayloadLength(q)))
  {
    DecodeMatchesParse(q);
    assert ParseAll(q) == Parsed([], q);
    HeaderDone(q);
    ConcatEmpty(Zeros(PayloadLength(q)));
  }

  /** From the second byte of a frame until its length bytes are all read,
      the decoder stays in the extended length state. */
  lemma ReadingLengthBytes(q: seq<bv8>)
    requires LengthRead(q)
    ensures forall n :: 2 <= n < |q| ==> Run(Initial, q[..n]).0.phase == ExtLen
  {
    forall n | 2 <= n < |q|
      ensures Run(Initial, q[..n]).0.phase == ExtLen
    {
      var p := q[..n];
      assert p[1] == q[1];
      assert !Complete(p);
      DecodeMatchesParse(p);
    }
  }

  /** An unmasked frame with an empty payload is emitted, with an empty body,
      on its last length byte. */
  lemma EmptyUnmaskedFrame(q: seq<bv8>)
    requires LengthRead(q) && PayloadLength(q) == 0 && HighBit(q[1]) == 0
    ensures Run(Initial, q) == (Initial, [Frame(HighBit(q[0]), OpcodeBits(q[0]), 0, PayloadFor(OpcodeBits(q[0]), []))])
  {
    HeaderDone(q);
    DecodeOneFrame(q);
  }

  /** A masked frame with an empty payload still takes all four key bytes,
      and is emitted, with an empty body, on the fourth. */
  lemma EmptyMaskedFrame(q: seq<bv8>, key: seq<bv8>)
    requires LengthRead(q) && PayloadLength(q) == 0 && HighBit(q[1]) == 1 && |key| == 4
    ensures forall j :: 0 <= j < 4 ==> Run(Initial, q + key[..j]).1 == []
    ensures Run(Initial, q + key) == (Initial, [Frame(HighBit(q[0]), OpcodeBits(q[0]), 1, PayloadFor(OpcodeBits(q[0]), []))])
  {
    var all := q + key;
    HeaderStable(q, key);
    assert all[0] == q[0] && all[1] == q[1];
    assert Complete(all) && FrameSize(all) == |all|;
    assert all[HeaderSize(all)..FrameSize(all)] == [];
    DecodeOneFrame(all);
    forall j | 0 <= j < 4
      ensures Run(Initial, q + key[..j]).1 == []
    {
      KeyBytesQuiet(q, key, j);
    }
  }

  /** Before the fourth key byte of an empty masked frame nothing is
      emitted. */
  lemma KeyBytesQuiet(q: seq<bv8>, key: seq<bv8>, j: nat)
    requires LengthRead(q) && PayloadLength(q) == 0 && HighBit(q[1]) == 1 && |key| == 4 && j < 4
    ensures Run(Initial, q + key[..j]).1 == []
  {
    EmptyMaskedSize(q, key);
    var all := q + key;
    assert all[..|q| + j] == q + key[..j];
    QuietPrefix(all, |q| + j, q + key[..j]);
  }

  /** The header of an empty masked frame, key included, is the whole
      frame. */
  lemma EmptyMaskedSize(q: seq<bv8>, key: seq<bv8>)
    requires LengthRead(q) && PayloadLength(q) == 0 && HighBit(q[1]) == 1 && |key| == 4
    ensures Complete(q + key) && FrameSize(q + key) == |q| + 4
  {
    HeaderStable(q, key);
    assert (q + key)[1] == q[1];
  }

  /** `QuietBeforeLastByte` for a prefix given by name. */
  lemma QuietPrefix(q: seq<bv8>, n: nat, prefix: seq<bv8>)
    requires Complete(q) && n < FrameSize(q) && prefix == q[..n]
    ensures Run(Initial, prefix).1 == []
  {
    QuietBeforeLastByte(q, n);
  }
}
