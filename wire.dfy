/** The base framing of section 5.2 of RFC 6455 and the payload masking of
    section 5.3, read off a whole byte stream at once. This is the reference
    the decoder's byte-at-a-time state machine is proved against; it keeps the
    decoder's reading of the 64-bit length (see `PayloadLength`). */
module Wire {
  import opened Common
  import opened Bits

  /** Bit 7 of a byte: FIN in the first header byte, MASK in the second. */
  function HighBit(b: bv8): bv1 { ((b >> 7) & 1) as bv1 }

  /** The low four bits of the first header byte. */
  function OpcodeBits(b: bv8): bv4 { (b & 0xf) as bv4 }

  /** The low seven bits of the second header byte: the payload length when
      below 126, otherwise 126 or 127 announcing a 2- or 8-byte extended
      length. */
  function Indicator(b: bv8): bv8 { b & 0x7f }

  /** The number of extended length bytes announced by the second byte. */
  function ExtSize(b1: bv8): (n: nat)
    ensures n == 0 || n == 2 || n == 8
  {
    var ind := Indicator(b1);
    if ind < 126 then 0 else if ind == 126 then 2 else 8
  }

  /** The number of masking key bytes announced by the second byte. */
  function KeySize(b1: bv8): (n: nat)
    ensures n == 4 <==> HighBit(b1) == 1
    ensures n == 0 <==> HighBit(b1) == 0
  {
    if HighBit(b1) == 1 then 4 else 0
  }

  /** The first two bytes and the extended length bytes are all there. */
  predicate HasLength(bs: seq<bv8>) {
    2 <= |bs| && 2 + ExtSize(bs[1]) <= |bs|
  }

  /** The 32 bits of the payload length the decoder acts on. An 8-byte
      extended length is read as its high and low 32-bit words OR-ed
      together. */
  function LengthWord(bs: seq<bv8>): Word
    requires HasLength(bs)
  {
    var ind := Indicator(bs[1]);
    if ind < 126 then Word(0, 0, 0, ind)
    else if ind == 126 then Word(0, 0, bs[2], bs[3])
    else Word(bs[2] | bs[6], bs[3] | bs[7], bs[4] | bs[8], bs[5] | bs[9])
  }

  /** The payload length the decoder acts on. It is the length of section 5.2
      except for an 8-byte extended length whose high word is not zero. */
  function PayloadLength(bs: seq<bv8>): (n: nat)
    requires HasLength(bs)
    ensures n < 0x1_0000_0000
  {
    Value(LengthWord(bs))
  }

  /** Header bytes: two, the extended length and the masking key. */
  function HeaderSize(bs: seq<bv8>): (n: nat)
    requires 2 <= |bs|
    ensures 2 <= n
  {
    2 + ExtSize(bs[1]) + KeySize(bs[1])
  }

  /** Header and payload. */
  function FrameSize(bs: seq<bv8>): (n: nat)
    requires HasLength(bs)
    ensures HeaderSize(bs) <= n
  {
    HeaderSize(bs) + PayloadLength(bs)
  }

  /** `bs` starts with a whole frame. */
  predicate Complete(bs: seq<bv8>) {
    HasLength(bs) && FrameSize(bs) <= |bs|
  }

  /** Payload masking: byte `i` is XOR-ed with key byte `i mod 4`. Applying it
      twice with the same key gives the payload back. */
  function Unmask(payload: seq<bv8>, key: seq<bv8>): (r: seq<bv8>)
    requires |key| == 4
    ensures |r| == |payload|
  {
    seq(|payload|, i requires 0 <= i < |payload| => payload[i] ^ key[i % 4])
  }

  /** The masking key of a masked frame. */
  function MaskKey(bs: seq<bv8>): (k: seq<bv8>)
    requires HasLength(bs) && KeySize(bs[1]) == 4 && HeaderSize(bs) <= |bs|
    ensures |k| == 4
  {
    var start := 2 + ExtSize(bs[1]);
    bs[start..start + 4]
  }

  /** The payload of the frame `bs` starts with: the bytes after the header,
      unmasked when the frame is masked. */
  function PayloadOf(bs: seq<bv8>): (p: seq<bv8>)
    requires Complete(bs)
    ensures |p| == PayloadLength(bs)
  {
    var data := bs[HeaderSize(bs)..FrameSize(bs)];
    if KeySize(bs[1]) == 4 then Unmask(data, MaskKey(bs)) else data
  }

  /** The record for the frame `bs` starts with. */
  function FrameAt(bs: seq<bv8>): (f: Frame)
    requires Complete(bs)
    ensures f.fin == HighBit(bs[0]) && f.opcode == OpcodeBits(bs[0]) && f.mask == HighBit(bs[1])
    ensures f.body.Bytes() == PayloadOf(bs) && (f.body.Text? <==> f.opcode == 1)
  {
    Frame(HighBit(bs[0]), OpcodeBits(bs[0]), HighBit(bs[1]), PayloadFor(OpcodeBits(bs[0]), PayloadOf(bs)))
  }

  /** A stream split into its whole frames and the bytes of the incomplete
      frame at its end. */
  datatype Parsed = Parsed(frames: seq<Frame>, pending: seq<bv8>)

  /** The reference parser: whole frames, front to back. */
  function ParseAll(bs: seq<bv8>): (r: Parsed)
    ensures !Complete(r.pending)
    decreases |bs|
  {
    if Complete(bs) then
      var rest := ParseAll(bs[FrameSize(bs)..]);
      Parsed([FrameAt(bs)] + rest.frames, rest.pending)
    else Parsed([], bs)
  }

  /** Payload byte `i` of a frame's record is wire byte `i` after the header,
      XOR-ed with key byte `i mod 4` when the frame is masked. */
  lemma RecordBytes(bs: seq<bv8>)
    requires Complete(bs)
    ensures var f := FrameAt(bs);
            var h := HeaderSize(bs);
            forall i :: 0 <= i < PayloadLength(bs) ==>
              f.body.Bytes()[i] == if f.mask == 1 then bs[h + i] ^ MaskKey(bs)[i % 4] else bs[h + i]
  {
  }

  /** A stream holding exactly one whole frame parses as that frame. */
  lemma ParseWhole(bs: seq<bv8>)
    requires Complete(bs) && FrameSize(bs) == |bs|
    ensures ParseAll(bs) == Parsed([FrameAt(bs)], [])
  {
    assert bs[FrameSize(bs)..] == [];
    assert ParseAll(bs[FrameSize(bs)..]) == Parsed([], []);
  }

  /** The length bytes of a header decide its length word, whatever follows
      them. */
  lemma LengthWordStable(bs: seq<bv8>, more: seq<bv8>)
    requires HasLength(bs)
    ensures HasLength(bs + more) && LengthWord(bs + more) == LengthWord(bs)
  {
    var all := bs + more;
    assert all[1] == bs[1];
    if Indicator(bs[1]) == 127 {
      assert all[2] == bs[2] && all[3] == bs[3] && all[4] == bs[4] && all[5] == bs[5];
      assert all[6] == bs[6] && all[7] == bs[7] && all[8] == bs[8] && all[9] == bs[9];
    } else if Indicator(bs[1]) == 126 {
      assert all[2] == bs[2] && all[3] == bs[3];
    }
  }

  /** What a frame's header says depends only on the header: bytes after it
      change nothing. */
  lemma HeaderStable(bs: seq<bv8>, more: seq<bv8>)
    requires HasLength(bs)
    ensures HasLength(bs + more)
    ensures PayloadLength(bs + more) == PayloadLength(bs)
    ensures HeaderSize(bs + more) == HeaderSize(bs)
  {
    LengthWordStable(bs, more);
    assert (bs + more)[1] == bs[1];
  }

  /** A whole frame stays a whole frame of the same size whatever follows. */
  lemma CompleteStable(bs: seq<bv8>, more: seq<bv8>)
    requires Complete(bs)
    ensures Complete(bs + more) && FrameSize(bs + more) == FrameSize(bs)
  {
    HeaderStable(bs, more);
  }

  /** ... and carries the same payload. */
  lemma PayloadStable(bs: seq<bv8>, more: seq<bv8>)
    requires Complete(bs)
    ensures Complete(bs + more) && PayloadOf(bs + more) == PayloadOf(bs)
  {
    var all := bs + more;
    CompleteStable(bs, more);
    HeaderStable(bs, more);
    var h, n := HeaderSize(bs), FrameSize(bs);
    assert all[1] == bs[1];
    assert all[h..n] == bs[h..n];
    if KeySize(bs[1]) == 4 {
      MaskKeyStable(bs, more);
    }
  }

  /** The masking key lies inside the header. */
  lemma MaskKeyStable(bs: seq<bv8>, more: seq<bv8>)
    requires HasLength(bs) && KeySize(bs[1]) == 4 && HeaderSize(bs) <= |bs|
    ensures HasLength(bs + more) && KeySize((bs + more)[1]) == 4 && HeaderSize(bs + more) <= |bs + more|
    ensures MaskKey(bs + more) == MaskKey(bs)
  {
    HeaderStable(bs, more);
    var start := 2 + ExtSize(bs[1]);
    assert (bs + more)[start..start + 4] == bs[start..start + 4];
  }

  /** ... and so the same record. */
  lemma FrameStable(bs: seq<bv8>, more: seq<bv8>)
    requires Complete(bs)
    ensures Complete(bs + more) && FrameAt(bs + more) == FrameAt(bs)
  {
    PayloadStable(bs, more);
    assert (bs + more)[0] == bs[0] && (bs + more)[1] == bs[1];
  }

  /** Bytes arrive one at a time, so a frame is first whole at the byte that
      ends it. */
  lemma FirstComplete(bs: seq<bv8>, x: bv8)
    requires !Complete(bs) && Complete(bs + [x])
    ensures FrameSize(bs + [x]) == |bs| + 1
  {
    if HasLength(bs) {
      HeaderStable(bs, [x]);
    }
  }

  /** The reference parser reads a stream one byte at a time: the new byte
      either ends the pending frame or joins it. */
  lemma {:induction false} ParseAllSnoc(bs: seq<bv8>, x: bv8)
    ensures var p := ParseAll(bs);
            var q := p.pending + [x];
            ParseAll(bs + [x]) == if Complete(q) then Parsed(p.frames + [FrameAt(q)], []) else Parsed(p.frames, q)
    decreases |bs|
  {
    var all := bs + [x];
    if Complete(bs) {
      var n := FrameSize(bs);
      CompleteStable(bs, [x]);
      FrameStable(bs, [x]);
      assert all[n..] == bs[n..] + [x];
      ParseAllSnoc(bs[n..], x);
      var rest := ParseAll(bs[n..]);
      var q := rest.pending + [x];
      if Complete(q) {
        ConcatAssoc([FrameAt(bs)], rest.frames, [FrameAt(q)]);
      }
    } else if Complete(all) {
      FirstComplete(bs, x);
      assert all[|all|..] == [];
      ConcatEmpty([FrameAt(all)]);
    }
  }

  /** Masking twice with the same key gives the payload back: the decoder's
      XOR undoes the sender's. */
  lemma UnmaskTwice(payload: seq<bv8>, key: seq<bv8>)
    requires |key| == 4
    ensures Unmask(Unmask(payload, key), key) == payload
  {
    var once := Unmask(payload, key);
    forall i | 0 <= i < |payload|
      ensures Unmask(once, key)[i] == payload[i]
    {
      XorTwice(payload[i], key[i % 4]);
    }
  }

  lemma XorTwice(a: bv8, k: bv8)
    ensures (a ^ k) ^ k == a
  {
  }

  /** A length indicator below 126 is the payload length itself. */
  lemma Length7(bs: seq<bv8>)
    requires HasLength(bs) && Indicator(bs[1]) < 126
    ensures PayloadLength(bs) == Indicator(bs[1]) as int
  {
  }

  /** A 2-byte extended length is read big-endian. */
  lemma Length16(bs: seq<bv8>)
    requires HasLength(bs) && Indicator(bs[1]) == 126
    ensures PayloadLength(bs) == bs[2] as int * 0x100 + bs[3] as int
  {
  }

  /** An 8-byte extended length whose high word is zero is read big-endian
      from its low word. */
  lemma Length64(bs: seq<bv8>)
    requires HasLength(bs) && Indicator(bs[1]) == 127
    requires bs[2] == 0 && bs[3] == 0 && bs[4] == 0 && bs[5] == 0
    ensures PayloadLength(bs) == bs[6] as int * 0x100_0000 + bs[7] as int * 0x1_0000 + bs[8] as int * 0x100 + bs[9] as int
  {
    OrZero(bs[6]);
    OrZero(bs[7]);
    OrZero(bs[8]);
    OrZero(bs[9]);
  }

  /** The 8-byte extended length of 2^32 is read as 1: the high word 1 is
      OR-ed into the low word 0 instead of being scaled by 2^32. */
  lemma Length64HighWord(b0: bv8)
    ensures var bs := [b0, 127, 0, 0, 0, 1, 0, 0, 0, 0];
            HasLength(bs) && PayloadLength(bs) == 1
  {
    var bs: seq<bv8> := [b0, 127, 0, 0, 0, 1, 0, 0, 0, 0];
    assert Indicator(bs[1]) == 127;
    OrZero(1);
    assert LengthWord(bs) == Word(0, 0, 0, 1);
  }
}
