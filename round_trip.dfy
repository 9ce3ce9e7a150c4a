/** What a fresh decoder makes of the encoder's output: for a body shorter
    than 2^32 bytes, exactly the record that was encoded, unmasked, whatever
    the split into `decode` calls. */
module RoundTrip {
  import opened Common
  import opened Wire
  import opened FrameMachine
  import opened Correspondence
  import opened Encoding

  /** The bytes of the encoder's chunks, one per `emit` call. */
  function Chunks(out: seq<Emission>): (chunks: seq<seq<bv8>>)
    requires forall i :: 0 <= i < |out| ==> out[i].Chunk?
    ensures |chunks| == |out|
  {
    seq(|out|, i requires 0 <= i < |out| => out[i].bytes)
  }

  /** The header of an encoded frame followed by its body: one whole frame,
      with the header's fields. */
  lemma EncodedFrameWhole(fin: bv1, opcode: bv4, body: seq<bv8>)
    requires |body| < 0x1_0000_0000
    ensures var h := Header(fin, opcode, |body|);
            var bs := h + body;
            Complete(bs) && FrameSize(bs) == |bs| && HeaderSize(bs) == |h| &&
            HighBit(bs[0]) == fin && OpcodeBits(bs[0]) == opcode && HighBit(bs[1]) == 0
  {
    var h := Header(fin, opcode, |body|);
    HeaderLayout(fin, opcode, |body|);
    HeaderStable(h, body);
    assert (h + body)[0] == h[0] && (h + body)[1] == h[1];
  }

  /** ... which carries the body unchanged. */
  lemma EncodedFrameRecord(fin: bv1, opcode: bv4, body: seq<bv8>)
    requires |body| < 0x1_0000_0000
    ensures var bs := Header(fin, opcode, |body|) + body;
            Complete(bs) && FrameAt(bs) == Frame(fin, opcode, 0, PayloadFor(opcode, body))
  {
    var h := Header(fin, opcode, |body|);
    var bs := h + body;
    EncodedFrameWhole(fin, opcode, body);
    assert bs[HeaderSize(bs)..FrameSize(bs)] == body;
    assert PayloadOf(bs) == body;
  }

  /** A header followed by its body is one whole frame and nothing more, and
      the reference parser reads back the fields and the body. */
  lemma EncodedFrameParses(fin: bv1, opcode: bv4, body: seq<bv8>)
    requires |body| < 0x1_0000_0000
    ensures ParseAll(Header(fin, opcode, |body|) + body) == Parsed([Frame(fin, opcode, 0, PayloadFor(opcode, body))], [])
  {
    var bs := Header(fin, opcode, |body|) + body;
    EncodedFrameWhole(fin, opcode, body);
    EncodedFrameRecord(fin, opcode, body);
    assert bs[FrameSize(bs)..] == [];
    assert ParseAll(bs[FrameSize(bs)..]) == Parsed([], []);
  }

  /** Two chunks hold their bytes in order. */
  lemma ConcatTwo(a: seq<bv8>, b: seq<bv8>)
    ensures Concat([a]) == a && Concat([a, b]) == a + b
  {
    assert [a][..0] == [];
    assert [a, b][..1] == [a];
  }

  /** Feeding the chunks of an accepted record with a body below 2^32 bytes
      to a fresh decoder, one `decode` call per chunk, emits exactly one
      record, with the record's `fin`, its opcode's low four bits, no mask and
      its body bytes (as text when the opcode is 1), and leaves the decoder
      reset. */
  lemma EncodeThenDecode(m: Message)
    requires Encode(Some(m)).Ok? && |BodyBytes(m.body)| < 0x1_0000_0000
    ensures forall i :: 0 <= i < |Encode(Some(m)).value| ==> Encode(Some(m)).value[i].Chunk?
    ensures var body := BodyBytes(m.body);
            RunChunks(Initial, Chunks(Encode(Some(m)).value)) ==
              (Initial, [Frame(FinBit(m), OpcodeOf(m), 0, PayloadFor(OpcodeOf(m), body))])
  {
    var body := BodyBytes(m.body);
    var out := Encode(Some(m)).value;
    var h := Header(FinBit(m), OpcodeOf(m), |body|);
    EncodeOutputs(m);
    ConcatTwo(h, body);
    if |body| > 0 {
      assert out == [Chunk(h), Chunk(body)];
      assert Chunks(out) == [h, body];
    } else {
      assert out == [Chunk(h)];
      assert Chunks(out) == [h];
      assert h + body == h;
    }
    EncodedFrameParses(FinBit(m), OpcodeOf(m), body);
    DecodeChunksMatchesParse(Chunks(out));
  }
}
