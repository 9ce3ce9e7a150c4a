/** The encoder: one frame record in, the chunks handed to `emit` out, or the
    exception thrown before anything is emitted. Records always leave
    unmasked, as one final-or-not frame of section 5.2 of RFC 6455. */
module Encoding {
  import opened Common
  import opened Wire

  /** The `body` of a record: a string (carried as the bytes the byte
      library's UTF-8 encoder makes of it), a binary value, or anything
      else. */
  datatype Body = TextBody(utf8: seq<bv8>) | BinaryBody(bytes: seq<bv8>) | OtherBody

  /** The `opcode` of a record when present: a number (an integer here) or a
      value of another type. */
  datatype OpcodeField = Number(value: int) | NotNumber

  /** A record to encode. An absent property is `None`; `fin` and `mask` are
      present with their truthiness. */
  datatype Message = Message(body: Body, fin: Option<bool>, opcode: Option<OpcodeField>, mask: Option<bool>)

  /** A call of `emit`: with no argument (the end of the stream), or with a
      chunk. */
  datatype Emission = EndOfStream | Chunk(bytes: seq<bv8>)

  /** The byte for a number below 256, counted up from zero (a direct
      conversion of an unbounded integer to a bit-vector is far costlier to
      verify). */
  function Byte(n: nat): (b: bv8)
    requires n < 256
    ensures b as int == n
  {
    if n == 0 then 0 else Byte(n - 1) + 1
  }

  /** Bits `8k` to `8k + 7` of `x`: what `x >> 8k & 0xff` gives in the source
      for shifts below 32. */
  function ByteAt(x: nat, k: nat): (b: bv8)
    ensures b as int == ByteValue(x, k)
  {
    Byte(ByteValue(x, k))
  }

  /** The number `ByteAt` stands for. */
  function ByteValue(x: nat, k: nat): (n: nat)
    ensures n < 256
  {
    if k == 0 then x % 256 else ByteValue(x / 256, k - 1)
  }

  /** The low four bits of an integer opcode, as `& 0xf` takes them after
      converting the number to a 32-bit integer. */
  function Nibble(n: int): (b: bv4)
    ensures b as int == n % 16
  {
    (n % 16) as bv4
  }

  /** `fin`: 1 unless present and falsy. */
  function FinBit(m: Message): (fin: bv1)
    ensures fin == 0 <==> m.fin == Some(false)
  {
    if m.fin == Some(false) then 0 else 1
  }

  /** `opcode`: the low four bits of a present number, otherwise 1 for a
      string body and 2 for any other. */
  function OpcodeOf(m: Message): (op: bv4)
    requires m.opcode != Some(NotNumber)
    ensures m.opcode.None? ==> (op == 1 <==> m.body.TextBody?) && (op == 2 <==> !m.body.TextBody?)
    ensures m.opcode.Some? ==> op as int == m.opcode.value.value % 16
  {
    match m.opcode
    case None => if m.body.TextBody? then 1 else 2
    case Some(field) => Nibble(field.value)
  }

  /** The bytes of a string or binary body. */
  function BodyBytes(body: Body): seq<bv8>
    requires !body.OtherBody?
  {
    if body.TextBody? then body.utf8 else body.bytes
  }

  /** The second header byte of an unmasked frame: the length itself below
      126, otherwise the indicator of a 2- or 8-byte extended length. */
  function LengthByte(len: nat): (b: bv8)
    ensures len < 126 ==> b as int == len
    ensures 126 <= len < 0x1_0000 ==> b == 126
    ensures 0x1_0000 <= len ==> b == 127
  {
    if len < 126 then Byte(len) else if len < 0x1_0000 then 126 else 127
  }

  /** The header chunk of an unmasked frame: `fin` and `opcode`, the length
      byte, then the length big-endian in 2 or 8 bytes. In the 8-byte form the
      source writes the high word as bits 8-15, 16-23, 8-15 and 0-7 of
      `floor(len / 2^32)`; all four are zero below 2^32. */
  function Header(fin: bv1, opcode: bv4, len: nat): (h: seq<bv8>)
    ensures |h| == if len < 126 then 2 else if len < 0x1_0000 then 4 else 10
  {
    var b0 := ((fin as bv8) << 7) | (opcode as bv8);
    var b1 := LengthByte(len);
    if len < 126 then [b0, b1]
    else if len < 0x1_0000 then [b0, b1, ByteAt(len, 1), ByteAt(len, 0)]
    else
      var top := len / 0x1_0000_0000;
      [b0, b1, ByteAt(top, 1), ByteAt(top, 2), ByteAt(top, 1), ByteAt(top, 0),
       ByteAt(len, 3), ByteAt(len, 2), ByteAt(len, 1), ByteAt(len, 0)]
  }

  /** The encoder's function: `undefined` ends the stream; otherwise the body,
      the opcode and the mask are checked in that order, and a record passing
      all three leaves as its header chunk followed by its body chunk when the
      body is not empty. */
  function Encode(input: Option<Message>): (r: Result<seq<Emission>>)
    ensures input.None? ==> r == Ok([EndOfStream])
    ensures r.Ok? && input.Some? ==> 1 <= |r.value| <= 2 && r.value[0].Chunk?
  {
    match input
    case None => Ok([EndOfStream])
    case Some(m) =>
      if m.body.OtherBody? then Err(TypeError("object.body must be string or binary"))
      else if m.opcode == Some(NotNumber) then Err(TypeError("object.opcode must be number"))
      else if m.mask == Some(true) then Err(Thrown("TODO: Implement encoder masking"))
      else
        var body := BodyBytes(m.body);
        var header := Chunk(Header(FinBit(m), OpcodeOf(m), |body|));
        Ok(if |body| > 0 then [header, Chunk(body)] else [header])
  }

  /** A record is refused exactly when its body is neither a string nor
      binary, its opcode is not a number, or it asks for masking; the first
      of these in that order decides the exception. */
  lemma EncodeRefuses(m: Message)
    ensures Encode(Some(m)).Err? <==>
              m.body.OtherBody? || m.opcode == Some(NotNumber) || m.mask == Some(true)
    ensures m.body.OtherBody? ==> Encode(Some(m)) == Err(TypeError("object.body must be string or binary"))
    ensures !m.body.OtherBody? && m.opcode == Some(NotNumber) ==>
              Encode(Some(m)) == Err(TypeError("object.opcode must be number"))
    ensures !m.body.OtherBody? && m.opcode != Some(NotNumber) && m.mask == Some(true) ==>
              Encode(Some(m)) == Err(Thrown("TODO: Implement encoder masking"))
  {
  }

  /** An accepted record leaves as its header, then its body bytes only when
      there are any. */
  lemma EncodeOutputs(m: Message)
    requires Encode(Some(m)).Ok?
    ensures var body := BodyBytes(m.body);
            var out := Encode(Some(m)).value;
            out[0] == Chunk(Header(FinBit(m), OpcodeOf(m), |body|)) &&
            (|out| == 2 <==> |body| > 0) && (|out| == 2 ==> out[1] == Chunk(body))
  {
  }

  /** Bits of `x` from the front: a number below 2^32 is its four bytes,
      big-endian. */
  lemma BigEndian32(x: nat)
    requires x < 0x1_0000_0000
    ensures x == ByteValue(x, 3) * 0x100_0000 + ByteValue(x, 2) * 0x1_0000 + ByteValue(x, 1) * 0x100 + ByteValue(x, 0)
  {
    var q1 := x / 256;
    var q2 := q1 / 256;
    var q3 := q2 / 256;
    assert ByteValue(x, 1) == q1 % 256;
    assert ByteValue(x, 2) == q2 % 256 by {
      assert ByteValue(x, 2) == ByteValue(q1, 1);
    }
    assert ByteValue(x, 3) == q3 % 256 by {
      assert ByteValue(x, 3) == ByteValue(q1, 2) == ByteValue(q2, 1);
    }
    assert q3 < 256;
  }

  /** ... and a number below 2^16 is its two low bytes. */
  lemma BigEndian16(x: nat)
    requires x < 0x1_0000
    ensures x == ByteValue(x, 1) * 0x100 + ByteValue(x, 0)
  {
  }

  /** Every byte of zero is zero. */
  lemma {:induction false} ZeroBytes(k: nat)
    ensures ByteValue(0, k) == 0
  {
    if k > 0 {
      ZeroBytes(k - 1);
    }
  }

  /** The header of a body shorter than 2^32 bytes is a well-formed header of
      section 5.2 of RFC 6455 for that body: `fin` in bit 7 and the opcode in
      bits 0-3 of the first byte, bits 4-6 clear, no mask, a 2-, 4- or 10-byte
      header by the length, the length itself in the second byte, big-endian
      in bytes 2-3, or as the low word of an 8-byte length whose high word is
      zero; and the decoder reads back that length. */
  lemma HeaderLayout(fin: bv1, opcode: bv4, len: nat)
    requires len < 0x1_0000_0000
    ensures var h := Header(fin, opcode, len);
            h[0] as int == fin as int * 128 + opcode as int &&
            HighBit(h[0]) == fin && OpcodeBits(h[0]) == opcode && HighBit(h[1]) == 0 &&
            HasLength(h) && HeaderSize(h) == |h| && PayloadLength(h) == len
    ensures var h := Header(fin, opcode, len);
            len < 126 ==> |h| == 2 && h[1] as int == len
    ensures var h := Header(fin, opcode, len);
            126 <= len < 0x1_0000 ==> |h| == 4 && h[1] == 126 && len == h[2] as int * 0x100 + h[3] as int
    ensures var h := Header(fin, opcode, len);
            0x1_0000 <= len ==>
              |h| == 10 && h[1] == 127 && h[2..6] == [0, 0, 0, 0] &&
              len == h[6] as int * 0x100_0000 + h[7] as int * 0x1_0000 + h[8] as int * 0x100 + h[9] as int
  {
    FirstByte(fin, opcode);
    if len < 126 {
      ShortHeader(fin, opcode, len);
    } else if len < 0x1_0000 {
      MediumHeader(fin, opcode, len);
    } else {
      LongHeader(fin, opcode, len);
    }
  }

  /** Below 126 the length sits in the second byte. */
  lemma ShortHeader(fin: bv1, opcode: bv4, len: nat)
    requires len < 126
    ensures var h := Header(fin, opcode, len);
            h[1] as int == len &&
            HighBit(h[1]) == 0 && HasLength(h) && HeaderSize(h) == |h| && PayloadLength(h) == len
  {
    SmallLengthByte(Header(fin, opcode, len)[1]);
  }

  /** From 126 below 2^16 it follows in two bytes, big-endian. */
  lemma MediumHeader(fin: bv1, opcode: bv4, len: nat)
    requires 126 <= len < 0x1_0000
    ensures var h := Header(fin, opcode, len);
            h[1] == 126 && len == h[2] as int * 0x100 + h[3] as int &&
            HighBit(h[1]) == 0 && HasLength(h) && HeaderSize(h) == |h| && PayloadLength(h) == len
  {
    var h := Header(fin, opcode, len);
    assert h[1] == 126;
    BigEndian16(len);
    Length16(h);
  }

  /** From 2^16 below 2^32 it follows in eight bytes: a zero high word, then
      the length big-endian in the low word ... */
  lemma LongHeaderBytes(fin: bv1, opcode: bv4, len: nat)
    requires 0x1_0000 <= len < 0x1_0000_0000
    ensures var h := Header(fin, opcode, len);
            h[1] == 127 && h[2] == 0 && h[3] == 0 && h[4] == 0 && h[5] == 0 &&
            len == h[6] as int * 0x100_0000 + h[7] as int * 0x1_0000 + h[8] as int * 0x100 + h[9] as int
  {
    assert len / 0x1_0000_0000 == 0;
    ZeroBytes(0);
    ZeroBytes(1);
    ZeroBytes(2);
    BigEndian32(len);
  }

  /** ... which the decoder reads back as the length. */
  lemma LongHeader(fin: bv1, opcode: bv4, len: nat)
    requires 0x1_0000 <= len < 0x1_0000_0000
    ensures var h := Header(fin, opcode, len);
            h[1] == 127 && h[2..6] == [0, 0, 0, 0] &&
            len == h[6] as int * 0x100_0000 + h[7] as int * 0x1_0000 + h[8] as int * 0x100 + h[9] as int &&
            HighBit(h[1]) == 0 && HasLength(h) && HeaderSize(h) == |h| && PayloadLength(h) == len
  {
    var h := Header(fin, opcode, len);
    LongHeaderBytes(fin, opcode, len);
    Length64(h);
    assert h[2..6] == [0, 0, 0, 0];
  }

  /** The first header byte is `fin << 7 | opcode`: `fin` in bit 7, the
      opcode in bits 0-3, and bits 4-6 (the extension bits) clear. */
  lemma FirstByte(fin: bv1, opcode: bv4)
    ensures var b0 := ((fin as bv8) << 7) | (opcode as bv8);
            HighBit(b0) == fin && OpcodeBits(b0) == opcode && b0 & 0x70 == 0 &&
            b0 as int == fin as int * 128 + opcode as int
  {
  }

  /** A length byte below 126 has no mask bit and is its own indicator. */
  lemma SmallLengthByte(b: bv8)
    requires b as int < 126
    ensures HighBit(b) == 0 && Indicator(b) == b && ExtSize(b) == 0
  {
  }

  /** The high word the source writes for lengths of 2^32 and more: bits 8-15
      of `floor(len / 2^32)` twice, at bytes 2 and 4, with bits 16-23 between
      them, where section 5.2 of RFC 6455 wants bits 24-31, 16-23, 8-15 and
      0-7. For `len = 2^40` the header holds 1, 0, 1, 0 where 0, 0, 1, 0 is
      meant. */
  lemma HighWordQuirk(fin: bv1, opcode: bv4, len: nat)
    requires len >= 0x1_0000_0000
    ensures var h := Header(fin, opcode, len);
            var top := len / 0x1_0000_0000;
            h[2] == h[4] == ByteAt(top, 1) && h[3] == ByteAt(top, 2) && h[5] == ByteAt(top, 0)
    ensures len == 0x100_0000_0000 ==> Header(fin, opcode, len)[2..6] == [1, 0, 1, 0]
  {
    if len == 0x100_0000_0000 {
      var top := len / 0x1_0000_0000;
      assert top == 256;
      assert ByteValue(top, 1) == 1 && ByteValue(top, 2) == 0 && ByteValue(top, 0) == 0;
    }
  }
}
