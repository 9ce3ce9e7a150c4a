/** The 32 bits of the decoder's `length` variable. While the extended length
    field is read, `length |= byte << offset` builds a 32-bit pattern, and
    `>>> 0` then reads it as an unsigned number. The pattern is held as its
    four bytes, most significant first, so that each `|=` changes one byte. */
module Bits {

  /** A 32-bit pattern, most significant byte first. */
  datatype Word = Word(b0: bv8, b1: bv8, b2: bv8, b3: bv8)

  const ZeroWord := Word(0, 0, 0, 0)

  /** The unsigned reading of the pattern, `>>> 0`. */
  function Value(w: Word): (n: nat)
    ensures n < 0x1_0000_0000
  {
    (w.b0 as int) * 0x100_0000 + (w.b1 as int) * 0x1_0000 + (w.b2 as int) * 0x100 + w.b3 as int
  }

  /** `length |= byte << offset` for an offset that is a multiple of 8, the
      only offsets the decoder uses. JavaScript takes the shift count modulo
      32, so offsets 56, 48, 40 and 32 land on the same byte as 24, 16, 8 and
      0. */
  function OrIn(w: Word, b: bv8, offset: nat): Word {
    match offset % 32
    case 24 => w.(b0 := w.b0 | b)
    case 16 => w.(b1 := w.b1 | b)
    case 8 => w.(b2 := w.b2 | b)
    case _ => w.(b3 := w.b3 | b)
  }

  /** The pattern after the extended length bytes `es`, OR-ed in one by one
      the way the decoder does: the first at offset `top`, each next one 8
      lower. */
  function ExtAcc(es: seq<bv8>, top: nat): Word
    requires 8 * |es| <= top + 8
  {
    if es == [] then ZeroWord
    else OrIn(ExtAcc(es[..|es| - 1], top), es[|es| - 1], top - 8 * (|es| - 1))
  }

  /** One more extended length byte. */
  lemma ExtAccSnoc(es: seq<bv8>, x: bv8, top: nat)
    requires 8 * (|es| + 1) <= top + 8
    ensures ExtAcc(es + [x], top) == OrIn(ExtAcc(es, top), x, top - 8 * |es|)
  {
    assert (es + [x])[..|es|] == es;
  }

  lemma OrZero(a: bv8)
    ensures 0 | a == a
  {
  }

  // The closed forms of `ExtAcc`, one number of bytes read at a time (a
  // proof over a symbolic number of bytes is far more expensive).

  lemma Ext16First(a: bv8)
    ensures ExtAcc([a], 8) == Word(0, 0, a, 0)
  {
    ExtAccSnoc([], a, 8);
    assert [] + [a] == [a];
    OrZero(a);
  }

  /** A 2-byte extended length is a 16-bit big-endian number. */
  lemma Ext16(a: bv8, b: bv8)
    ensures ExtAcc([a, b], 8) == Word(0, 0, a, b)
  {
    Ext16First(a);
    ExtAccSnoc([a], b, 8);
    assert [a] + [b] == [a, b];
    OrZero(b);
  }

  lemma Ext64Prefix1(a0: bv8)
    ensures ExtAcc([a0], 56) == Word(a0, 0, 0, 0)
  {
    ExtAccSnoc([], a0, 56);
    assert [] + [a0] == [a0];
    OrZero(a0);
  }

  lemma Ext64Prefix2(a0: bv8, a1: bv8)
    ensures ExtAcc([a0, a1], 56) == Word(a0, a1, 0, 0)
  {
    Ext64Prefix1(a0);
    ExtAccSnoc([a0], a1, 56);
    assert [a0] + [a1] == [a0, a1];
    OrZero(a1);
  }

  lemma Ext64Prefix3(a0: bv8, a1: bv8, a2: bv8)
    ensures ExtAcc([a0, a1, a2], 56) == Word(a0, a1, a2, 0)
  {
    Ext64Prefix2(a0, a1);
    ExtAccSnoc([a0, a1], a2, 56);
    assert [a0, a1] + [a2] == [a0, a1, a2];
    OrZero(a2);
  }

  lemma Ext64Prefix4(a0: bv8, a1: bv8, a2: bv8, a3: bv8)
    ensures ExtAcc([a0, a1, a2, a3], 56) == Word(a0, a1, a2, a3)
  {
    Ext64Prefix3(a0, a1, a2);
    ExtAccSnoc([a0, a1, a2], a3, 56);
    assert [a0, a1, a2] + [a3] == [a0, a1, a2, a3];
    OrZero(a3);
  }

  lemma Ext64Prefix5(a0: bv8, a1: bv8, a2: bv8, a3: bv8, a4: bv8)
    ensures ExtAcc([a0, a1, a2, a3, a4], 56) == Word(a0 | a4, a1, a2, a3)
  {
    Ext64Prefix4(a0, a1, a2, a3);
    ExtAccSnoc([a0, a1, a2, a3], a4, 56);
    assert [a0, a1, a2, a3] + [a4] == [a0, a1, a2, a3, a4];
  }

  lemma Ext64Prefix6(a0: bv8, a1: bv8, a2: bv8, a3: bv8, a4: bv8, a5: bv8)
    ensures ExtAcc([a0, a1, a2, a3, a4, a5], 56) == Word(a0 | a4, a1 | a5, a2, a3)
  {
    Ext64Prefix5(a0, a1, a2, a3, a4);
    ExtAccSnoc([a0, a1, a2, a3, a4], a5, 56);
    assert [a0, a1, a2, a3, a4] + [a5] == [a0, a1, a2, a3, a4, a5];
  }

  lemma Ext64Prefix7(a0: bv8, a1: bv8, a2: bv8, a3: bv8, a4: bv8, a5: bv8, a6: bv8)
    ensures ExtAcc([a0, a1, a2, a3, a4, a5, a6], 56) == Word(a0 | a4, a1 | a5, a2 | a6, a3)
  {
    Ext64Prefix6(a0, a1, a2, a3, a4, a5);
    ExtAccSnoc([a0, a1, a2, a3, a4, a5], a6, 56);
    assert [a0, a1, a2, a3, a4, a5] + [a6] == [a0, a1, a2, a3, a4, a5, a6];
  }

  /** An 8-byte extended length: the shifts by 56 down to 32 act as 24 down
      to 0, so the low 32-bit word is OR-ed into the high one. */
  lemma Ext64Prefix8(a0: bv8, a1: bv8, a2: bv8, a3: bv8, a4: bv8, a5: bv8, a6: bv8, a7: bv8)
    ensures ExtAcc([a0, a1, a2, a3, a4, a5, a6, a7], 56) == Word(a0 | a4, a1 | a5, a2 | a6, a3 | a7)
  {
    var w := Word(a0 | a4, a1 | a5, a2 | a6, a3);
    Ext64Prefix7(a0, a1, a2, a3, a4, a5, a6);
    ExtAccSnoc([a0, a1, a2, a3, a4, a5, a6], a7, 56);
    assert [a0, a1, a2, a3, a4, a5, a6] + [a7] == [a0, a1, a2, a3, a4, a5, a6, a7];
    assert OrIn(w, a7, 0) == w.(b3 := a3 | a7);
  }
}
