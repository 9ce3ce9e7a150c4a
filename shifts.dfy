/** The decoder's extended length as JavaScript computes it: `length |=
    byte << offset` on a 32-bit pattern, the shift count taken modulo 32.
    The lane-wise `Bits.OrIn` and `Bits.ExtAcc` are proved to compute exactly
    that pattern, and so is the reference parser's length word. */
module Shifts {
  import opened Bits
  import opened Wire
  import opened Correspondence

  /** The pattern as JavaScript's bitwise operators see it. */
  function Bits32(w: Word): bv32 {
    ((w.b0 as bv32) << 24) | ((w.b1 as bv32) << 16) | ((w.b2 as bv32) << 8) | (w.b3 as bv32)
  }

  /** JavaScript's `b << offset` on a 32-bit pattern, for an offset that is a
      multiple of 8: the shift count is taken modulo 32. */
  function ShiftLeft(b: bv8, offset: nat): bv32
  {
    match offset % 32
    case 24 => (b as bv32) << 24
    case 16 => (b as bv32) << 16
    case 8 => (b as bv32) << 8
    case _ => b as bv32
  }

  /** The extended length bytes `es` OR-ed one by one into a 32-bit pattern
      with JavaScript's `|=` and `<<`: the first at offset `top`, each next
      one 8 lower, every shift count taken modulo 32. */
  function ShiftOrAll(es: seq<bv8>, top: nat): bv32
    requires 8 * |es| <= top + 8
  {
    if es == [] then 0
    else ShiftOrAll(es[..|es| - 1], top) | ShiftLeft(es[|es| - 1], top - 8 * (|es| - 1))
  }

  /** The reset pattern has no bit set. */
  lemma ZeroBits()
    ensures Bits32(ZeroWord) == 0
  {
  }

  /** `OrIn` is JavaScript's `length |= byte << offset` on the 32-bit
      pattern, the shift count taken modulo 32. */
  lemma OrInShifts(w: Word, b: bv8, offset: nat)
    ensures Bits32(OrIn(w, b, offset)) == Bits32(w) | ShiftLeft(b, offset)
  {
    var k := offset % 32;
    if k == 24 {
      OrInLane0(w, b, offset);
    } else if k == 16 {
      OrInLane1(w, b, offset);
    } else if k == 8 {
      OrInLane2(w, b, offset);
    } else {
      OrInLane3(w, b, offset);
    }
  }

  // One lemma per byte lane that `OrIn` can change.

  lemma OrInLane0(w: Word, b: bv8, offset: nat)
    requires offset % 32 == 24
    ensures Bits32(OrIn(w, b, offset)) == Bits32(w) | ShiftLeft(b, offset)
  {
    assert OrIn(w, b, offset) == w.(b0 := w.b0 | b);
    assert ShiftLeft(b, offset) == (b as bv32) << 24;
  }

  lemma OrInLane1(w: Word, b: bv8, offset: nat)
    requires offset % 32 == 16
    ensures Bits32(OrIn(w, b, offset)) == Bits32(w) | ShiftLeft(b, offset)
  {
    assert OrIn(w, b, offset) == w.(b1 := w.b1 | b);
    assert ShiftLeft(b, offset) == (b as bv32) << 16;
  }

  lemma OrInLane2(w: Word, b: bv8, offset: nat)
    requires offset % 32 == 8
    ensures Bits32(OrIn(w, b, offset)) == Bits32(w) | ShiftLeft(b, offset)
  {
    assert OrIn(w, b, offset) == w.(b2 := w.b2 | b);
    assert ShiftLeft(b, offset) == (b as bv32) << 8;
  }

  lemma OrInLane3(w: Word, b: bv8, offset: nat)
    requires offset % 32 != 24 && offset % 32 != 16 && offset % 32 != 8
    ensures Bits32(OrIn(w, b, offset)) == Bits32(w) | ShiftLeft(b, offset)
  {
    assert OrIn(w, b, offset) == w.(b3 := w.b3 | b);
    assert ShiftLeft(b, offset) == b as bv32;
  }

  /** One more extended length byte, on the 32-bit pattern. */
  lemma ShiftOrAllSnoc(es: seq<bv8>, x: bv8, top: nat)
    requires 8 * (|es| + 1) <= top + 8
    ensures ShiftOrAll(es + [x], top) == ShiftOrAll(es, top) | ShiftLeft(x, top - 8 * |es|)
  {
    var ys := es + [x];
    assert ys[..|ys| - 1] == es;
    assert ys[|ys| - 1] == x;
  }

  /** The decoder's lane-wise accumulation is the 32-bit pattern that
      JavaScript's shifts and ORs build. */
  lemma {:induction false} ExtAccShifts(es: seq<bv8>, top: nat)
    requires 8 * |es| <= top + 8
    ensures Bits32(ExtAcc(es, top)) == ShiftOrAll(es, top)
    decreases |es|
  {
    if es == [] {
      ZeroBits();
    } else {
      var init, x := es[..|es| - 1], es[|es| - 1];
      var offset := top - 8 * |init|;
      assert es == init + [x];
      calc {
        Bits32(ExtAcc(es, top));
        { ExtAccSnoc(init, x, top); }
        Bits32(OrIn(ExtAcc(init, top), x, offset));
        { OrInShifts(ExtAcc(init, top), x, offset); }
        Bits32(ExtAcc(init, top)) | ShiftLeft(x, offset);
        { ExtAccShifts(init, top); }
        ShiftOrAll(init, top) | ShiftLeft(x, offset);
        { ShiftOrAllSnoc(init, x, top); }
        ShiftOrAll(es, top);
      }
    }
  }

  /** The reference parser's length word is the 32-bit pattern JavaScript
      builds with `length |= byte << offset` over the extended length bytes,
      the first at offset 8 or 56 and every shift count taken modulo 32. */
  lemma LengthWordShifts(q: seq<bv8>)
    requires LengthRead(q) && ExtSize(q[1]) > 0
    ensures Bits32(LengthWord(q)) == ShiftOrAll(q[2..], 8 * (ExtSize(q[1]) - 1))
  {
    ExtAccComplete(q);
    ExtAccShifts(q[2..], 8 * (ExtSize(q[1]) - 1));
  }
}
