/**
 * One dial of the "speed dial" lock.
 *
 * A wheel has a granular position 0..4 and a shift of -1, 0 or +1 that
 * records which way it was last urged. Both are packed into one unsigned
 * byte as `pos * 3 + (shift + 1)`, so the legal codes are 0..14 and the
 * byte order is the (position, shift) lexicographic order.
 *
 * The arithmetic facts about the packing are stated as lemmas rather than
 * as postconditions, so that proofs replaying many slides do not carry
 * the division and remainder reasoning along.
 */
module Wheels {

  /** The source stores a wheel in an unsigned byte. */
  type u8 = x: int | 0 <= x < 256

  /** Number of granular positions of a wheel. */
  const Positions: nat := 5

  datatype Wheel = Wheel(code: u8)
  {
    /** The packing invariant: only codes of a position 0..4 and a shift -1..1. */
    predicate Valid() {
      code < 15
    }

    /** Packs a position and a shift into a wheel. */
    static function New(pos: int, shift: int): (w: Wheel)
      requires 0 <= pos < Positions && -1 <= shift <= 1
      ensures w.Valid()
    {
      Wheel(pos * 3 + (shift + 1))
    }

    /** The granular position. */
    function Pos(): int {
      code / 3
    }

    /** The shift, one of -1, 0, +1 for a legal wheel. */
    function Shift(): int {
      code % 3 - 1
    }

    /**
     * Moves the wheel to the given shift. When the current shift is
     * strictly below the target only the shift changes; otherwise the
     * position also steps forward, wrapping from 4 back to 0.
     */
    function Advance(shift: int): (w: Wheel)
      requires Valid() && -1 <= shift <= 1
      ensures w.Valid()
    {
      if Shift() < shift then
        New(Pos(), shift)
      else
        New(if Pos() == 4 then 0 else Pos() + 1, shift)
    }
  }

  /** The wheel every fresh or reset lock starts from: position 0, no shift. */
  function Neutral(): (w: Wheel)
    ensures w.Valid() && w.code == 1
  {
    Wheel.New(0, 0)
  }

  /** Packing then unpacking gives back the position and the shift. */
  lemma NewRoundTrip(pos: int, shift: int)
    requires 0 <= pos < Positions && -1 <= shift <= 1
    ensures Wheel.New(pos, shift).Pos() == pos
    ensures Wheel.New(pos, shift).Shift() == shift
  {
  }

  /** Unpacking then packing a legal wheel gives the same wheel back. */
  lemma PartsRoundTrip(w: Wheel)
    requires w.Valid()
    ensures 0 <= w.Pos() < Positions && -1 <= w.Shift() <= 1
    ensures Wheel.New(w.Pos(), w.Shift()) == w
  {
  }

  /** The neutral wheel is at position 0 with shift 0. */
  lemma NeutralParts()
    ensures Neutral().Pos() == 0 && Neutral().Shift() == 0
  {
  }

  /** Two legal wheels are equal exactly when position and shift both agree. */
  lemma WheelEquality(a: Wheel, b: Wheel)
    requires a.Valid() && b.Valid()
    ensures a == b <==> a.Pos() == b.Pos() && a.Shift() == b.Shift()
  {
    PartsRoundTrip(a);
    PartsRoundTrip(b);
  }

  /** The byte order of legal wheels is position first, then shift. */
  lemma CodeOrder(a: Wheel, b: Wheel)
    requires a.Valid() && b.Valid()
    ensures a.code < b.code <==>
              a.Pos() < b.Pos() || (a.Pos() == b.Pos() && a.Shift() < b.Shift())
  {
  }

  /**
   * The advance rule: afterwards the shift is the target; the position is
   * unchanged when the old shift was strictly below the target, and
   * otherwise steps forward modulo 5.
   */
  lemma AdvanceRule(w: Wheel, shift: int)
    requires w.Valid() && -1 <= shift <= 1
    ensures w.Advance(shift).Shift() == shift
    ensures w.Shift() < shift ==> w.Advance(shift).Pos() == w.Pos()
    ensures shift <= w.Shift() ==> w.Advance(shift).Pos() == (w.Pos() + 1) % Positions
  {
    PartsRoundTrip(w);
    var p := if w.Shift() < shift then w.Pos() else if w.Pos() == 4 then 0 else w.Pos() + 1;
    NewRoundTrip(p, shift);
  }
}
