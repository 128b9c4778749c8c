/**
 * The slot codec (qf.h:137-161).  A slot value holds, from the least
 * significant bit up: the occupied flag (bit 0), the continuation flag
 * (bit 1), the shifted flag (bit 2) and the remainder (bits 3 and up).
 *
 *   occupied      slot i is the canonical slot of some stored fingerprint
 *   continuation  the remainder here belongs to the same run as the one before
 *   shifted       the remainder here is not in its canonical slot
 */
module Slot {
  import opened Bits

  predicate IsOccupied(e: nat)     { e % 8 % 2 == 1 }
  predicate IsContinuation(e: nat) { e % 8 / 2 % 2 == 1 }
  predicate IsShifted(e: nat)      { e % 8 >= 4 }

  /** Adding to the flag bits without a carry into the remainder. */
  lemma AddLow(e: nat, k: nat)
    requires e % 8 + k < 8
    ensures (e + k) % 8 == e % 8 + k && (e + k) / 8 == e / 8
  {
  }

  /** Taking from the flag bits without a borrow from the remainder. */
  lemma SubLow(e: nat, k: nat)
    requires k <= e % 8
    ensures (e - k) % 8 == e % 8 - k && (e - k) / 8 == e / 8
  {
  }

  /** elt >> 3 */
  function GetRemainder(e: nat): nat { e / 8 }

  /** The value is fixed by its three flags and its remainder. */
  lemma Decode(e: nat)
    ensures e == 8 * GetRemainder(e) + (if IsShifted(e) then 4 else 0)
               + (if IsContinuation(e) then 2 else 0) + (if IsOccupied(e) then 1 else 0)
  {
  }

  lemma SameFields(e: nat, f: nat)
    requires IsOccupied(e) == IsOccupied(f) && IsContinuation(e) == IsContinuation(f)
    requires IsShifted(e) == IsShifted(f) && GetRemainder(e) == GetRemainder(f)
    ensures e == f
  {
    Decode(e);
    Decode(f);
  }

  /**
   * The flags are bits 0, 1 and 2 of the slot value (elt & 1, elt & 2,
   * elt & 4), and in a slot of r + 3 bits the remainder is the r bits above them.
   */
  lemma FlagBits(e: nat, r: nat)
    ensures IsOccupied(e) <==> Field(e, 0, 1) == 1
    ensures IsContinuation(e) <==> Field(e, 1, 1) == 1
    ensures IsShifted(e) <==> Field(e, 2, 1) == 1
    ensures e < Pow2(r + 3) ==> GetRemainder(e) == Field(e, 3, r)
  {
    LowBits(e);
    assert Field(e, 0, 1) == e % 2 + 2 * Field(e / 2, 0, 0);
    assert Field(e, 1, 1) == Field(e / 2, 0, 1) == e / 2 % 2 + 2 * Field(e / 2 / 2, 0, 0);
    assert Field(e, 2, 1) == Field(e / 2 / 2, 0, 1) == e / 2 / 2 % 2 + 2 * Field(e / 2 / 2 / 2, 0, 0);
    assert Field(e, 3, r) == Field(e / 2, 2, r) == Field(e / 2 / 2, 1, r) == Field(e / 2 / 2 / 2, 0, r);
    if e < Pow2(r + 3) {
      SlotBound(e, r);
      FieldOfSmall(e / 8, r);
    }
  }

  /** The three flag bits read one at a time, and the bits above them. */
  lemma LowBits(e: nat)
    ensures e % 2 == e % 8 % 2 && e / 2 % 2 == e % 8 / 2 % 2
    ensures e / 2 / 2 % 2 == 1 <==> e % 8 >= 4
    ensures e / 2 / 2 / 2 == e / 8
  {
    var q, m := e / 8, e % 8;
    assert e == 8 * q + m;
    assert e / 2 == 4 * q + m / 2;
    assert e / 2 / 2 == 2 * q + m / 4;
  }

  /** elt | 1 */
  function SetOccupied(e: nat): (r: nat)
    ensures IsOccupied(r)
    ensures IsContinuation(r) == IsContinuation(e) && IsShifted(r) == IsShifted(e)
    ensures GetRemainder(r) == GetRemainder(e)
  {
    if IsOccupied(e) then e else AddLow(e, 1); e + 1
  }

  /** elt & ~1 */
  function ClrOccupied(e: nat): (r: nat)
    ensures !IsOccupied(r)
    ensures IsContinuation(r) == IsContinuation(e) && IsShifted(r) == IsShifted(e)
    ensures GetRemainder(r) == GetRemainder(e)
  {
    if IsOccupied(e) then SubLow(e, 1); e - 1 else e
  }

  /** elt | 2 */
  function SetContinuation(e: nat): (r: nat)
    ensures IsContinuation(r)
    ensures IsOccupied(r) == IsOccupied(e) && IsShifted(r) == IsShifted(e)
    ensures GetRemainder(r) == GetRemainder(e)
  {
    if IsContinuation(e) then e else AddLow(e, 2); e + 2
  }

  /** elt & ~2 */
  function ClrContinuation(e: nat): (r: nat)
    ensures !IsContinuation(r)
    ensures IsOccupied(r) == IsOccupied(e) && IsShifted(r) == IsShifted(e)
    ensures GetRemainder(r) == GetRemainder(e)
  {
    if IsContinuation(e) then SubLow(e, 2); e - 2 else e
  }

  /** elt | 4 */
  function SetShifted(e: nat): (r: nat)
    ensures IsShifted(r)
    ensures IsOccupied(r) == IsOccupied(e) && IsContinuation(r) == IsContinuation(e)
    ensures GetRemainder(r) == GetRemainder(e)
  {
    if IsShifted(e) then e else AddLow(e, 4); e + 4
  }

  /** elt & ~4 */
  function ClrShifted(e: nat): (r: nat)
    ensures !IsShifted(r)
    ensures IsOccupied(r) == IsOccupied(e) && IsContinuation(r) == IsContinuation(e)
    ensures GetRemainder(r) == GetRemainder(e)
  {
    if IsShifted(e) then SubLow(e, 4); e - 4 else e
  }

  /** (elt & 7) == 0: no flag is set, so the slot holds no remainder. */
  predicate IsEmptyElement(e: nat)
  {
    e % 8 == 0
  }

  lemma EmptyIffNoFlags(e: nat)
    ensures IsEmptyElement(e) <==> !IsOccupied(e) && !IsContinuation(e) && !IsShifted(e)
  {
  }

  /** The first slot of a cluster: occupied, and neither a continuation nor shifted. */
  predicate IsClusterStart(e: nat)
  {
    IsOccupied(e) && !IsContinuation(e) && !IsShifted(e)
  }

  /** The first slot of a run, whether or not the run has been displaced. */
  predicate IsRunStart(e: nat)
  {
    !IsContinuation(e) && (IsOccupied(e) || IsShifted(e))
  }

  /** (fr << 3) & ~7: a remainder with all three flags clear. */
  function Entry(fr: nat): (e: nat)
    ensures GetRemainder(e) == fr
    ensures !IsOccupied(e) && !IsContinuation(e) && !IsShifted(e)
  {
    8 * fr
  }

  /** A slot value fits in r + 3 bits exactly when its remainder fits in r bits. */
  lemma SlotBound(e: nat, r: nat)
    ensures e < Pow2(r + 3) <==> GetRemainder(e) < Pow2(r)
  {
    Pow2Add(r, 3);
    assert Pow2(3) == 8;
  }
}
