/**
 * Splitting a 64-bit hash into the quotient and remainder the filter stores
 * (qf.h:163-165), and putting the two back together as the (q+r)-bit
 * fingerprint the iterator returns (qf.h:115-120).
 */
module Fingerprint {
  import opened Bits

  /** hash_to_quotient: (hash >> r) & index_mask */
  function Quotient(q: nat, r: nat, h: nat): (fq: nat)
    ensures fq < Pow2(q)
  {
    Field(h, r, q)
  }

  /** hash_to_remainder: hash & rmask */
  function Remainder(r: nat, h: nat): (fr: nat)
    ensures fr < Pow2(r)
  {
    Field(h, 0, r)
  }

  /** The fingerprint of a hash: its lowest q + r bits. */
  function Fp(q: nat, r: nat, h: nat): (x: nat)
    ensures x < Pow2(q + r)
  {
    Field(h, 0, q + r)
  }

  /** (quotient << r) | remainder */
  function Join(r: nat, quot: nat, rem: nat): nat
  {
    rem + Pow2(r) * quot
  }

  /** A fingerprint is its remainder with its quotient above it. */
  lemma FpIsJoin(q: nat, r: nat, h: nat)
    ensures Fp(q, r, h) == Join(r, Quotient(q, r, h), Remainder(r, h))
  {
    FieldSplit(h, 0, r, q);
  }

  /** Joining a quotient and a remainder and splitting again gives them back. */
  lemma SplitJoin(q: nat, r: nat, quot: nat, rem: nat)
    requires quot < Pow2(q) && rem < Pow2(r)
    ensures Join(r, quot, rem) < Pow2(q + r)
    ensures Quotient(q, r, Join(r, quot, rem)) == quot
    ensures Remainder(r, Join(r, quot, rem)) == rem
  {
    var x := Join(r, quot, rem);
    Combine(rem, quot, r, q);
    FieldOfSmall(x, q + r);
    FieldSplit(x, 0, r, q);
    SplitUnique(Field(x, 0, r), Field(x, r, q), rem, quot, Pow2(r));
  }

  /**
   * Only the lowest q + r bits of a hash are consulted (qf.h:51-53): two
   * hashes with the same fingerprint have the same quotient and remainder,
   * and conversely.
   */
  lemma SameFingerprint(q: nat, r: nat, h1: nat, h2: nat)
    ensures Fp(q, r, h1) == Fp(q, r, h2) <==>
            Quotient(q, r, h1) == Quotient(q, r, h2) && Remainder(r, h1) == Remainder(r, h2)
  {
    FpIsJoin(q, r, h1);
    FpIsJoin(q, r, h2);
    if Fp(q, r, h1) == Fp(q, r, h2) {
      SplitUnique(Remainder(r, h1), Quotient(q, r, h1), Remainder(r, h2), Quotient(q, r, h2), Pow2(r));
    }
  }

  /** A hash is its own fingerprint exactly when it has no bit set at position q + r or above (qf.h:76). */
  lemma FpIdentity(q: nat, r: nat, h: nat)
    ensures Fp(q, r, h) == h <==> h < Pow2(q + r)
  {
    LowFieldIdentity(h, q + r);
  }

  /** hash >> (q + r): the bits of a 64-bit hash above its fingerprint, zero exactly when it has no bit set there. */
  function HighBits(q: nat, r: nat, h: nat): (hb: nat)
    requires h < Pow2(WORD)
    ensures hb == 0 <==> h < Pow2(q + r)
  {
    HighClear(h, q + r, WORD);
    Field(h, q + r, WORD)
  }
}
