/**
 * Machine words and bit fields, stated on natural numbers.
 *
 * A `uint64_t` is a `u64`.  A bit field of width `len` starting at bit `lo`
 * of a word is `Field(w, lo, len)`, which is C's `(w >> lo) & LOW_MASK(len)`;
 * overwriting that field with the low bits of `v` (clear it with
 * `~(LOW_MASK(len) << lo)`, then or in `(v & LOW_MASK(len)) << lo`) is
 * `SetField(w, lo, len, v)`.  Both are defined one bit at a time, so that
 * every fact about them follows by induction with division by two only.
 */
module Bits {

  const WORD: nat := 64

  type u64 = x: int | 0 <= x < 0x1_0000_0000_0000_0000

  function Pow2(n: nat): (p: nat)
    ensures p >= 1
  {
    if n == 0 then 1 else 2 * Pow2(n - 1)
  }

  lemma {:induction false} Pow2Add(a: nat, b: nat)
    ensures Pow2(a + b) == Pow2(a) * Pow2(b)
    decreases a
  {
    if a > 0 {
      Pow2Add(a - 1, b);
      assert Pow2(a + b) == 2 * Pow2(a - 1 + b);
    }
  }

  lemma {:induction false} Pow2Mono(a: nat, b: nat)
    requires a <= b
    ensures Pow2(a) <= Pow2(b)
    decreases b
  {
    if a < b {
      Pow2Mono(a, b - 1);
    }
  }

  lemma Pow2Word()
    ensures Pow2(WORD) == 0x1_0000_0000_0000_0000
  {
    assert Pow2(8) == 256;
    Pow2Add(8, 8);
    assert Pow2(16) == 0x1_0000;
    Pow2Add(16, 16);
    assert Pow2(32) == 0x1_0000_0000;
    Pow2Add(32, 32);
  }

  /** A number of at most a bits has at most b bits, for a <= b. */
  lemma Pow2Below(x: nat, a: nat, b: nat)
    requires a <= b && x < Pow2(a)
    ensures x < Pow2(b)
  {
    Pow2Mono(a, b);
  }

  /** A number of at most a <= 64 bits fits a `uint64_t`. */
  lemma WordBelow(x: nat, a: nat)
    requires a <= WORD && x < Pow2(a)
    ensures x < 0x1_0000_0000_0000_0000
  {
    Pow2Mono(a, WORD);
    Pow2Word();
  }

  /** (w >> lo) & LOW_MASK(len) */
  function Field(w: nat, lo: nat, len: nat): (f: nat)
    ensures f < Pow2(len)
    decreases lo + len
  {
    if lo > 0 then Field(w / 2, lo - 1, len)
    else if len == 0 then 0
    else w % 2 + 2 * Field(w / 2, 0, len - 1)
  }

  /** (w & ~(LOW_MASK(len) << lo)) | ((v & LOW_MASK(len)) << lo) */
  function SetField(w: nat, lo: nat, len: nat, v: nat): nat
    decreases lo + len
  {
    if lo > 0 then w % 2 + 2 * SetField(w / 2, lo - 1, len, v)
    else if len == 0 then w
    else v % 2 + 2 * SetField(w / 2, 0, len - 1, v / 2)
  }

  /** Reading back a field just written gives the low `len` bits of what was written. */
  lemma {:induction false} FieldSetFieldSame(w: nat, lo: nat, len: nat, v: nat)
    ensures Field(SetField(w, lo, len, v), lo, len) == Field(v, 0, len)
    decreases lo + len
  {
    var x := SetField(w, lo, len, v);
    if lo > 0 {
      assert x / 2 == SetField(w / 2, lo - 1, len, v);
      FieldSetFieldSame(w / 2, lo - 1, len, v);
    } else if len > 0 {
      assert x % 2 == v % 2 && x / 2 == SetField(w / 2, 0, len - 1, v / 2);
      FieldSetFieldSame(w / 2, 0, len - 1, v / 2);
    }
  }

  lemma {:induction false} FieldEmpty(w: nat, lo: nat)
    ensures Field(w, lo, 0) == 0
    decreases lo
  {
    if lo > 0 {
      FieldEmpty(w / 2, lo - 1);
    }
  }

  /** Writing a field leaves every disjoint field of the word as it was. */
  lemma {:induction false} FieldSetFieldOther(w: nat, lo: nat, len: nat, v: nat, lo2: nat, len2: nat)
    requires lo2 + len2 <= lo || lo + len <= lo2
    ensures Field(SetField(w, lo, len, v), lo2, len2) == Field(w, lo2, len2)
    decreases lo + len + lo2 + len2
  {
    var x := SetField(w, lo, len, v);
    if len2 == 0 {
      FieldEmpty(x, lo2);
      FieldEmpty(w, lo2);
    } else if lo > 0 && lo2 > 0 {
      assert x / 2 == SetField(w / 2, lo - 1, len, v);
      FieldSetFieldOther(w / 2, lo - 1, len, v, lo2 - 1, len2);
    } else if lo > 0 {
      // the read starts at bit 0 and ends below the written field
      assert x % 2 == w % 2 && x / 2 == SetField(w / 2, lo - 1, len, v);
      FieldSetFieldOther(w / 2, lo - 1, len, v, 0, len2 - 1);
    } else if len == 0 {
      assert x == w;
    } else {
      // the written field starts at bit 0 and ends below the read
      assert x / 2 == SetField(w / 2, 0, len - 1, v / 2);
      FieldSetFieldOther(w / 2, 0, len - 1, v / 2, lo2 - 1, len2);
    }
  }

  /** Writing a field that lies below bit `n` keeps a word below 2^n. */
  lemma {:induction false} SetFieldBound(w: nat, lo: nat, len: nat, v: nat, n: nat)
    requires lo + len <= n && w < Pow2(n)
    ensures SetField(w, lo, len, v) < Pow2(n)
    decreases lo + len
  {
    if lo > 0 {
      SetFieldBound(w / 2, lo - 1, len, v, n - 1);
    } else if len > 0 {
      SetFieldBound(w / 2, 0, len - 1, v / 2, n - 1);
    }
  }

  /** A field of width a + b is its low a bits and, above them, its next b bits. */
  lemma {:induction false} FieldSplit(w: nat, lo: nat, a: nat, b: nat)
    ensures Field(w, lo, a + b) == Field(w, lo, a) + Pow2(a) * Field(w, lo + a, b)
    decreases lo + a
  {
    if lo > 0 {
      FieldSplit(w / 2, lo - 1, a, b);
    } else if a > 0 {
      FieldSplit(w / 2, 0, a - 1, b);
      Regroup(w % 2, Field(w / 2, 0, a - 1), Pow2(a - 1), Field(w / 2, a - 1, b));
    }
  }

  /** A nonlinear-arithmetic hint for FieldSplit: regrouping one bit and a shifted field. */
  lemma Regroup(c: nat, x: nat, p: nat, f: nat)
    ensures c + 2 * (x + p * f) == (c + 2 * x) + (2 * p) * f
  {
  }

  /** A number below 2^len is its own low `len` bits. */
  lemma {:induction false} FieldOfSmall(w: nat, len: nat)
    requires w < Pow2(len)
    ensures Field(w, 0, len) == w
    decreases len
  {
    if len > 0 {
      FieldOfSmall(w / 2, len - 1);
    }
  }

  lemma {:induction false} FieldOfZero(lo: nat, len: nat)
    ensures Field(0, lo, len) == 0
    decreases lo + len
  {
    if lo > 0 {
      FieldOfZero(lo - 1, len);
    } else if len > 0 {
      FieldOfZero(0, len - 1);
    }
  }

  /** A number below 2^lo has no bits at or above `lo`. */
  lemma {:induction false} FieldAboveSmall(w: nat, lo: nat, len: nat)
    requires w < Pow2(lo)
    ensures Field(w, lo, len) == 0
    decreases lo
  {
    if lo > 0 {
      FieldAboveSmall(w / 2, lo - 1, len);
    } else {
      FieldOfZero(0, len);
    }
  }

  /** A number below 2^len has no bits from `lo` up exactly when it is below 2^lo. */
  lemma HighClear(w: nat, lo: nat, len: nat)
    requires w < Pow2(len)
    ensures Field(w, lo, len) == 0 <==> w < Pow2(lo)
  {
    if w < Pow2(lo) {
      FieldAboveSmall(w, lo, len);
    }
    if Field(w, lo, len) == 0 {
      // w is its low lo + len bits, and all but the low lo of them are clear
      Pow2Mono(len, lo + len);
      FieldOfSmall(w, lo + len);
      FieldSplit(w, 0, lo, len);
    }
  }

  /** The low `len` bits of `w` equal `w` exactly when `w` is below 2^len. */
  lemma LowFieldIdentity(w: nat, len: nat)
    ensures Field(w, 0, len) == w <==> w < Pow2(len)
  {
    if w < Pow2(len) {
      FieldOfSmall(w, len);
    }
  }

  /** A nonlinear-arithmetic hint: a positive multiple of d is at least d. */
  lemma MulAtLeast(x: int, d: int)
    requires x >= 1 && d > 0
    ensures x * d >= d
  {
  }

  /** A nonlinear-arithmetic hint: multiplication distributes over a difference. */
  lemma Distrib(a: int, b: int, d: int)
    ensures d * a - d * b == d * (a - b)
  {
  }

  /** Splitting a number into a part below d and a multiple of d is unambiguous. */
  lemma SplitUnique(x0: nat, y0: nat, x1: nat, y1: nat, d: nat)
    requires x0 < d && x1 < d
    requires x0 + d * y0 == x1 + d * y1
    ensures x0 == x1 && y0 == y1
  {
    if y0 < y1 {
      Distrib(y1, y0, d);
      MulAtLeast(y1 - y0, d);
    } else if y1 < y0 {
      Distrib(y0, y1, d);
      MulAtLeast(y0 - y1, d);
    }
  }

  /** A value below 2^a and one below 2^b, the second shifted up by a bits, stay below 2^(a+b). */
  lemma Combine(x: nat, y: nat, a: nat, b: nat)
    requires x < Pow2(a) && y < Pow2(b)
    ensures x + Pow2(a) * y < Pow2(a + b)
  {
    Pow2Add(a, b);
    var p, q := Pow2(a), Pow2(b);
    Distrib(q, y, p);
    MulAtLeast(q - y, p);
  }

  /** The low n bits of 2^n are all clear: masking wraps idx + 1 round to 0. */
  lemma {:induction false} FieldOfPow2(n: nat)
    ensures Field(Pow2(n), 0, n) == 0
  {
    if n > 0 {
      FieldOfPow2(n - 1);
    }
  }

  /** The low n bits of 2^m - 1 are all set, for n <= m: masking wraps 0 - 1 round to 2^n - 1. */
  lemma {:induction false} FieldOfOnes(m: nat, n: nat)
    requires n <= m
    ensures Field(Pow2(m) - 1, 0, n) == Pow2(n) - 1
  {
    if n > 0 {
      FieldOfOnes(m - 1, n - 1);
    }
  }

  /** n zero words (or n empty slots). */
  function Zeros(n: nat): (z: seq<nat>)
    ensures |z| == n && forall i :: 0 <= i < n ==> z[i] == 0
  {
    seq(n, _ => 0)
  }
}
