/**
 * The packed slot table: `2^q` slots of `elem_bits` bits each, stored
 * back to back in 64-bit words with no padding (qf.h:29).  Slot `idx`
 * occupies bits `elem_bits * idx` to `elem_bits * idx + elem_bits - 1` of the
 * bit string formed by the words, least significant bit first; a slot whose
 * bits run past the end of a word spills into the low bits of the next one.
 */
module Packed {
  import opened Bits

  /** The table holds word-sized values and is long enough for `n` slots of `eb` bits. */
  ghost predicate WellSized(t: seq<nat>, eb: nat, n: nat)
  {
    && 0 < eb <= WORD
    && eb * n <= WORD * |t|
    && forall k :: 0 <= k < |t| ==> t[k] < 0x1_0000_0000_0000_0000
  }

  /** Slot `idx` lies inside the table. */
  predicate InTable(t: seq<nat>, eb: nat, idx: nat)
  {
    0 < eb <= WORD && eb * idx + eb <= WORD * |t|
  }

  lemma SlotInTable(t: seq<nat>, eb: nat, n: nat, idx: nat)
    requires WellSized(t, eb, n) && idx < n
    ensures InTable(t, eb, idx)
  {
    Distrib(n, idx, eb);
    MulAtLeast(n - idx, eb);
  }

  /** get_elem (qf.h:127-128): the value of slot `idx`, in the low bits. */
  function Load(t: seq<nat>, eb: nat, idx: nat): (e: nat)
    requires InTable(t, eb, idx)
    ensures e < Pow2(eb)
  {
    var bitpos := eb * idx;
    var tabpos := bitpos / WORD;
    var slotpos := bitpos % WORD;
    if slotpos + eb <= WORD then
      Field(t[tabpos], slotpos, eb)
    else
      var low := WORD - slotpos;
      var spill := slotpos + eb - WORD;
      FieldSplit(Field(t[tabpos], slotpos, low) + Pow2(low) * Field(t[tabpos + 1], 0, spill), 0, low, spill);
      Pow2Add(low, spill);
      Combine(Field(t[tabpos], slotpos, low), Field(t[tabpos + 1], 0, spill), low, spill);
      Field(t[tabpos], slotpos, low) + Pow2(low) * Field(t[tabpos + 1], 0, spill)
  }

  /** set_elem (qf.h:130-131): store the low `eb` bits of `elt` into slot `idx`. */
  function Store(t: seq<nat>, eb: nat, idx: nat, elt: nat): (t': seq<nat>)
    requires InTable(t, eb, idx)
    ensures |t'| == |t|
  {
    var v := Field(elt, 0, eb);
    var bitpos := eb * idx;
    var tabpos := bitpos / WORD;
    var slotpos := bitpos % WORD;
    if slotpos + eb <= WORD then
      t[tabpos := SetField(t[tabpos], slotpos, eb, v)]
    else
      var low := WORD - slotpos;
      var spill := slotpos + eb - WORD;
      t[tabpos := SetField(t[tabpos], slotpos, low, v)]
       [tabpos + 1 := SetField(t[tabpos + 1], 0, spill, Field(v, low, spill))]
  }

  lemma StoreWellSized(t: seq<nat>, eb: nat, n: nat, idx: nat, elt: nat)
    requires WellSized(t, eb, n) && InTable(t, eb, idx)
    ensures WellSized(Store(t, eb, idx, elt), eb, n)
  {
    var bitpos := eb * idx;
    var tabpos := bitpos / WORD;
    var slotpos := bitpos % WORD;
    var v := Field(elt, 0, eb);
    var t' := Store(t, eb, idx, elt);
    if slotpos + eb <= WORD {
      WordStaysWord(t[tabpos], slotpos, eb, v);
    } else {
      WordStaysWord(t[tabpos], slotpos, WORD - slotpos, v);
      WordStaysWord(t[tabpos + 1], 0, slotpos + eb - WORD, Field(v, WORD - slotpos, slotpos + eb - WORD));
    }
    assert forall k :: 0 <= k < |t'| ==> t'[k] == t[k] || k == tabpos || k == tabpos + 1;
  }

  /** Writing a field inside a word keeps it a word. */
  lemma WordStaysWord(w: nat, lo: nat, len: nat, v: nat)
    requires lo + len <= WORD && w < 0x1_0000_0000_0000_0000
    ensures SetField(w, lo, len, v) < 0x1_0000_0000_0000_0000
  {
    Pow2Word();
    SetFieldBound(w, lo, len, v, WORD);
  }

  /** Reading a slot just written gives back the low `eb` bits of the value (qf.h:127-131). */
  lemma LoadStoreSame(t: seq<nat>, eb: nat, idx: nat, elt: nat)
    requires InTable(t, eb, idx)
    ensures Load(Store(t, eb, idx, elt), eb, idx) == Field(elt, 0, eb)
  {
    var v := Field(elt, 0, eb);
    var bitpos := eb * idx;
    var tabpos := bitpos / WORD;
    var slotpos := bitpos % WORD;
    if slotpos + eb <= WORD {
      FieldSetFieldSame(t[tabpos], slotpos, eb, v);
      FieldOfSmall(v, eb);
    } else {
      SpillSame(t[tabpos], t[tabpos + 1], slotpos, WORD - slotpos, slotpos + eb - WORD, v);
    }
  }

  /** A value of low + spill bits written across two words, its low part ending the first, reads back whole. */
  lemma SpillSame(w0: nat, w1: nat, slotpos: nat, low: nat, spill: nat, v: nat)
    requires v < Pow2(low + spill)
    ensures Field(SetField(w0, slotpos, low, v), slotpos, low)
              + Pow2(low) * Field(SetField(w1, 0, spill, Field(v, low, spill)), 0, spill) == v
  {
    FieldSetFieldSame(w0, slotpos, low, v);
    FieldSetFieldSame(w1, 0, spill, Field(v, low, spill));
    FieldOfSmall(Field(v, low, spill), spill);
    FieldSplit(v, 0, low, spill);
    FieldOfSmall(v, low + spill);
  }

  /** The bit ranges of two different slots do not overlap. */
  lemma SlotsApart(eb: nat, i: nat, j: nat)
    requires i != j
    ensures eb * i + eb <= eb * j || eb * j + eb <= eb * i
  {
    if eb > 0 {
      if i < j {
        Distrib(j, i, eb);
        MulAtLeast(j - i, eb);
      } else {
        Distrib(i, j, eb);
        MulAtLeast(i - j, eb);
      }
    }
  }

  /**
   * Word `k` of `t'` is word `k` of `t` except perhaps for the bits
   * [lo1, lo1 + len1), which lie inside the global range [gw, gw + ew);
   * a read of bits [lo2, lo2 + len2) of word `k` that lies inside a global
   * range disjoint from the first sees the old bits.
   */
  lemma ReadApart(w: nat, w': nat, k: nat, lo1: nat, len1: nat, x: nat,
                  lo2: nat, len2: nat, g1: nat, g2: nat, e: nat)
    requires w' == w || w' == SetField(w, lo1, len1, x)
    requires g1 <= WORD * k + lo1 && WORD * k + lo1 + len1 <= g1 + e
    requires g2 <= WORD * k + lo2 && WORD * k + lo2 + len2 <= g2 + e
    requires g1 + e <= g2 || g2 + e <= g1
    ensures Field(w', lo2, len2) == Field(w, lo2, len2)
  {
    if len1 == 0 {
      SetFieldEmpty(w, lo1, x);
    } else if len2 == 0 {
      FieldEmpty(w', lo2);
      FieldEmpty(w, lo2);
    } else {
      FieldSetFieldOther(w, lo1, len1, x, lo2, len2);
    }
  }

  lemma {:induction false} SetFieldEmpty(w: nat, lo: nat, x: nat)
    ensures SetField(w, lo, 0, x) == w
    decreases lo
  {
    if lo > 0 {
      SetFieldEmpty(w / 2, lo - 1, x);
    }
  }

  /** Writing a slot leaves every other slot as it was, including neighbours sharing a word (qf.h:127-131). */
  lemma LoadStoreOther(t: seq<nat>, eb: nat, idx: nat, elt: nat, j: nat)
    requires InTable(t, eb, idx) && InTable(t, eb, j) && j != idx
    ensures Load(Store(t, eb, idx, elt), eb, j) == Load(t, eb, j)
  {
    var gj := eb * j;
    var tj, sj := gj / WORD, gj % WORD;
    var t' := Store(t, eb, idx, elt);
    SlotsApart(eb, idx, j);
    if sj + eb <= WORD {
      ReadWord(t, eb, idx, elt, gj, tj, sj, eb);
      assert Load(t', eb, j) == Field(t'[tj], sj, eb);
    } else {
      var low, spill := WORD - sj, sj + eb - WORD;
      ReadWord(t, eb, idx, elt, gj, tj, sj, low);
      ReadWord(t, eb, idx, elt, gj, tj + 1, 0, spill);
      assert Load(t', eb, j) == Field(t'[tj], sj, low) + Pow2(low) * Field(t'[tj + 1], 0, spill);
      assert Load(t, eb, j) == Field(t[tj], sj, low) + Pow2(low) * Field(t[tj + 1], 0, spill);
    }
  }

  /** A read of bits [lo2, lo2 + len2) of word `k`, inside slot range [gj, gj + eb), is not disturbed by writing slot `idx`. */
  lemma ReadWord(t: seq<nat>, eb: nat, idx: nat, elt: nat, gj: nat, k: nat, lo2: nat, len2: nat)
    requires InTable(t, eb, idx) && k < |t|
    requires gj <= WORD * k + lo2 && WORD * k + lo2 + len2 <= gj + eb
    requires eb * idx + eb <= gj || gj + eb <= eb * idx
    ensures Field(Store(t, eb, idx, elt)[k], lo2, len2) == Field(t[k], lo2, len2)
  {
    var t' := Store(t, eb, idx, elt);
    var v := Field(elt, 0, eb);
    var gi := eb * idx;
    var ti, si := gi / WORD, gi % WORD;
    if si + eb <= WORD {
      if k == ti {
        ReadApart(t[k], t'[k], k, si, eb, v, lo2, len2, gi, gj, eb);
      }
    } else {
      if k == ti {
        ReadApart(t[k], t'[k], k, si, WORD - si, v, lo2, len2, gi, gj, eb);
      } else if k == ti + 1 {
        ReadApart(t[k], t'[k], k, 0, si + eb - WORD, Field(v, WORD - si, si + eb - WORD), lo2, len2, gi, gj, eb);
      }
    }
  }

  /** Slot i of the table holds d[i], for every slot of `d`. */
  ghost predicate Decodes(t: seq<nat>, eb: nat, d: seq<nat>)
  {
    && WellSized(t, eb, |d|)
    && forall i {:trigger Load(t, eb, i)} :: 0 <= i < |d| ==> InTable(t, eb, i) && Load(t, eb, i) == d[i]
  }

  /** Storing into slot idx changes the decoded table in slot idx only. */
  lemma DecodesStore(t: seq<nat>, eb: nat, d: seq<nat>, idx: nat, elt: nat)
    requires Decodes(t, eb, d) && idx < |d|
    ensures InTable(t, eb, idx) && Decodes(Store(t, eb, idx, elt), eb, d[idx := Field(elt, 0, eb)])
  {
    var n := |d|;
    SlotInTable(t, eb, n, idx);
    StoreWellSized(t, eb, n, idx, elt);
    var t' := Store(t, eb, idx, elt);
    forall j | 0 <= j < n
      ensures InTable(t', eb, j) && Load(t', eb, j) == d[idx := Field(elt, 0, eb)][j]
    {
      SlotInTable(t, eb, n, j);
      assert Load(t, eb, j) == d[j];
      if j == idx {
        LoadStoreSame(t, eb, idx, elt);
      } else {
        LoadStoreOther(t, eb, idx, elt, j);
      }
    }
  }

  /** An all-zero table decodes to all-zero slots. */
  lemma DecodesZero(t: seq<nat>, eb: nat, n: nat)
    requires WellSized(t, eb, n) && forall k :: 0 <= k < |t| ==> t[k] == 0
    ensures Decodes(t, eb, Zeros(n))
  {
    forall i | 0 <= i < n
      ensures InTable(t, eb, i) && Load(t, eb, i) == 0
    {
      SlotInTable(t, eb, n, i);
      LoadZero(t, eb, i);
    }
  }

  lemma LoadZero(t: seq<nat>, eb: nat, idx: nat)
    requires InTable(t, eb, idx) && forall k :: 0 <= k < |t| ==> t[k] == 0
    ensures Load(t, eb, idx) == 0
  {
    var slotpos := eb * idx % WORD;
    FieldOfZero(slotpos, eb);
    if slotpos + eb > WORD {
      FieldOfZero(slotpos, WORD - slotpos);
      FieldOfZero(0, slotpos + eb - WORD);
    }
  }
}
