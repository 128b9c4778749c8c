/**
 * The quotient filter object (struct quotient_filter, qf.h:20-30) and its
 * operations.  The filter owns a packed table of 2^q slots; the ghost field
 * `slots` is the table decoded slot by slot, and `home` gives, for every slot
 * that holds a remainder, the canonical slot (quotient) that remainder
 * belongs to.  What the filter stores is `Stored()`, a set of
 * (quotient, remainder) pairs.
 */
module QuotientFilter {
  import opened Bits
  import opened Packed
  import opened Slot
  import opened Fingerprint
  import opened Layout
  import opened Runs
  import opened Insertion
  import opened Placement
  import opened Deletion
  import opened Iteration

  /** qf_init's check of its parameters (qf.h:39-44): q and r nonzero, q + r at most 64. */
  predicate InitAcceptsAsWritten(q: nat, r: nat)
  {
    q != 0 && r != 0 && q + r <= WORD
  }

  /** The check with the slot width r + 3 also required to fit in a 64-bit word. */
  predicate InitAccepts(q: nat, r: nat)
  {
    InitAcceptsAsWritten(q, r) && r + 3 <= WORD
  }

  /** (fr << 3) & ~7 evaluated in 64-bit arithmetic: the slot value qf_insert builds for remainder fr. */
  function EntryAsWritten(fr: nat): (e: nat)
    ensures e < 0x1_0000_0000_0000_0000
  {
    (8 * fr) % 0x1_0000_0000_0000_0000
  }

  /** With r = 63 (which qf_init accepts) a remainder loses its top bits on its way into a slot. */
  lemma WideRemainderTruncated()
    ensures InitAcceptsAsWritten(1, 63)
    ensures Pow2(62) < Pow2(63) && GetRemainder(EntryAsWritten(Pow2(62))) != Pow2(62)
  {
    Pow2Add(62, 2);
    Pow2Word();
    assert 8 * Pow2(62) == 2 * 0x1_0000_0000_0000_0000;
  }

  /** With the corrected check every remainder survives the 64-bit computation of its slot value. */
  lemma EntryFits(r: nat, fr: nat)
    requires r + 3 <= WORD && fr < Pow2(r)
    ensures EntryAsWritten(fr) == Entry(fr)
    ensures GetRemainder(EntryAsWritten(fr)) == fr
  {
    Pow2Add(r, 3);
    Pow2Mono(r + 3, WORD);
    Pow2Word();
  }

  /** Words of a table of n slots of eb bits: enough 64-bit words for n * eb bits. */
  function TableWords(n: nat, eb: nat): (w: nat)
    ensures eb * n <= WORD * w
  {
    (eb * n + WORD - 1) / WORD
  }

  lemma IncrMasked(q: nat, idx: nat)
    requires idx < Pow2(q)
    ensures Field(idx + 1, 0, q) == if idx + 1 == Pow2(q) then 0 else idx + 1
  {
    if idx + 1 == Pow2(q) {
      FieldOfPow2(q);
    } else {
      FieldOfSmall(idx + 1, q);
    }
  }

  lemma DecrMasked(q: nat, idx: nat)
    requires idx < Pow2(q) && q <= WORD
    ensures Field(if idx == 0 then 0xFFFF_FFFF_FFFF_FFFF else idx - 1, 0, q) == if idx == 0 then Pow2(q) - 1 else idx - 1
  {
    if idx == 0 {
      Pow2Word();
      FieldOfOnes(WORD, q);
    } else {
      FieldOfSmall(idx - 1, q);
    }
  }

  /** The slots at offsets below p from i0 already hold their values after insert_into; the rest are as before. */
  ghost predicate Pushed(t: seq<nat>, s0: seq<nat>, i0: nat, elt: nat, len: nat, p: nat)
    requires i0 < |s0|
  {
    |t| == |s0| && forall j :: 0 <= j < |s0| ==>
      t[j] == if Off(|s0|, i0, j) < p then Cascade(s0, i0, elt, len, j) else s0[j]
  }

  lemma PushedStep(t: seq<nat>, s0: seq<nat>, i0: nat, elt: nat, len: nat, p: nat)
    requires i0 < |s0| && p < |s0| && Pushed(t, s0, i0, elt, len, p)
    ensures Pushed(t[At(|s0|, i0, p) := Cascade(s0, i0, elt, len, At(|s0|, i0, p))], s0, i0, elt, len, p + 1)
  {
  }

  lemma PushedDone(t: seq<nat>, s0: seq<nat>, i0: nat, elt: nat, len: nat)
    requires i0 < |s0| && len < |s0| && Pushed(t, s0, i0, elt, len, len + 1)
    ensures t == ShiftInsert(s0, i0, elt, len)
  {
  }

  /**
   * What insert_into carries from offset p - 1 to offset p: the element about
   * to be written there, without an occupied bit and, past i0, a shifted copy
   * of the slot before.
   */
  ghost predicate Carried(curr: nat, s0: seq<nat>, i0: nat, elt: nat, p: nat)
    requires i0 < |s0| && p < |s0|
  {
    && !IsOccupied(curr)
    && (p == 0 ==> curr == elt)
    && (0 < p ==> && IsShifted(curr)
                  && IsContinuation(curr) == IsContinuation(s0[At(|s0|, i0, p - 1)])
                  && GetRemainder(curr) == GetRemainder(s0[At(|s0|, i0, p - 1)]))
  }

  /** One step of insert_into: the value it writes at offset p, and what it carries on. */
  lemma CarryStep(s0: seq<nat>, i0: nat, elt: nat, len: nat, p: nat, curr: nat, w: nat, next: nat)
    requires i0 < |s0| && p <= len < |s0| && !IsOccupied(elt) && Carried(curr, s0, i0, elt, p)
    requires IsOccupied(w) == IsOccupied(s0[At(|s0|, i0, p)])
    requires IsContinuation(w) == IsContinuation(curr) && IsShifted(w) == IsShifted(curr)
    requires GetRemainder(w) == GetRemainder(curr)
    requires p < len ==> && !IsOccupied(next) && IsShifted(next)
                         && IsContinuation(next) == IsContinuation(s0[At(|s0|, i0, p)])
                         && GetRemainder(next) == GetRemainder(s0[At(|s0|, i0, p)])
    ensures w == Cascade(s0, i0, elt, len, At(|s0|, i0, p))
    ensures p < len ==> Carried(next, s0, i0, elt, p + 1)
  {
    var n := |s0|;
    if 0 < p {
      AtSucc(n, i0, p - 1);
    }
    SameFields(w, Cascade(s0, i0, elt, len, At(n, i0, p)));
  }

  /** What one step of insert_into writes: the carried element, with the occupied bit of the slot it lands in. */
  function InsertWritten(curr: nat, prev: nat): nat
  {
    if !IsEmptyElement(prev) && IsOccupied(SetShifted(prev)) then SetOccupied(curr) else curr
  }

  /** What one step of insert_into carries on: the displaced element, shifted, without the slot's occupied bit. */
  function InsertCarry(prev: nat): nat
  {
    if IsEmptyElement(prev) then prev
    else if IsOccupied(SetShifted(prev)) then ClrOccupied(SetShifted(prev))
    else SetShifted(prev)
  }

  /** The body of insert_into's loop on values: the slot that held prev takes written, and carry moves on. */
  method StepValues(curr: nat, prev: nat) returns (written: nat, carry: nat)
    requires !IsOccupied(curr)
    ensures written == InsertWritten(curr, prev) && carry == InsertCarry(prev)
    // the slot keeps its own occupied flag and takes everything else from curr
    ensures IsOccupied(written) == IsOccupied(prev)
    ensures IsContinuation(written) == IsContinuation(curr) && IsShifted(written) == IsShifted(curr)
    ensures GetRemainder(written) == GetRemainder(curr)
    // a displaced remainder moves on shifted, without the occupied flag of the slot it left
    ensures Used(prev) ==> && !IsOccupied(carry) && IsShifted(carry)
                           && IsContinuation(carry) == IsContinuation(prev)
                           && GetRemainder(carry) == GetRemainder(prev)
    ensures !Used(prev) ==> carry == prev
  {
    written, carry := curr, prev;
    if !IsEmptyElement(prev) {
      carry := SetShifted(prev);
      if IsOccupied(carry) {
        written := SetOccupied(curr);
        carry := ClrOccupied(carry);
      }
    }
  }

  lemma InsertStep(s0: seq<nat>, i0: nat, elt: nat, len: nat, p: nat, curr: nat, r: nat)
    requires i0 < |s0| && p <= len < |s0| && !IsOccupied(elt) && Carried(curr, s0, i0, elt, p)
    requires p < len ==> Used(s0[At(|s0|, i0, p)])
    requires curr < Pow2(r + 3) && s0[At(|s0|, i0, p)] < Pow2(r + 3)
    ensures InsertWritten(curr, s0[At(|s0|, i0, p)]) == Cascade(s0, i0, elt, len, At(|s0|, i0, p))
    ensures InsertWritten(curr, s0[At(|s0|, i0, p)]) < Pow2(r + 3)
    ensures p < len ==> Carried(InsertCarry(s0[At(|s0|, i0, p)]), s0, i0, elt, p + 1)
    ensures InsertCarry(s0[At(|s0|, i0, p)]) < Pow2(r + 3)
  {
    var prev := s0[At(|s0|, i0, p)];
    EmptyIffNoFlags(prev);
    SlotBound(curr, r);
    SlotBound(prev, r);
    SlotBound(InsertWritten(curr, prev), r);
    SlotBound(InsertCarry(prev), r);
    CarryStep(s0, i0, elt, len, p, curr, InsertWritten(curr, prev), InsertCarry(prev));
  }

  class Filter {
    const qbits: nat
    const rbits: nat
    const elemBits: nat
    const maxSize: nat
    const table: array<nat>
    var entries: nat
    ghost var slots: seq<nat>
    ghost var home: seq<nat>

    /** The parameters are consistent and `slots` is the decoded table. */
    ghost predicate Storage()
      reads this, table
    {
      && InitAccepts(qbits, rbits)
      && elemBits == rbits + 3
      && maxSize == Pow2(qbits)
      && |slots| == maxSize && |home| == maxSize
      && Decodes(table[..], elemBits, slots)
    }

    /** A well-formed filter: the table obeys the quotient filter invariant and `entries` counts its remainders. */
    ghost predicate Valid()
      reads this, table
    {
      Storage() && Inv(slots, home, -1) && entries == CountUsed(slots)
    }

    /** The fingerprints the filter holds. */
    ghost function Stored(): set<(nat, nat)>
      reads this
      requires |home| == |slots|
    {
      Contents(slots, home)
    }

    /** The fingerprints the filter holds, as (q+r)-bit numbers. */
    ghost function Values(): set<nat>
      reads this
      requires |home| == |slots|
    {
      ValuesOf(rbits, Stored())
    }

    /** The canonical slot and remainder a hash is filed under. */
    function Key(hash: nat): (k: (nat, nat))
      reads this
      ensures k.0 < Pow2(qbits) && k.1 < Pow2(rbits)
    {
      (Quotient(qbits, rbits, hash), Remainder(rbits, hash))
    }

    constructor (q: nat, r: nat)
      requires InitAccepts(q, r)
      ensures Valid() && Stored() == {} && entries == 0
      ensures qbits == q && rbits == r && fresh(table)
    {
      var n := Pow2(q);
      qbits, rbits, elemBits := q, r, r + 3;
      maxSize := n;
      entries := 0;
      table := new nat[TableWords(n, r + 3)](_ => 0);
      slots := Zeros(n);
      home := Zeros(n);
      new;
      DecodesZero(table[..], elemBits, n);
      EmptyTable(maxSize);
    }

    /** qf_init (qf.h:39-44): a filter of 2^q slots, or none when the parameters are refused. */
    static method Init(q: nat, r: nat) returns (qf: Filter?)
      ensures qf == null <==> !InitAccepts(q, r)
      ensures qf != null ==> fresh(qf) && fresh(qf.table) && qf.Valid() && qf.Stored() == {} && qf.entries == 0
      ensures qf != null ==> qf.qbits == q && qf.rbits == r && qf.maxSize == Pow2(q)
    {
      if q == 0 || r == 0 || q + r > WORD || r + 3 > WORD {
        return null;
      }
      qf := new Filter(q, r);
    }

    /** get_elem (qf.h:127-128) */
    function GetElem(idx: nat): (e: nat)
      reads this, table
      requires Storage() && idx < maxSize
      ensures e == slots[idx] && e < Pow2(elemBits)
    {
      SlotInTable(table[..], elemBits, maxSize, idx);
      Load(table[..], elemBits, idx)
    }

    /** set_elem (qf.h:129-131): slot idx takes the low elem_bits bits of elt, every other slot keeps its value. */
    method SetElem(idx: nat, elt: nat)
      requires Storage() && idx < maxSize
      modifies this, table
      ensures Storage()
      ensures slots == old(slots)[idx := Field(elt, 0, elemBits)]
      ensures home == old(home) && entries == old(entries)
    {
      ghost var t := table[..];
      DecodesStore(t, elemBits, slots, idx, elt);
      ghost var t' := Store(t, elemBits, idx, elt);
      var v := Field(elt, 0, elemBits);
      var bitpos := elemBits * idx;
      var tabpos := bitpos / WORD;
      var slotpos := bitpos % WORD;
      if slotpos + elemBits <= WORD {
        table[tabpos] := SetField(table[tabpos], slotpos, elemBits, v);
        assert table[..] == t[tabpos := t'[tabpos]];
      } else {
        var low := WORD - slotpos;
        var spill := slotpos + elemBits - WORD;
        table[tabpos] := SetField(table[tabpos], slotpos, low, v);
        table[tabpos + 1] := SetField(table[tabpos + 1], 0, spill, Field(v, low, spill));
        assert table[..] == t[tabpos := t'[tabpos]][tabpos + 1 := t'[tabpos + 1]];
      }
      assert table[..] == t';
      slots := slots[idx := v];
    }

    /** incr (qf.h:133): (idx + 1) & index_mask, the next slot round the table. */
    function Incr(idx: nat): (j: nat)
      reads this, table
      requires Storage() && idx < maxSize
      ensures j == Succ(maxSize, idx)
    {
      IncrMasked(qbits, idx);
      Field(idx + 1, 0, qbits)
    }

    /** decr (qf.h:135): (idx - 1) & index_mask in 64-bit arithmetic, the previous slot round the table. */
    function Decr(idx: nat): (j: nat)
      reads this, table
      requires Storage() && idx < maxSize
      ensures j == Pred(maxSize, idx)
    {
      DecrMasked(qbits, idx);
      Field(if idx == 0 then 0xFFFF_FFFF_FFFF_FFFF else idx - 1, 0, qbits)
    }

    /**
     * find_run_index (qf.h:167): walk back from fq to the start of its
     * cluster, then forward run by run, pairing each run with the next
     * occupied slot, until the occupied slot is fq.  The result is where fq's
     * run begins, or where it would begin when `pending` says fq's run is
     * still empty.
     */
    method FindRunIndex(fq: nat, ghost pending: int) returns (r: nat, ghost c: nat)
      requires Storage() && Inv(slots, home, pending) && fq < maxSize && IsOccupied(slots[fq])
      requires pending == -1 || pending == fq
      requires pending == fq ==> HasFree(slots)
      ensures RunLocated(slots, home, pending, c, fq, r)
      ensures fq != pending ==> Used(slots[r]) && home[r] == fq
    {
      var n := maxSize;
      var b: nat := fq;
      while IsShifted(GetElem(b))
        invariant b < n && Used(slots[b])
        invariant UsedSpan(slots, b, Off(n, b, fq)) && ShiftedSpan(slots, b, Off(n, b, fq))
        decreases n - Off(n, b, fq)
      {
        BackStep(slots, home, pending, fq, b);
        b := Decr(b);
      }
      BackDone(slots, home, pending, fq, b);
      c, r := b, b;
      ScanStart(slots, home, pending, c, fq);
      while b != fq
        invariant b < n && r < n && Scanned(slots, home, pending, c, fq, b, r)
        decreases Off(n, c, fq) - Off(n, c, b)
      {
        RunEnter(slots, home, pending, c, fq, b, r);
        r := Incr(r);
        while IsContinuation(GetElem(r))
          invariant r < n && InRun(slots, home, pending, c, fq, b, r)
          decreases n - Off(n, c, r)
        {
          RunAdvance(slots, home, pending, c, fq, b, r);
          OffSucc(n, c, r);
          r := Incr(r);
        }
        GapEnter(slots, c, fq, b);
        var b': nat := Incr(b);
        while !IsOccupied(GetElem(b'))
          invariant b' < n && Gap(slots, c, fq, b, b')
          decreases Off(n, c, fq) - Off(n, c, b')
        {
          GapAdvance(slots, c, fq, b, b');
          OffSucc(n, c, b');
          b' := Incr(b');
        }
        RunLeave(slots, home, pending, c, fq, b, r, b');
        b := b';
      }
      if fq != pending {
        RunHead(slots, home, pending, c, fq, r);
      }
    }

    /**
     * insert_into (qf.h:169): elt goes into slot i0 and every remainder from
     * there up to the first empty slot, `len` steps on, moves one slot
     * forward and is marked shifted; the occupied bits stay with their slots.
     */
    method InsertInto(i0: nat, elt: nat, ghost len: nat)
      requires Storage() && i0 < maxSize && len < maxSize
      requires forall p :: 0 <= p < len ==> Used(slots[At(maxSize, i0, p)])
      requires !Used(slots[At(maxSize, i0, len)])
      requires elt < Pow2(elemBits) && !IsOccupied(elt)
      modifies this, table
      ensures Storage() && home == old(home) && entries == old(entries)
      ensures slots == ShiftInsert(old(slots), i0, elt, len)
    {
      ghost var s0, n := slots, maxSize;
      var s: nat := i0;
      var curr: nat := elt;
      var empty := false;
      ghost var p: nat := 0;
      while !empty
        invariant Storage() && home == old(home) && entries == old(entries)
        invariant p <= len + 1 && (empty <==> p == len + 1)
        invariant p <= len ==> s == At(n, i0, p)
        invariant Pushed(slots, s0, i0, elt, len, p)
        invariant p <= len ==> Carried(curr, s0, i0, elt, p) && curr < Pow2(elemBits)
        decreases len + 1 - p
      {
        var prev, carry := PushStep(s, curr, s0, i0, elt, len, p);
        empty := IsEmptyElement(prev);
        if p < len {
          AtSucc(n, i0, p);
        }
        curr := carry;
        s := Incr(s);
        p := p + 1;
      }
      PushedDone(slots, s0, i0, elt, len);
    }

    /** One round of insert_into's loop at offset p from i0: slot s takes what was carried, and its old value moves on. */
    method PushStep(s: nat, curr: nat, ghost s0: seq<nat>, ghost i0: nat, ghost elt: nat, ghost len: nat, ghost p: nat)
      returns (prev: nat, carry: nat)
      requires Storage() && |s0| == maxSize && i0 < maxSize && p <= len < maxSize && s == At(maxSize, i0, p)
      requires Pushed(slots, s0, i0, elt, len, p) && !IsOccupied(elt)
      requires Carried(curr, s0, i0, elt, p) && curr < Pow2(elemBits)
      requires p < len ==> Used(s0[s])
      modifies this, table
      ensures Storage() && home == old(home) && entries == old(entries)
      ensures prev == s0[s] && carry == InsertCarry(prev)
      ensures Pushed(slots, s0, i0, elt, len, p + 1)
      ensures p < len ==> Carried(carry, s0, i0, elt, p + 1) && carry < Pow2(elemBits)
    {
      assert Off(maxSize, i0, s) == p;
      prev := GetElem(s);
      InsertStep(s0, i0, elt, len, p, curr, rbits);
      var written: nat;
      written, carry := StepValues(curr, prev);
      PushedStep(slots, s0, i0, elt, len, p);
      FieldOfSmall(written, elemBits);
      SetElem(s, written);
    }

    /**
     * qf_insert (qf.h:51-57): file the fingerprint of `hash` under its
     * quotient.  Refused only when the filter already holds max_size
     * remainders; a fingerprint already present is left as it is.
     */
    method Insert(hash: u64) returns (ok: bool)
      requires Valid()
      modifies this, table
      ensures Valid()
      ensures ok <==> old(entries) < maxSize
      ensures ok ==> Stored() == old(Stored()) + {Key(hash)}
      ensures ok ==> entries == old(entries) + (if Key(hash) in old(Stored()) then 0 else 1)
      ensures !ok || Key(hash) in old(Stored()) ==>
                slots == old(slots) && home == old(home) && entries == old(entries) && table[..] == old(table[..])
    {
      if entries >= maxSize {
        return false;
      }
      CountFree(slots);
      var key := Key(hash);
      var fq: nat, fr: nat := key.0, key.1;
      var tfq: nat := GetElem(fq);
      EntryFits(rbits, fr);
      var entry: nat := EntryAsWritten(fr);
      if IsEmptyElement(tfq) {
        // the canonical slot is free: the remainder goes straight in
        ghost var s0, h0 := slots, home;
        SlotBound(SetOccupied(entry), rbits);
        FieldOfSmall(SetOccupied(entry), elemBits);
        SetElem(fq, SetOccupied(entry));
        home := home[fq := fq];
        entries := entries + 1;
        FillEmpty(s0, h0, fq, fr, slots, home);
        return true;
      }
      if !IsOccupied(tfq) {
        InsertNewRun(fq, fr, tfq, entry);
      } else {
        var found := InsertIntoRun(fq, fr, entry);
      }
      ok := true;
    }

    /**
     * qf_insert when fq holds a remainder of another run but no run of its
     * own: fq is marked occupied and fr starts fq's run where
     * find_run_index says it belongs.
     */
    method InsertNewRun(fq: nat, fr: nat, tfq: nat, entry: nat)
      requires Valid() && HasFree(slots) && fq < maxSize && fr < Pow2(rbits)
      requires tfq == slots[fq] && tfq < Pow2(elemBits) && Used(tfq) && !IsOccupied(tfq) && entry == Entry(fr)
      modifies this, table
      ensures Valid()
      ensures (fq, fr) !in old(Stored()) && Stored() == old(Stored()) + {(fq, fr)}
      ensures entries == old(entries) + 1
    {
      ghost var s0 := slots;
      SlotBound(tfq, rbits);
      SlotBound(SetOccupied(tfq), rbits);
      FieldOfSmall(SetOccupied(tfq), elemBits);
      SetElem(fq, SetOccupied(tfq));
      MarkPending(s0, home, fq, slots);
      var start: nat;
      ghost var c: nat;
      start, c := FindRunIndex(fq, fq);
      var elt: nat := entry;
      if start != fq {
        elt := SetShifted(elt);
      }
      SetupNewRun(slots, home, c, fq, start, fr, elt);
      Place(start, false, elt, fq, fq, fr);
    }

    /**
     * qf_insert when fq already has a run: scan the run for fr; when it is
     * there, nothing changes; otherwise fr goes in before the first larger
     * remainder, or after the run's last one.
     */
    method InsertIntoRun(fq: nat, fr: nat, entry: nat) returns (found: bool)
      requires Valid() && HasFree(slots) && fq < maxSize && fr < Pow2(rbits)
      requires IsOccupied(slots[fq]) && entry == Entry(fr)
      modifies this, table
      ensures Valid()
      ensures found <==> (fq, fr) in old(Stored())
      ensures found ==> slots == old(slots) && home == old(home) && entries == old(entries) && table[..] == old(table[..])
      ensures !found ==> Stored() == old(Stored()) + {(fq, fr)} && entries == old(entries) + 1
    {
      var start: nat;
      ghost var c: nat;
      start, c := FindRunIndex(fq, -1);
      ghost var n := maxSize;
      var s: nat, greater: bool;
      ghost var k: nat;
      s, found, greater, k := ScanRun(fq, fr, start, c);
      if found {
        SearchFound(slots, home, -1, c, fq, start, k, fr);
        return;
      }
      ghost var last := s;
      if !greater {
        s := Incr(s);
      }
      var markHead := false;
      var elt: nat := entry;
      if s == start {
        markHead := true;
      } else {
        elt := SetContinuation(elt);
      }
      if s != fq {
        elt := SetShifted(elt);
      }
      ghost var s1, h1 := slots, home;
      ghost var head := if markHead then SetContinuation(s1[s]) else s1[s];
      if greater {
        SetupInRun(s1, h1, c, fq, start, k, fr, head, elt);
      } else {
        SetupAfterRun(s1, h1, c, fq, start, k, fr, elt);
      }
      Place(s, markHead, elt, -1, fq, fr);
      found := false;
    }

    /**
     * Put the new slot word `elt` for (fq, fr) into slot i0, where it
     * belongs, marking the old occupant a continuation when `markHead`.
     */
    method Place(i0: nat, markHead: bool, elt: nat, ghost pending: int, ghost fq: nat, ghost fr: nat)
      requires Storage() && i0 < maxSize && HasFree(slots) && fr < Pow2(rbits) && entries == CountUsed(slots)
      requires markHead ==> Used(slots[i0])
      requires InsertSetup(slots, home, pending, i0, FreeDist(slots, i0), fq, fr,
                           if markHead then SetContinuation(slots[i0]) else slots[i0], elt)
      modifies this, table
      ensures Valid()
      ensures Stored() == old(Stored()) + {(fq, fr)} && entries == old(entries) + 1
    {
      ghost var s1, h1, len := slots, home, FreeDist(slots, i0);
      ghost var head := if markHead then SetContinuation(s1[i0]) else s1[i0];
      CascadeReady(s1, h1, pending, i0, len, fq, fr, head, elt);
      SlotBound(elt, rbits);
      InsertAt(i0, markHead, elt, head, len, fq);
      Cascaded(s1, h1, pending, i0, len, fq, fr, head, elt, slots, home);
    }

    /**
     * The scan in qf_insert of fq's run, from its first slot `start`:
     * it stops at fr, at the first larger remainder, or at the run's last slot.
     */
    method ScanRun(fq: nat, fr: nat, start: nat, ghost c: nat) returns (s: nat, found: bool, greater: bool, ghost k: nat)
      requires Storage() && fq < maxSize && RunLocated(slots, home, -1, c, fq, start)
      ensures Searching(slots, home, -1, c, fq, start, k, fr) && s == At(maxSize, c, k)
      ensures found ==> GetRemainder(slots[s]) == fr
      ensures !found && greater ==> GetRemainder(slots[s]) > fr
      ensures !found && !greater ==> GetRemainder(slots[s]) < fr && !IsContinuation(slots[Succ(maxSize, s)])
    {
      ghost var n := maxSize;
      SearchStart(slots, home, -1, c, fq, start, fr);
      s, k := start, Off(n, c, start);
      while true
        invariant Searching(slots, home, -1, c, fq, start, k, fr) && s == At(n, c, k)
        decreases n - k
      {
        var rem := GetRemainder(GetElem(s));
        if rem == fr {
          return s, true, false, k;
        } else if rem > fr {
          return s, false, true, k;
        }
        var next: nat := Incr(s);
        if !IsContinuation(GetElem(next)) {
          return s, false, false, k;
        }
        SearchAdvance(slots, home, -1, c, fq, start, k, fr);
        s, k := next, k + 1;
      }
    }

    /**
     * qf_may_contain (qf.h:59-62): true exactly when the fingerprint of
     * `hash` is stored; a hash is "maybe contained" when another hash with
     * the same low q + r bits was inserted.
     */
    method MayContain(hash: u64) returns (found: bool)
      requires Valid()
      ensures found <==> Key(hash) in Stored()
    {
      var key := Key(hash);
      var fq: nat, fr: nat := key.0, key.1;
      var tfq := GetElem(fq);
      if !IsOccupied(tfq) {
        NotOccupied(slots, home, fq, fr);
        return false;
      }
      var start: nat;
      ghost var c: nat;
      start, c := FindRunIndex(fq, -1);
      var s: nat, greater: bool;
      ghost var k: nat;
      s, found, greater, k := ScanRun(fq, fr, start, c);
      if found {
        SearchFound(slots, home, -1, c, fq, start, k, fr);
      } else if greater {
        SearchPassed(slots, home, -1, c, fq, start, k, fr);
      } else {
        SearchEnded(slots, home, -1, c, fq, start, k, fr);
      }
    }

    /**
     * The end of qf_insert: when the new remainder takes the place of the
     * old run head, that head becomes a continuation; then insert_into
     * shifts the stretch up to the first free slot and the count grows by one.
     */
    method InsertAt(i0: nat, markHead: bool, elt: nat, ghost head: nat, ghost len: nat, ghost fq: nat)
      requires Storage() && i0 < maxSize && len < maxSize
      requires head == if markHead then SetContinuation(slots[i0]) else slots[i0]
      requires forall p :: 0 <= p < len ==> Used(slots[i0 := head][At(maxSize, i0, p)])
      requires !Used(slots[i0 := head][At(maxSize, i0, len)])
      requires elt < Pow2(elemBits) && !IsOccupied(elt)
      modifies this, table
      ensures Storage() && |home| == |slots|
      ensures slots == ShiftInsert(old(slots)[i0 := head], i0, elt, len)
      ensures home == ShiftHome(old(home), i0, fq, len) && entries == old(entries) + 1
    {
      ghost var s0 := slots;
      if markHead {
        var oldHead: nat := GetElem(i0);
        SlotBound(oldHead, rbits);
        SlotBound(SetContinuation(oldHead), rbits);
        FieldOfSmall(SetContinuation(oldHead), elemBits);
        SetElem(i0, SetContinuation(oldHead));
      } else {
        assert s0[i0 := head] == s0;
      }
      InsertInto(i0, elt, len);
      home := ShiftHome(home, i0, fq, len);
      entries := entries + 1;
    }

    /**
     * qf_remove (qf.h:64-78): take the fingerprint of `hash` out of the
     * filter.  False, with nothing changed, when `hash` has bits set above
     * the low q + r; otherwise true, whether or not the fingerprint was there.
     */
    method Remove(hash: u64) returns (ok: bool)
      requires Valid()
      modifies this, table
      ensures Valid()
      ensures ok <==> hash < Pow2(qbits + rbits)
      ensures ok ==> Stored() == old(Stored()) - {Key(hash)}
      ensures ok ==> entries == old(entries) - (if Key(hash) in old(Stored()) then 1 else 0)
      ensures !ok || Key(hash) !in old(Stored()) ==>
                slots == old(slots) && home == old(home) && entries == old(entries) && table[..] == old(table[..])
    {
      Pow2Word();
      if HighBits(qbits, rbits, hash) != 0 {
        return false;
      }
      var key := Key(hash);
      var fq: nat, fr: nat := key.0, key.1;
      var tfq := GetElem(fq);
      ok := true;
      if !IsOccupied(tfq) || entries == 0 {
        if !IsOccupied(tfq) {
          NotOccupied(slots, home, fq, fr);
        } else {
          NothingCounted(slots, home);
        }
        return;
      }
      RemoveFromRun(fq, fr, tfq);
    }

    /** qf_remove when fq has a run: scan it for fr, and take fr out when it is there. */
    method RemoveFromRun(fq: nat, fr: nat, tfq: nat)
      requires Valid() && fq < maxSize && tfq == slots[fq] && IsOccupied(tfq)
      modifies this, table
      ensures Valid()
      ensures Stored() == old(Stored()) - {(fq, fr)}
      ensures entries == old(entries) - (if (fq, fr) in old(Stored()) then 1 else 0)
      ensures (fq, fr) !in old(Stored()) ==>
                slots == old(slots) && home == old(home) && entries == old(entries) && table[..] == old(table[..])
    {
      var start: nat;
      ghost var c: nat;
      start, c := FindRunIndex(fq, -1);
      var s: nat, found: bool, greater: bool;
      ghost var k: nat;
      s, found, greater, k := ScanRun(fq, fr, start, c);
      if !found {
        if greater {
          SearchPassed(slots, home, -1, c, fq, start, k, fr);
        } else {
          SearchEnded(slots, home, -1, c, fq, start, k, fr);
        }
        return;
      }
      RemoveStart(slots, home, c, fq, start, k, fr);
      RemoveAt(fq, fr, s, tfq, c);
    }

    /**
     * qf_remove once fr has been found in slot i0 of fq's run: clear fq's
     * occupied flag when fr is its run's only remainder, let delete_entry
     * close the gap, and make the remainder that took i0 the run's head
     * when the removed one was.
     */
    method RemoveAt(fq: nat, fr: nat, i0: nat, tfq: nat, ghost c: nat)
      requires Valid() && RemoveSetup(slots, home, c, fq, fr, i0) && tfq == slots[fq]
      modifies this, table
      ensures Valid()
      ensures (fq, fr) in old(Stored()) && Stored() == old(Stored()) - {(fq, fr)}
      ensures entries + 1 == old(entries)
    {
      ghost var s0, h0 := slots, home;
      var kill := if i0 == fq then tfq else GetElem(i0);
      var replaceRunStart := IsRunStart(kill);
      ClearIfAlone(fq, i0, tfq, kill);
      ghost var len := WalkLen(slots, i0);
      DeleteEntry(i0, fq, s0, c, fr, len);
      if replaceRunStart {
        FixRunHead(fq, i0);
      }
      assert slots == AfterDelete(s0, h0, fq, i0, len);
      home := DeleteHome(h0, i0, len);
      RemoveDone(s0, h0, c, fq, fr, i0, len, slots, home);
      entries := entries - 1;
    }

    /** qf_remove, before delete_entry: a run about to lose its only remainder loses fq's occupied flag. */
    method ClearIfAlone(fq: nat, i0: nat, tfq: nat, kill: nat)
      requires Storage() && fq < maxSize && i0 < maxSize && tfq == slots[fq] && kill == slots[i0]
      modifies this, table
      ensures Storage() && home == old(home) && entries == old(entries)
      ensures slots == Cleared(old(slots), fq, i0)
    {
      if IsRunStart(kill) {
        var next := GetElem(Incr(i0));
        if !IsContinuation(next) {
          var cleared := ClrOccupied(tfq);
          assert GetElem(fq) == tfq;
          SlotBound(tfq, rbits);
          SlotBound(cleared, rbits);
          FieldOfSmall(cleared, elemBits);
          SetElem(fq, cleared);
        }
      }
    }

    /** qf_remove, after delete_entry: the remainder now in i0 begins the run, unshifted when i0 is fq. */
    method FixRunHead(fq: nat, i0: nat)
      requires Storage() && i0 < maxSize
      modifies this, table
      ensures Storage() && home == old(home) && entries == old(entries)
      ensures slots == old(slots)[i0 := RunStartFix(old(slots)[i0], i0 == fq)]
    {
      var next := GetElem(i0);
      var updated := next;
      if IsContinuation(next) {
        updated := ClrContinuation(next);
      }
      if i0 == fq && IsRunStart(updated) {
        updated := ClrShifted(updated);
      }
      if updated != next {
        SlotBound(next, rbits);
        SlotBound(updated, rbits);
        FieldOfSmall(updated, elemBits);
        SetElem(i0, updated);
      } else {
        assert slots == slots[i0 := updated];
      }
    }

    /**
     * delete_entry (qf.h:171): from slot i0, every remainder up to the next
     * empty slot or cluster start moves one slot back, keeping the occupied
     * flag of the slot it lands in; the last slot is emptied.  `quot`
     * follows the canonical slot of the remainder being moved.
     */
    method DeleteEntry(i0: nat, quot0: nat, ghost s0: seq<nat>, ghost c: nat, ghost fr: nat, ghost len: nat)
      requires Storage() && RemoveSetup(s0, home, c, quot0, fr, i0)
      requires slots == Cleared(s0, quot0, i0) && len == WalkLen(slots, i0)
      modifies this, table
      ensures Storage() && home == old(home) && entries == old(entries)
      ensures slots == ShiftDelete(old(slots), home, i0, len)
    {
      ghost var s1, n := slots, maxSize;
      WalkFacts(s0, home, c, quot0, fr, i0);
      var s: nat := i0;
      var curr := GetElem(s);
      var sp := Incr(s);
      var quot: nat := quot0;
      ghost var p: nat := 0;
      while true
        invariant Storage() && home == old(home) && entries == old(entries)
        invariant p <= len && s == At(n, i0, p) && sp == Succ(n, s)
        invariant curr == s1[s] && quot == home[s]
        invariant Slid(slots, s1, home, i0, len, p)
        decreases len - p
      {
        var next := GetElem(sp);
        var currOccupied := IsOccupied(curr);
        WalkStop(slots, s1, home, i0, len, p, sp);
        if IsEmptyElement(next) || IsClusterStart(next) || sp == i0 {
          FieldOfZero(0, elemBits);
          SlidDone(slots, s1, home, i0, len);
          SetElem(s, 0);
          return;
        }
        StepFacts(s0, home, c, quot0, fr, i0, len, p);
        quot := ShiftStep(s, sp, next, currOccupied, quot, s1, i0, len, p);
        s, sp, curr, p := sp, Incr(sp), next, p + 1;
      }
    }

    /** One round of delete_entry's loop at offset p < len: slot s takes the remainder of slot sp. */
    method ShiftStep(s: nat, sp: nat, next: nat, currOccupied: bool, quot: nat,
                     ghost s1: seq<nat>, ghost i0: nat, ghost len: nat, ghost p: nat)
      returns (quot': nat)
      requires Storage() && |s1| == maxSize && i0 < maxSize
      requires p < len && p + 1 < maxSize && s == At(maxSize, i0, p) && sp == At(maxSize, i0, p + 1)
      requires QuotFacts(s1, home, i0, len, p)
      requires Slid(slots, s1, home, i0, len, p) && next == s1[sp] && next < Pow2(elemBits)
      requires currOccupied == IsOccupied(s1[s]) && quot == home[s]
      modifies this, table
      ensures Storage() && home == old(home) && entries == old(entries)
      ensures Slid(slots, s1, home, i0, len, p + 1)
      ensures quot' == home[sp]
    {
      ghost var n := maxSize;
      AtSucc(n, i0, p);
      var updated := next;
      quot' := quot;
      if IsRunStart(next) {
        SlidOccupancy(slots, s1, home, i0, len, p);
        quot' := NextOccupied(quot, home[sp]);
        if currOccupied && quot' == s {
          updated := ClrShifted(next);
        }
      }
      var written := if currOccupied then SetOccupied(updated) else ClrOccupied(updated);
      assert written == Slide(s1, home, i0, len, s);
      SlotBound(next, rbits);
      SlotBound(written, rbits);
      FieldOfSmall(written, elemBits);
      SlidStep(slots, s1, home, i0, len, p);
      SetElem(s, written);
    }

    /** The do-while in delete_entry: step on from quot to the next slot marked occupied. */
    method NextOccupied(quot: nat, ghost target: nat) returns (q: nat)
      requires Storage() && quot < maxSize && target < maxSize
      requires 0 < Off(maxSize, quot, target) && IsOccupied(slots[target])
      requires forall k :: 0 < k < Off(maxSize, quot, target) ==> !IsOccupied(slots[At(maxSize, quot, k)])
      ensures q == target
    {
      ghost var n, d := maxSize, Off(maxSize, quot, target);
      AtOff(n, quot, target);
      AtSucc(n, quot, 0);
      q := Incr(quot);
      ghost var k: nat := 1;
      while !IsOccupied(GetElem(q))
        invariant 0 < k <= d && q == At(n, quot, k)
        decreases d - k
      {
        AtSucc(n, quot, k);
        q := Incr(q);
        k := k + 1;
      }
    }

    /** qf_clear (qf.h:88-91): every slot empty, no fingerprints, no entries. */
    method Clear()
      requires Storage()
      modifies this, table
      ensures Valid() && Stored() == {} && entries == 0
    {
      entries := 0;
      forall k | 0 <= k < table.Length {
        table[k] := 0;
      }
      slots := Zeros(maxSize);
      home := Zeros(maxSize);
      DecodesZero(table[..], elemBits, maxSize);
      EmptyTable(maxSize);
    }
  }

  /**
   * struct qf_iterator (qf.h:32-36): a cursor `index` round the table, the
   * canonical slot `quotient` of the run it is in, and the number `visited`
   * of fingerprints handed out.  It starts at the cluster start `start` and
   * has passed the first k slots from there, seeing the fingerprints `seen`.
   */
  class Iterator {
    var index: nat
    var quotient: nat
    var visited: nat
    ghost var start: nat
    ghost var k: nat
    ghost var seen: set<(nat, nat)>

    constructor ()
      ensures seen == {}
    {
      seen := {};
    }

    /** The cursor is where it claims to be in qf's table; each method also requires qf.Valid(), which it leaves alone. */
    ghost predicate Valid(qf: Filter)
      reads this, qf
    {
      Cursor(qf.slots, qf.home, qf.entries, start, k, visited, seen, index, quotient)
    }

    /** qfi_start (qf.h:105-108): position the cursor on the first cluster start, or mark the iteration done. */
    method Start(qf: Filter)
      requires qf.Valid()
      modifies this
      ensures Valid(qf) && seen == {}
      ensures Done(qf) <==> qf.Stored() == {}
    {
      visited := qf.entries;
      start, k, seen := 0, 0, {};
      if qf.entries == 0 {
        NothingCounted(qf.slots, qf.home);
        CursorStart(qf.slots, qf.home, qf.entries, 0, index, quotient);
        return;
      }
      ghost var y := SomeUsed(qf.slots, qf.maxSize);
      assert (qf.home[y], GetRemainder(qf.slots[y])) in qf.Stored();
      ghost var c0 := ClusterOf(qf.slots, qf.home, y);
      var st: nat := 0;
      while st < qf.maxSize && !IsClusterStart(qf.GetElem(st))
        invariant st <= c0
      {
        st := st + 1;
      }
      visited := 0;
      index := st;
      start := st;
      CursorStart(qf.slots, qf.home, qf.entries, st, index, quotient);
    }

    /** qfi_done (qf.h:110-113): true exactly when every stored fingerprint has been handed out. */
    function Done(qf: Filter): (d: bool)
      reads this, qf, qf.table
      requires qf.Valid() && Valid(qf)
      ensures d <==> seen == qf.Stored()
      ensures !d ==> visited < qf.entries
    {
      if qf.entries == visited then
        CursorDone(qf.slots, qf.home, qf.entries, start, k, visited, seen, index, quotient);
        true
      else
        CursorPending(qf.slots, qf.home, qf.entries, start, k, visited, seen, index, quotient);
        false
    }

    /**
     * qfi_next (qf.h:115-120): step on to the next slot holding a remainder
     * and return its (q+r)-bit fingerprint, quotient above remainder.  Each
     * stored fingerprint comes out once.
     */
    method Next(qf: Filter) returns (hash: nat)
      requires qf.Valid() && Valid(qf) && !Done(qf)
      modifies this
      ensures Valid(qf) && visited == old(visited) + 1
      ensures hash < Pow2(qf.qbits + qf.rbits)
      ensures qf.Key(hash) in qf.Stored() && qf.Key(hash) !in old(seen)
      ensures seen == old(seen) + {qf.Key(hash)}
    {
      while !Done(qf)
        invariant Valid(qf) && visited == old(visited) && seen == old(seen)
        decreases qf.maxSize - k
      {
        var elt := qf.GetElem(index);
        var quot := NewQuotient(qf, elt);
        if !IsEmptyElement(elt) {
          Take(qf, elt, quot);
          var rem := GetRemainder(elt);
          SplitJoin(qf.qbits, qf.rbits, quot, rem);
          hash := Join(qf.rbits, quot, rem);
          return;
        }
        Skip(qf, quot);
      }
      assert false;
    }

    /** The end of a round of qfi_next's loop over an empty slot: step on, with the quotient brought up to date. */
    method Skip(qf: Filter, quot: nat)
      requires qf.Valid() && Valid(qf) && !Done(qf) && !Used(qf.slots[index])
      modifies this
      ensures Valid(qf) && k == old(k) + 1 && visited == old(visited) && seen == old(seen)
    {
      var next := qf.Incr(index);
      CursorSkip(qf.slots, qf.home, qf.entries, start, k, visited, seen, index, quotient, quot, next);
      quotient, index, k := quot, next, k + 1;
    }

    /**
     * The end of a round of qfi_next's loop over a slot holding a remainder:
     * step on, and count the fingerprint (quotient, remainder) as handed out;
     * it is stored and new.
     */
    method Take(qf: Filter, elt: nat, quot: nat)
      requires qf.Valid() && Valid(qf) && !Done(qf) && elt == qf.slots[index] && Used(elt)
      requires quot == Quot(qf.slots, qf.home, index, quotient)
      modifies this
      ensures Valid(qf) && k == old(k) + 1 && visited == old(visited) + 1
      ensures quot < Pow2(qf.qbits) && GetRemainder(elt) < Pow2(qf.rbits)
      ensures (quot, GetRemainder(elt)) in qf.Stored() && (quot, GetRemainder(elt)) !in old(seen)
      ensures seen == old(seen) + {(quot, GetRemainder(elt))}
    {
      assert qf.Storage() && qf.GetElem(index) == elt;
      SlotBound(elt, qf.rbits);
      var next := qf.Incr(index);
      ghost var fp := (quot, GetRemainder(elt));
      CursorTake(qf.slots, qf.home, qf.entries, start, k, visited, seen, index, quotient, quot, fp, next);
      quotient, index, k, visited, seen := quot, next, k + 1, visited + 1, seen + {fp};
    }

    /** The quotient qfi_next files the slot at `index` under: the slot itself at a cluster start, the next occupied slot at a run start, the current one otherwise. */
    method NewQuotient(qf: Filter, elt: nat) returns (quot: nat)
      requires qf.Valid() && Valid(qf) && !Done(qf) && elt == qf.slots[index]
      ensures quot == Quot(qf.slots, qf.home, index, quotient)
    {
      quot := quotient;
      if IsClusterStart(elt) {
        quot := index;
      } else if IsRunStart(elt) {
        CursorRunStart(qf.slots, qf.home, qf.entries, start, k, visited, seen, index, quotient);
        quot := qf.NextOccupied(quotient, qf.home[index]);
      }
    }
  }

  /**
   * qf_merge (qf.h:80-86): a new filter with one more quotient bit than the
   * larger input and the wider remainder, holding every fingerprint of both,
   * or none when those parameters are refused.
   */
  method Merge(qf1: Filter, qf2: Filter) returns (qfout: Filter?)
    requires qf1.Valid() && qf2.Valid()
    ensures var q, r := 1 + Max(qf1.qbits, qf2.qbits), Max(qf1.rbits, qf2.rbits);
      qfout == null <==> !InitAccepts(q, r)
    ensures qfout != null ==> fresh(qfout) && qfout.Valid()
    ensures qfout != null ==> qfout.Values() == qf1.Values() + qf2.Values()
  {
    var q, r := 1 + Max(qf1.qbits, qf2.qbits), Max(qf1.rbits, qf2.rbits);
    qfout := Filter.Init(q, r);
    if qfout == null {
      return;
    }
    Pow2Mono(qf1.qbits, q - 1);
    Pow2Mono(qf2.qbits, q - 1);
    assert Pow2(q) == 2 * Pow2(q - 1);
    CopyAll(qf1, qfout);
    CopyAll(qf2, qfout);
  }

  function Max(a: nat, b: nat): nat
  {
    if a < b then b else a
  }

  /** Fingerprints given as (quotient, remainder) pairs, joined into numbers. */
  ghost function ValuesOf(r: nat, fps: set<(nat, nat)>): set<nat>
  {
    set x | x in fps :: Join(r, x.0, x.1)
  }

  lemma ValuesAdd(r: nat, fps: set<(nat, nat)>, x: (nat, nat))
    ensures ValuesOf(r, fps + {x}) == ValuesOf(r, fps) + {Join(r, x.0, x.1)}
  {
  }

  /** A hash below 2^(q+r) is the join of the quotient and remainder it is filed under. */
  lemma JoinKey(qf: Filter, hash: nat)
    requires hash < Pow2(qf.qbits + qf.rbits)
    ensures Join(qf.rbits, qf.Key(hash).0, qf.Key(hash).1) == hash
  {
    FpIsJoin(qf.qbits, qf.rbits, hash);
    FpIdentity(qf.qbits, qf.rbits, hash);
  }

  /** One of qf_merge's loops: insert every fingerprint qf hands out into qfout, which has room for them all. */
  method CopyAll(qf: Filter, qfout: Filter)
    requires qf.Valid() && qfout.Valid() && qf != qfout && qf.table != qfout.table
    requires qf.qbits + qf.rbits <= qfout.qbits + qfout.rbits <= WORD
    requires qfout.entries + qf.maxSize <= qfout.maxSize
    modifies qfout, qfout.table
    ensures qfout.Valid() && qfout.entries <= old(qfout.entries) + qf.maxSize
    ensures qfout.Values() == old(qfout.Values()) + qf.Values()
  {
    var it := new Iterator();
    it.Start(qf);
    BelowAtMost(qf.slots, qf.maxSize);
    while !it.Done(qf)
      invariant it.Valid(qf) && qfout.Valid()
      invariant qfout.entries <= old(qfout.entries) + it.visited
      invariant qfout.Values() == old(qfout.Values()) + ValuesOf(qf.rbits, it.seen)
      decreases qf.entries - it.visited
    {
      var hash := CopyOne(it, qf, qfout);
    }
  }

  /** One round of that loop: the next fingerprint qf hands out, inserted into qfout. */
  method CopyOne(it: Iterator, qf: Filter, qfout: Filter) returns (hash: nat)
    requires qf.Valid() && it.Valid(qf) && !it.Done(qf) && qfout.Valid()
    requires qf != qfout && qf.table != qfout.table
    requires qf.qbits + qf.rbits <= qfout.qbits + qfout.rbits <= WORD
    requires qfout.entries < qfout.maxSize
    modifies it, qfout, qfout.table
    ensures it.Valid(qf) && it.visited == old(it.visited) + 1
    ensures qfout.Valid() && qfout.entries <= old(qfout.entries) + 1
    ensures qfout.Values() == old(qfout.Values()) + {hash}
    ensures ValuesOf(qf.rbits, it.seen) == ValuesOf(qf.rbits, old(it.seen)) + {hash}
  {
    ghost var before, seen0 := qfout.Stored(), it.seen;
    hash := it.Next(qf);
    Pow2Below(hash, qf.qbits + qf.rbits, qfout.qbits + qfout.rbits);
    WordBelow(hash, qfout.qbits + qfout.rbits);
    JoinKey(qf, hash);
    JoinKey(qfout, hash);
    var ok := qfout.Insert(hash);
    ValuesAdd(qfout.rbits, before, qfout.Key(hash));
    ValuesAdd(qf.rbits, seen0, qf.Key(hash));
  }
}
