/**
 * The effect of qf_remove (qf.h:64-78) and delete_entry (qf.h:171) on a
 * table.  The remainder fr of fq sits in slot i0.  When it is alone in its
 * run, fq's occupied flag is cleared first.  Then every remainder after i0
 * up to the next empty slot or cluster start (the slots at offsets 1..len
 * from i0) moves one slot back.  Its shifted flag is cleared when it
 * arrives in its canonical slot at the head of its run.  The slot at offset
 * len is emptied.  Occupied flags stay with their slots.  Finally, when the
 * removed remainder began its run, the remainder that took its place begins
 * the run instead.
 */
module Deletion {
  import opened Bits
  import opened Slot
  import opened Layout
  import opened Runs
  import opened Insertion
  import opened Placement

  /** delete_entry stops moving remainders back at an empty slot or at the start of a cluster. */
  predicate EndsShift(e: nat)
  {
    IsEmptyElement(e) || IsClusterStart(e)
  }

  /** A slot delete_entry moves holds a remainder, and begins a run exactly when it is no continuation. */
  lemma Moving(e: nat)
    requires !EndsShift(e)
    ensures Used(e) && (IsRunStart(e) <==> !IsContinuation(e))
  {
  }

  /** The last offset from i0 that delete_entry refills from the slot after it, looking on from offset p. */
  function WalkFrom(s: seq<nat>, i0: nat, p: nat): (d: nat)
    requires i0 < |s| && 0 < p <= |s|
    ensures p - 1 <= d < |s|
    ensures forall q :: p <= q <= d ==> !EndsShift(s[At(|s|, i0, q)])
    ensures d + 1 < |s| ==> EndsShift(s[At(|s|, i0, d + 1)])
    decreases |s| - p
  {
    if p == |s| || EndsShift(s[At(|s|, i0, p)]) then p - 1 else WalkFrom(s, i0, p + 1)
  }

  /** The offset from i0 of the slot delete_entry empties. */
  function WalkLen(s: seq<nat>, i0: nat): (d: nat)
    requires i0 < |s|
    ensures d < |s|
    ensures forall q :: 0 < q <= d ==> !EndsShift(s[At(|s|, i0, q)])
    ensures d + 1 < |s| ==> EndsShift(s[At(|s|, i0, d + 1)])
  {
    WalkFrom(s, i0, 1)
  }

  /** The remainder in i0 is alone in its run: it begins the run and the next slot does not continue it. */
  predicate Emptied(s: seq<nat>, i0: nat)
    requires i0 < |s|
  {
    IsRunStart(s[i0]) && !IsContinuation(s[Succ(|s|, i0)])
  }

  /** The table after qf_remove has cleared fq's occupied flag, if the run of fq is about to become empty. */
  function Cleared(s: seq<nat>, fq: nat, i0: nat): (t: seq<nat>)
    requires fq < |s| && i0 < |s|
    ensures |t| == |s|
  {
    if Emptied(s, i0) then s[fq := ClrOccupied(s[fq])] else s
  }

  /** A remainder moved back: its shifted flag is cleared when it heads its run and arrives in its canonical slot. */
  function Landed(e: nat, atHome: bool): nat
  {
    if IsRunStart(e) && atHome then ClrShifted(e) else e
  }

  /** The value delete_entry leaves in slot j. */
  function Slide(s: seq<nat>, home: seq<nat>, i0: nat, len: nat, j: nat): nat
    requires |home| == |s| && i0 < |s| && j < |s|
  {
    var p := Off(|s|, i0, j);
    if p < len then WithOccupied(Landed(s[Succ(|s|, j)], home[Succ(|s|, j)] == j), s[j])
    else if p == len then 0
    else s[j]
  }

  function ShiftDelete(s: seq<nat>, home: seq<nat>, i0: nat, len: nat): (t: seq<nat>)
    requires |home| == |s| && i0 < |s|
    ensures |t| == |s|
    ensures forall j :: 0 <= j < |s| ==> t[j] == Slide(s, home, i0, len, j)
  {
    seq(|s|, j requires 0 <= j < |s| => Slide(s, home, i0, len, j))
  }

  /** The canonical slot of the remainder in slot j after delete_entry: each moves with its remainder. */
  function SlideHome(home: seq<nat>, i0: nat, len: nat, j: nat): nat
    requires i0 < |home| && j < |home|
  {
    if Off(|home|, i0, j) < len then home[Succ(|home|, j)] else home[j]
  }

  function DeleteHome(home: seq<nat>, i0: nat, len: nat): (h: seq<nat>)
    requires i0 < |home|
    ensures |h| == |home|
    ensures forall j :: 0 <= j < |home| ==> h[j] == SlideHome(home, i0, len, j)
  {
    seq(|home|, j requires 0 <= j < |home| => SlideHome(home, i0, len, j))
  }

  /** qf_remove's repair of slot i0 when the removed remainder began its run: its successor there begins the run. */
  function RunStartFix(e: nat, atHome: bool): nat
  {
    var u := ClrContinuation(e);
    if atHome && IsRunStart(u) then ClrShifted(u) else u
  }

  /** The table after qf_remove has taken out the remainder in i0, with delete_entry refilling len slots. */
  function AfterDelete(s: seq<nat>, home: seq<nat>, fq: nat, i0: nat, len: nat): (t: seq<nat>)
    requires |home| == |s| && fq < |s| && i0 < |s|
    ensures |t| == |s|
  {
    var s2 := ShiftDelete(Cleared(s, fq, i0), home, i0, len);
    if IsRunStart(s[i0]) then s2[i0 := RunStartFix(s2[i0], i0 == fq)] else s2
  }

  /** What qf_remove knows when it has found fr in slot i0 of fq's run, scanning from the cluster start c. */
  ghost predicate RemoveSetup(s: seq<nat>, home: seq<nat>, c: nat, fq: nat, fr: nat, i0: nat)
  {
    && ScanBase(s, home, -1, c, fq)
    && i0 < |s| && Used(s[i0]) && home[i0] == fq && GetRemainder(s[i0]) == fr
    && UsedSpan(s, c, Off(|s|, c, i0))
  }

  /** A run that loses its only remainder: no other slot holds a remainder of fq. */
  lemma KillAlone(s: seq<nat>, home: seq<nat>, c: nat, fq: nat, fr: nat, i0: nat, y: nat)
    requires RemoveSetup(s, home, c, fq, fr, i0) && Emptied(s, i0)
    requires y < |s| && Used(s[y]) && home[y] == fq
    ensures y == i0
  {
    var n, k0 := |s|, Off(|s|, c, i0);
    if y != i0 {
      WitnessWindow(s, home, -1, c, fq, fq, y);
      HomeIsFq(s, home, -1, c, fq, i0);
      AtOff(n, c, y);
      AtOff(n, c, i0);
      var ky := Off(n, c, y);
      if ky > k0 {
        MonoVh(s, home, -1, c, k0 + 1, ky);
        StepVh(s, home, -1, c, k0);
        AtSucc(n, c, k0);
      } else {
        MonoVh(s, home, -1, c, ky, k0 - 1);
        StepVh(s, home, -1, c, k0 - 1);
      }
      assert false;
    }
  }

  /** A run that keeps a remainder: the slot before or after i0 holds another remainder of fq. */
  lemma NotAlone(s: seq<nat>, home: seq<nat>, c: nat, fq: nat, fr: nat, i0: nat) returns (y: nat)
    requires RemoveSetup(s, home, c, fq, fr, i0) && !Emptied(s, i0)
    ensures y < |s| && y != i0 && Used(s[y]) && home[y] == fq
  {
    var n := |s|;
    assert SlotOk(s, home, -1, i0);
    if IsContinuation(s[i0]) {
      y := Pred(n, i0);
    } else {
      y := Succ(n, i0);
      assert Pred(n, y) == i0;
      assert SlotOk(s, home, -1, y);
    }
  }

  /** Clearing fq's flag changes nothing else; away from i0 it changes neither what is used nor where delete_entry stops. */
  lemma ClearedSlot(s: seq<nat>, home: seq<nat>, c: nat, fq: nat, fr: nat, i0: nat, j: nat)
    requires RemoveSetup(s, home, c, fq, fr, i0) && j < |s|
    ensures var s1 := Cleared(s, fq, i0);
      && IsContinuation(s1[j]) == IsContinuation(s[j]) && IsShifted(s1[j]) == IsShifted(s[j])
      && GetRemainder(s1[j]) == GetRemainder(s[j])
      && IsOccupied(s1[j]) == (IsOccupied(s[j]) && !(Emptied(s, i0) && j == fq))
      && (j != i0 ==> Used(s1[j]) == Used(s[j]) && EndsShift(s1[j]) == (!Used(s[j]) || !IsShifted(s[j])))
  {
    assert SlotOk(s, home, -1, j);
    if Emptied(s, i0) && j == fq && j != i0 && home[fq] == fq {
      KillAlone(s, home, c, fq, fr, i0, fq);
    }
  }

  /** The stretch delete_entry moves back: offsets 1..len from i0 hold shifted remainders, the slot after them does not, and the stretch stays in c's cluster. */
  ghost predicate Walk(s: seq<nat>, c: nat, i0: nat, len: nat)
    requires c < |s| && i0 < |s|
  {
    && Off(|s|, c, i0) + len < |s|
    && (forall q :: 0 < q <= len ==> Used(s[At(|s|, i0, q)]) && IsShifted(s[At(|s|, i0, q)]))
    && (!Used(s[Succ(|s|, At(|s|, i0, len))]) || !IsShifted(s[Succ(|s|, At(|s|, i0, len))]))
  }

  lemma WalkFacts(s: seq<nat>, home: seq<nat>, c: nat, fq: nat, fr: nat, i0: nat)
    requires RemoveSetup(s, home, c, fq, fr, i0)
    ensures Walk(s, c, i0, WalkLen(Cleared(s, fq, i0), i0))
  {
    var n, s1 := |s|, Cleared(s, fq, i0);
    var len := WalkLen(s1, i0);
    forall q | 0 < q <= len
      ensures Used(s[At(n, i0, q)]) && IsShifted(s[At(n, i0, q)])
    {
      ClearedSlot(s, home, c, fq, fr, i0, At(n, i0, q));
    }
    var z := Succ(n, At(n, i0, len));
    if len + 1 < n {
      AtSucc(n, i0, len);
      ClearedSlot(s, home, c, fq, fr, i0, z);
    } else {
      // the walk went all the way round: i0 is the only slot not shifted
      var a :| 0 <= a < n && !IsShifted(s[a]);
      if a != i0 {
        AtOff(n, i0, a);
        assert false;
      }
    }
    var k0 := Off(n, c, i0);
    assert SlotOk(s, home, -1, c);
    AtOff(n, c, i0);
    if 0 < k0 {
      // c lies n - k0 steps on from i0
      assert At(n, i0, n - k0) == c;
    }
    if k0 + len >= n {
      assert false;
    }
  }

  /** When fr was alone in its run and in its canonical slot, the next slot ends the walk at once. */
  lemma EmptiedAtHome(s: seq<nat>, home: seq<nat>, c: nat, fq: nat, fr: nat, i0: nat, len: nat)
    requires RemoveSetup(s, home, c, fq, fr, i0) && Walk(s, c, i0, len)
    requires Emptied(s, i0) && i0 == fq
    ensures len == 0
  {
    var n, x := |s|, Succ(|s|, i0);
    assert SlotOk(s, home, -1, x);
    if len > 0 {
      AtSucc(n, i0, 0);
      assert false;
    }
  }

  /** The slot delete_entry empties is the canonical slot of no remainder that is left. */
  lemma VacatedFree(s: seq<nat>, home: seq<nat>, c: nat, fq: nat, fr: nat, i0: nat, len: nat)
    requires RemoveSetup(s, home, c, fq, fr, i0) && Walk(s, c, i0, len)
    ensures !IsOccupied(Cleared(s, fq, i0)[At(|s|, i0, len)])
  {
    var n, v := |s|, At(|s|, i0, len);
    ClearedSlot(s, home, c, fq, fr, i0, v);
    assert SlotOk(s, home, -1, Succ(n, v));
    if IsOccupied(s[v]) && !(Emptied(s, i0) && v == fq) {
      assert SlotOk(s, home, -1, v);
      var y :| 0 <= y < n && Used(s[y]) && home[y] == v;
      if y == v {
        // then v is i0 in its canonical slot, so the run of fq would continue past the end of the walk
        assert false;
      }
      // the slot after v lies on the path from v to y, so it is shifted
      HomePathUsed(s, home, -1, y, 1);
      assert false;
    }
  }

  /** What slot j holds after qf_remove, by its offset p from i0; x is the slot after j. */
  ghost predicate SlotFacts(s: seq<nat>, home: seq<nat>, fq: nat, i0: nat, len: nat, s3: seq<nat>, h3: seq<nat>, j: nat)
    requires |home| == |s| && |s3| == |s| && |h3| == |s| && i0 < |s| && j < |s|
  {
    var p, x := Off(|s|, i0, j), Succ(|s|, j);
    && IsOccupied(s3[j]) == (IsOccupied(s[j]) && !(Emptied(s, i0) && j == fq))
    && (p < len ==>
          && Used(s3[j]) && h3[j] == home[x] && GetRemainder(s3[j]) == GetRemainder(s[x])
          && (IsShifted(s3[j]) <==> home[x] != j)
          && IsContinuation(s3[j]) == (IsContinuation(s[x]) && (0 < p || IsContinuation(s[i0]))))
    && (p == len ==> !Used(s3[j]))
    && (len < p ==>
          && Used(s3[j]) == Used(s[j]) && h3[j] == home[j]
          && IsContinuation(s3[j]) == IsContinuation(s[j]) && IsShifted(s3[j]) == IsShifted(s[j])
          && GetRemainder(s3[j]) == GetRemainder(s[j]))
  }

  /** qf_remove's situation and its outcome s3, h3, slot by slot. */
  ghost predicate DeleteFrame(s: seq<nat>, home: seq<nat>, c: nat, fq: nat, fr: nat, i0: nat, len: nat,
                              s3: seq<nat>, h3: seq<nat>)
  {
    && RemoveSetup(s, home, c, fq, fr, i0)
    && Walk(s, c, i0, len)
    && (Emptied(s, i0) && i0 == fq ==> len == 0)
    && |s3| == |s| && |h3| == |s|
    && forall j :: 0 <= j < |s| ==> SlotFacts(s, home, fq, i0, len, s3, h3, j)
  }

  /** What one step of delete_entry writes, flag by flag. */
  lemma SlideFlags(next: nat, curr: nat, atHome: bool)
    requires !EndsShift(next) && IsShifted(next)
    ensures var w := WithOccupied(Landed(next, atHome), curr);
      && IsOccupied(w) == IsOccupied(curr) && GetRemainder(w) == GetRemainder(next)
      && IsContinuation(w) == IsContinuation(next)
      && (IsShifted(w) <==> IsContinuation(next) || !atHome)
  {
  }

  /** What qf_remove's repair of the run head does, flag by flag. */
  lemma FixFlags(w: nat, atHome: bool)
    ensures var v := RunStartFix(w, atHome);
      && IsOccupied(v) == IsOccupied(w) && GetRemainder(v) == GetRemainder(w) && !IsContinuation(v)
      && (IsShifted(v) <==> IsShifted(w) && !(atHome && (IsOccupied(w) || IsShifted(w))))
  {
  }

  /** The value qf_remove leaves in slot j of the stretch: delete_entry's, repaired at i0 when the removed remainder began its run. */
  function Refill(s: seq<nat>, home: seq<nat>, fq: nat, i0: nat, j: nat): nat
    requires |home| == |s| && fq < |s| && i0 < |s| && j < |s|
  {
    var s1 := Cleared(s, fq, i0);
    var w := WithOccupied(Landed(s1[Succ(|s|, j)], home[Succ(|s|, j)] == j), s1[j]);
    if j == i0 && IsRunStart(s[i0]) then RunStartFix(w, i0 == fq) else w
  }

  /** A slot of the stretch past i0 takes the remainder of the slot after it. */
  lemma SlotMovedOn(s: seq<nat>, home: seq<nat>, c: nat, fq: nat, fr: nat, i0: nat, len: nat, j: nat,
                    s3: seq<nat>, h3: seq<nat>)
    requires RemoveSetup(s, home, c, fq, fr, i0) && Walk(s, c, i0, len)
    requires j < |s| && 0 < Off(|s|, i0, j) < len
    requires |s3| == |s| && |h3| == |s| && s3[j] == Refill(s, home, fq, i0, j) && h3[j] == home[Succ(|s|, j)]
    ensures SlotFacts(s, home, fq, i0, len, s3, h3, j)
  {
    var n, p, x := |s|, Off(|s|, i0, j), Succ(|s|, j);
    var s1 := Cleared(s, fq, i0);
    AtOff(n, i0, j);
    AtSucc(n, i0, p);
    assert Used(s[x]) && IsShifted(s[x]);
    assert Used(s[j]) && IsShifted(s[j]);
    ClearedSlot(s, home, c, fq, fr, i0, j);
    ClearedSlot(s, home, c, fq, fr, i0, x);
    SlideFlags(s1[x], s1[j], home[x] == j);
    assert SlotOk(s, home, -1, x);
    assert SlotOk(s, home, -1, j);
    if Emptied(s, i0) && home[x] == fq {
      KillAlone(s, home, c, fq, fr, i0, x);
    }
  }

  /** Slot i0 takes the remainder of the slot after it, repaired when the removed remainder began its run. */
  lemma SlotMovedHead(s: seq<nat>, home: seq<nat>, c: nat, fq: nat, fr: nat, i0: nat, len: nat,
                      s3: seq<nat>, h3: seq<nat>)
    requires RemoveSetup(s, home, c, fq, fr, i0) && Walk(s, c, i0, len)
    requires Emptied(s, i0) && i0 == fq ==> len == 0
    requires 0 < len
    requires |s3| == |s| && |h3| == |s| && s3[i0] == Refill(s, home, fq, i0, i0) && h3[i0] == home[Succ(|s|, i0)]
    ensures SlotFacts(s, home, fq, i0, len, s3, h3, i0)
  {
    var n, x := |s|, Succ(|s|, i0);
    var s1 := Cleared(s, fq, i0);
    AtSucc(n, i0, 0);
    assert Used(s[x]) && IsShifted(s[x]);
    ClearedSlot(s, home, c, fq, fr, i0, i0);
    ClearedSlot(s, home, c, fq, fr, i0, x);
    var w := WithOccupied(Landed(s1[x], home[x] == i0), s1[i0]);
    SlideFlags(s1[x], s1[i0], home[x] == i0);
    FixFlags(w, i0 == fq);
    EmptyIffNoFlags(s3[i0]);
    assert SlotOk(s, home, -1, x);
    assert SlotOk(s, home, -1, i0);
    if Emptied(s, i0) && home[x] == fq {
      KillAlone(s, home, c, fq, fr, i0, x);
    }
  }
  /** The slot delete_entry empties. */
  lemma SlotVacated(s: seq<nat>, home: seq<nat>, c: nat, fq: nat, fr: nat, i0: nat, len: nat)
    requires RemoveSetup(s, home, c, fq, fr, i0) && Walk(s, c, i0, len)
    ensures SlotFacts(s, home, fq, i0, len, AfterDelete(s, home, fq, i0, len), DeleteHome(home, i0, len), At(|s|, i0, len))
  {
    var n, v := |s|, At(|s|, i0, len);
    VacatedFree(s, home, c, fq, fr, i0, len);
    ClearedSlot(s, home, c, fq, fr, i0, v);
    assert ShiftDelete(Cleared(s, fq, i0), home, i0, len)[v] == 0;
    assert RunStartFix(0, i0 == fq) == 0;
  }

  /** A slot beyond the stretch keeps its remainder. */
  lemma SlotKept(s: seq<nat>, home: seq<nat>, c: nat, fq: nat, fr: nat, i0: nat, len: nat, j: nat)
    requires RemoveSetup(s, home, c, fq, fr, i0) && Walk(s, c, i0, len)
    requires j < |s| && len < Off(|s|, i0, j)
    ensures SlotFacts(s, home, fq, i0, len, AfterDelete(s, home, fq, i0, len), DeleteHome(home, i0, len), j)
  {
    ClearedSlot(s, home, c, fq, fr, i0, j);
  }

  /** The table qf_remove leaves, slot by slot. */
  lemma RemoveFrame(s: seq<nat>, home: seq<nat>, c: nat, fq: nat, fr: nat, i0: nat)
    requires RemoveSetup(s, home, c, fq, fr, i0)
    ensures var len := WalkLen(Cleared(s, fq, i0), i0);
      DeleteFrame(s, home, c, fq, fr, i0, len, AfterDelete(s, home, fq, i0, len), DeleteHome(home, i0, len))
  {
    var n, len := |s|, WalkLen(Cleared(s, fq, i0), i0);
    var s3, h3 := AfterDelete(s, home, fq, i0, len), DeleteHome(home, i0, len);
    WalkFacts(s, home, c, fq, fr, i0);
    if Emptied(s, i0) && i0 == fq {
      EmptiedAtHome(s, home, c, fq, fr, i0, len);
    }
    forall j | 0 <= j < n
      ensures SlotFacts(s, home, fq, i0, len, AfterDelete(s, home, fq, i0, len), DeleteHome(home, i0, len), j)
    {
      var p := Off(n, i0, j);
      if p < len {
        AtOff(n, i0, j);
        assert s3[j] == Refill(s, home, fq, i0, j);
      }
      if p == 0 && p < len {
        SlotMovedHead(s, home, c, fq, fr, i0, len, s3, h3);
      } else if p < len {
        SlotMovedOn(s, home, c, fq, fr, i0, len, j, s3, h3);
      } else if p == len {
        SlotVacated(s, home, c, fq, fr, i0, len);
      } else {
        SlotKept(s, home, c, fq, fr, i0, len, j);
      }
    }
  }

  /** Every remainder left in the table after qf_remove came from a slot other than i0: the slot after it, or its own. */
  lemma SourceOf(s: seq<nat>, home: seq<nat>, c: nat, fq: nat, fr: nat, i0: nat, len: nat,
                 s3: seq<nat>, h3: seq<nat>, j: nat) returns (y: nat)
    requires DeleteFrame(s, home, c, fq, fr, i0, len, s3, h3)
    requires j < |s| && Used(s3[j])
    ensures y < |s| && y != i0 && Used(s[y]) && h3[j] == home[y] && GetRemainder(s3[j]) == GetRemainder(s[y])
    ensures Off(|s|, i0, y) == if Off(|s|, i0, j) < len then Off(|s|, i0, j) + 1 else Off(|s|, i0, j)
  {
    var n, p := |s|, Off(|s|, i0, j);
    assert SlotFacts(s, home, fq, i0, len, s3, h3, j);
    if p < len {
      y := Succ(n, j);
      AtOff(n, i0, j);
      AtSucc(n, i0, p);
      assert Used(s[At(n, i0, p + 1)]);
    } else {
      y := j;
    }
  }

  /** Every remainder of the table other than the removed one is still there after qf_remove. */
  lemma DestOf(s: seq<nat>, home: seq<nat>, c: nat, fq: nat, fr: nat, i0: nat, len: nat,
               s3: seq<nat>, h3: seq<nat>, y: nat) returns (j: nat)
    requires DeleteFrame(s, home, c, fq, fr, i0, len, s3, h3)
    requires y < |s| && y != i0 && Used(s[y])
    ensures j < |s| && Used(s3[j]) && h3[j] == home[y] && GetRemainder(s3[j]) == GetRemainder(s[y])
  {
    var n, p := |s|, Off(|s|, i0, y);
    if p <= len {
      j := Pred(n, y);
      OffPred(n, i0, y);
    } else {
      j := y;
    }
    assert SlotFacts(s, home, fq, i0, len, s3, h3, j);
  }

  lemma ShapeAfterDelete(s: seq<nat>, home: seq<nat>, c: nat, fq: nat, fr: nat, i0: nat, len: nat,
                         s3: seq<nat>, h3: seq<nat>)
    requires DeleteFrame(s, home, c, fq, fr, i0, len, s3, h3)
    ensures Shape(s3, h3)
  {
    forall j | 0 <= j < |s| && Used(s3[j])
      ensures h3[j] < |s|
    {
      var y := SourceOf(s, home, c, fq, fr, i0, len, s3, h3, j);
    }
  }

  /** A canonical slot whose run lost its last remainder is no longer marked occupied. */
  lemma OccupiedAfter(s: seq<nat>, home: seq<nat>, c: nat, fq: nat, fr: nat, i0: nat, len: nat,
                      s3: seq<nat>, h3: seq<nat>, j: nat)
    requires DeleteFrame(s, home, c, fq, fr, i0, len, s3, h3)
    requires j < |s| && IsOccupied(s3[j])
    ensures HasRun(s3, h3, j)
  {
    var n := |s|;
    assert SlotFacts(s, home, fq, i0, len, s3, h3, j);
    assert SlotOk(s, home, -1, j);
    var y :| 0 <= y < n && Used(s[y]) && home[y] == j;
    if y == i0 {
      y := NotAlone(s, home, c, fq, fr, i0);
    }
    var d := DestOf(s, home, c, fq, fr, i0, len, s3, h3, y);
  }

  /** Two remainders left after qf_remove with the same canonical slot came from two different slots. */
  lemma ApartAfterDelete(s: seq<nat>, home: seq<nat>, c: nat, fq: nat, fr: nat, i0: nat, len: nat,
                         s3: seq<nat>, h3: seq<nat>, a: nat, b: nat)
    requires DeleteFrame(s, home, c, fq, fr, i0, len, s3, h3)
    requires a < |s| && b < |s|
    ensures Apart(s3, h3, a, b)
  {
    var n := |s|;
    if a != b && Used(s3[a]) && Used(s3[b]) {
      var ya := SourceOf(s, home, c, fq, fr, i0, len, s3, h3, a);
      var yb := SourceOf(s, home, c, fq, fr, i0, len, s3, h3, b);
      assert SlotFacts(s, home, fq, i0, len, s3, h3, a);
      assert SlotFacts(s, home, fq, i0, len, s3, h3, b);
      AtOff(n, i0, a);
      AtOff(n, i0, b);
      assert ya != yb;
      assert Apart(s, home, ya, yb);
    }
  }

  /** The fingerprints after qf_remove: all of them but (fq, fr). */
  lemma ContentsAfterDelete(s: seq<nat>, home: seq<nat>, c: nat, fq: nat, fr: nat, i0: nat, len: nat,
                            s3: seq<nat>, h3: seq<nat>)
    requires DeleteFrame(s, home, c, fq, fr, i0, len, s3, h3)
    ensures (fq, fr) in Contents(s, home)
    ensures Contents(s3, h3) == Contents(s, home) - {(fq, fr)}
  {
    var n := |s|;
    forall x | x in Contents(s3, h3)
      ensures x in Contents(s, home) - {(fq, fr)}
    {
      var j :| 0 <= j < n && Used(s3[j]) && x == (h3[j], GetRemainder(s3[j]));
      var y := SourceOf(s, home, c, fq, fr, i0, len, s3, h3, j);
      assert Apart(s, home, y, i0);
      assert x == (home[y], GetRemainder(s[y]));
    }
    forall x | x in Contents(s, home) - {(fq, fr)}
      ensures x in Contents(s3, h3)
    {
      var y :| 0 <= y < n && Used(s[y]) && x == (home[y], GetRemainder(s[y]));
      var j := DestOf(s, home, c, fq, fr, i0, len, s3, h3, y);
      assert x == (h3[j], GetRemainder(s3[j]));
    }
    assert (home[i0], GetRemainder(s[i0])) in Contents(s, home);
  }

  /** qf_remove takes exactly one remainder out of the table: the slot delete_entry empties. */
  lemma CountAfterDelete(s: seq<nat>, home: seq<nat>, c: nat, fq: nat, fr: nat, i0: nat, len: nat,
                         s3: seq<nat>, h3: seq<nat>)
    requires DeleteFrame(s, home, c, fq, fr, i0, len, s3, h3)
    ensures CountUsed(s3) + 1 == CountUsed(s)
  {
    var n, v := |s|, At(|s|, i0, len);
    forall j | 0 <= j < n && j != v
      ensures Used(s[j]) == Used(s3[j])
    {
      assert SlotFacts(s, home, fq, i0, len, s3, h3, j);
      AtOff(n, i0, j);
      if 0 < Off(n, i0, j) < len {
        assert Used(s[At(n, i0, Off(n, i0, j))]);
      }
    }
    assert SlotFacts(s, home, fq, i0, len, s3, h3, v);
    if 0 < len {
      assert Used(s[At(n, i0, len)]);
    }
    CountAgree(s, s3, v);
  }

  /** A remainder moved back past i0 keeps its place in its run, displaced one slot less. */
  lemma PlacedAfterOn(s: seq<nat>, home: seq<nat>, c: nat, fq: nat, fr: nat, i0: nat, len: nat,
                      s3: seq<nat>, h3: seq<nat>, j: nat)
    requires DeleteFrame(s, home, c, fq, fr, i0, len, s3, h3) && Shape(s3, h3)
    requires j < |s| && 0 < Off(|s|, i0, j) < len
    ensures Placed(s3, h3, j)
  {
    var n, p, x, pj := |s|, Off(|s|, i0, j), Succ(|s|, j), Pred(|s|, j);
    assert SlotFacts(s, home, fq, i0, len, s3, h3, j);
    AtOff(n, i0, j);
    AtSucc(n, i0, p);
    OffPred(n, i0, j);
    assert SlotFacts(s, home, fq, i0, len, s3, h3, pj);
    assert Used(s[x]) && IsShifted(s[x]);
    assert Used(s[j]) && IsShifted(s[j]);
    assert SlotOk(s, home, -1, x);
    assert SlotOk(s, home, -1, j);
    OffSucc(n, home[x], j);
    OffPred(n, home[j], j);
    assert SlotFacts(s, home, fq, i0, len, s3, h3, home[x]);
    if Emptied(s, i0) && home[x] == fq {
      KillAlone(s, home, c, fq, fr, i0, x);
    }
  }

  /**
   * Around slot i0 when the removed remainder began a run: the remainders
   * either side of it belong to different canonical slots, unless the one
   * after it continues the run.
   */
  lemma HeadNeighbours(s: seq<nat>, home: seq<nat>, c: nat, fq: nat, fr: nat, i0: nat, len: nat)
    requires RemoveSetup(s, home, c, fq, fr, i0) && Walk(s, c, i0, len)
    requires Emptied(s, i0) && i0 == fq ==> len == 0
    requires 0 < len < |s| - 1
    requires !IsContinuation(s[i0]) && !IsContinuation(s[Succ(|s|, i0)]) && home[Succ(|s|, i0)] != i0
    ensures Used(s[Pred(|s|, i0)]) ==> home[Pred(|s|, i0)] != home[Succ(|s|, i0)]
  {
    var n, k0, x, pi := |s|, Off(|s|, c, i0), Succ(|s|, i0), Pred(|s|, i0);
    AtOff(n, c, i0);
    assert SlotOk(s, home, -1, c);
    AtSucc(n, i0, 0);
    if Used(s[pi]) && 0 < k0 {
      AtSucc(n, c, k0 - 1);
      AtSucc(n, c, k0);
      assert Used(s[At(n, i0, 1)]);
      assert UsedSpan(s, c, k0 + 1);
      SkipHome(s, home, c, k0);
    }
  }

  /** The remainder moved into slot i0 begins its run there when the removed one did. */
  lemma PlacedAfterHead(s: seq<nat>, home: seq<nat>, c: nat, fq: nat, fr: nat, i0: nat, len: nat,
                        s3: seq<nat>, h3: seq<nat>)
    requires DeleteFrame(s, home, c, fq, fr, i0, len, s3, h3) && Shape(s3, h3)
    requires 0 < len
    ensures Placed(s3, h3, i0)
  {
    var n, x, pi := |s|, Succ(|s|, i0), Pred(|s|, i0);
    assert SlotFacts(s, home, fq, i0, len, s3, h3, i0);
    AtSucc(n, i0, 0);
    assert Used(s[x]) && IsShifted(s[x]);
    assert SlotOk(s, home, -1, x);
    assert SlotOk(s, home, -1, i0);
    OffSucc(n, home[x], i0);
    assert SlotFacts(s, home, fq, i0, len, s3, h3, home[x]);
    if Emptied(s, i0) && home[x] == fq {
      KillAlone(s, home, c, fq, fr, i0, x);
    }
    if len == n - 1 {
      // the walk went all the way round: i0 was the only unshifted slot, so x continues its run
      assert Succ(n, At(n, i0, len)) == i0;
    } else {
      assert Off(n, i0, pi) == n - 1;
      assert SlotFacts(s, home, fq, i0, len, s3, h3, pi);
      if home[x] != i0 {
        OffPred(n, home[i0], i0);
      }
      if !IsContinuation(s[i0]) && !IsContinuation(s[x]) && home[x] != i0 {
        HeadNeighbours(s, home, c, fq, fr, i0, len);
      }
    }
  }

  /** A remainder past the stretch stays where it was; the first one past it is not shifted. */
  lemma PlacedAfterKept(s: seq<nat>, home: seq<nat>, c: nat, fq: nat, fr: nat, i0: nat, len: nat,
                        s3: seq<nat>, h3: seq<nat>, j: nat)
    requires DeleteFrame(s, home, c, fq, fr, i0, len, s3, h3) && Shape(s3, h3)
    requires j < |s| && len < Off(|s|, i0, j)
    ensures Placed(s3, h3, j)
  {
    var n, p, pj := |s|, Off(|s|, i0, j), Pred(|s|, j);
    assert SlotFacts(s, home, fq, i0, len, s3, h3, j);
    OffPred(n, i0, j);
    AtOff(n, i0, pj);
    assert SlotFacts(s, home, fq, i0, len, s3, h3, pj);
    assert SlotOk(s, home, -1, j);
    if Used(s[j]) {
      assert SlotFacts(s, home, fq, i0, len, s3, h3, home[j]);
      if Emptied(s, i0) && home[j] == fq {
        KillAlone(s, home, c, fq, fr, i0, j);
      }
    }
  }

  /** Removing a remainder and closing the gap keeps the table invariant. */
  lemma DeleteKeepsInv(s: seq<nat>, home: seq<nat>, c: nat, fq: nat, fr: nat, i0: nat, len: nat,
                       s3: seq<nat>, h3: seq<nat>)
    requires DeleteFrame(s, home, c, fq, fr, i0, len, s3, h3)
    ensures Inv(s3, h3, -1)
  {
    var n := |s|;
    ShapeAfterDelete(s, home, c, fq, fr, i0, len, s3, h3);
    forall j | 0 <= j < n
      ensures SlotOk(s3, h3, -1, j)
    {
      var p := Off(n, i0, j);
      assert SlotFacts(s, home, fq, i0, len, s3, h3, j);
      if p == len {
      } else if p == 0 {
        PlacedAfterHead(s, home, c, fq, fr, i0, len, s3, h3);
      } else if p < len {
        PlacedAfterOn(s, home, c, fq, fr, i0, len, s3, h3, j);
      } else {
        PlacedAfterKept(s, home, c, fq, fr, i0, len, s3, h3, j);
      }
      if IsOccupied(s3[j]) {
        OccupiedAfter(s, home, c, fq, fr, i0, len, s3, h3, j);
      }
    }
    forall a, b | 0 <= a < n && 0 <= b < n
      ensures Apart(s3, h3, a, b)
    {
      ApartAfterDelete(s, home, c, fq, fr, i0, len, s3, h3, a, b);
    }
    var v := At(n, i0, len);
    assert SlotFacts(s, home, fq, i0, len, s3, h3, v);
    EmptyIffNoFlags(s3[v]);
  }

  /** The slots from the cluster start to the end of the walk all hold remainders. */
  lemma WalkSpan(s: seq<nat>, home: seq<nat>, c: nat, fq: nat, fr: nat, i0: nat, len: nat)
    requires RemoveSetup(s, home, c, fq, fr, i0) && Walk(s, c, i0, len)
    ensures UsedSpan(s, c, Off(|s|, c, i0) + len)
    ensures forall p :: 0 <= p <= len ==> At(|s|, c, Off(|s|, c, i0) + p) == At(|s|, i0, p)
  {
    var n, k0 := |s|, Off(|s|, c, i0);
    forall p | 0 <= p <= len
      ensures At(n, c, k0 + p) == At(n, i0, p)
    {
      AtShift(n, c, i0, p);
    }
    forall q | 0 <= q <= k0 + len
      ensures Used(s[At(n, c, q)])
    {
      if q > k0 {
        AtShift(n, c, i0, q - k0);
      }
    }
  }

  /**
   * delete_entry's `quot` follows the canonical slot of the remainder it is
   * moving.  When the next remainder x continues the run of the one in j,
   * it has the same canonical slot.  When x begins a run, its canonical
   * slot is the first slot after j's that is marked occupied, which is
   * where the search for the next occupied slot stops.
   */
  lemma QuotStep(s: seq<nat>, home: seq<nat>, c: nat, fq: nat, fr: nat, i0: nat, len: nat, p: nat)
    requires RemoveSetup(s, home, c, fq, fr, i0) && Walk(s, c, i0, len) && p < len
    ensures var n, j, x := |s|, At(|s|, i0, p), At(|s|, i0, p + 1);
      && home[j] < n && home[x] < n
      && (IsContinuation(s[x]) ==> home[x] == home[j])
      && (!IsContinuation(s[x]) ==>
            && 0 < Off(n, home[j], home[x])
            && IsOccupied(Cleared(s, fq, i0)[home[x]])
            && forall q :: 0 < q < Off(n, home[j], home[x]) ==> !IsOccupied(Cleared(s, fq, i0)[At(n, home[j], q)]))
  {
    var n, k0, s1 := |s|, Off(|s|, c, i0), Cleared(s, fq, i0);
    var j, x := At(n, i0, p), At(n, i0, p + 1);
    var kj := k0 + p;
    WalkSpan(s, home, c, fq, fr, i0, len);
    assert At(n, c, kj) == j && At(n, c, kj + 1) == x;
    assert UsedSpan(s, c, kj + 1);
    StepVh(s, home, -1, c, kj);
    if !IsContinuation(s[x]) {
      NextRunHome(s, home, c, kj);
      var hj, hx := home[j], home[x];
      ClearedSlot(s, home, c, fq, fr, i0, hx);
      if Emptied(s, i0) && hx == fq {
        KillAlone(s, home, c, fq, fr, i0, x);
      }
      forall q | 0 < q < Off(n, hj, hx)
        ensures !IsOccupied(s1[At(n, hj, q)])
      {
        ClearedSlot(s, home, c, fq, fr, i0, At(n, hj, q));
      }
    }
  }

  /** The scan of qf_remove found fr in fq's run: the removal can start there. */
  lemma RemoveStart(s: seq<nat>, home: seq<nat>, c: nat, fq: nat, r: nat, k: nat, fr: nat)
    requires Searching(s, home, -1, c, fq, r, k, fr) && GetRemainder(s[At(|s|, c, k)]) == fr
    ensures RemoveSetup(s, home, c, fq, fr, At(|s|, c, k))
  {
    SearchSpan(s, home, -1, c, fq, r, k, fr);
  }

  /** delete_entry after p rounds of its loop: the slots at offsets below p from i0 hold their new values. */
  ghost predicate Slid(t: seq<nat>, s1: seq<nat>, home: seq<nat>, i0: nat, len: nat, p: nat)
    requires |home| == |s1| && i0 < |s1|
  {
    |t| == |s1| && forall j :: 0 <= j < |s1| ==>
      t[j] == if Off(|s1|, i0, j) < p then Slide(s1, home, i0, len, j) else s1[j]
  }

  /** While delete_entry moves remainders, every slot keeps its occupied flag. */
  lemma SlidOccupancy(t: seq<nat>, s1: seq<nat>, home: seq<nat>, i0: nat, len: nat, p: nat)
    requires |home| == |s1| && i0 < |s1| && p <= len && Slid(t, s1, home, i0, len, p)
    ensures forall j :: 0 <= j < |s1| ==> IsOccupied(t[j]) == IsOccupied(s1[j])
  {
  }

  lemma SlidStep(t: seq<nat>, s1: seq<nat>, home: seq<nat>, i0: nat, len: nat, p: nat)
    requires |home| == |s1| && i0 < |s1| && p < |s1| && Slid(t, s1, home, i0, len, p)
    ensures Slid(t[At(|s1|, i0, p) := Slide(s1, home, i0, len, At(|s1|, i0, p))], s1, home, i0, len, p + 1)
  {
  }

  /**
   * delete_entry's loop stops, at an empty slot, a cluster start or back at
   * i0, exactly when it has moved the len remainders after i0; before that,
   * the next slot is the one at offset p + 1 and has not been written yet.
   */
  lemma WalkStop(t: seq<nat>, s1: seq<nat>, home: seq<nat>, i0: nat, len: nat, p: nat, sp: nat)
    requires |home| == |s1| && i0 < |s1| && len == WalkLen(s1, i0) && p <= len
    requires sp == Succ(|s1|, At(|s1|, i0, p)) && Slid(t, s1, home, i0, len, p)
    ensures sp < |t|
    ensures (EndsShift(t[sp]) || sp == i0) <==> p == len
    ensures p < len ==> sp == At(|s1|, i0, p + 1) && t[sp] == s1[sp]
  {
    var n := |s1|;
    if p + 1 < n {
      AtSucc(n, i0, p);
    } else {
      assert sp == i0;
    }
  }

  /** delete_entry's last write empties the slot at offset len, which completes the shift. */
  lemma SlidDone(t: seq<nat>, s1: seq<nat>, home: seq<nat>, i0: nat, len: nat)
    requires |home| == |s1| && i0 < |s1| && len < |s1| && Slid(t, s1, home, i0, len, len)
    ensures t[At(|s1|, i0, len) := 0] == ShiftDelete(s1, home, i0, len)
  {
    var n, v := |s1|, At(|s1|, i0, len);
    var t' := t[v := 0];
    forall j | 0 <= j < n
      ensures t'[j] == ShiftDelete(s1, home, i0, len)[j]
    {
      if j == v {
        assert Off(n, i0, j) == len;
      }
    }
  }

  /**
   * One round of delete_entry's loop at offset p: the value it writes in
   * slot j, from the next slot's value and j's occupied flag, is Slide's.
   * Its shifted flag is cleared when the remainder begins a run whose
   * canonical slot is j.  `quot` is that canonical slot, and j is then
   * marked occupied.
   */
  lemma StepWritten(s: seq<nat>, home: seq<nat>, c: nat, fq: nat, fr: nat, i0: nat, len: nat, p: nat,
                    next: nat, updated: nat)
    requires RemoveSetup(s, home, c, fq, fr, i0) && Walk(s, c, i0, len) && p < len
    requires next == Cleared(s, fq, i0)[At(|s|, i0, p + 1)]
    requires var s1, j, x := Cleared(s, fq, i0), At(|s|, i0, p), At(|s|, i0, p + 1);
      updated == if IsRunStart(next) && IsOccupied(s1[j]) && home[x] == j then ClrShifted(next) else next
    ensures var s1, j := Cleared(s, fq, i0), At(|s|, i0, p);
      (if IsOccupied(s1[j]) then SetOccupied(updated) else ClrOccupied(updated)) == Slide(s1, home, i0, len, j)
  {
    var n, s1, j, x := |s|, Cleared(s, fq, i0), At(|s|, i0, p), At(|s|, i0, p + 1);
    AtSucc(n, i0, p);
    QuotStep(s, home, c, fq, fr, i0, len, p);
    ClearedSlot(s, home, c, fq, fr, i0, x);
  }

  /** What qf_remove achieves: the invariant holds again, fr of fq is gone and one remainder fewer is counted. */
  lemma RemoveDone(s: seq<nat>, home: seq<nat>, c: nat, fq: nat, fr: nat, i0: nat, len: nat,
                   s3: seq<nat>, h3: seq<nat>)
    requires RemoveSetup(s, home, c, fq, fr, i0) && len == WalkLen(Cleared(s, fq, i0), i0)
    requires s3 == AfterDelete(s, home, fq, i0, len) && h3 == DeleteHome(home, i0, len)
    ensures Inv(s3, h3, -1)
    ensures (fq, fr) in Contents(s, home) && Contents(s3, h3) == Contents(s, home) - {(fq, fr)}
    ensures CountUsed(s3) + 1 == CountUsed(s)
  {
    RemoveFrame(s, home, c, fq, fr, i0);
    DeleteKeepsInv(s, home, c, fq, fr, i0, len, s3, h3);
    ContentsAfterDelete(s, home, c, fq, fr, i0, len, s3, h3);
    CountAfterDelete(s, home, c, fq, fr, i0, len, s3, h3);
  }

  /**
   * What one round of delete_entry's loop at offset p relies on, stated on
   * the table as qf_remove hands it over: the slot after j is moved, and
   * the canonical slot of its remainder is j's or, when it begins a run,
   * the next occupied slot after j's.
   */
  ghost predicate QuotFacts(s1: seq<nat>, home: seq<nat>, i0: nat, len: nat, p: nat)
    requires |home| == |s1| && i0 < |s1| && p + 1 < |s1|
  {
    var n, j, x := |s1|, At(|s1|, i0, p), At(|s1|, i0, p + 1);
    && home[j] < n && home[x] < n && !EndsShift(s1[x])
    && (!IsRunStart(s1[x]) ==> home[x] == home[j])
    && (IsRunStart(s1[x]) ==>
          && 0 < Off(n, home[j], home[x]) && IsOccupied(s1[home[x]])
          && forall q :: 0 < q < Off(n, home[j], home[x]) ==> !IsOccupied(s1[At(n, home[j], q)]))
  }

  lemma StepFacts(s: seq<nat>, home: seq<nat>, c: nat, fq: nat, fr: nat, i0: nat, len: nat, p: nat)
    requires RemoveSetup(s, home, c, fq, fr, i0) && len == WalkLen(Cleared(s, fq, i0), i0) && p < len
    ensures p + 1 < |s| && QuotFacts(Cleared(s, fq, i0), home, i0, len, p)
  {
    var x := At(|s|, i0, p + 1);
    WalkFacts(s, home, c, fq, fr, i0);
    QuotStep(s, home, c, fq, fr, i0, len, p);
    ClearedSlot(s, home, c, fq, fr, i0, x);
    Moving(Cleared(s, fq, i0)[x]);
  }
}
