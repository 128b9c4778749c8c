/**
 * Where qf_insert puts a new remainder: the three cases that follow
 * find_run_index, each shown to meet the premises of the insertion cascade.
 *   - fq had no run: the remainder starts a new run at the located slot;
 *   - the scan of fq's run stopped at a larger remainder: it goes there;
 *   - the scan reached the end of fq's run: it goes just after it.
 */
module Placement {
  import opened Bits
  import opened Slot
  import opened Layout
  import opened Runs
  import opened Insertion

  lemma OffSub(n: nat, c: nat, a: nat, x: nat)
    requires c < n && a < n && x < n && Off(n, c, a) <= Off(n, c, x)
    ensures Off(n, a, x) == Off(n, c, x) - Off(n, c, a)
  {
  }

  /** Seen from the cluster start, a remainder belongs to fq exactly when its Vh is fq's offset. */
  lemma HomeIsFq(s: seq<nat>, home: seq<nat>, pending: int, c: nat, fq: nat, x: nat)
    requires ScanBase(s, home, pending, c, fq)
    requires x < |s| && Used(s[x]) && UsedSpan(s, c, Off(|s|, c, x))
    ensures home[x] == fq <==> Vh(s, home, c, x) == Off(|s|, c, fq)
  {
    VhNonNeg(s, home, pending, c, x);
    VhHome(s, home, c, x);
    AtOff(|s|, c, fq);
  }

  /**
   * A slot i0 at or after fq's offset, every slot before which holds a
   * remainder of fq or of an earlier canonical slot, and which itself holds
   * none of an earlier one: its neighbourhood is as the cascade needs.
   */
  lemma Position(s: seq<nat>, home: seq<nat>, pending: int, c: nat, fq: nat, i0: nat)
    requires ScanBase(s, home, pending, c, fq) && i0 < |s|
    requires Off(|s|, c, fq) <= Off(|s|, c, i0)
    requires forall p :: 0 <= p < Off(|s|, c, i0) ==>
      Used(s[At(|s|, c, p)]) && Vh(s, home, c, At(|s|, c, p)) <= Off(|s|, c, fq)
    requires Used(s[i0]) ==> Vh(s, home, c, i0) >= Off(|s|, c, fq)
    ensures i0 != fq ==>
      && Off(|s|, c, i0) > 0 && Pred(|s|, i0) == At(|s|, c, Off(|s|, c, i0) - 1)
      && Used(s[Pred(|s|, i0)]) && Dist(s, home, Pred(|s|, i0)) + 1 >= Off(|s|, fq, i0)
      && UsedSpan(s, c, Off(|s|, c, i0) - 1)
    ensures Used(s[i0]) ==> Dist(s, home, i0) <= Off(|s|, fq, i0) && UsedSpan(s, c, Off(|s|, c, i0))
  {
    var n := |s|;
    OffSub(n, c, fq, i0);
    AtOff(n, c, i0);
    AtOff(n, c, fq);
    if i0 != fq {
      OffPred(n, c, i0);
      AtOff(n, c, Pred(n, i0));
    }
  }

  /** The scan's slots so far: all hold remainders of fq, continuing its run past the first. */
  lemma SearchSpan(s: seq<nat>, home: seq<nat>, pending: int, c: nat, fq: nat, r: nat, k: nat, fr: nat)
    requires Searching(s, home, pending, c, fq, r, k, fr)
    ensures UsedSpan(s, c, k)
    ensures home[At(|s|, c, k)] == fq
    ensures forall p :: Off(|s|, c, r) <= p <= k ==> Vh(s, home, c, At(|s|, c, p)) == Off(|s|, c, fq)
    ensures forall p :: Off(|s|, c, r) < p <= k ==> IsContinuation(s[At(|s|, c, p)])
  {
    var n, y := |s|, At(|s|, c, k);
    VhHome(s, home, c, y);
    AtOff(n, c, fq);
    RunMember(s, home, pending, c, fq, r, y);
  }

  /** Only a cascade that starts in fq can reach all the way round. */
  lemma FullCascade(s: seq<nat>, i0: nat, fq: nat, len: nat)
    requires i0 < |s| && len < |s| && !Used(s[At(|s|, i0, len)])
    requires i0 != fq ==> Used(s[Pred(|s|, i0)])
    ensures len == |s| - 1 ==> i0 == fq
  {
  }

  /** fq had no run: the new remainder starts one at the located slot. */
  lemma SetupNewRun(s: seq<nat>, home: seq<nat>, c: nat, fq: nat, r0: nat, fr: nat, elt: nat)
    requires RunLocated(s, home, fq, c, fq, r0) && NoRun(s, home, fq)
    requires GetRemainder(elt) == fr && !IsOccupied(elt) && !IsContinuation(elt)
    requires IsShifted(elt) <==> r0 != fq
    ensures HasFree(s)
    ensures InsertSetup(s, home, fq, r0, FreeDist(s, r0), fq, fr, s[r0], elt)
  {
    var n, k0 := |s|, Off(|s|, c, r0);
    Position(s, home, fq, c, fq, r0);
    AtOff(n, c, r0);
    if Used(s[r0]) && k0 > 0 {
      var pr := Pred(n, r0);
      HomeIsFq(s, home, fq, c, fq, r0);
      VhNonNeg(s, home, fq, c, r0);
      VhHome(s, home, c, r0);
      VhNonNeg(s, home, fq, c, pr);
      VhHome(s, home, c, pr);
      assert home[pr] != home[r0];
      assert SlotOk(s, home, fq, r0);
    }
    FullCascade(s, r0, fq, FreeDist(s, r0));
  }

  /** The scan of fq's run stopped at a larger remainder: the new one goes in its place. */
  lemma SetupInRun(s: seq<nat>, home: seq<nat>, c: nat, fq: nat, r0: nat, k: nat, fr: nat, head: nat, elt: nat)
    requires Searching(s, home, -1, c, fq, r0, k, fr) && HasFree(s)
    requires GetRemainder(s[At(|s|, c, k)]) > fr
    requires head == if At(|s|, c, k) == r0 then SetContinuation(s[r0]) else s[At(|s|, c, k)]
    requires GetRemainder(elt) == fr && !IsOccupied(elt)
    requires IsContinuation(elt) <==> At(|s|, c, k) != r0
    requires IsShifted(elt) <==> At(|s|, c, k) != fq
    ensures InsertSetup(s, home, -1, At(|s|, c, k), FreeDist(s, At(|s|, c, k)), fq, fr, head, elt)
  {
    var n, k0, i0 := |s|, Off(|s|, c, r0), At(|s|, c, k);
    SearchSpan(s, home, -1, c, fq, r0, k, fr);
    SearchPassed(s, home, -1, c, fq, r0, k, fr);
    AtOff(n, c, r0);
    Position(s, home, -1, c, fq, i0);
    if i0 != fq {
      HomeIsFq(s, home, -1, c, fq, Pred(n, i0));
    }
    FullCascade(s, i0, fq, FreeDist(s, i0));
  }

  /** The scan reached the end of fq's run: the new remainder goes just after it. */
  lemma SetupAfterRun(s: seq<nat>, home: seq<nat>, c: nat, fq: nat, r0: nat, k: nat, fr: nat, elt: nat)
    requires Searching(s, home, -1, c, fq, r0, k, fr) && HasFree(s)
    requires GetRemainder(s[At(|s|, c, k)]) < fr
    requires !IsContinuation(s[Succ(|s|, At(|s|, c, k))])
    requires GetRemainder(elt) == fr && !IsOccupied(elt)
    requires IsContinuation(elt) <==> Succ(|s|, At(|s|, c, k)) != r0
    requires IsShifted(elt) <==> Succ(|s|, At(|s|, c, k)) != fq
    ensures k + 1 < |s| && Succ(|s|, At(|s|, c, k)) == At(|s|, c, k + 1)
    ensures Succ(|s|, At(|s|, c, k)) != r0
    ensures InsertSetup(s, home, -1, At(|s|, c, k + 1), FreeDist(s, At(|s|, c, k + 1)), fq, fr,
                        s[At(|s|, c, k + 1)], elt)
  {
    var n, k0 := |s|, Off(|s|, c, r0);
    SearchSpan(s, home, -1, c, fq, r0, k, fr);
    SearchEnded(s, home, -1, c, fq, r0, k, fr);
    if k + 1 == n {
      FullSpan(s, c);
      assert false;
    }
    AtSucc(n, c, k);
    var i0 := At(n, c, k + 1);
    AtOff(n, c, r0);
    AtOff(n, c, i0);
    if Used(s[i0]) {
      StepVh(s, home, -1, c, k);
      assert home[i0] != fq;
    }
    Position(s, home, -1, c, fq, i0);
    HomeIsFq(s, home, -1, c, fq, Pred(n, i0));
    FullCascade(s, i0, fq, FreeDist(s, i0));
  }

  /** Marking the old run head a continuation keeps the stretch that insert_into shifts. */
  lemma CascadeReady(s: seq<nat>, home: seq<nat>, pending: int, i0: nat, len: nat,
                     fq: nat, fr: nat, head: nat, elt: nat)
    requires InsertSetup(s, home, pending, i0, len, fq, fr, head, elt)
    requires head == s[i0] || (Used(s[i0]) && head == SetContinuation(s[i0]))
    ensures forall p :: 0 <= p < len ==> Used(s[i0 := head][At(|s|, i0, p)])
    ensures !Used(s[i0 := head][At(|s|, i0, len)])
  {
    var n := |s|;
    forall p | 0 <= p <= len
      ensures Used(s[i0 := head][At(n, i0, p)]) == Used(s[At(n, i0, p)])
    {
      if p == 0 {
        EmptyIffNoFlags(s[i0]);
        EmptyIffNoFlags(head);
      } else {
        assert At(n, i0, p) != i0;
      }
    }
  }

  /** What qf_insert's cascade establishes about the table t and the homes h it leaves. */
  lemma Cascaded(s: seq<nat>, home: seq<nat>, pending: int, i0: nat, len: nat,
                 fq: nat, fr: nat, head: nat, elt: nat, t: seq<nat>, h: seq<nat>)
    requires InsertSetup(s, home, pending, i0, len, fq, fr, head, elt)
    requires t == ShiftInsert(s[i0 := head], i0, elt, len) && h == ShiftHome(home, i0, fq, len)
    ensures |h| == |t|
    ensures Inv(t, h, -1)
    ensures Contents(t, h) == Contents(s, home) + {(fq, fr)}
    ensures CountUsed(t) == CountUsed(s) + 1
  {
    InsertKeepsInv(s, home, pending, i0, len, fq, fr, head, elt);
    ContentsAfter(s, home, pending, i0, len, fq, fr, head, elt);
    InsertCount(s, home, pending, i0, len, fq, fr, head, elt);
  }
}
