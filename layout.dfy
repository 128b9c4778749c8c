/**
 * The layout of a quotient filter's slots, stated on the decoded slot values
 * `s` and, for each slot holding a remainder, the canonical slot `home[i]`
 * (the quotient) of the fingerprint stored there.
 *
 * Indices wrap around: `Succ` and `Pred` are `incr` and `decr`
 * (qf.h:133-135), `Off(n, a, b)` is how many steps forward `b` lies from
 * `a`, and `At(n, w, p)` is the slot `p` steps forward from `w`.  The
 * displacement `Dist(i)` of a stored remainder is how far it sits past its
 * canonical slot.  Seen from a window origin `w`, `Vh(w, i)` is the offset
 * of slot i's canonical slot from `w` (negative when that lies before `w`).
 */
module Layout {
  import opened Bits
  import opened Slot

  /** The slot holds a remainder: one of its three flags is set. */
  predicate Used(e: nat)
  {
    !IsEmptyElement(e)
  }

  /** incr: (idx + 1) & index_mask */
  function Succ(n: nat, i: nat): (j: nat)
    requires i < n
    ensures j < n
  {
    if i + 1 == n then 0 else i + 1
  }

  /** decr: (idx - 1) & index_mask */
  function Pred(n: nat, i: nat): (j: nat)
    requires i < n
    ensures j < n
  {
    if i == 0 then n - 1 else i - 1
  }

  function Off(n: nat, a: nat, b: nat): (d: nat)
    requires a < n && b < n
    ensures d < n
  {
    if a <= b then b - a else b + n - a
  }

  function At(n: nat, w: nat, p: nat): (i: nat)
    requires w < n && p < n
    ensures i < n && Off(n, w, i) == p
  {
    if w + p < n then w + p else w + p - n
  }

  /** Stepping forward once moves one further from any origin, unless it returns to the origin. */
  lemma OffSucc(n: nat, w: nat, i: nat)
    requires w < n && i < n && Succ(n, i) != w
    ensures Off(n, w, Succ(n, i)) == Off(n, w, i) + 1
    ensures Pred(n, Succ(n, i)) == i
  {
  }

  lemma OffPred(n: nat, w: nat, i: nat)
    requires w < n && i < n && i != w
    ensures Off(n, w, Pred(n, i)) == Off(n, w, i) - 1
    ensures Succ(n, Pred(n, i)) == i
  {
  }

  lemma AtSucc(n: nat, w: nat, p: nat)
    requires w < n && p + 1 < n
    ensures At(n, w, p + 1) == Succ(n, At(n, w, p))
    ensures Pred(n, At(n, w, p + 1)) == At(n, w, p)
  {
  }

  lemma AtOff(n: nat, w: nat, i: nat)
    requires w < n && i < n
    ensures At(n, w, Off(n, w, i)) == i
  {
  }

  ghost predicate Shape(s: seq<nat>, home: seq<nat>)
  {
    && |s| > 0 && |home| == |s|
    && forall i :: 0 <= i < |s| && Used(s[i]) ==> home[i] < |s|
  }

  /** How far the remainder in slot i sits past its canonical slot. */
  ghost function Dist(s: seq<nat>, home: seq<nat>, i: nat): nat
    requires Shape(s, home) && i < |s| && Used(s[i])
  {
    Off(|s|, home[i], i)
  }

  /** Offset, from `w`, of the canonical slot of the remainder in slot i. */
  ghost function Vh(s: seq<nat>, home: seq<nat>, w: nat, i: nat): int
    requires Shape(s, home) && w < |s| && i < |s| && Used(s[i])
  {
    Off(|s|, w, i) - Dist(s, home, i)
  }

  /**
   * The conditions on one slot i of a quotient filter table.  `pending`,
   * when it is a slot index, is a slot whose occupied flag has been set in
   * advance of inserting the first remainder of its run (qf_insert does this
   * before locating the run); it is -1 when there is none.
   */
  ghost predicate SlotOk(s: seq<nat>, home: seq<nat>, pending: int, i: nat)
    requires Shape(s, home) && i < |s|
  {
    && Placed(s, home, i)
    // an occupied slot other than `pending` is the canonical slot of a stored remainder
    && (IsOccupied(s[i]) && i != pending ==> HasRun(s, home, i))
  }

  /** The conditions on the remainder stored in slot i, if any. */
  ghost predicate Placed(s: seq<nat>, home: seq<nat>, i: nat)
    requires Shape(s, home) && i < |s|
  {
    var n := |s|;
    Used(s[i]) ==>
      // shifted exactly when not in the canonical slot
      && (IsShifted(s[i]) <==> home[i] != i)
      // a displaced remainder follows another one and is displaced at most one further
      && (home[i] != i ==> Used(s[Pred(n, i)]) && Dist(s, home, i) <= Dist(s, home, Pred(n, i)) + 1)
      // continuation exactly when displaced and in the same run as the slot before
      && (IsContinuation(s[i]) <==> home[i] != i && home[Pred(n, i)] == home[i])
      // runs are sorted by remainder
      && (IsContinuation(s[i]) ==> GetRemainder(s[Pred(n, i)]) < GetRemainder(s[i]))
      // the canonical slot of a stored remainder is marked occupied
      && IsOccupied(s[home[i]])
  }

  /** Some stored remainder has canonical slot j. */
  ghost predicate HasRun(s: seq<nat>, home: seq<nat>, j: nat)
    requires |home| == |s|
  {
    exists y :: 0 <= y < |s| && Used(s[y]) && home[y] == j
  }

  /** Two distinct slots never hold the same fingerprint. */
  ghost predicate Apart(s: seq<nat>, home: seq<nat>, i: nat, j: nat)
    requires |home| == |s| && i < |s| && j < |s|
  {
    i != j && Used(s[i]) && Used(s[j]) && home[i] == home[j] ==> GetRemainder(s[i]) != GetRemainder(s[j])
  }

  /** The structural invariant of a quotient filter table. */
  ghost predicate Inv(s: seq<nat>, home: seq<nat>, pending: int)
  {
    && Shape(s, home)
    && (forall i :: 0 <= i < |s| ==> SlotOk(s, home, pending, i))
    && (forall i, j :: 0 <= i < |s| && 0 <= j < |s| ==> Apart(s, home, i, j))
    // some slot is not shifted, so every cluster has a start
    && (exists a :: 0 <= a < |s| && !IsShifted(s[a]))
  }

  /** The slots p steps forward from `w`, for p <= last, all hold remainders. */
  ghost predicate UsedSpan(s: seq<nat>, w: nat, last: nat)
    requires w < |s| && last < |s|
  {
    forall p :: 0 <= p <= last ==> Used(s[At(|s|, w, p)])
  }

  /** Every slot between a remainder's canonical slot and the remainder itself holds a remainder. */
  lemma {:induction false} HomePathUsed(s: seq<nat>, home: seq<nat>, pending: int, y: nat, p: nat)
    requires Inv(s, home, pending) && y < |s| && Used(s[y]) && p <= Dist(s, home, y)
    ensures Used(s[At(|s|, home[y], p)])
    ensures Dist(s, home, At(|s|, home[y], p)) >= p
    decreases Dist(s, home, y) - p
  {
    var n, h := |s|, home[y];
    if p < Dist(s, home, y) {
      HomePathUsed(s, home, pending, y, p + 1);
      var z := At(n, h, p + 1);
      AtSucc(n, h, p);
      assert SlotOk(s, home, pending, z);
    } else {
      AtOff(n, h, y);
    }
  }

  /** One step forward along slots that hold remainders: Vh does not decrease, and stays equal exactly on a continuation. */
  lemma StepVh(s: seq<nat>, home: seq<nat>, pending: int, w: nat, p: nat)
    requires Inv(s, home, pending) && w < |s| && p + 1 < |s|
    requires Used(s[At(|s|, w, p)]) && Used(s[At(|s|, w, p + 1)])
    ensures var z, z' := At(|s|, w, p), At(|s|, w, p + 1);
      && Vh(s, home, w, z) <= Vh(s, home, w, z')
      && (Vh(s, home, w, z) == Vh(s, home, w, z') <==> IsContinuation(s[z']))
      && (IsContinuation(s[z']) ==> home[z] == home[z'])
  {
    var n := |s|;
    var z, z' := At(n, w, p), At(n, w, p + 1);
    AtSucc(n, w, p);
    assert Pred(n, z') == z;
    assert SlotOk(s, home, pending, z');
  }

  /** Along a stretch of slots holding remainders, Vh never decreases. */
  lemma {:induction false} MonoVh(s: seq<nat>, home: seq<nat>, pending: int, w: nat, p1: nat, p2: nat)
    requires Inv(s, home, pending) && w < |s| && p1 <= p2 < |s|
    requires forall p :: p1 <= p <= p2 ==> Used(s[At(|s|, w, p)])
    ensures Vh(s, home, w, At(|s|, w, p1)) <= Vh(s, home, w, At(|s|, w, p2))
    decreases p2 - p1
  {
    if p1 < p2 {
      MonoVh(s, home, pending, w, p1, p2 - 1);
      StepVh(s, home, pending, w, p2 - 1);
    }
  }

  /** A non-negative Vh names the canonical slot. */
  lemma VhHome(s: seq<nat>, home: seq<nat>, w: nat, i: nat)
    requires Shape(s, home) && w < |s| && i < |s| && Used(s[i])
    requires Vh(s, home, w, i) >= 0
    ensures home[i] == At(|s|, w, Vh(s, home, w, i))
  {
  }

  /** Some slot holds no remainder. */
  ghost predicate HasFree(s: seq<nat>)
  {
    exists i :: 0 <= i < |s| && !Used(s[i])
  }

  lemma AtShift(n: nat, w: nat, b: nat, t: nat)
    requires w < n && b < n && Off(n, w, b) + t < n
    ensures At(n, w, Off(n, w, b) + t) == At(n, b, t)
  {
  }

  /** A window from `c` whose every offset holds a remainder leaves no slot free. */
  lemma FullSpan(s: seq<nat>, c: nat)
    requires c < |s| && UsedSpan(s, c, |s| - 1)
    ensures !HasFree(s)
  {
    forall i | 0 <= i < |s|
      ensures Used(s[i])
    {
      AtOff(|s|, c, i);
    }
  }

  /** The facts a scan from cluster start `c` towards `fq` keeps. */
  ghost predicate ScanBase(s: seq<nat>, home: seq<nat>, pending: int, c: nat, fq: nat)
  {
    && Inv(s, home, pending)
    && c < |s| && fq < |s|
    && Used(s[c]) && home[c] == c && !IsContinuation(s[c])
    && UsedSpan(s, c, Off(|s|, c, fq))
    && IsOccupied(s[fq])
    && (pending == -1 || pending == fq)
    && (pending == fq ==> HasFree(s))
  }

  /** From a cluster start, Vh is never negative along slots holding remainders. */
  lemma VhNonNeg(s: seq<nat>, home: seq<nat>, pending: int, c: nat, x: nat)
    requires Inv(s, home, pending) && c < |s| && Used(s[c]) && home[c] == c
    requires x < |s| && Used(s[x]) && UsedSpan(s, c, Off(|s|, c, x))
    ensures Vh(s, home, c, x) >= 0
  {
    AtOff(|s|, c, x);
    MonoVh(s, home, pending, c, 0, Off(|s|, c, x));
  }

  /**
   * A remainder whose canonical slot `b` lies in the window between the
   * cluster start `c` and `fq` sits, seen from `c`, without wrapping: Vh is
   * the offset of `b`, and every slot from `c` up to it holds a remainder.
   */
  lemma WitnessWindow(s: seq<nat>, home: seq<nat>, pending: int, c: nat, fq: nat, b: nat, y: nat)
    requires ScanBase(s, home, pending, c, fq)
    requires b < |s| && Off(|s|, c, b) <= Off(|s|, c, fq)
    requires y < |s| && Used(s[y]) && home[y] == b
    ensures Off(|s|, c, b) + Dist(s, home, y) < |s|
    ensures Off(|s|, c, y) == Off(|s|, c, b) + Dist(s, home, y)
    ensures Vh(s, home, c, y) == Off(|s|, c, b)
    ensures UsedSpan(s, c, Off(|s|, c, y))
  {
    var n, d, ob := |s|, Dist(s, home, y), Off(|s|, c, b);
    AtOff(n, b, y);
    if ob + d < n {
      AtShift(n, c, b, d);
      forall p | 0 <= p <= ob + d
        ensures Used(s[At(n, c, p)])
      {
        if p > ob {
          AtShift(n, c, b, p - ob);
          HomePathUsed(s, home, pending, y, p - ob);
        }
      }
    } else {
      forall p | 0 <= p < n
        ensures Used(s[At(n, c, p)])
      {
        if p > ob {
          AtShift(n, c, b, p - ob);
          HomePathUsed(s, home, pending, y, p - ob);
        }
      }
      VhNonNeg(s, home, pending, c, y);
      assert false;
    }
  }

  /** A remainder seen from `c` before the canonical slot of fq cannot sit in the last slot of the window. */
  lemma NoWrap(s: seq<nat>, home: seq<nat>, pending: int, c: nat, fq: nat, x: nat)
    requires ScanBase(s, home, pending, c, fq)
    requires x < |s| && Used(s[x]) && UsedSpan(s, c, Off(|s|, c, x))
    requires Vh(s, home, c, x) < Off(|s|, c, fq)
    ensures Off(|s|, c, x) < |s| - 1
  {
    var n := |s|;
    if Off(n, c, x) == n - 1 {
      FullSpan(s, c);
      assert SlotOk(s, home, pending, fq);
      var y :| 0 <= y < n && Used(s[y]) && home[y] == fq;
      WitnessWindow(s, home, pending, c, fq, fq, y);
      AtOff(n, c, x);
      AtOff(n, c, y);
      MonoVh(s, home, pending, c, Off(n, c, y), n - 1);
      assert false;
    }
  }

  /** The number of slots holding a remainder. */
  function CountUsed(s: seq<nat>): (k: nat)
    ensures k <= |s|
  {
    CountBelow(s, |s|)
  }

  /** The number of slots below m holding a remainder. */
  function CountBelow(s: seq<nat>, m: nat): (k: nat)
    requires m <= |s|
    ensures k <= m
  {
    if m == 0 then 0 else CountBelow(s, m - 1) + (if Used(s[m - 1]) then 1 else 0)
  }

  /** Fewer remainders than slots leaves a slot free. */
  lemma CountFree(s: seq<nat>)
    requires CountUsed(s) < |s|
    ensures HasFree(s)
  {
    BelowFree(s, |s|);
  }

  lemma {:induction false} BelowFree(s: seq<nat>, m: nat)
    requires m <= |s| && CountBelow(s, m) < m
    ensures exists i :: 0 <= i < m && !Used(s[i])
  {
    if Used(s[m - 1]) {
      BelowFree(s, m - 1);
    }
  }

  /** Tables that agree on which slots are used, except at slot e, differ in count only by slot e. */
  lemma CountAgree(s: seq<nat>, t: seq<nat>, e: nat)
    requires |s| == |t| && e < |s|
    requires forall j :: 0 <= j < |s| && j != e ==> Used(s[j]) == Used(t[j])
    ensures CountUsed(t) + (if Used(s[e]) then 1 else 0) == CountUsed(s) + (if Used(t[e]) then 1 else 0)
  {
    BelowAgree(s, t, e, |s|);
  }

  lemma {:induction false} BelowAgree(s: seq<nat>, t: seq<nat>, e: nat, m: nat)
    requires |s| == |t| && e < m <= |s|
    requires forall j :: 0 <= j < |s| && j != e ==> Used(s[j]) == Used(t[j])
    ensures CountBelow(t, m) + (if Used(s[e]) then 1 else 0) == CountBelow(s, m) + (if Used(t[e]) then 1 else 0)
  {
    if e == m - 1 {
      BelowSame(s, t, m - 1);
    } else {
      BelowAgree(s, t, e, m - 1);
    }
  }

  lemma CountSame(s: seq<nat>, t: seq<nat>)
    requires |s| == |t|
    requires forall j :: 0 <= j < |s| ==> Used(s[j]) == Used(t[j])
    ensures CountUsed(t) == CountUsed(s)
  {
    BelowSame(s, t, |s|);
  }

  lemma {:induction false} BelowSame(s: seq<nat>, t: seq<nat>, m: nat)
    requires m <= |s| == |t|
    requires forall j :: 0 <= j < m ==> Used(s[j]) == Used(t[j])
    ensures CountBelow(t, m) == CountBelow(s, m)
  {
    if m > 0 {
      BelowSame(s, t, m - 1);
    }
  }
}
