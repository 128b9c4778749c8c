/**
 * The effect of insert_into (qf.h:169) on a table: from slot i0 up to the
 * first empty slot, `len` slots further on, every remainder moves one slot
 * forward and is marked shifted, and the new element takes slot i0.  The
 * occupied flag stays with the slot, since it describes the slot's quotient
 * and not the remainder stored there.
 */
module Insertion {
  import opened Bits
  import opened Slot
  import opened Layout
  import opened Runs

  /** `x` carrying the occupied flag of the slot value `y`. */
  function WithOccupied(x: nat, y: nat): (z: nat)
    ensures IsOccupied(z) == IsOccupied(y)
    ensures IsContinuation(z) == IsContinuation(x) && IsShifted(z) == IsShifted(x)
    ensures GetRemainder(z) == GetRemainder(x)
  {
    if IsOccupied(y) then SetOccupied(x) else ClrOccupied(x)
  }

  /** The value insert_into leaves in slot j. */
  function Cascade(s: seq<nat>, i0: nat, elt: nat, len: nat, j: nat): nat
    requires i0 < |s| && j < |s|
  {
    var p := Off(|s|, i0, j);
    if p == 0 then WithOccupied(elt, s[j])
    else if p <= len then WithOccupied(SetShifted(s[Pred(|s|, j)]), s[j])
    else s[j]
  }

  function ShiftInsert(s: seq<nat>, i0: nat, elt: nat, len: nat): (t: seq<nat>)
    requires i0 < |s|
    ensures |t| == |s|
    ensures forall j :: 0 <= j < |s| ==> t[j] == Cascade(s, i0, elt, len, j)
  {
    seq(|s|, j requires 0 <= j < |s| => Cascade(s, i0, elt, len, j))
  }

  /** The canonical slot of the remainder in slot j after the cascade: each moves with its remainder. */
  function CascadeHome(home: seq<nat>, i0: nat, fq: nat, len: nat, j: nat): nat
    requires i0 < |home| && j < |home|
  {
    var p := Off(|home|, i0, j);
    if p == 0 then fq else if p <= len then home[Pred(|home|, j)] else home[j]
  }

  function ShiftHome(home: seq<nat>, i0: nat, fq: nat, len: nat): (h: seq<nat>)
    requires i0 < |home|
    ensures |h| == |home|
    ensures forall j :: 0 <= j < |home| ==> h[j] == CascadeHome(home, i0, fq, len, j)
  {
    seq(|home|, j requires 0 <= j < |home| => CascadeHome(home, i0, fq, len, j))
  }

  /** With a free slot somewhere, no remainder is displaced by n - 1 or more. */
  lemma DistBound(s: seq<nat>, home: seq<nat>, pending: int, y: nat, e: nat)
    requires Inv(s, home, pending) && y < |s| && Used(s[y]) && e < |s| && !Used(s[e])
    ensures Dist(s, home, y) < |s| - 1
  {
    var n := |s|;
    if Dist(s, home, y) >= n - 1 {
      AtOff(n, home[y], e);
      HomePathUsed(s, home, pending, y, Off(n, home[y], e));
      assert false;
    }
  }

  /**
   * What qf_insert knows when it calls insert_into(i0, elt): the table `s`
   * (with fq already marked occupied) keeps the invariant, slot i0 + len is
   * the first free slot from i0, `head` is slot i0 with its continuation
   * flag possibly set, `elt` carries fr with the flags qf_insert chose, and
   * i0 is where fr belongs in the sorted run of fq.
   */
  ghost predicate InsertSetup(s: seq<nat>, home: seq<nat>, pending: int, i0: nat, len: nat,
                              fq: nat, fr: nat, head: nat, elt: nat)
  {
    var n := |s|;
    && Inv(s, home, pending) && (pending == -1 || pending == fq)
    && fq < n && i0 < n && len < n
    && (forall p :: 0 <= p < len ==> Used(s[At(n, i0, p)]))
    && !Used(s[At(n, i0, len)])
    && IsOccupied(s[fq])
    && IsOccupied(head) == IsOccupied(s[i0]) && IsShifted(head) == IsShifted(s[i0])
    && GetRemainder(head) == GetRemainder(s[i0])
    && (Used(s[i0]) ==> (IsContinuation(head) <==> home[i0] == fq))
    && GetRemainder(elt) == fr && !IsOccupied(elt) && (IsShifted(elt) <==> i0 != fq)
    && (i0 != fq ==> Used(s[Pred(n, i0)]) && Dist(s, home, Pred(n, i0)) + 1 >= Off(n, fq, i0))
    && (IsContinuation(elt) <==> i0 != fq && home[Pred(n, i0)] == fq)
    && (IsContinuation(elt) ==> GetRemainder(s[Pred(n, i0)]) < fr)
    && (Used(s[i0]) ==> Dist(s, home, i0) <= Off(n, fq, i0))
    && (Used(s[i0]) && home[i0] == fq ==> GetRemainder(s[i0]) > fr)
    && (fq, fr) !in Contents(s, home)
    && (len == n - 1 ==> i0 == fq)
  }

  /** The table after the cascade. */
  function AfterInsert(s: seq<nat>, i0: nat, len: nat, head: nat, elt: nat): (t: seq<nat>)
    requires i0 < |s|
    ensures |t| == |s|
  {
    ShiftInsert(s[i0 := head], i0, elt, len)
  }

  /** Slot j after the cascade, by its distance from i0. */
  lemma SlotAfter(s: seq<nat>, home: seq<nat>, pending: int, i0: nat, len: nat,
                  fq: nat, fr: nat, head: nat, elt: nat, j: nat)
    requires InsertSetup(s, home, pending, i0, len, fq, fr, head, elt) && j < |s|
    ensures var s', h', n, p := AfterInsert(s, i0, len, head, elt), ShiftHome(home, i0, fq, len), |s|, Off(|s|, i0, j);
      && IsOccupied(s'[j]) == IsOccupied(s[j])
      && (p == 0 ==>
            && j == i0 && h'[j] == fq && GetRemainder(s'[j]) == fr
            && IsContinuation(s'[j]) == IsContinuation(elt) && IsShifted(s'[j]) == IsShifted(elt))
      && (0 < p <= len ==>
            && Off(n, i0, Pred(n, j)) == p - 1 && Used(s[Pred(n, j)])
            && h'[j] == home[Pred(n, j)] && GetRemainder(s'[j]) == GetRemainder(s[Pred(n, j)])
            && IsContinuation(s'[j]) == (if p == 1 then IsContinuation(head) else IsContinuation(s[Pred(n, j)]))
            && IsShifted(s'[j]))
      && (len < p ==> s'[j] == s[j] && h'[j] == home[j])
  {
    var n, p := |s|, Off(|s|, i0, j);
    if p == 0 {
      AtOff(n, i0, j);
    } else {
      OffPred(n, i0, j);
      AtOff(n, i0, Pred(n, j));
    }
  }

  lemma ShapeAfter(s: seq<nat>, home: seq<nat>, pending: int, i0: nat, len: nat,
                   fq: nat, fr: nat, head: nat, elt: nat)
    requires InsertSetup(s, home, pending, i0, len, fq, fr, head, elt)
    ensures Shape(AfterInsert(s, i0, len, head, elt), ShiftHome(home, i0, fq, len))
  {
    var s', h' := AfterInsert(s, i0, len, head, elt), ShiftHome(home, i0, fq, len);
    forall j | 0 <= j < |s| && Used(s'[j])
      ensures h'[j] < |s|
    {
      SlotAfter(s, home, pending, i0, len, fq, fr, head, elt, j);
    }
  }

  /** The new element in slot i0 is placed correctly. */
  lemma PlacedNew(s: seq<nat>, home: seq<nat>, pending: int, i0: nat, len: nat,
                  fq: nat, fr: nat, head: nat, elt: nat)
    requires InsertSetup(s, home, pending, i0, len, fq, fr, head, elt)
    ensures Shape(AfterInsert(s, i0, len, head, elt), ShiftHome(home, i0, fq, len))
    ensures Used(AfterInsert(s, i0, len, head, elt)[i0])
    ensures Placed(AfterInsert(s, i0, len, head, elt), ShiftHome(home, i0, fq, len), i0)
  {
    var s', h', n := AfterInsert(s, i0, len, head, elt), ShiftHome(home, i0, fq, len), |s|;
    ShapeAfter(s, home, pending, i0, len, fq, fr, head, elt);
    SlotAfter(s, home, pending, i0, len, fq, fr, head, elt, i0);
    SlotAfter(s, home, pending, i0, len, fq, fr, head, elt, fq);
    if i0 != fq {
      var pr := Pred(n, i0);
      assert Off(n, i0, pr) == n - 1;
      SlotAfter(s, home, pending, i0, len, fq, fr, head, elt, pr);
    }
  }

  /** The facts about a slot the cascade moved a remainder into. */
  lemma MovedFacts(s: seq<nat>, home: seq<nat>, pending: int, i0: nat, len: nat,
                   fq: nat, fr: nat, head: nat, elt: nat, j: nat)
    requires InsertSetup(s, home, pending, i0, len, fq, fr, head, elt)
    requires j < |s| && 0 < Off(|s|, i0, j) <= len
    ensures var s', h', n := AfterInsert(s, i0, len, head, elt), ShiftHome(home, i0, fq, len), |s|;
      && Shape(s', h')
      && Off(n, i0, Pred(n, j)) == Off(n, i0, j) - 1 && Used(s[Pred(n, j)])
      && Used(s'[j]) && IsShifted(s'[j]) && h'[j] == home[Pred(n, j)] && h'[j] != j
      && GetRemainder(s'[j]) == GetRemainder(s[Pred(n, j)])
      && IsContinuation(s'[j]) == (if Off(n, i0, j) == 1 then IsContinuation(head) else IsContinuation(s[Pred(n, j)]))
      && Dist(s', h', j) == Dist(s, home, Pred(n, j)) + 1
      && IsOccupied(s'[h'[j]]) == IsOccupied(s[home[Pred(n, j)]])
  {
    var s', h', n := AfterInsert(s, i0, len, head, elt), ShiftHome(home, i0, fq, len), |s|;
    ShapeAfter(s, home, pending, i0, len, fq, fr, head, elt);
    SlotAfter(s, home, pending, i0, len, fq, fr, head, elt, j);
    var jm := Pred(n, j);
    SlotAfter(s, home, pending, i0, len, fq, fr, head, elt, home[jm]);
    DistBound(s, home, pending, jm, At(n, i0, len));
    OffPred(n, i0, j);
  }

  /** A remainder moved into the slot after i0 is placed correctly. */
  lemma PlacedFirstMoved(s: seq<nat>, home: seq<nat>, pending: int, i0: nat, len: nat,
                         fq: nat, fr: nat, head: nat, elt: nat)
    requires InsertSetup(s, home, pending, i0, len, fq, fr, head, elt) && len > 0
    ensures Shape(AfterInsert(s, i0, len, head, elt), ShiftHome(home, i0, fq, len))
    ensures Placed(AfterInsert(s, i0, len, head, elt), ShiftHome(home, i0, fq, len), Succ(|s|, i0))
  {
    var n := |s|;
    var j := Succ(n, i0);
    AtSucc(n, i0, 0);
    MovedFacts(s, home, pending, i0, len, fq, fr, head, elt, j);
    PlacedNew(s, home, pending, i0, len, fq, fr, head, elt);
    SlotAfter(s, home, pending, i0, len, fq, fr, head, elt, i0);
    assert SlotOk(s, home, pending, i0);
  }

  /** A remainder moved into a later slot of the cascade is placed correctly. */
  lemma PlacedLaterMoved(s: seq<nat>, home: seq<nat>, pending: int, i0: nat, len: nat,
                         fq: nat, fr: nat, head: nat, elt: nat, j: nat)
    requires InsertSetup(s, home, pending, i0, len, fq, fr, head, elt)
    requires j < |s| && 1 < Off(|s|, i0, j) <= len
    ensures Shape(AfterInsert(s, i0, len, head, elt), ShiftHome(home, i0, fq, len))
    ensures Placed(AfterInsert(s, i0, len, head, elt), ShiftHome(home, i0, fq, len), j)
  {
    var n := |s|;
    var jm := Pred(n, j);
    MovedFacts(s, home, pending, i0, len, fq, fr, head, elt, j);
    MovedFacts(s, home, pending, i0, len, fq, fr, head, elt, jm);
    DistBound(s, home, pending, Pred(n, jm), At(n, i0, len));
    assert SlotOk(s, home, pending, jm);
  }

  /** A slot past the cascade keeps its remainder, correctly placed. */
  lemma PlacedKept(s: seq<nat>, home: seq<nat>, pending: int, i0: nat, len: nat,
                   fq: nat, fr: nat, head: nat, elt: nat, j: nat)
    requires InsertSetup(s, home, pending, i0, len, fq, fr, head, elt)
    requires j < |s| && len < Off(|s|, i0, j)
    ensures Shape(AfterInsert(s, i0, len, head, elt), ShiftHome(home, i0, fq, len))
    ensures Placed(AfterInsert(s, i0, len, head, elt), ShiftHome(home, i0, fq, len), j)
  {
    var n := |s|;
    var jm := Pred(n, j);
    ShapeAfter(s, home, pending, i0, len, fq, fr, head, elt);
    SlotAfter(s, home, pending, i0, len, fq, fr, head, elt, j);
    OffPred(n, i0, j);
    assert SlotOk(s, home, pending, j);
    if Off(n, i0, jm) == len {
      AtOff(n, i0, jm);
    } else {
      SlotAfter(s, home, pending, i0, len, fq, fr, head, elt, jm);
    }
    if Used(s[j]) {
      SlotAfter(s, home, pending, i0, len, fq, fr, head, elt, home[j]);
    }
  }

  /** Where the cascade puts the remainder that was in slot y. */
  lemma MovedTo(s: seq<nat>, home: seq<nat>, pending: int, i0: nat, len: nat,
                fq: nat, fr: nat, head: nat, elt: nat, y: nat) returns (y': nat)
    requires InsertSetup(s, home, pending, i0, len, fq, fr, head, elt)
    requires y < |s| && Used(s[y])
    ensures y' < |s| && y' != i0
    ensures var s', h' := AfterInsert(s, i0, len, head, elt), ShiftHome(home, i0, fq, len);
      Used(s'[y']) && h'[y'] == home[y] && GetRemainder(s'[y']) == GetRemainder(s[y])
  {
    var n := |s|;
    AtOff(n, i0, y);
    if Off(n, i0, y) < len {
      y' := Succ(n, y);
      AtSucc(n, i0, Off(n, i0, y));
      MovedFacts(s, home, pending, i0, len, fq, fr, head, elt, y');
    } else {
      y' := y;
      SlotAfter(s, home, pending, i0, len, fq, fr, head, elt, y);
    }
  }

  /** Every occupied slot is still the canonical slot of a stored remainder, fq now included. */
  lemma RunsAfter(s: seq<nat>, home: seq<nat>, pending: int, i0: nat, len: nat,
                  fq: nat, fr: nat, head: nat, elt: nat, j: nat)
    requires InsertSetup(s, home, pending, i0, len, fq, fr, head, elt) && j < |s|
    requires IsOccupied(AfterInsert(s, i0, len, head, elt)[j])
    ensures HasRun(AfterInsert(s, i0, len, head, elt), ShiftHome(home, i0, fq, len), j)
  {
    var s', h' := AfterInsert(s, i0, len, head, elt), ShiftHome(home, i0, fq, len);
    PlacedNew(s, home, pending, i0, len, fq, fr, head, elt);
    SlotAfter(s, home, pending, i0, len, fq, fr, head, elt, i0);
    if j != fq {
      SlotAfter(s, home, pending, i0, len, fq, fr, head, elt, j);
      assert SlotOk(s, home, pending, j);
      var y :| 0 <= y < |s| && Used(s[y]) && home[y] == j;
      var y' := MovedTo(s, home, pending, i0, len, fq, fr, head, elt, y);
    }
  }

  /** Some slot is still not shifted. */
  lemma AnchorAfter(s: seq<nat>, home: seq<nat>, pending: int, i0: nat, len: nat,
                    fq: nat, fr: nat, head: nat, elt: nat)
    requires InsertSetup(s, home, pending, i0, len, fq, fr, head, elt)
    ensures exists a :: 0 <= a < |s| && !IsShifted(AfterInsert(s, i0, len, head, elt)[a])
  {
    var n := |s|;
    if len == n - 1 {
      SlotAfter(s, home, pending, i0, len, fq, fr, head, elt, i0);
    } else {
      var a := At(n, i0, len + 1);
      AtSucc(n, i0, len);
      SlotAfter(s, home, pending, i0, len, fq, fr, head, elt, a);
      assert SlotOk(s, home, pending, a);
    }
  }

  /** Where the remainder in slot j after the cascade came from. */
  lemma SourceOf(s: seq<nat>, home: seq<nat>, pending: int, i0: nat, len: nat,
                 fq: nat, fr: nat, head: nat, elt: nat, j: nat) returns (y: nat)
    requires InsertSetup(s, home, pending, i0, len, fq, fr, head, elt)
    requires j < |s| && j != i0 && Used(AfterInsert(s, i0, len, head, elt)[j])
    ensures y < |s| && Used(s[y])
    ensures var s', h' := AfterInsert(s, i0, len, head, elt), ShiftHome(home, i0, fq, len);
      h'[j] == home[y] && GetRemainder(s'[j]) == GetRemainder(s[y])
    ensures j == if Off(|s|, i0, y) < len then Succ(|s|, y) else y
  {
    var n := |s|;
    SlotAfter(s, home, pending, i0, len, fq, fr, head, elt, j);
    if Off(n, i0, j) <= len {
      y := Pred(n, j);
      OffPred(n, i0, j);
    } else {
      y := j;
    }
  }

  /** No fingerprint is stored twice after the insertion. */
  lemma ApartAfter(s: seq<nat>, home: seq<nat>, pending: int, i0: nat, len: nat,
                   fq: nat, fr: nat, head: nat, elt: nat, i: nat, j: nat)
    requires InsertSetup(s, home, pending, i0, len, fq, fr, head, elt) && i < |s| && j < |s|
    ensures |ShiftHome(home, i0, fq, len)| == |s|
    ensures Apart(AfterInsert(s, i0, len, head, elt), ShiftHome(home, i0, fq, len), i, j)
  {
    var s', h' := AfterInsert(s, i0, len, head, elt), ShiftHome(home, i0, fq, len);
    if i != j && Used(s'[i]) && Used(s'[j]) && h'[i] == h'[j] {
      SlotAfter(s, home, pending, i0, len, fq, fr, head, elt, i0);
      if i == i0 {
        var y := SourceOf(s, home, pending, i0, len, fq, fr, head, elt, j);
        assert (home[y], GetRemainder(s[y])) in Contents(s, home);
      } else if j == i0 {
        var x := SourceOf(s, home, pending, i0, len, fq, fr, head, elt, i);
        assert (home[x], GetRemainder(s[x])) in Contents(s, home);
      } else {
        var x := SourceOf(s, home, pending, i0, len, fq, fr, head, elt, i);
        var y := SourceOf(s, home, pending, i0, len, fq, fr, head, elt, j);
        assert Apart(s, home, x, y);
      }
    }
  }

  /** The insertion adds exactly the fingerprint (fq, fr). */
  lemma ContentsAfter(s: seq<nat>, home: seq<nat>, pending: int, i0: nat, len: nat,
                      fq: nat, fr: nat, head: nat, elt: nat)
    requires InsertSetup(s, home, pending, i0, len, fq, fr, head, elt)
    ensures |ShiftHome(home, i0, fq, len)| == |s|
    ensures Contents(AfterInsert(s, i0, len, head, elt), ShiftHome(home, i0, fq, len)) == Contents(s, home) + {(fq, fr)}
  {
    var s', h' := AfterInsert(s, i0, len, head, elt), ShiftHome(home, i0, fq, len);
    PlacedNew(s, home, pending, i0, len, fq, fr, head, elt);
    SlotAfter(s, home, pending, i0, len, fq, fr, head, elt, i0);
    forall x | x in Contents(s', h')
      ensures x in Contents(s, home) + {(fq, fr)}
    {
      var j :| 0 <= j < |s| && Used(s'[j]) && x == (h'[j], GetRemainder(s'[j]));
      if j != i0 {
        var y := SourceOf(s, home, pending, i0, len, fq, fr, head, elt, j);
        assert x == (home[y], GetRemainder(s[y]));
      }
    }
    forall x | x in Contents(s, home) + {(fq, fr)}
      ensures x in Contents(s', h')
    {
      if x == (fq, fr) {
        assert x == (h'[i0], GetRemainder(s'[i0]));
      } else {
        var y :| 0 <= y < |s| && Used(s[y]) && x == (home[y], GetRemainder(s[y]));
        var y' := MovedTo(s, home, pending, i0, len, fq, fr, head, elt, y);
        assert x == (h'[y'], GetRemainder(s'[y']));
      }
    }
  }

  /** The cascade re-establishes the invariant, with fq's run now holding a remainder. */
  lemma InsertKeepsInv(s: seq<nat>, home: seq<nat>, pending: int, i0: nat, len: nat,
                       fq: nat, fr: nat, head: nat, elt: nat)
    requires InsertSetup(s, home, pending, i0, len, fq, fr, head, elt)
    ensures Inv(AfterInsert(s, i0, len, head, elt), ShiftHome(home, i0, fq, len), -1)
  {
    var s', h', n := AfterInsert(s, i0, len, head, elt), ShiftHome(home, i0, fq, len), |s|;
    ShapeAfter(s, home, pending, i0, len, fq, fr, head, elt);
    forall j | 0 <= j < n
      ensures SlotOk(s', h', -1, j)
    {
      var p := Off(n, i0, j);
      if p == 0 {
        AtOff(n, i0, j);
        PlacedNew(s, home, pending, i0, len, fq, fr, head, elt);
      } else if p == 1 && len > 0 {
        AtOff(n, i0, j);
        AtSucc(n, i0, 0);
        PlacedFirstMoved(s, home, pending, i0, len, fq, fr, head, elt);
      } else if p <= len {
        PlacedLaterMoved(s, home, pending, i0, len, fq, fr, head, elt, j);
      } else {
        PlacedKept(s, home, pending, i0, len, fq, fr, head, elt, j);
      }
      if IsOccupied(s'[j]) {
        RunsAfter(s, home, pending, i0, len, fq, fr, head, elt, j);
      }
    }
    forall i, j | 0 <= i < n && 0 <= j < n
      ensures Apart(s', h', i, j)
    {
      ApartAfter(s, home, pending, i0, len, fq, fr, head, elt, i, j);
    }
    AnchorAfter(s, home, pending, i0, len, fq, fr, head, elt);
  }

  /** The cascade fills exactly one free slot. */
  lemma InsertCount(s: seq<nat>, home: seq<nat>, pending: int, i0: nat, len: nat,
                    fq: nat, fr: nat, head: nat, elt: nat)
    requires InsertSetup(s, home, pending, i0, len, fq, fr, head, elt)
    ensures CountUsed(AfterInsert(s, i0, len, head, elt)) == CountUsed(s) + 1
  {
    var s', n := AfterInsert(s, i0, len, head, elt), |s|;
    var e := At(n, i0, len);
    forall j | 0 <= j < n && j != e
      ensures Used(s[j]) == Used(s'[j])
    {
      AtOff(n, i0, j);
      var p := Off(n, i0, j);
      SlotAfter(s, home, pending, i0, len, fq, fr, head, elt, j);
      if p == 0 {
        PlacedNew(s, home, pending, i0, len, fq, fr, head, elt);
      } else if p <= len {
        MovedFacts(s, home, pending, i0, len, fq, fr, head, elt, j);
      }
    }
    if len == 0 {
      PlacedNew(s, home, pending, i0, len, fq, fr, head, elt);
    } else {
      MovedFacts(s, home, pending, i0, len, fq, fr, head, elt, e);
    }
    CountAgree(s, s', e);
  }

  /** No stored remainder has canonical slot fq. */
  ghost predicate NoRun(s: seq<nat>, home: seq<nat>, fq: nat)
    requires |home| == |s|
  {
    forall y :: 0 <= y < |s| && Used(s[y]) ==> home[y] != fq
  }

  /** Marking fq occupied ahead of inserting its first remainder leaves fq pending. */
  lemma MarkPending(s: seq<nat>, home: seq<nat>, fq: nat, s1: seq<nat>)
    requires Inv(s, home, -1) && fq < |s| && Used(s[fq]) && !IsOccupied(s[fq])
    requires s1 == s[fq := SetOccupied(s[fq])]
    ensures Inv(s1, home, fq)
    ensures NoRun(s1, home, fq)
    ensures Contents(s1, home) == Contents(s, home)
    ensures CountUsed(s1) == CountUsed(s)
    ensures HasFree(s) ==> HasFree(s1)
  {
    var n := |s|;
    assert forall y :: 0 <= y < n ==> Used(s1[y]) == Used(s[y]) && GetRemainder(s1[y]) == GetRemainder(s[y]);
    CountSame(s, s1);
    if HasFree(s) {
      var e :| 0 <= e < n && !Used(s[e]);
      assert !Used(s1[e]);
    }
    forall y | 0 <= y < n && Used(s1[y])
      ensures home[y] != fq
    {
      assert SlotOk(s, home, -1, y);
    }
    forall i | 0 <= i < n
      ensures SlotOk(s1, home, fq, i)
    {
      assert SlotOk(s, home, -1, i);
      if Used(s1[i]) {
        assert SlotOk(s, home, -1, Pred(n, i));
      }
      if IsOccupied(s1[i]) && i != fq {
        var y :| 0 <= y < n && Used(s[y]) && home[y] == i;
        assert Used(s1[y]);
      }
    }
    forall i, j | 0 <= i < n && 0 <= j < n
      ensures Apart(s1, home, i, j)
    {
      assert Apart(s, home, i, j);
    }
    var a :| 0 <= a < n && !IsShifted(s[a]);
    assert !IsShifted(s1[a]);
  }

  /** Filling an empty canonical slot directly, as qf_insert does when slot fq is empty. */
  lemma FillEmpty(s: seq<nat>, home: seq<nat>, fq: nat, fr: nat, s': seq<nat>, h': seq<nat>)
    requires Inv(s, home, -1) && fq < |s| && !Used(s[fq])
    requires s' == s[fq := SetOccupied(Entry(fr))] && h' == home[fq := fq]
    ensures |h'| == |s'|
    ensures Inv(s', h', -1)
    ensures Contents(s', h') == Contents(s, home) + {(fq, fr)}
    ensures CountUsed(s') == CountUsed(s) + 1
    ensures NoRun(s, home, fq) && (fq, fr) !in Contents(s, home)
  {
    var n := |s|;
    forall y | 0 <= y < n && Used(s[y])
      ensures home[y] != fq
    {
      assert SlotOk(s, home, -1, y);
    }
    assert Shape(s', h');
    forall i | 0 <= i < n
      ensures SlotOk(s', h', -1, i)
    {
      assert SlotOk(s, home, -1, i);
      if Used(s'[i]) && i != fq && home[i] != i {
        assert Pred(n, i) != fq;
      }
      if i == fq {
        assert Used(s'[fq]) && h'[fq] == fq;
      } else if IsOccupied(s'[i]) {
        var y :| 0 <= y < n && Used(s[y]) && home[y] == i;
        assert Used(s'[y]) && h'[y] == i;
      }
    }
    forall i, j | 0 <= i < n && 0 <= j < n
      ensures Apart(s', h', i, j)
    {
      assert Apart(s, home, i, j);
    }
    assert !IsShifted(s'[fq]);
    forall x | x in Contents(s', h')
      ensures x in Contents(s, home) + {(fq, fr)}
    {
      var j :| 0 <= j < n && Used(s'[j]) && x == (h'[j], GetRemainder(s'[j]));
      if j != fq {
        assert x == (home[j], GetRemainder(s[j]));
      }
    }
    forall x | x in Contents(s, home) + {(fq, fr)}
      ensures x in Contents(s', h')
    {
      if x == (fq, fr) {
        assert x == (h'[fq], GetRemainder(s'[fq]));
      } else {
        var y :| 0 <= y < n && Used(s[y]) && x == (home[y], GetRemainder(s[y]));
        assert x == (h'[y], GetRemainder(s'[y]));
      }
    }
    CountAgree(s, s', fq);
  }

  /** How far from w the first free slot lies, scanning forward from offset p. */
  ghost function FreeFrom(s: seq<nat>, w: nat, p: nat): (d: nat)
    requires w < |s| && p < |s|
    requires exists q :: p <= q < |s| && !Used(s[At(|s|, w, q)])
    ensures p <= d < |s| && !Used(s[At(|s|, w, d)])
    ensures forall q :: p <= q < d ==> Used(s[At(|s|, w, q)])
    decreases |s| - p
  {
    if !Used(s[At(|s|, w, p)]) then p else FreeFrom(s, w, p + 1)
  }

  /** How far from w the first free slot lies. */
  ghost function FreeDist(s: seq<nat>, w: nat): (d: nat)
    requires w < |s| && HasFree(s)
    ensures d < |s| && !Used(s[At(|s|, w, d)])
    ensures forall q :: 0 <= q < d ==> Used(s[At(|s|, w, q)])
  {
    var e :| 0 <= e < |s| && !Used(s[e]);
    AtOff(|s|, w, e);
    FreeFrom(s, w, 0)
  }
}
