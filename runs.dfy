/**
 * Locating a run (find_run_index, qf.h:167).  The scan walks back from the
 * canonical slot fq to the start c of its cluster, then forward, pairing the
 * runs it steps over (cursor r) with the occupied slots they belong to
 * (cursor b) until b reaches fq.  Everything is stated in offsets from c.
 */
module Runs {
  import opened Bits
  import opened Slot
  import opened Layout

  /** Every slot p steps forward from w, for 0 < p <= last, is shifted. */
  ghost predicate ShiftedSpan(s: seq<nat>, w: nat, last: nat)
    requires w < |s| && last < |s|
  {
    forall p :: 0 < p <= last ==> IsShifted(s[At(|s|, w, p)])
  }

  lemma AtPred(n: nat, w: nat, p: nat)
    requires w < n && p + 1 < n
    ensures At(n, Pred(n, w), p + 1) == At(n, w, p)
  {
  }

  /** One step of the backward scan: a shifted slot is preceded by a slot holding a remainder, and the scan cannot come round to fq again. */
  lemma BackStep(s: seq<nat>, home: seq<nat>, pending: int, fq: nat, b: nat)
    requires Inv(s, home, pending) && fq < |s| && b < |s|
    requires Used(s[b]) && IsShifted(s[b])
    requires UsedSpan(s, b, Off(|s|, b, fq)) && ShiftedSpan(s, b, Off(|s|, b, fq))
    ensures Off(|s|, b, fq) + 1 < |s|
    ensures Off(|s|, Pred(|s|, b), fq) == Off(|s|, b, fq) + 1
    ensures Used(s[Pred(|s|, b)])
    ensures UsedSpan(s, Pred(|s|, b), Off(|s|, Pred(|s|, b), fq))
    ensures ShiftedSpan(s, Pred(|s|, b), Off(|s|, Pred(|s|, b), fq))
  {
    var n, d := |s|, Off(|s|, b, fq);
    assert SlotOk(s, home, pending, b);
    if d + 1 == n {
      var a :| 0 <= a < n && !IsShifted(s[a]);
      AtOff(n, b, a);
      assert false;
    }
    var b' := Pred(n, b);
    forall p | 0 <= p <= d + 1
      ensures Used(s[At(n, b', p)])
      ensures p > 0 ==> IsShifted(s[At(n, b', p)])
    {
      if p > 0 {
        AtPred(n, b, p - 1);
      }
    }
  }

  /** The backward scan ends at the start of a cluster. */
  lemma BackDone(s: seq<nat>, home: seq<nat>, pending: int, fq: nat, c: nat)
    requires Inv(s, home, pending) && fq < |s| && c < |s|
    requires Used(s[c]) && !IsShifted(s[c])
    ensures home[c] == c && IsClusterStart(s[c])
  {
    assert SlotOk(s, home, pending, c);
  }

  /**
   * The forward scan after it has paired the runs before slot r with the
   * occupied slots before b: every slot before r holds a remainder of a
   * canonical slot before b, and r holds the first remainder of b's run.
   */
  ghost predicate Scanned(s: seq<nat>, home: seq<nat>, pending: int, c: nat, fq: nat, b: nat, r: nat)
  {
    && ScanBase(s, home, pending, c, fq)
    && b < |s| && r < |s|
    && Off(|s|, c, b) <= Off(|s|, c, fq) && IsOccupied(s[b])
    && Off(|s|, c, b) <= Off(|s|, c, r)
    && (forall p :: 0 <= p < Off(|s|, c, r) ==>
          Used(s[At(|s|, c, p)]) && Vh(s, home, c, At(|s|, c, p)) < Off(|s|, c, b))
    && (Used(s[r]) ==> Vh(s, home, c, r) >= Off(|s|, c, b))
    && (b != pending ==> Used(s[r]) && Vh(s, home, c, r) == Off(|s|, c, b))
  }

  lemma ScanStart(s: seq<nat>, home: seq<nat>, pending: int, c: nat, fq: nat)
    requires ScanBase(s, home, pending, c, fq)
    ensures Scanned(s, home, pending, c, fq, c, c)
  {
    assert SlotOk(s, home, pending, c);
  }

  /** Stepping through the run of b: the slots before r belong to canonical slots up to b, the one before r to b itself. */
  ghost predicate InRun(s: seq<nat>, home: seq<nat>, pending: int, c: nat, fq: nat, b: nat, r: nat)
  {
    && ScanBase(s, home, pending, c, fq)
    && b < |s| && r < |s|
    && Off(|s|, c, b) < Off(|s|, c, fq) && IsOccupied(s[b])
    && 0 < Off(|s|, c, r)
    && (forall p :: 0 <= p < Off(|s|, c, r) ==>
          Used(s[At(|s|, c, p)]) && Vh(s, home, c, At(|s|, c, p)) <= Off(|s|, c, b))
    && Vh(s, home, c, At(|s|, c, Off(|s|, c, r) - 1)) == Off(|s|, c, b)
  }

  lemma RunEnter(s: seq<nat>, home: seq<nat>, pending: int, c: nat, fq: nat, b: nat, r: nat)
    requires Scanned(s, home, pending, c, fq, b, r) && b != fq
    ensures InRun(s, home, pending, c, fq, b, Succ(|s|, r))
  {
    var n := |s|;
    AtOff(n, c, r);
    NoWrap(s, home, pending, c, fq, r);
    OffSucc(n, c, r);
  }

  lemma RunAdvance(s: seq<nat>, home: seq<nat>, pending: int, c: nat, fq: nat, b: nat, r: nat)
    requires InRun(s, home, pending, c, fq, b, r) && IsContinuation(s[r])
    ensures InRun(s, home, pending, c, fq, b, Succ(|s|, r))
  {
    var n, k := |s|, Off(|s|, c, r);
    AtOff(n, c, r);
    StepVh(s, home, pending, c, k - 1);
    NoWrap(s, home, pending, c, fq, r);
    OffSucc(n, c, r);
  }

  /** Stepping b over the unoccupied slots between two occupied ones. */
  ghost predicate Gap(s: seq<nat>, c: nat, fq: nat, b: nat, b': nat)
    requires c < |s| && fq < |s| && b < |s| && b' < |s|
  {
    && Off(|s|, c, b) < Off(|s|, c, b') <= Off(|s|, c, fq)
    && forall p :: Off(|s|, c, b) < p < Off(|s|, c, b') ==> !IsOccupied(s[At(|s|, c, p)])
  }

  lemma GapEnter(s: seq<nat>, c: nat, fq: nat, b: nat)
    requires c < |s| && fq < |s| && b < |s| && Off(|s|, c, b) < Off(|s|, c, fq)
    ensures Gap(s, c, fq, b, Succ(|s|, b))
  {
    OffSucc(|s|, c, b);
  }

  lemma GapAdvance(s: seq<nat>, c: nat, fq: nat, b: nat, b': nat)
    requires c < |s| && fq < |s| && b < |s| && b' < |s| && IsOccupied(s[fq])
    requires Gap(s, c, fq, b, b') && !IsOccupied(s[b'])
    ensures Gap(s, c, fq, b, Succ(|s|, b'))
  {
    var n := |s|;
    AtOff(n, c, b');
    OffSucc(n, c, b');
    forall p | Off(n, c, b) < p < Off(n, c, Succ(n, b'))
      ensures !IsOccupied(s[At(n, c, p)])
    {
      if p == Off(n, c, b') {
        AtOff(n, c, b');
      }
    }
  }

  /** Leaving the run of b, r lands on the run of the next occupied slot b'. */
  lemma RunLeave(s: seq<nat>, home: seq<nat>, pending: int, c: nat, fq: nat, b: nat, r: nat, b': nat)
    requires InRun(s, home, pending, c, fq, b, r) && !IsContinuation(s[r])
    requires b' < |s| && Gap(s, c, fq, b, b') && IsOccupied(s[b'])
    ensures Scanned(s, home, pending, c, fq, b', r)
  {
    var n, k := |s|, Off(|s|, c, r);
    AtOff(n, c, r);
    if Used(s[r]) {
      StepVh(s, home, pending, c, k - 1);
      var v := Vh(s, home, c, r);
      VhHome(s, home, c, r);
      assert SlotOk(s, home, pending, r);
      assert v >= Off(n, c, b');
    }
    if b' != pending {
      assert SlotOk(s, home, pending, b');
      var y :| 0 <= y < n && Used(s[y]) && home[y] == b';
      WitnessWindow(s, home, pending, c, fq, b', y);
      AtOff(n, c, y);
      if Off(n, c, y) < k {
        assert false;
      }
      MonoVh(s, home, pending, c, k, Off(n, c, y));
    } else if !Used(s[r]) && k <= Off(n, c, fq) {
      assert false;
    }
  }

  /**
   * What the scan establishes about the run of fq: `r` is where the run of
   * fq begins, or, when fq has no run yet, where it would be inserted.
   */
  ghost predicate RunLocated(s: seq<nat>, home: seq<nat>, pending: int, c: nat, fq: nat, r: nat)
  {
    Scanned(s, home, pending, c, fq, fq, r)
  }

  /** The fingerprints stored in a table, as (quotient, remainder) pairs. */
  ghost function Contents(s: seq<nat>, home: seq<nat>): set<(nat, nat)>
    requires |home| == |s|
  {
    set i | 0 <= i < |s| && Used(s[i]) :: (home[i], GetRemainder(s[i]))
  }

  /** When fq has a run, it begins at the located slot. */
  lemma RunHead(s: seq<nat>, home: seq<nat>, pending: int, c: nat, fq: nat, r: nat)
    requires RunLocated(s, home, pending, c, fq, r) && fq != pending
    ensures Used(s[r]) && home[r] == fq
  {
    VhHome(s, home, c, r);
    AtOff(|s|, c, fq);
  }

  /**
   * Every remainder of fq lies in the run that begins at the located slot:
   * from there up to it every slot is a continuation of that run.
   */
  lemma RunMember(s: seq<nat>, home: seq<nat>, pending: int, c: nat, fq: nat, r: nat, y: nat)
    requires RunLocated(s, home, pending, c, fq, r)
    requires y < |s| && Used(s[y]) && home[y] == fq
    ensures Off(|s|, c, r) <= Off(|s|, c, y)
    ensures UsedSpan(s, c, Off(|s|, c, y))
    ensures forall p :: Off(|s|, c, r) <= p <= Off(|s|, c, y) ==> Vh(s, home, c, At(|s|, c, p)) == Off(|s|, c, fq)
    ensures forall p :: Off(|s|, c, r) < p <= Off(|s|, c, y) ==> IsContinuation(s[At(|s|, c, p)])
  {
    var n, k0 := |s|, Off(|s|, c, r);
    WitnessWindow(s, home, pending, c, fq, fq, y);
    AtOff(n, c, y);
    AtOff(n, c, r);
    if Off(n, c, y) < k0 {
      assert false;
    }
    var ky := Off(n, c, y);
    forall p | k0 <= p <= ky
      ensures Vh(s, home, c, At(n, c, p)) == Off(n, c, fq)
    {
      MonoVh(s, home, pending, c, k0, p);
      MonoVh(s, home, pending, c, p, ky);
    }
    forall p | k0 < p <= ky
      ensures IsContinuation(s[At(n, c, p)])
    {
      StepVh(s, home, pending, c, p - 1);
    }
  }

  /** Along a stretch of continuations the remainders strictly increase. */
  lemma {:induction false} RunSorted(s: seq<nat>, home: seq<nat>, pending: int, c: nat, p1: nat, p2: nat)
    requires Inv(s, home, pending) && c < |s| && p1 < p2 < |s|
    requires forall p :: p1 < p <= p2 ==> IsContinuation(s[At(|s|, c, p)])
    ensures GetRemainder(s[At(|s|, c, p1)]) < GetRemainder(s[At(|s|, c, p2)])
    decreases p2 - p1
  {
    var n := |s|;
    AtSucc(n, c, p2 - 1);
    assert SlotOk(s, home, pending, At(n, c, p2));
    if p1 < p2 - 1 {
      RunSorted(s, home, pending, c, p1, p2 - 1);
    }
  }

  /** The remainders of the run of fq scanned so far, from its first slot up to before offset k, are all below fr. */
  ghost predicate Below(s: seq<nat>, c: nat, k0: nat, k: nat, fr: nat)
    requires c < |s|
  {
    forall p :: k0 <= p < k && p < |s| ==> GetRemainder(s[At(|s|, c, p)]) < fr
  }

  /** The scan through the run of fq, at offset k with the remainders before it below fr. */
  ghost predicate Searching(s: seq<nat>, home: seq<nat>, pending: int, c: nat, fq: nat, r: nat, k: nat, fr: nat)
  {
    && RunLocated(s, home, pending, c, fq, r)
    && Off(|s|, c, r) <= k < |s|
    && Used(s[At(|s|, c, k)]) && Vh(s, home, c, At(|s|, c, k)) == Off(|s|, c, fq)
    && Below(s, c, Off(|s|, c, r), k, fr)
  }

  lemma SearchStart(s: seq<nat>, home: seq<nat>, pending: int, c: nat, fq: nat, r: nat, fr: nat)
    requires RunLocated(s, home, pending, c, fq, r) && fq != pending
    ensures Searching(s, home, pending, c, fq, r, Off(|s|, c, r), fr)
    ensures At(|s|, c, Off(|s|, c, r)) == r
  {
    AtOff(|s|, c, r);
  }

  /** A continuation after the slot at offset k is the next slot of the same run. */
  lemma SearchAdvance(s: seq<nat>, home: seq<nat>, pending: int, c: nat, fq: nat, r: nat, k: nat, fr: nat)
    requires Searching(s, home, pending, c, fq, r, k, fr)
    requires GetRemainder(s[At(|s|, c, k)]) < fr
    requires IsContinuation(s[Succ(|s|, At(|s|, c, k))])
    ensures k + 1 < |s| && At(|s|, c, k + 1) == Succ(|s|, At(|s|, c, k))
    ensures Searching(s, home, pending, c, fq, r, k + 1, fr)
  {
    var n := |s|;
    if k + 1 == n {
      assert false;
    }
    AtSucc(n, c, k);
    StepVh(s, home, pending, c, k);
  }

  /** The scan finds fr exactly when fq's run holds it. */
  lemma SearchFound(s: seq<nat>, home: seq<nat>, pending: int, c: nat, fq: nat, r: nat, k: nat, fr: nat)
    requires Searching(s, home, pending, c, fq, r, k, fr)
    requires GetRemainder(s[At(|s|, c, k)]) == fr
    ensures (fq, fr) in Contents(s, home)
  {
    var n := |s|;
    VhHome(s, home, c, At(n, c, k));
    AtOff(n, c, fq);
  }

  /** A remainder above fr in fq's sorted run means fr is not stored under fq. */
  lemma SearchPassed(s: seq<nat>, home: seq<nat>, pending: int, c: nat, fq: nat, r: nat, k: nat, fr: nat)
    requires Searching(s, home, pending, c, fq, r, k, fr)
    requires GetRemainder(s[At(|s|, c, k)]) > fr
    ensures (fq, fr) !in Contents(s, home)
    ensures forall y :: 0 <= y < |s| && Used(s[y]) && home[y] == fq && GetRemainder(s[y]) > fr ==> Off(|s|, c, y) >= k
  {
    var n := |s|;
    forall y | 0 <= y < n && Used(s[y]) && home[y] == fq
      ensures GetRemainder(s[y]) != fr
      ensures GetRemainder(s[y]) > fr ==> Off(n, c, y) >= k
    {
      RunMember(s, home, pending, c, fq, r, y);
      AtOff(n, c, y);
      if Off(n, c, y) > k {
        RunSorted(s, home, pending, c, k, Off(n, c, y));
      }
    }
  }

  /** Reaching the end of fq's run with every remainder below fr means fr is not stored under fq. */
  lemma SearchEnded(s: seq<nat>, home: seq<nat>, pending: int, c: nat, fq: nat, r: nat, k: nat, fr: nat)
    requires Searching(s, home, pending, c, fq, r, k, fr)
    requires GetRemainder(s[At(|s|, c, k)]) < fr
    requires !IsContinuation(s[Succ(|s|, At(|s|, c, k))])
    ensures (fq, fr) !in Contents(s, home)
    ensures forall y :: 0 <= y < |s| && Used(s[y]) && home[y] == fq ==> Off(|s|, c, y) <= k
  {
    var n := |s|;
    forall y | 0 <= y < n && Used(s[y]) && home[y] == fq
      ensures GetRemainder(s[y]) != fr
      ensures Off(n, c, y) <= k
    {
      RunMember(s, home, pending, c, fq, r, y);
      AtOff(n, c, y);
      if Off(n, c, y) > k {
        AtSucc(n, c, k);
        assert false;
      }
    }
  }

  /**
   * Between the canonical slots of two neighbouring remainders of a cluster
   * no slot is marked occupied: its remainders would have to sit between them.
   */
  lemma GapUnoccupied(s: seq<nat>, home: seq<nat>, c: nat, hx: nat, kj: nat, b: nat)
    requires ScanBase(s, home, -1, c, hx) && kj + 1 < |s| && UsedSpan(s, c, kj + 1) && b < |s|
    requires Vh(s, home, c, At(|s|, c, kj)) < Off(|s|, c, b) < Vh(s, home, c, At(|s|, c, kj + 1))
    requires Off(|s|, c, b) <= Off(|s|, c, hx)
    ensures !IsOccupied(s[b])
  {
    var n := |s|;
    if IsOccupied(s[b]) {
      assert SlotOk(s, home, -1, b);
      var y :| 0 <= y < n && Used(s[y]) && home[y] == b;
      WitnessWindow(s, home, -1, c, hx, b, y);
      AtOff(n, c, y);
      var ky := Off(n, c, y);
      if ky <= kj {
        MonoVh(s, home, -1, c, ky, kj);
      } else {
        MonoVh(s, home, -1, c, kj + 1, ky);
      }
      assert false;
    }
  }

  /**
   * The remainder after the one at offset kj from the cluster start, when it
   * begins a run, belongs to the first slot marked occupied after the
   * canonical slot of the one at kj.
   */
  lemma NextRunHome(s: seq<nat>, home: seq<nat>, c: nat, kj: nat)
    requires Inv(s, home, -1) && c < |s| && Used(s[c]) && home[c] == c && !IsContinuation(s[c])
    requires kj + 1 < |s| && UsedSpan(s, c, kj + 1) && !IsContinuation(s[At(|s|, c, kj + 1)])
    ensures var n, j, x := |s|, At(|s|, c, kj), At(|s|, c, kj + 1);
      && home[j] < n && home[x] < n
      && 0 < Off(n, home[j], home[x]) && IsOccupied(s[home[x]])
      && forall q :: 0 < q < Off(n, home[j], home[x]) ==> !IsOccupied(s[At(n, home[j], q)])
  {
    var n, j, x := |s|, At(|s|, c, kj), At(|s|, c, kj + 1);
    StepVh(s, home, -1, c, kj);
    VhNonNeg(s, home, -1, c, j);
    VhNonNeg(s, home, -1, c, x);
    VhHome(s, home, c, j);
    VhHome(s, home, c, x);
    var hj, hx := home[j], home[x];
    assert Off(n, hj, hx) == Off(n, c, hx) - Off(n, c, hj);
    assert SlotOk(s, home, -1, x);
    assert UsedSpan(s, c, Off(n, c, hx));
    assert ScanBase(s, home, -1, c, hx);
    forall q | 0 < q < Off(n, hj, hx)
      ensures !IsOccupied(s[At(n, hj, q)])
    {
      AtShift(n, c, hj, q);
      GapUnoccupied(s, home, c, hx, kj, At(n, hj, q));
    }
  }

  /** Either side of a slot of a cluster, remainders belong to different canonical slots when the one after begins a run. */
  lemma SkipHome(s: seq<nat>, home: seq<nat>, c: nat, k: nat)
    requires Inv(s, home, -1) && c < |s| && Used(s[c]) && home[c] == c
    requires 0 < k && k + 1 < |s| && UsedSpan(s, c, k + 1) && !IsContinuation(s[At(|s|, c, k + 1)])
    ensures home[At(|s|, c, k - 1)] != home[At(|s|, c, k + 1)]
  {
    var pi, x := At(|s|, c, k - 1), At(|s|, c, k + 1);
    StepVh(s, home, -1, c, k - 1);
    StepVh(s, home, -1, c, k);
    VhNonNeg(s, home, -1, c, pi);
    VhNonNeg(s, home, -1, c, x);
    VhHome(s, home, c, pi);
    VhHome(s, home, c, x);
  }

  /**
   * What the flags mean in a valid table: a slot is occupied exactly when
   * some stored remainder belongs to it; a remainder is shifted exactly when
   * it is not in its canonical slot, and a continuation exactly when it is
   * shifted and the slot before holds a remainder of the same quotient.
   */
  lemma FlagMeaning(s: seq<nat>, home: seq<nat>, i: nat)
    requires Inv(s, home, -1) && i < |s|
    ensures IsOccupied(s[i]) <==> HasRun(s, home, i)
    ensures Used(s[i]) ==> (IsShifted(s[i]) <==> home[i] != i)
    ensures Used(s[i]) ==> (IsContinuation(s[i]) <==> home[i] != i && home[Pred(|s|, i)] == home[i])
  {
    assert SlotOk(s, home, -1, i);
    if HasRun(s, home, i) {
      var y :| 0 <= y < |s| && Used(s[y]) && home[y] == i;
      assert SlotOk(s, home, -1, y);
    }
  }

  /** is_cluster_start (qf.h:159): the slot holds a remainder that sits in its own canonical slot. */
  lemma ClusterStartMeaning(s: seq<nat>, home: seq<nat>, i: nat)
    requires Inv(s, home, -1) && i < |s|
    ensures IsClusterStart(s[i]) <==> Used(s[i]) && home[i] == i
  {
    FlagMeaning(s, home, i);
    if Used(s[i]) && home[i] == i {
      assert HasRun(s, home, i);
    }
  }

  /** is_run_start (qf.h:161): the slot holds the first remainder of its quotient's run. */
  lemma RunStartMeaning(s: seq<nat>, home: seq<nat>, i: nat)
    requires Inv(s, home, -1) && i < |s|
    ensures IsRunStart(s[i]) <==> Used(s[i]) && (home[i] == i || home[Pred(|s|, i)] != home[i])
  {
    FlagMeaning(s, home, i);
    EmptyIffNoFlags(s[i]);
  }

  /** A slot whose occupied bit is clear is the canonical slot of no stored remainder. */
  lemma NotOccupied(s: seq<nat>, home: seq<nat>, fq: nat, fr: nat)
    requires Inv(s, home, -1) && fq < |s| && !IsOccupied(s[fq])
    ensures forall y :: 0 <= y < |s| && Used(s[y]) ==> home[y] != fq
    ensures (fq, fr) !in Contents(s, home)
  {
    forall y | 0 <= y < |s| && Used(s[y])
      ensures home[y] != fq
    {
      assert SlotOk(s, home, -1, y);
    }
  }

  lemma {:induction false} CountNone(s: seq<nat>, m: nat)
    requires m <= |s| && forall i :: 0 <= i < |s| ==> !Used(s[i])
    ensures CountBelow(s, m) == 0
  {
    if m > 0 {
      CountNone(s, m - 1);
    }
  }

  lemma {:induction false} BelowNone(s: seq<nat>, m: nat)
    requires m <= |s| && CountBelow(s, m) == 0
    ensures forall i :: 0 <= i < m ==> !Used(s[i])
  {
    if m > 0 {
      BelowNone(s, m - 1);
    }
  }

  /** A table that counts no remainder holds no fingerprint. */
  lemma NothingCounted(s: seq<nat>, home: seq<nat>)
    requires |home| == |s| && CountUsed(s) == 0
    ensures Contents(s, home) == {}
  {
    BelowNone(s, |s|);
  }

  /** A table of empty slots satisfies the invariant and holds nothing. */
  lemma EmptyTable(n: nat)
    requires n > 0
    ensures Inv(Zeros(n), Zeros(n), -1)
    ensures Contents(Zeros(n), Zeros(n)) == {}
    ensures CountUsed(Zeros(n)) == 0
  {
    var z := Zeros(n);
    assert forall i :: 0 <= i < n ==> !Used(z[i]);
    assert SlotOk(z, z, -1, 0);
    CountNone(z, n);
  }
}
