/**
 * What the iterator (qf.h:105-120) walks over.  qfi_start picks the first
 * cluster start w; qfi_next then visits the slots in order round the table
 * from w, and hands out the fingerprint of each that holds a remainder.
 * After k slots it has handed out CountBelow(Rotated(s, w), k) of them, the
 * set Seen(s, home, w, k).
 */
module Iteration {
  import opened Bits
  import opened Slot
  import opened Layout
  import opened Runs

  /** The table read round from slot w. */
  function Rotated(s: seq<nat>, w: nat): (t: seq<nat>)
    requires w < |s|
    ensures |t| == |s| && forall p :: 0 <= p < |s| ==> t[p] == s[At(|s|, w, p)]
  {
    seq(|s|, p requires 0 <= p < |s| => s[At(|s|, w, p)])
  }

  /** Read from w, the first p slots are slots w to w + p - 1. */
  lemma {:induction false} RotatedHead(s: seq<nat>, w: nat, p: nat)
    requires w < |s| && w + p <= |s|
    ensures CountBelow(Rotated(s, w), p) + CountBelow(s, w) == CountBelow(s, w + p)
  {
    if p > 0 {
      RotatedHead(s, w, p - 1);
    }
  }

  /** Past the end of the table, reading from w continues at slot 0. */
  lemma {:induction false} RotatedTail(s: seq<nat>, w: nat, p: nat)
    requires w < |s| && p <= w
    ensures CountBelow(Rotated(s, w), |s| - w + p) + CountBelow(s, w) == CountBelow(s, |s|) + CountBelow(s, p)
  {
    if p > 0 {
      RotatedTail(s, w, p - 1);
    } else {
      RotatedHead(s, w, |s| - w);
    }
  }

  /** Reading the table round from any slot counts the same remainders. */
  lemma RotatedCount(s: seq<nat>, w: nat)
    requires w < |s|
    ensures CountUsed(Rotated(s, w)) == CountUsed(s)
  {
    RotatedTail(s, w, w);
  }

  lemma {:induction false} BelowMono(s: seq<nat>, a: nat, b: nat)
    requires a <= b <= |s|
    ensures CountBelow(s, a) <= CountBelow(s, b)
    decreases b - a
  {
    if a < b {
      BelowMono(s, a, b - 1);
    }
  }

  /** No more remainders than slots. */
  lemma {:induction false} BelowAtMost(s: seq<nat>, m: nat)
    requires m <= |s|
    ensures CountBelow(s, m) <= m
  {
    if m > 0 {
      BelowAtMost(s, m - 1);
    }
  }

  /** A table that counts a remainder holds one. */
  lemma {:induction false} SomeUsed(s: seq<nat>, m: nat) returns (y: nat)
    requires m <= |s| && CountBelow(s, m) > 0
    ensures y < m && Used(s[y])
  {
    if Used(s[m - 1]) {
      y := m - 1;
    } else {
      y := SomeUsed(s, m - 1);
    }
  }

  /** The fingerprints in the first k slots read round from w. */
  ghost function Seen(s: seq<nat>, home: seq<nat>, w: nat, k: nat): set<(nat, nat)>
    requires |home| == |s| && w < |s|
  {
    set p | 0 <= p < k && p < |s| && Used(s[At(|s|, w, p)]) :: (home[At(|s|, w, p)], GetRemainder(s[At(|s|, w, p)]))
  }

  /**
   * Visiting one more slot adds its fingerprint, if it holds one, and that
   * fingerprint was not seen before: no two slots hold the same one.
   */
  lemma SeenStep(s: seq<nat>, home: seq<nat>, w: nat, k: nat)
    requires Inv(s, home, -1) && w < |s| && k < |s|
    ensures var y := At(|s|, w, k);
      && (!Used(s[y]) ==> Seen(s, home, w, k + 1) == Seen(s, home, w, k))
      && (Used(s[y]) ==>
            && (home[y], GetRemainder(s[y])) !in Seen(s, home, w, k)
            && Seen(s, home, w, k + 1) == Seen(s, home, w, k) + {(home[y], GetRemainder(s[y]))})
  {
    var n, y := |s|, At(|s|, w, k);
    if Used(s[y]) {
      forall p | 0 <= p < k && Used(s[At(n, w, p)])
        ensures (home[At(n, w, p)], GetRemainder(s[At(n, w, p)])) != (home[y], GetRemainder(s[y]))
      {
        assert Apart(s, home, At(n, w, p), y);
      }
    }
  }

  /** Once as many remainders have been visited as the table holds, every stored fingerprint has been seen. */
  lemma SeenAll(s: seq<nat>, home: seq<nat>, w: nat, k: nat)
    requires |home| == |s| && w < |s| && k <= |s|
    requires CountBelow(Rotated(s, w), k) == CountUsed(s)
    ensures Seen(s, home, w, k) == Contents(s, home)
  {
    var n, t := |s|, Rotated(s, w);
    forall y | 0 <= y < n && Used(s[y])
      ensures (home[y], GetRemainder(s[y])) in Seen(s, home, w, k)
    {
      var p := Off(n, w, y);
      AtOff(n, w, y);
      if p >= k {
        BelowMono(t, k, p);
        BelowMono(t, p + 1, n);
        RotatedCount(s, w);
        assert false;
      }
    }
  }

  /** Each remainder visited gives a fingerprint of its own: the seen set has as many as were counted. */
  lemma {:induction false} SeenCard(s: seq<nat>, home: seq<nat>, w: nat, k: nat)
    requires Inv(s, home, -1) && w < |s| && k <= |s|
    ensures |Seen(s, home, w, k)| == CountBelow(Rotated(s, w), k)
    decreases k
  {
    if k == 0 {
      assert Seen(s, home, w, 0) == {};
    } else {
      SeenCard(s, home, w, k - 1);
      SeenStep(s, home, w, k - 1);
    }
  }

  /** A valid table holds as many distinct fingerprints as it has used slots. */
  lemma ContentsCard(s: seq<nat>, home: seq<nat>)
    requires Inv(s, home, -1)
    ensures |Contents(s, home)| == CountUsed(s)
  {
    RotatedCount(s, 0);
    SeenAll(s, home, 0, |s|);
    SeenCard(s, home, 0, |s|);
  }

  /** Walking back from a remainder over shifted slots reaches the start of its cluster. */
  lemma ClusterOf(s: seq<nat>, home: seq<nat>, y: nat) returns (c: nat)
    requires Inv(s, home, -1) && y < |s| && Used(s[y])
    ensures c < |s| && Used(s[c]) && home[c] == c && IsClusterStart(s[c])
    ensures UsedSpan(s, c, Off(|s|, c, y))
  {
    var n := |s|;
    c := y;
    while IsShifted(s[c])
      invariant c < n && Used(s[c])
      invariant UsedSpan(s, c, Off(n, c, y)) && ShiftedSpan(s, c, Off(n, c, y))
      decreases n - Off(n, c, y)
    {
      BackStep(s, home, -1, y, c);
      c := Pred(n, c);
    }
    BackDone(s, home, -1, y, c);
  }

  /**
   * qfi_next's `quotient` after a shifted run start y: the first slot marked
   * occupied after the canonical slot of the remainder just before y.
   */
  lemma RunHomeAfter(s: seq<nat>, home: seq<nat>, y: nat)
    requires Inv(s, home, -1) && y < |s| && Used(s[y]) && IsShifted(s[y]) && !IsContinuation(s[y])
    ensures var n, j := |s|, Pred(|s|, y);
      && Used(s[j]) && home[j] < n && home[y] < n
      && 0 < Off(n, home[j], home[y]) && IsOccupied(s[home[y]])
      && forall q :: 0 < q < Off(n, home[j], home[y]) ==> !IsOccupied(s[At(n, home[j], q)])
  {
    var n, j := |s|, Pred(|s|, y);
    assert SlotOk(s, home, -1, y);
    var c := ClusterOf(s, home, j);
    var kj := Off(n, c, j);
    assert y != c;
    OffSucc(n, c, j);
    AtOff(n, c, j);
    AtSucc(n, c, kj);
    NextRunHome(s, home, c, kj);
  }

  /**
   * The state of an iterator over a table holding `entries` remainders
   * (CountUsed(s), kept beside it so that the invariant is stated once):
   * k slots read from the cluster start w, `visited` remainders among them,
   * their fingerprints `seen`.  While some are left, `index` is the next slot
   * to read and `quotient` the canonical slot of the remainder just read.
   */
  ghost predicate Cursor(s: seq<nat>, home: seq<nat>, entries: nat, w: nat, k: nat,
                         visited: nat, seen: set<(nat, nat)>, index: nat, quotient: nat)
  {
    && |home| == |s| && w < |s| && k <= |s|
    && visited == CountBelow(Rotated(s, w), k) && visited <= entries
    && seen == Seen(s, home, w, k)
    && (visited < entries ==>
          && k < |s| && index == At(|s|, w, k) && IsClusterStart(s[w])
          && (0 < k && Used(s[At(|s|, w, k - 1)]) ==> quotient == home[At(|s|, w, k - 1)]))
  }

  /** qfi_start's cursor: nothing read yet, from a cluster start when there is anything to read. */
  lemma CursorStart(s: seq<nat>, home: seq<nat>, entries: nat, w: nat, index: nat, quotient: nat)
    requires Inv(s, home, -1) && entries == CountUsed(s) && w < |s|
    requires entries > 0 ==> IsClusterStart(s[w]) && index == w
    ensures Cursor(s, home, entries, w, 0, 0, {}, index, quotient)
  {
  }

  /** qfi_done: when every remainder has been read, every fingerprint has been seen. */
  lemma CursorDone(s: seq<nat>, home: seq<nat>, entries: nat, w: nat, k: nat,
                   visited: nat, seen: set<(nat, nat)>, index: nat, quotient: nat)
    requires entries == CountUsed(s) && Cursor(s, home, entries, w, k, visited, seen, index, quotient)
    requires visited == entries
    ensures seen == Contents(s, home)
  {
    SeenAll(s, home, w, k);
  }

  /** While fewer remainders have been read than the table holds, some stored fingerprint is still unseen. */
  lemma CursorPending(s: seq<nat>, home: seq<nat>, entries: nat, w: nat, k: nat,
                      visited: nat, seen: set<(nat, nat)>, index: nat, quotient: nat)
    requires Inv(s, home, -1) && entries == CountUsed(s)
    requires Cursor(s, home, entries, w, k, visited, seen, index, quotient) && visited < entries
    ensures seen != Contents(s, home)
  {
    SeenCard(s, home, w, k);
    ContentsCard(s, home);
  }

  /** Before qfi_next reads a shifted run start, the run it follows belongs to `quotient`: the search for the next occupied slot ends at the new run's canonical slot. */
  lemma CursorRunStart(s: seq<nat>, home: seq<nat>, entries: nat, w: nat, k: nat,
                       visited: nat, seen: set<(nat, nat)>, index: nat, quotient: nat)
    requires Inv(s, home, -1) && Cursor(s, home, entries, w, k, visited, seen, index, quotient)
    requires visited < entries && IsRunStart(s[index]) && !IsClusterStart(s[index])
    ensures var n, b := |s|, home[index];
      && quotient < n && b < n && 0 < Off(n, quotient, b) && IsOccupied(s[b])
      && forall q :: 0 < q < Off(n, quotient, b) ==> !IsOccupied(s[At(n, quotient, q)])
  {
    var n, y := |s|, index;
    assert SlotOk(s, home, -1, y);
    if k > 0 {
      AtSucc(n, w, k - 1);
    }
    RunHomeAfter(s, home, y);
  }

  /** The slot qfi_next reads next: where its remainder, if any, belongs. */
  ghost function Quot(s: seq<nat>, home: seq<nat>, index: nat, quotient: nat): nat
    requires |home| == |s| && index < |s|
  {
    if IsClusterStart(s[index]) then index else if IsRunStart(s[index]) then home[index] else quotient
  }

  /**
   * One round of qfi_next's loop over an empty slot: it is passed over.
   * The quotient a cluster or run start would set is never read before the
   * next cluster start resets it.
   */
  lemma CursorSkip(s: seq<nat>, home: seq<nat>, entries: nat, w: nat, k: nat,
                   visited: nat, seen: set<(nat, nat)>, index: nat, quotient: nat, quot: nat, next: nat)
    requires Inv(s, home, -1) && entries == CountUsed(s)
    requires Cursor(s, home, entries, w, k, visited, seen, index, quotient) && visited < entries
    requires !Used(s[index]) && next == Succ(|s|, index)
    ensures Cursor(s, home, entries, w, k + 1, visited, seen, next, quot)
  {
    Advance(s, home, entries, w, k, visited);
    SeenStep(s, home, w, k);
  }

  /**
   * One round of qfi_next's loop over a slot holding a remainder: `quotient`
   * becomes the slot itself at a cluster start, the canonical slot of a new
   * run at a run start, and stays otherwise; that is the remainder's
   * canonical slot, and the fingerprint handed out is new.
   */
  lemma CursorTake(s: seq<nat>, home: seq<nat>, entries: nat, w: nat, k: nat,
                   visited: nat, seen: set<(nat, nat)>, index: nat, quotient: nat,
                   quot: nat, fp: (nat, nat), next: nat)
    requires Inv(s, home, -1) && entries == CountUsed(s)
    requires Cursor(s, home, entries, w, k, visited, seen, index, quotient) && visited < entries
    requires Used(s[index]) && next == Succ(|s|, index)
    requires quot == Quot(s, home, index, quotient) && fp == (quot, GetRemainder(s[index]))
    ensures quot == home[index] && quot < |s|
    ensures fp in Contents(s, home) && fp !in seen
    ensures Cursor(s, home, entries, w, k + 1, visited + 1, seen + {fp}, next, quot)
  {
    var n, y := |s|, index;
    assert SlotOk(s, home, -1, y);
    if !IsClusterStart(s[y]) && !IsRunStart(s[y]) {
      AtSucc(n, w, k - 1);
    }
    Advance(s, home, entries, w, k, visited);
    SeenStep(s, home, w, k);
  }

  /** After one more slot, the cursor still has slots left to read while it has remainders left to hand out. */
  lemma Advance(s: seq<nat>, home: seq<nat>, entries: nat, w: nat, k: nat, visited: nat)
    requires entries == CountUsed(s) && w < |s| && k < |s|
    requires visited == CountBelow(Rotated(s, w), k)
    ensures var visited' := CountBelow(Rotated(s, w), k + 1);
      && visited' == visited + (if Used(s[At(|s|, w, k)]) then 1 else 0)
      && visited' <= entries
      && (visited' < entries ==> k + 1 < |s| && Succ(|s|, At(|s|, w, k)) == At(|s|, w, k + 1))
  {
    var n := |s|;
    RotatedCount(s, w);
    BelowMono(Rotated(s, w), k + 1, n);
    if k + 1 < n {
      AtSucc(n, w, k);
    }
  }
}
