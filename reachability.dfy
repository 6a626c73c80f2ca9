// What the ant can reach: cells at the end of a walk of unit moves from the
// start cell in which every cell entered, but not the start itself, is
// admitted by the caller's predicate.

module Reachability {
  import opened Cells

  /** `w` lists the cells entered, in order, on a walk of at least one move
      from `start`; each is admitted by `p`. */
  ghost predicate IsWalk(start: Cell, p: Cell -> bool, w: seq<Cell>)
  {
    && |w| >= 1
    && Adjacent(start, w[0])
    && (forall i :: 1 <= i < |w| ==> Adjacent(w[i - 1], w[i]))
    && (forall i :: 0 <= i < |w| ==> p(w[i]))
  }

  /** `c` can be reached from `start` through admitted cells. */
  ghost predicate Reachable(start: Cell, p: Cell -> bool, c: Cell)
  {
    exists w :: IsWalk(start, p, w) && w[|w| - 1] == c
  }

  /** `c` can be reached from `start` in at most `k` moves through admitted
      cells: the cells found by the first `k` rounds of the expansion. */
  ghost predicate ReachableWithin(start: Cell, p: Cell -> bool, c: Cell, k: nat)
    decreases k
  {
    && k > 0
    && p(c)
    && (Adjacent(start, c) || exists d :: Adjacent(d, c) && ReachableWithin(start, p, d, k - 1))
  }

  /** `c` is first reached after exactly `k` moves. */
  ghost predicate ReachedAt(start: Cell, p: Cell -> bool, c: Cell, k: nat)
  {
    ReachableWithin(start, p, c, k) && !ReachableWithin(start, p, c, k - 1)
  }

  /** One admitted neighbour of the start cell is reachable. */
  lemma OneStep(start: Cell, p: Cell -> bool, c: Cell)
    requires Adjacent(start, c) && p(c)
    ensures Reachable(start, p, c)
  {
    assert IsWalk(start, p, [c]);
  }

  /** So is an admitted neighbour of an admitted neighbour of the start cell. */
  lemma TwoSteps(start: Cell, p: Cell -> bool, a: Cell, c: Cell)
    requires Adjacent(start, a) && p(a)
    requires Adjacent(a, c) && p(c)
    ensures Reachable(start, p, c)
  {
    assert IsWalk(start, p, [a, c]);
  }

  /** A walk of n moves ends at a cell reachable within n moves. */
  lemma {:induction false} WalkIsWithin(start: Cell, p: Cell -> bool, w: seq<Cell>)
    requires IsWalk(start, p, w)
    ensures ReachableWithin(start, p, w[|w| - 1], |w|)
    decreases |w|
  {
    if |w| > 1 {
      var w' := w[..|w| - 1];
      assert IsWalk(start, p, w');
      WalkIsWithin(start, p, w');
      assert Adjacent(w'[|w'| - 1], w[|w| - 1]);
    }
  }

  /** A cell reachable within k moves ends a walk of at most k moves. */
  lemma {:induction false} WithinIsWalk(start: Cell, p: Cell -> bool, c: Cell, k: nat)
    requires ReachableWithin(start, p, c, k)
    ensures exists w :: IsWalk(start, p, w) && |w| <= k && w[|w| - 1] == c
    decreases k
  {
    if Adjacent(start, c) {
      assert IsWalk(start, p, [c]);
    } else {
      var d :| Adjacent(d, c) && ReachableWithin(start, p, d, k - 1);
      WithinIsWalk(start, p, d, k - 1);
      var w' :| IsWalk(start, p, w') && |w'| <= k - 1 && w'[|w'| - 1] == d;
      var w := w' + [c];
      assert IsWalk(start, p, w);
    }
  }

  /** Reachability is reachability within some number of moves. */
  lemma ReachableIffWithin(start: Cell, p: Cell -> bool, c: Cell)
    ensures Reachable(start, p, c) <==> exists k: nat :: ReachableWithin(start, p, c, k)
  {
    if Reachable(start, p, c) {
      var w :| IsWalk(start, p, w) && w[|w| - 1] == c;
      WalkIsWithin(start, p, w);
      assert ReachableWithin(start, p, c, |w|);
    }
    if exists k: nat :: ReachableWithin(start, p, c, k) {
      var k: nat :| ReachableWithin(start, p, c, k);
      WithinIsWalk(start, p, c, k);
      var w :| IsWalk(start, p, w) && |w| <= k && w[|w| - 1] == c;
      assert Reachable(start, p, c);
    }
  }

  /** More moves reach at least the same cells. */
  lemma {:induction false} WithinMonotonic(start: Cell, p: Cell -> bool, c: Cell, j: nat, k: nat)
    requires j <= k
    requires ReachableWithin(start, p, c, j)
    ensures ReachableWithin(start, p, c, k)
    decreases j
  {
    if !Adjacent(start, c) {
      var d :| Adjacent(d, c) && ReachableWithin(start, p, d, j - 1);
      WithinMonotonic(start, p, d, j - 1, k - 1);
    }
  }

  /** `c` is first reached after exactly `k` moves when its shortest
      admitted walk has exactly `k` moves. */
  lemma ReachedAtIsShortest(start: Cell, p: Cell -> bool, c: Cell, k: nat)
    ensures ReachedAt(start, p, c, k) <==>
      && (exists w :: IsWalk(start, p, w) && |w| == k && w[|w| - 1] == c)
      && (forall w :: IsWalk(start, p, w) && w[|w| - 1] == c ==> |w| >= k)
  {
    if ReachedAt(start, p, c, k) {
      forall w | IsWalk(start, p, w) && w[|w| - 1] == c
        ensures |w| >= k
      {
        WalkIsWithin(start, p, w);
        if |w| < k {
          WithinMonotonic(start, p, c, |w|, k - 1);
        }
      }
      WithinIsWalk(start, p, c, k);
      var w :| IsWalk(start, p, w) && |w| <= k && w[|w| - 1] == c;
      assert |w| == k;
    }
    if (exists w :: IsWalk(start, p, w) && |w| == k && w[|w| - 1] == c)
      && (forall w :: IsWalk(start, p, w) && w[|w| - 1] == c ==> |w| >= k)
    {
      var w :| IsWalk(start, p, w) && |w| == k && w[|w| - 1] == c;
      WalkIsWithin(start, p, w);
      if ReachableWithin(start, p, c, k - 1) {
        WithinIsWalk(start, p, c, k - 1);
      }
    }
  }

  /** One round of expansion: the cells first reached after k + 1 moves are
      exactly the admitted cells adjacent to a cell first reached after k
      moves (to the start cell, for k = 0) and not reached before. */
  lemma NextLevel(start: Cell, p: Cell -> bool, c: Cell, k: nat)
    ensures ReachedAt(start, p, c, k + 1) <==>
      && p(c)
      && !ReachableWithin(start, p, c, k)
      && (if k == 0 then Adjacent(start, c) else exists d :: Adjacent(d, c) && ReachedAt(start, p, d, k))
  {
    if ReachedAt(start, p, c, k + 1) {
      if k == 0 {
        assert !exists d :: Adjacent(d, c) && ReachableWithin(start, p, d, 0);
      } else {
        assert !Adjacent(start, c);
        var d :| Adjacent(d, c) && ReachableWithin(start, p, d, k);
        assert ReachedAt(start, p, d, k);
      }
    }
    if k > 0 && p(c) && exists d :: Adjacent(d, c) && ReachedAt(start, p, d, k) {
      var d :| Adjacent(d, c) && ReachedAt(start, p, d, k);
      assert ReachableWithin(start, p, c, k + 1);
    }
  }

  /** A cell is first reached after one number of moves only: no cell is
      put on two frontiers, so no admitted cell is expanded twice. */
  lemma LevelsDisjoint(start: Cell, p: Cell -> bool, c: Cell, j: nat, k: nat)
    requires ReachedAt(start, p, c, j) && ReachedAt(start, p, c, k)
    ensures j == k
  {
    if j < k {
      WithinMonotonic(start, p, c, j, k - 1);
    } else if k < j {
      WithinMonotonic(start, p, c, k, j - 1);
    }
  }

  /** Once a round reaches nothing new, no longer walk reaches anything new. */
  lemma {:induction false} EmptyLevelIsFinal(start: Cell, p: Cell -> bool, k: nat, j: nat)
    requires k > 0
    requires forall c :: !ReachedAt(start, p, c, k)
    requires k <= j
    ensures forall c :: ReachableWithin(start, p, c, j) ==> ReachableWithin(start, p, c, k)
    decreases j
  {
    if j > k {
      EmptyLevelIsFinal(start, p, k, j - 1);
      forall c | ReachableWithin(start, p, c, j)
        ensures ReachableWithin(start, p, c, k)
      {
        if !Adjacent(start, c) {
          var d :| Adjacent(d, c) && ReachableWithin(start, p, d, j - 1);
          if !ReachableWithin(start, p, d, k - 1) {
            assert !ReachedAt(start, p, d, k);
          }
          assert ReachableWithin(start, p, c, k);
        }
      }
    }
  }

  /** A set of cells that holds every admitted neighbour of the start cell
      and of each of its own cells holds every reachable cell. */
  lemma ClosedHoldsReachable(start: Cell, p: Cell -> bool, s: set<Cell>, c: Cell)
    requires forall n :: Adjacent(start, n) && p(n) ==> n in s
    requires forall m, n :: m in s && Adjacent(m, n) && p(n) ==> n in s
    requires Reachable(start, p, c)
    ensures c in s
  {
    var w :| IsWalk(start, p, w) && w[|w| - 1] == c;
    WalkStaysIn(start, p, s, w);
  }

  lemma {:induction false} WalkStaysIn(start: Cell, p: Cell -> bool, s: set<Cell>, w: seq<Cell>)
    requires forall n :: Adjacent(start, n) && p(n) ==> n in s
    requires forall m, n :: m in s && Adjacent(m, n) && p(n) ==> n in s
    requires IsWalk(start, p, w)
    ensures w[|w| - 1] in s
    decreases |w|
  {
    if |w| > 1 {
      var w' := w[..|w| - 1];
      assert IsWalk(start, p, w');
      WalkStaysIn(start, p, s, w');
      assert Adjacent(w'[|w'| - 1], w[|w| - 1]);
    }
  }

  /** Every reachable cell is admitted; in particular nothing is reachable
      under a predicate that admits nothing. */
  lemma ReachableIsAdmitted(start: Cell, p: Cell -> bool, c: Cell)
    requires Reachable(start, p, c)
    ensures p(c)
  {
  }

  /** The start cell is reachable exactly when it is admitted and so is one
      of its neighbours: it is never in the result just for being the start. */
  lemma StartReachable(start: Cell, p: Cell -> bool)
    ensures Reachable(start, p, start) <==> p(start) && exists n :: Adjacent(start, n) && p(n)
  {
    if Reachable(start, p, start) {
      var w :| IsWalk(start, p, w) && w[|w| - 1] == start;
      assert Adjacent(start, w[0]) && p(w[0]);
    }
    if p(start) && exists n :: Adjacent(start, n) && p(n) {
      var n :| Adjacent(start, n) && p(n);
      assert IsWalk(start, p, [n, start]);
    }
  }

  /** A predicate that admits more cells makes more cells reachable. */
  lemma ReachableMonotonic(start: Cell, p: Cell -> bool, q: Cell -> bool, c: Cell)
    requires forall n :: p(n) ==> q(n)
    requires Reachable(start, p, c)
    ensures Reachable(start, q, c)
  {
  }
}
