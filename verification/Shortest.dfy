/**
 Why the middle snake lies on a cheapest way: after every round the two paths have covered
 all cheapest ways as far as their edits go, pruning cuts off no diagonal that a cheapest
 way still needs, and so the first overlap is half of a shortest edit script.
 */
module Shortest {
  import opened Texts
  import opened Frontier
  import opened Costs

  // ------------------------------------------------------------ what the rounds keep

  /** Every entry is reached by at most d - 1 edits. */
  ghost predicate Reach(a: Text, b: Text, rev: bool, v: seq<int>, d: int) {
    forall k {:trigger X(v, k)} | X(v, k) >= 0 && X(v, k) - k >= 0 :: Cost(a, b, rev, X(v, k), X(v, k) - k) <= d - 1
  }

  /** The entries are as far as any point of this cost on a cheapest way. */
  ghost predicate Full(a: Text, b: Text, rev: bool, v: seq<int>, cost: int) {
    forall x: nat, y: nat {:trigger OnBest(a, b, rev, x, y)} |
      OnBest(a, b, rev, x, y) && Cost(a, b, rev, x, y) == cost :: X(v, x - y) >= x
  }

  /** No cheapest way needs the diagonals above hi or below lo in round d. */
  ghost predicate Needless(a: Text, b: Text, d: int, lo: int, hi: int) {
    && (hi < d ==> Whole(a, b) + (|a| - |b|) <= d + hi - 2)
    && (-d < lo ==> Whole(a, b) - (|a| - |b|) <= d - lo - 2)
  }

  /** One path at the beginning of round d. */
  ghost predicate Covering(a: Text, b: Text, rev: bool, v: seq<int>, d: int, p: Pruning) {
    && 0 <= d && Whole(a, b) >= 2 * d - 1 && Sound(v, d) && Ready(v, d, -d + p.start, d - p.end)
    && (d == 0 ==> StepX(v, 0, 0) == 0)
    && Reach(a, b, rev, v, d) && Full(a, b, rev, v, d - 1) && Needless(a, b, d, -d + p.start, d - p.end)
  }

  // ------------------------------------------------------------ how far an entry is reached

  lemma StepCost(a: Text, b: Text, rev: bool, v: seq<int>, d: int, k: int)
    requires 0 <= d && Sound(v, d) && Reach(a, b, rev, v, d) && Reached(v, d, k) && -d <= k <= d && Parity(k, d)
    requires d == 0 ==> StepX(v, 0, 0) == 0
    ensures Cost(a, b, rev, StepX(v, d, k), StepX(v, d, k) - k) <= d
  {
    if d > 0 {
      if ComesDown(v, d, k) {
        assert k + 1 < d;
        CostNear(a, b, rev, X(v, k + 1), X(v, k + 1) - (k + 1));
      } else {
        assert -d < k - 1;
        CostNear(a, b, rev, X(v, k - 1), X(v, k - 1) - (k - 1));
      }
    }
  }

  /** One more edit reaches the furthest point of the next round. */
  lemma FurthestCost(a: Text, b: Text, rev: bool, v: seq<int>, d: int, p: Pruning, k: int)
    requires Covering(a, b, rev, v, d, p) && -d + p.start <= k <= d - p.end && Parity(k, d)
    ensures var x := Furthest(a, b, rev, v, d, k); 0 <= x && 0 <= x - k && Cost(a, b, rev, x, x - k) <= d
  {
    hide Cost, Full, Needless;
    assert Reached(v, d, k) by {
      var _ := StepX(v, d, k);
    }
    StepCost(a, b, rev, v, d, k);
    CostOfSnake(a, b, rev, StepX(v, d, k), StepX(v, d, k) - k);
  }

  /** An entry to the right of the grid: everything above its diagonal is needless. */
  lemma RanOffRight(a: Text, b: Text, rev: bool, x: nat, y: nat, d: int)
    requires x > |a| && Cost(a, b, rev, x, y) <= d && Whole(a, b) >= 2 * d - 1
    ensures Whole(a, b) + (|a| - |b|) <= d + (x - y) - 2
  {
    hide Cost;
    CostMirror(a, b, rev);
    CostPastRight(a, b, rev, x, y);
    if y <= |b| {
      CostToCorner(a, b, rev, |a|, y);
    } else {
      CostPastBottom(a, b, rev, |a|, y);
    }
  }

  lemma RanOffBottom(a: Text, b: Text, rev: bool, x: nat, y: nat, d: int)
    requires y > |b| && Cost(a, b, rev, x, y) <= d && Whole(a, b) >= 2 * d - 1
    ensures Whole(a, b) - (|a| - |b|) <= d - (x - y) - 2
  {
    hide Cost;
    CostMirror(a, b, rev);
    CostPastBottom(a, b, rev, x, y);
    if x <= |a| {
      CostToCorner(a, b, rev, x, |b|);
    } else {
      CostPastRight(a, b, rev, x, |b|);
    }
  }

  /** A point on a cheapest way is on a needed diagonal. */
  lemma BestNeeded(a: Text, b: Text, rev: bool, x: nat, y: nat, d: int)
    requires OnBest(a, b, rev, x, y) && Cost(a, b, rev, x, y) == d
    ensures -d <= x - y <= d && Parity(x - y, d)
    ensures Whole(a, b) + (|a| - |b|) >= d + (x - y) && Whole(a, b) - (|a| - |b|) >= d - (x - y)
  {
    hide Cost;
    CostOffDiagonal(a, b, rev, x, y);
    CostParity(a, b, rev, x, y);
    CostOffDiagonal(a, b, !rev, |a| - x, |b| - y);
  }

  // ------------------------------------------------------------ what one walk covers

  lemma {:induction false} SnakeEnds(a: Text, b: Text, rev: bool, x: int, y: int)
    ensures var s := Snake(a, b, rev, x, y); !Matches(a, b, rev, x + s, y + s)
    decreases |a| - x
  {
    if Matches(a, b, rev, x, y) {
      SnakeEnds(a, b, rev, x + 1, y + 1);
    }
  }

  /** A step goes at least as far as from either neighbour. */
  lemma StepFurther(v: seq<int>, d: int, k: int)
    ensures k != -d ==> StepX(v, d, k) >= X(v, k - 1) + 1
    ensures k != d ==> StepX(v, d, k) >= X(v, k + 1)
  {
  }

  /** The point's diagonal is walked in this round. */
  lemma BestWalked(a: Text, b: Text, rev: bool, v: seq<int>, d: int, p: Pruning, w: seq<int>, x: nat, y: nat)
    requires Covering(a, b, rev, v, d, p) && Advanced(a, b, rev, d, v, w, -d + p.start, d - p.end + 2)
    requires OnBest(a, b, rev, x, y) && Cost(a, b, rev, x, y) == d
    ensures -d + p.start <= x - y <= d - p.end && Parity(x - y, d)
    ensures X(w, x - y) == Furthest(a, b, rev, v, d, x - y)
  {
    hide Cost, Full, Reach, Furthest;
    BestNeeded(a, b, rev, x, y, d);
  }

  /** The step goes as far as one to the right from a point the last round has covered. */
  lemma FromLeft(a: Text, b: Text, rev: bool, v: seq<int>, d: int, p: Pruning, x: nat, y: nat)
    requires Covering(a, b, rev, v, d, p) && OnBest(a, b, rev, x, y) && Cost(a, b, rev, x, y) == d
    requires x > 0 && Cost(a, b, rev, x - 1, y) + 1 == d
    ensures StepX(v, d, x - y) >= x
  {
    hide Cost, Reach, Needless, Sound, Ready, StepX;
    BestLeft(a, b, rev, x, y);
    BestNeeded(a, b, rev, x - 1, y, d - 1);
    StepFurther(v, d, x - y);
  }

  lemma FromAbove(a: Text, b: Text, rev: bool, v: seq<int>, d: int, p: Pruning, x: nat, y: nat)
    requires Covering(a, b, rev, v, d, p) && OnBest(a, b, rev, x, y) && Cost(a, b, rev, x, y) == d
    requires y > 0 && Cost(a, b, rev, x, y - 1) + 1 == d
    ensures StepX(v, d, x - y) >= x
  {
    hide Cost, Reach, Needless, Sound, Ready, StepX;
    BestAbove(a, b, rev, x, y);
    BestNeeded(a, b, rev, x, y - 1, d - 1);
    StepFurther(v, d, x - y);
  }

  /** A snake does not stop before a match. */
  lemma FromMatch(a: Text, b: Text, rev: bool, v: seq<int>, d: int, x: nat, y: nat)
    requires Matches(a, b, rev, x - 1, y - 1) && Furthest(a, b, rev, v, d, x - y) >= x - 1
    ensures Furthest(a, b, rev, v, d, x - y) >= x
  {
    hide Snake, Matches, StepX;
    SnakeEnds(a, b, rev, StepX(v, d, x - y), StepX(v, d, x - y) - (x - y));
  }

  /** Where an edit can come from. */
  lemma CostFrom(a: Text, b: Text, rev: bool, x: nat, y: nat)
    requires x + y > 0 && !Matches(a, b, rev, x - 1, y - 1)
    ensures (x > 0 && Cost(a, b, rev, x - 1, y) + 1 == Cost(a, b, rev, x, y))
         || (y > 0 && Cost(a, b, rev, x, y - 1) + 1 == Cost(a, b, rev, x, y))
  {
  }

  lemma {:induction false} PointCovered(a: Text, b: Text, rev: bool, v: seq<int>, d: int, p: Pruning, w: seq<int>,
                                        x: nat, y: nat)
    requires Covering(a, b, rev, v, d, p) && Advanced(a, b, rev, d, v, w, -d + p.start, d - p.end + 2)
    requires OnBest(a, b, rev, x, y) && Cost(a, b, rev, x, y) == d
    ensures X(w, x - y) >= x
    decreases x + y
  {
    var k := x - y;
    BestWalked(a, b, rev, v, d, p, w, x, y);
    FurthestCost(a, b, rev, v, d, p, k);
    assert StepX(v, d, k) <= X(w, k);
    hide Advanced, Covering, StepX, X, Furthest, Cost, Matches, OnBest;
    if x + y > 0 {
      if Matches(a, b, rev, x - 1, y - 1) {
        MatchInside(a, b, rev, x - 1, y - 1);
        BestMatch(a, b, rev, x, y);
        PointCovered(a, b, rev, v, d, p, w, x - 1, y - 1);
        FromMatch(a, b, rev, v, d, x, y);
      } else {
        CostFrom(a, b, rev, x, y);
        if x > 0 && Cost(a, b, rev, x - 1, y) + 1 == d {
          FromLeft(a, b, rev, v, d, p, x, y);
        } else {
          FromAbove(a, b, rev, v, d, p, x, y);
        }
      }
    }
  }

  lemma MatchInside(a: Text, b: Text, rev: bool, x: int, y: int)
    requires Matches(a, b, rev, x, y)
    ensures 0 <= x < |a| && 0 <= y < |b|
  {
  }

  lemma WalkCovers(a: Text, b: Text, rev: bool, v: seq<int>, d: int, p: Pruning, w: seq<int>)
    requires Covering(a, b, rev, v, d, p) && Advanced(a, b, rev, d, v, w, -d + p.start, d - p.end + 2)
    ensures Full(a, b, rev, w, d)
  {
    hide Advanced, Covering, Cost, X;
    forall x: nat, y: nat | OnBest(a, b, rev, x, y) && Cost(a, b, rev, x, y) == d ensures X(w, x - y) >= x {
      PointCovered(a, b, rev, v, d, p, w, x, y);
    }
  }

  lemma WalkReaches(a: Text, b: Text, rev: bool, v: seq<int>, d: int, p: Pruning, w: seq<int>)
    requires Covering(a, b, rev, v, d, p) && Advanced(a, b, rev, d, v, w, -d + p.start, d - p.end + 2)
    ensures Reach(a, b, rev, w, d + 1)
  {
    hide Cost, Needless, Full, Furthest;
    forall k {:trigger X(w, k)} | X(w, k) >= 0 && X(w, k) - k >= 0
      ensures Cost(a, b, rev, X(w, k), X(w, k) - k) <= d
    {
      if -d + p.start <= k < d - p.end + 2 && Parity(k, d) {
        assert k <= d - p.end by {
          assert !Parity(d - p.end + 1, d);
        }
        FurthestCost(a, b, rev, v, d, p, k);
      } else {
        assert X(w, k) == X(v, k);
      }
    }
  }

  // ------------------------------------------------------------ what pruning costs

  /** Why the pruning of a walk that stands before diagonal k has grown from p to q. */
  ghost predicate Earned(a: Text, b: Text, d: int, p: Pruning, k: int, q: Pruning) {
    && p.start <= q.start && p.end <= q.end && (q.start - p.start) + (q.end - p.end) <= k - (-d + p.start)
    && (p.end < q.end ==> Whole(a, b) + (|a| - |b|) <= d + k - 2 - (q.end - p.end))
    && (p.start < q.start ==> Whole(a, b) - (|a| - |b|) <= 2 * d - q.start)
  }

  lemma EarnedNext(a: Text, b: Text, rev: bool, v: seq<int>, d: int, p: Pruning, k: int, q: Pruning)
    requires Covering(a, b, rev, v, d, p) && -d + p.start <= k <= d - p.end && Parity(k, d) && Earned(a, b, d, p, k, q)
    ensures var x := Furthest(a, b, rev, v, d, k); Earned(a, b, d, p, k + 2, Pruned(q, |a|, |b|, x, x - k))
  {
    var x := Furthest(a, b, rev, v, d, k);
    FurthestCost(a, b, rev, v, d, p, k);
    hide Furthest, Whole, Cost, Sound, Ready, Reach, Full, Needless;
    if x > |a| {
      RanOffRight(a, b, rev, x, x - k, d);
    } else if x - k > |b| {
      RanOffBottom(a, b, rev, x, x - k, d);
    }
  }

  lemma EarnedNeedless(a: Text, b: Text, d: int, p: Pruning, q: Pruning)
    requires Needless(a, b, d, -d + p.start, d - p.end) && Earned(a, b, d, p, d - p.end + 2, q)
    ensures Needless(a, b, d + 1, -(d + 1) + q.start, d + 1 - q.end)
  {
    hide Whole;
  }

  lemma CoversOn(a: Text, b: Text, rev: bool, v: seq<int>, d: int, p: Pruning, w: seq<int>, q: Pruning)
    requires Covering(a, b, rev, v, d, p) && Advanced(a, b, rev, d, v, w, -d + p.start, d - p.end + 2)
    requires Earned(a, b, d, p, d - p.end + 2, q) && Whole(a, b) >= 2 * (d + 1) - 1
    requires Sound(w, d + 1) && Ready(w, d + 1, -(d + 1) + q.start, d + 1 - q.end)
    ensures Covering(a, b, rev, w, d + 1, q)
  {
    WalkCovers(a, b, rev, v, d, p, w);
    WalkReaches(a, b, rev, v, d, p, w);
    EarnedNeedless(a, b, d, p, q);
    hide Advanced, Earned, Needless, Reach, Full, Sound, Ready, Whole, StepX;
  }

  // ------------------------------------------------------------ the first overlap

  /** What an entry on a cheapest way is: on the grid. */
  lemma BestOnGrid(a: Text, b: Text, rev: bool, x: nat, y: nat, d: int, far: int)
    requires OnBest(a, b, rev, x, y) && Cost(a, b, rev, x, y) == d && Whole(a, b) >= 2 * d - 1
    requires far >= x && Cost(a, b, rev, far, far - (x - y)) <= d
    ensures far <= |a| && far - (x - y) <= |b|
  {
    hide Cost, OnBest;
    BestNeeded(a, b, rev, x, y, d);
    if far > |a| {
      RanOffRight(a, b, rev, far, far - (x - y), d);
    } else if far - (x - y) > |b| {
      RanOffBottom(a, b, rev, far, far - (x - y), d);
    }
  }

  lemma CoveringWhole(a: Text, b: Text, rev: bool, v: seq<int>, d: int, p: Pruning)
    requires Covering(a, b, rev, v, d, p)
    ensures Whole(a, b) >= 2 * d - 1 && d >= 0
  {
  }

  /** The walk's entry on a diagonal where it has covered a point of a cheapest way. */
  lemma Meeting(a: Text, b: Text, rev: bool, v: seq<int>, d: int, p: Pruning, w: seq<int>, x: nat, y: nat)
    requires Covering(a, b, rev, v, d, p) && Advanced(a, b, rev, d, v, w, -d + p.start, d - p.end + 2)
    requires OnBest(a, b, rev, x, y) && Cost(a, b, rev, x, y) == d
    ensures -d + p.start <= x - y <= d - p.end && Parity(x - y, d) && x <= X(w, x - y) <= |a|
      && X(w, x - y) - (x - y) <= |b|
  {
    hide Covering, Advanced, Furthest, X, Cost, OnBest, Parity, Whole;
    var k: int := x - y;
    CoveringWhole(a, b, rev, v, d, p);
    BestWalked(a, b, rev, v, d, p, w, x, y);
    PointCovered(a, b, rev, v, d, p, w, x, y);
    FurthestCost(a, b, rev, v, d, p, k);
    BestOnGrid(a, b, rev, x, y, d, X(w, k));
  }

  /** Odd costs: when 2d - 1 edits are enough, the front walk of round d meets the reverse path. */
  lemma FrontMeets(a: Text, b: Text, v1: seq<int>, v2: seq<int>, d: int, p1: Pruning, p2: Pruning, w1: seq<int>)
    returns (k: int)
    requires Covering(a, b, false, v1, d, p1) && Covering(a, b, true, v2, d, p2) && Whole(a, b) == 2 * d - 1
    requires Advanced(a, b, false, d, v1, w1, -d + p1.start, d - p1.end + 2)
    ensures -d + p1.start <= k <= d - p1.end && Parity(k, d) && FrontHit(|a|, |b|, v2, k, X(w1, k))
  {
    hide Advanced, Cost, OnBest, Sound, Ready, Reach, Needless, Whole, X, Parity;
    var x: int, y: int := HalfWay(a, b, d);
    k := x - y;
    Meeting(a, b, false, v1, d, p1, w1, x, y);
  }

  lemma BestInside(a: Text, b: Text, x: nat, y: nat)
    requires OnBest(a, b, false, x, y)
    ensures x <= |a| && y <= |b|
  {
  }

  /** Even costs: when 2d edits are enough, the reverse walk of round d meets the front path. */
  lemma ReverseMeets(a: Text, b: Text, v1: seq<int>, v2: seq<int>, d: int, p1: Pruning, p2: Pruning,
                     w1: seq<int>, w2: seq<int>) returns (k: int)
    requires Covering(a, b, false, v1, d, p1) && Covering(a, b, true, v2, d, p2) && Whole(a, b) == 2 * d
    requires Advanced(a, b, false, d, v1, w1, -d + p1.start, d - p1.end + 2)
    requires Advanced(a, b, true, d, v2, w2, -d + p2.start, d - p2.end + 2)
    ensures -d + p2.start <= k <= d - p2.end && Parity(k, d) && ReverseHit(|a|, |b|, w1, k, X(w2, k))
  {
    hide Advanced, Cost, OnBest, Covering, Whole, X, Parity;
    CoveringWhole(a, b, false, v1, d, p1);
    var x: int, y: int := HalfWay(a, b, d);
    k := (|a| - x) - (|b| - y);
    BestInside(a, b, x, y);
    Meeting(a, b, false, v1, d, p1, w1, x, y);
    Meeting(a, b, true, v2, d, p2, w2, |a| - x, |b| - y);
    assert |a| - |b| - k == x - y;
  }

  /** Where two paths that have made at most `Whole` edits between them overlap lies a cheapest way. */
  lemma OverlapOnBest(a: Text, b: Text, x: nat, y: nat, r: nat, c: int, e: int)
    requires x <= |a| && y <= |b| && Cost(a, b, false, x, y) <= c && c + e <= Whole(a, b)
    requires r >= |a| - x && Cost(a, b, true, r, r - (|a| - x) + (|b| - y)) <= e
    ensures OnBest(a, b, false, x, y)
  {
    hide Cost;
    CostAlong(a, b, true, |a| - x, |b| - y, r - (|a| - x));
    CostThrough(a, b, false, x, y);
  }

  lemma FrontSplitBest(a: Text, b: Text, v1: seq<int>, v2: seq<int>, d: int, p1: Pruning, p2: Pruning, k: int)
    requires Covering(a, b, false, v1, d, p1) && Covering(a, b, true, v2, d, p2)
    requires -d + p1.start <= k <= d - p1.end && Parity(k, d)
    requires FrontHit(|a|, |b|, v2, k, Furthest(a, b, false, v1, d, k))
    ensures var x := Furthest(a, b, false, v1, d, k); 0 <= x && 0 <= x - k && OnBest(a, b, false, x, x - k)
  {
    var x := Furthest(a, b, false, v1, d, k);
    var r := X(v2, |a| - |b| - k);
    FurthestCost(a, b, false, v1, d, p1, k);
    hide Furthest, Full, Needless, Ready, Cost, Whole;
    assert r >= 0 && r - (|a| - |b| - k) >= 0;
    OverlapOnBest(a, b, x, x - k, r, d, d - 1);
  }

  lemma ReverseSplitBest(a: Text, b: Text, v1: seq<int>, v2: seq<int>, d: int, p1: Pruning, p2: Pruning,
                         w1: seq<int>, k: int)
    requires Covering(a, b, false, v1, d, p1) && Covering(a, b, true, v2, d, p2) && Whole(a, b) >= 2 * d
    requires Advanced(a, b, false, d, v1, w1, -d + p1.start, d - p1.end + 2) && Sound(w1, d + 1)
    requires -d + p2.start <= k <= d - p2.end && Parity(k, d)
    requires ReverseHit(|a|, |b|, w1, k, Furthest(a, b, true, v2, d, k))
    requires var f := |a| - |b| - k; X(w1, f) <= |a| && 0 <= X(w1, f) - f <= |b|
    ensures var f := |a| - |b| - k; X(w1, f) >= 0 && OnBest(a, b, false, X(w1, f), X(w1, f) - f)
  {
    var f, r := |a| - |b| - k, Furthest(a, b, true, v2, d, k);
    var x := X(w1, f);
    WalkReaches(a, b, false, v1, d, p1, w1);
    FurthestCost(a, b, true, v2, d, p2, k);
    hide Furthest, Full, Needless, Ready, Cost, Whole;
    OverlapOnBest(a, b, x, x - f, r, d, d);
  }
}
