/**
 How many characters must be edited to turn one text into another, seen on the grid that
 `diff_bisect` searches: the cost of a point is that of the prefixes, or on the reverse
 path the suffixes, that end there. Beyond the texts nothing matches.
 */
module Costs {
  import opened Texts
  import opened Frontier

  /** The fewest insertions and deletions that lead from the corner to (x, y). */
  function Cost(a: Text, b: Text, rev: bool, x: nat, y: nat): nat
    decreases x + y
  {
    if x == 0 then y
    else if y == 0 then x
    else if Matches(a, b, rev, x - 1, y - 1) then Cost(a, b, rev, x - 1, y - 1)
    else 1 + Min(Cost(a, b, rev, x - 1, y), Cost(a, b, rev, x, y - 1))
  }

  /** The cost of the whole texts. */
  function Whole(a: Text, b: Text): nat {
    Cost(a, b, false, |a|, |b|)
  }

  // ------------------------------------------------------------ neighbours

  /** Neighbouring points cost at most one edit more or less. */
  lemma {:induction false} CostNear(a: Text, b: Text, rev: bool, x: nat, y: nat)
    ensures Cost(a, b, rev, x, y) - 1 <= Cost(a, b, rev, x + 1, y) <= Cost(a, b, rev, x, y) + 1
    ensures Cost(a, b, rev, x, y) - 1 <= Cost(a, b, rev, x, y + 1) <= Cost(a, b, rev, x, y) + 1
    decreases x + y
  {
    if x > 0 {
      CostNear(a, b, rev, x - 1, y);
    }
    if y > 0 {
      CostNear(a, b, rev, x, y - 1);
    }
  }

  /** Costs do not fall along a diagonal. */
  lemma CostDiagonal(a: Text, b: Text, rev: bool, x: nat, y: nat)
    ensures Cost(a, b, rev, x, y) <= Cost(a, b, rev, x + 1, y + 1)
  {
    CostNear(a, b, rev, x, y);
  }

  lemma {:induction false} CostAlong(a: Text, b: Text, rev: bool, x: nat, y: nat, i: nat)
    ensures Cost(a, b, rev, x, y) <= Cost(a, b, rev, x + i, y + i)
  {
    if i > 0 {
      CostAlong(a, b, rev, x, y, i - 1);
      CostDiagonal(a, b, rev, x + i - 1, y + i - 1);
    }
  }

  /** Every diagonal away from the corner costs an edit. */
  lemma {:induction false} CostOffDiagonal(a: Text, b: Text, rev: bool, x: nat, y: nat)
    ensures Cost(a, b, rev, x, y) >= x - y && Cost(a, b, rev, x, y) >= y - x
    decreases x + y
  {
    hide Matches;
    if x > 0 && y > 0 {
      CostOffDiagonal(a, b, rev, x - 1, y - 1);
      CostOffDiagonal(a, b, rev, x - 1, y);
      CostOffDiagonal(a, b, rev, x, y - 1);
    }
  }

  /** Costs are even on even diagonals and odd on odd ones. */
  lemma {:induction false} CostParity(a: Text, b: Text, rev: bool, x: nat, y: nat)
    ensures (Cost(a, b, rev, x, y) - x - y) % 2 == 0
    decreases x + y
  {
    hide Matches;
    if x > 0 && y > 0 {
      if Matches(a, b, rev, x - 1, y - 1) {
        CostParity(a, b, rev, x - 1, y - 1);
      } else if Cost(a, b, rev, x - 1, y) < Cost(a, b, rev, x, y - 1) {
        CostParity(a, b, rev, x - 1, y);
      } else {
        CostParity(a, b, rev, x, y - 1);
      }
    }
  }

  /** Following a snake costs nothing. */
  lemma {:induction false} CostOfSnake(a: Text, b: Text, rev: bool, x: nat, y: nat)
    ensures var s := Snake(a, b, rev, x, y); Cost(a, b, rev, x + s, y + s) == Cost(a, b, rev, x, y)
    decreases |a| - x
  {
    if Matches(a, b, rev, x, y) {
      CostOfSnake(a, b, rev, x + 1, y + 1);
    }
  }

  // ------------------------------------------------------------ beyond the texts

  /** To the right of the grid every column costs an edit. */
  lemma {:induction false} CostPastRight(a: Text, b: Text, rev: bool, x: nat, y: nat)
    requires x >= |a|
    ensures Cost(a, b, rev, x, y) >= Cost(a, b, rev, |a|, y) + x - |a|
    decreases x + y
  {
    if x > |a| && y > 0 {
      CostPastRight(a, b, rev, x - 1, y);
      CostPastRight(a, b, rev, x, y - 1);
      CostNear(a, b, rev, |a|, y - 1);
    }
  }

  /** Below the grid every row does. */
  lemma {:induction false} CostPastBottom(a: Text, b: Text, rev: bool, x: nat, y: nat)
    requires y >= |b|
    ensures Cost(a, b, rev, x, y) >= Cost(a, b, rev, x, |b|) + y - |b|
    decreases x + y
  {
    if y > |b| && x > 0 {
      CostPastBottom(a, b, rev, x - 1, y);
      CostPastBottom(a, b, rev, x, y - 1);
      CostNear(a, b, rev, x - 1, |b|);
    }
  }

  /** From a point on the grid the far corner is no further than its last row and column. */
  lemma {:induction false} CostToCorner(a: Text, b: Text, rev: bool, x: nat, y: nat)
    requires x <= |a| && y <= |b|
    ensures Cost(a, b, rev, |a|, |b|) <= Cost(a, b, rev, x, y) + (|a| - x) + (|b| - y)
    decreases |a| - x + |b| - y
  {
    CostNear(a, b, rev, x, y);
    if x < |a| {
      CostToCorner(a, b, rev, x + 1, y);
    } else if y < |b| {
      CostToCorner(a, b, rev, x, y + 1);
    }
  }

  // ------------------------------------------------------------ both directions

  lemma MatchesMirror(a: Text, b: Text, rev: bool, x: int, y: int)
    ensures Matches(a, b, rev, x, y) == Matches(a, b, !rev, |a| - 1 - x, |b| - 1 - y)
  {
  }

  /** Through any point the way costs no less than the whole. */
  lemma {:induction false} CostThrough(a: Text, b: Text, rev: bool, x: nat, y: nat)
    requires x <= |a| && y <= |b|
    ensures Cost(a, b, rev, x, y) + Cost(a, b, !rev, |a| - x, |b| - y) >= Cost(a, b, rev, |a|, |b|)
    decreases |a| - x + |b| - y
  {
    hide Matches;
    CostNear(a, b, rev, x, y);
    if x == |a| || y == |b| {
      CostToCorner(a, b, rev, x, y);
    } else if Matches(a, b, rev, x, y) {
      MatchesMirror(a, b, rev, x, y);
      CostThrough(a, b, rev, x + 1, y + 1);
    } else {
      MatchesMirror(a, b, rev, x, y);
      CostThrough(a, b, rev, x + 1, y);
      CostThrough(a, b, rev, x, y + 1);
    }
  }

  /** Both directions cost the same. */
  lemma CostMirror(a: Text, b: Text, rev: bool)
    ensures Cost(a, b, rev, |a|, |b|) == Whole(a, b)
  {
    CostThrough(a, b, rev, 0, 0);
    CostThrough(a, b, !rev, 0, 0);
  }

  /** The point lies on a cheapest way, seen from the corner of the direction. */
  ghost predicate OnBest(a: Text, b: Text, rev: bool, x: nat, y: nat) {
    && x <= |a| && y <= |b|
    && Cost(a, b, rev, x, y) + Cost(a, b, !rev, |a| - x, |b| - y) == Whole(a, b)
  }

  /** A cheapest way to a point comes from a neighbour that lies on a cheapest way, too. */
  lemma BestMatch(a: Text, b: Text, rev: bool, x: nat, y: nat)
    requires OnBest(a, b, rev, x, y) && x > 0 && y > 0 && Matches(a, b, rev, x - 1, y - 1)
    ensures OnBest(a, b, rev, x - 1, y - 1) && Cost(a, b, rev, x - 1, y - 1) == Cost(a, b, rev, x, y)
  {
    MatchesMirror(a, b, rev, x - 1, y - 1);
  }

  lemma BestLeft(a: Text, b: Text, rev: bool, x: nat, y: nat)
    requires OnBest(a, b, rev, x, y) && x > 0 && Cost(a, b, rev, x - 1, y) + 1 == Cost(a, b, rev, x, y)
    ensures OnBest(a, b, rev, x - 1, y)
  {
    CostMirror(a, b, rev);
    CostThrough(a, b, rev, x - 1, y);
    CostNear(a, b, !rev, |a| - x, |b| - y);
  }

  lemma BestAbove(a: Text, b: Text, rev: bool, x: nat, y: nat)
    requires OnBest(a, b, rev, x, y) && y > 0 && Cost(a, b, rev, x, y - 1) + 1 == Cost(a, b, rev, x, y)
    ensures OnBest(a, b, rev, x, y - 1)
  {
    CostMirror(a, b, rev);
    CostThrough(a, b, rev, x, y - 1);
    CostNear(a, b, !rev, |a| - x, |b| - y);
  }

  /** A cheapest way passes through every cost up to the whole. */
  lemma {:induction false} PassesThrough(a: Text, b: Text, x: nat, y: nat, c: nat) returns (px: nat, py: nat)
    requires OnBest(a, b, false, x, y) && c <= Cost(a, b, false, x, y)
    ensures OnBest(a, b, false, px, py) && Cost(a, b, false, px, py) == c
    decreases x + y
  {
    if Cost(a, b, false, x, y) == c {
      px, py := x, y;
    } else if x > 0 && y > 0 && Matches(a, b, false, x - 1, y - 1) {
      BestMatch(a, b, false, x, y);
      px, py := PassesThrough(a, b, x - 1, y - 1, c);
    } else if x > 0 && Cost(a, b, false, x - 1, y) + 1 == Cost(a, b, false, x, y) {
      BestLeft(a, b, false, x, y);
      px, py := PassesThrough(a, b, x - 1, y, c);
    } else {
      BestAbove(a, b, false, x, y);
      px, py := PassesThrough(a, b, x, y - 1, c);
    }
  }

  lemma HalfWay(a: Text, b: Text, c: nat) returns (x: nat, y: nat)
    requires c <= Whole(a, b)
    ensures OnBest(a, b, false, x, y) && Cost(a, b, false, x, y) == c
    ensures OnBest(a, b, true, |a| - x, |b| - y) && Cost(a, b, true, |a| - x, |b| - y) == Whole(a, b) - c
  {
    x, y := PassesThrough(a, b, |a|, |b|, c);
  }
}
