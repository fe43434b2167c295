/**
 The search of `diff_bisect` for a middle snake: two walks a round, one from each end,
 until they overlap, the deadline fires, or the rounds run out.
 */
module Bisecting {
  import opened Texts
  import opened Frontier
  import opened Collision
  import opened Costs
  import opened Shortest

  // ------------------------------------------------------------ what the search works on

  /** Both texts have at least two characters and share neither the first nor the last. */
  ghost predicate Trimmed(a: Text, b: Text) {
    |a| >= 2 && |b| >= 2 && a[0] != b[0] && a[|a| - 1] != b[|b| - 1]
  }

  /** A split point that leaves less than everything on either side. */
  ghost predicate GoodSplit(a: Text, b: Text, x: int, y: int) {
    && 0 <= x <= |a| && 0 <= y <= |b|
    && 0 < x + y < |a| + |b|
  }

  /** A good split point that lies on a cheapest way through the texts. */
  ghost predicate BestSplit(a: Text, b: Text, x: int, y: int) {
    GoodSplit(a, b, x, y) && OnBest(a, b, false, x, y)
  }

  /** One path's vector and pruning at the beginning of round d. */
  ghost predicate OnePath(n: int, m: int, v: seq<int>, d: int, p: Pruning) {
    && |v| == 2 * ((n + m + 1) / 2)
    && 0 <= p.start && 0 <= p.end && p.start % 2 == 0 && p.end % 2 == 0
    && 0 <= d && (d <= 1 ==> p == Pruning(0, 0))
    && Sound(v, d) && Ready(v, d, -d + p.start, d - p.end)
    && (d == 0 ==> forall k {:trigger X(v, k)} :: X(v, k) == if k == 1 then 0 else -1)
    && ((n - m) % 2 == 0 ==> EvenPath(n, m, v, d, p))
  }

  ghost predicate EvenPath(n: int, m: int, v: seq<int>, d: int, p: Pruning) {
    && (if n >= m then p.end == 0 else p.start == 0)
    && Even(v, n - m, Min(n, m), d, -d + p.start + p.end)
  }

  /** How far the pruning may have grown when the walk of round d stands before diagonal k. */
  ghost predicate Grown(n: int, m: int, d: int, p: Pruning, k: int, q: Pruning) {
    && p.start <= q.start && p.end <= q.end && q.start % 2 == 0 && q.end % 2 == 0
    && (q.start - p.start) + (q.end - p.end) <= k - (-d + p.start)
    && (d == 0 ==> q == p)
    && ((n - m) % 2 == 0 ==> EvenGrown(n, m, d, p, k, q))
  }

  ghost predicate EvenGrown(n: int, m: int, d: int, p: Pruning, k: int, q: Pruning) {
    var edge := Min(Gap(n - m) - d, d);
    if n >= m then q.end == p.end && q.start <= p.start + Max(0, Min(k, edge) - (-d + p.start))
    else q.start == p.start && q.end <= p.end + Max(0, k + edge - 2)
  }

  /** A walk of round d standing before diagonal k. */
  ghost predicate Walking(a: Text, b: Text, rev: bool, d: int, v0: seq<int>, p: Pruning, v: seq<int>, q: Pruning,
                          k: int) {
    && -d + p.start <= k <= d - p.end + 2 && Parity(k, d)
    && Advanced(a, b, rev, d, v0, v, -d + p.start, k)
    && Grown(|a|, |b|, d, p, k, q)
  }

  lemma WalkBegins(a: Text, b: Text, rev: bool, d: int, v: seq<int>, p: Pruning)
    requires OnePath(|a|, |b|, v, d, p)
    ensures Walking(a, b, rev, d, v, p, v, p, -d + p.start)
  {
  }

  lemma WalkStep(a: Text, b: Text, rev: bool, d: int, v0: seq<int>, p: Pruning, v: seq<int>, q: Pruning, k: int,
                 off: int)
    requires Trimmed(a, b) && off == (|a| + |b| + 1) / 2 && d < off && OnePath(|a|, |b|, v0, d, p)
    requires Walking(a, b, rev, d, v0, p, v, q, k) && k <= d - p.end
    ensures var x := Furthest(a, b, rev, v0, d, k);
      && 0 <= off + k < |v| && 0 <= StepX(v0, d, k) && 0 <= StepX(v0, d, k) - k
      && Walking(a, b, rev, d, v0, p, v[off + k := x], Pruned(q, |a|, |b|, x, x - k), k + 2)
  {
    var x := Furthest(a, b, rev, v0, d, k);
    WalkInRange(a, b, rev, d, v0, p, v, q, k, off);
    AdvanceOne(a, b, rev, d, v0, v, -d + p.start, k, off);
    WalkGrows(a, b, rev, d, v0, p, v, q, k);
    hide Advanced, OnePath, Furthest, StepX, Grown;
  }

  lemma WalkInRange(a: Text, b: Text, rev: bool, d: int, v0: seq<int>, p: Pruning, v: seq<int>, q: Pruning, k: int,
                    off: int)
    requires off == (|a| + |b| + 1) / 2 && d < off && OnePath(|a|, |b|, v0, d, p)
    requires Walking(a, b, rev, d, v0, p, v, q, k) && k <= d - p.end
    ensures |v| == 2 * off && 0 <= off + k < |v| && 0 <= StepX(v0, d, k) && 0 <= StepX(v0, d, k) - k
  {
    hide EvenPath, Sound, Grown, Furthest;
    assert StepX(v0, d, k) >= 0;
  }

  lemma WalkGrows(a: Text, b: Text, rev: bool, d: int, v0: seq<int>, p: Pruning, v: seq<int>, q: Pruning, k: int)
    requires Trimmed(a, b) && OnePath(|a|, |b|, v0, d, p) && Walking(a, b, rev, d, v0, p, v, q, k) && k <= d - p.end
    ensures var x := Furthest(a, b, rev, v0, d, k); Grown(|a|, |b|, d, p, k + 2, Pruned(q, |a|, |b|, x, x - k))
  {
    var x := Furthest(a, b, rev, v0, d, k);
    if d == 0 {
      assert k == 0 && X(v0, 1) == 0;
      FirstEntry(a, b, rev, v0);
    } else if (|a| - |b|) % 2 == 0 {
      EvenPruned(a, b, rev, d, v0, p, q, k);
    }
    hide OnePath, Advanced, EvenGrown, Furthest, X;
    GrownNext(|a|, |b|, d, p, q, k, x);
  }

  lemma GrownNext(n: int, m: int, d: int, p: Pruning, q: Pruning, k: int, x: int)
    requires Grown(n, m, d, p, k, q) && n >= 0 && m >= 0 && d >= 0
    requires d == 0 ==> k == 0 && x == 0
    requires d >= 1 && (n - m) % 2 == 0 ==> EvenGrown(n, m, d, p, k + 2, Pruned(q, n, m, x, x - k))
    ensures Grown(n, m, d, p, k + 2, Pruned(q, n, m, x, x - k))
  {
  }

  /** The first entry is the origin: the texts share no first and no last character. */
  lemma FirstEntry(a: Text, b: Text, rev: bool, v0: seq<int>)
    requires Trimmed(a, b) && X(v0, 1) == 0
    ensures Furthest(a, b, rev, v0, 0, 0) == 0
  {
    assert !Matches(a, b, rev, 0, 0);
  }

  /** With an even length difference only the diagonals away from the other path are pruned. */
  lemma EvenPruned(a: Text, b: Text, rev: bool, d: int, v0: seq<int>, p: Pruning, q: Pruning, k: int)
    requires Trimmed(a, b) && d >= 1 && OnePath(|a|, |b|, v0, d, p) && (|a| - |b|) % 2 == 0
    requires -d + p.start <= k <= d - p.end && Parity(k, d) && EvenGrown(|a|, |b|, d, p, k, q)
    ensures var x := Furthest(a, b, rev, v0, d, k); EvenGrown(|a|, |b|, d, p, k + 2, Pruned(q, |a|, |b|, x, x - k))
  {
    var delta, limit, lo := |a| - |b|, Min(|a|, |b|), -d + p.start + p.end;
    var t, x := Diagonal(delta, k), Furthest(a, b, rev, v0, d, k);
    hide Even, Sound, Furthest, Best, StepX;
    assert Parity(t, d) && lo <= t <= d && Diagonal(delta, t) == k;
    assert StepX(v0, d, k) >= 0;
    FurthestMoves(a, b, rev, v0, delta, limit, d, lo, t);
    hide MovedTo, Ready;
    RunsOff(v0, delta, limit, d, lo, t, CoordOf(delta, t, x));
    hide EvenGrown;
    GrowthStep(|a|, |b|, d, p, q, k, x);
  }

  lemma GrowthStep(n: int, m: int, d: int, p: Pruning, q: Pruning, k: int, x: int)
    requires (n - m) % 2 == 0 && -d + p.start <= k && Parity(k, d) && EvenGrown(n, m, d, p, k, q)
    requires if n >= m then x <= n && (x - k > m ==> k < d && k < n - m - d)
             else x - k <= m && (x > n ==> -k < d && -k < m - n - d)
    ensures EvenGrown(n, m, d, p, k + 2, Pruned(q, n, m, x, x - k))
  {
    var edge := Min(Gap(n - m) - d, d);
    assert Parity(edge, d);
    ParityGap(k, edge, d);
    ParityGap(-k, edge, d);
    hide Parity;
  }

  /** Diagonals of one parity are at least two apart. */
  lemma ParityGap(k: int, edge: int, d: int)
    requires Parity(edge, d) && (Parity(k, d) || Parity(-k, d))
    ensures k < edge ==> k + 2 <= edge
  {
  }

  /** A finished walk leaves its path ready for the next round. */
  lemma WalkEnds(a: Text, b: Text, rev: bool, d: int, v0: seq<int>, p: Pruning, v: seq<int>, q: Pruning)
    requires Trimmed(a, b) && OnePath(|a|, |b|, v0, d, p)
    requires Walking(a, b, rev, d, v0, p, v, q, d - p.end + 2)
    requires d >= 1 && (|a| - |b|) % 2 == 0 ==> Inside(v, |a| - |b|, Min(|a|, |b|), d + 1)
    ensures OnePath(|a|, |b|, v, d + 1, q)
  {
    WalkReady(a, b, rev, d, v0, p, v, q);
    if (|a| - |b|) % 2 == 0 {
      WalkEndsEven(a, b, rev, d, v0, p, v, q);
    }
    hide EvenPath, Advanced, Sound, Ready, Inside, X, Furthest;
  }

  lemma WalkEndsEven(a: Text, b: Text, rev: bool, d: int, v0: seq<int>, p: Pruning, v: seq<int>, q: Pruning)
    requires Trimmed(a, b) && OnePath(|a|, |b|, v0, d, p) && (|a| - |b|) % 2 == 0 && Sound(v, d + 1)
    requires Walking(a, b, rev, d, v0, p, v, q, d - p.end + 2)
    requires d >= 1 ==> Inside(v, |a| - |b|, Min(|a|, |b|), d + 1)
    ensures EvenPath(|a|, |b|, v, d + 1, q)
  {
    hide Even, Sound, Ready, Inside, X, Furthest, Advanced;
    if d == 0 {
      FirstWalkEven(a, b, rev, v0, v);
    } else {
      EvenWalkEnds(a, b, rev, d, v0, p, v, q);
    }
  }

  lemma WalkReady(a: Text, b: Text, rev: bool, d: int, v0: seq<int>, p: Pruning, v: seq<int>, q: Pruning)
    requires OnePath(|a|, |b|, v0, d, p) && Walking(a, b, rev, d, v0, p, v, q, d - p.end + 2)
    ensures Sound(v, d + 1) && Ready(v, d + 1, -(d + 1) + q.start, d + 1 - q.end)
  {
    hide EvenPath, EvenGrown;
    var lo, hi := -d + p.start, d - p.end;
    AdvancedValid(a, b, rev, d, v0, v, lo, hi);
    AdvancedSound(a, b, rev, d, v0, v, lo, hi);
    hide Advanced, Sound, ValidOn;
    NextReady(d, v, lo, hi, -(d + 1) + q.start, d + 1 - q.end);
  }

  lemma FirstWalkEntries(a: Text, b: Text, rev: bool, v0: seq<int>, v: seq<int>)
    requires Trimmed(a, b) && (forall k {:trigger X(v0, k)} :: X(v0, k) == if k == 1 then 0 else -1)
    requires Advanced(a, b, rev, 0, v0, v, 0, 2)
    ensures X(v, 0) == 0 && X(v, 1) == 0 && forall k {:trigger X(v, k)} | k != 0 && k != 1 :: X(v, k) == -1
  {
    assert X(v0, 1) == 0;
    FirstEntry(a, b, rev, v0);
    hide X, Furthest;
    assert Parity(0, 0) && !Parity(1, 0);
    forall k {:trigger X(v, k)} ensures X(v, k) == if k == 0 || k == 1 then 0 else -1 {
      assert X(v0, k) == if k == 1 then 0 else -1;
    }
  }

  lemma FirstWalkEven(a: Text, b: Text, rev: bool, v0: seq<int>, v: seq<int>)
    requires Trimmed(a, b) && OnePath(|a|, |b|, v0, 0, Pruning(0, 0)) && (|a| - |b|) % 2 == 0
    requires Advanced(a, b, rev, 0, v0, v, 0, 2)
    ensures EvenPath(|a|, |b|, v, 1, Pruning(0, 0))
  {
    hide X, Advanced, Even, Sound, Ready;
    FirstWalkEntries(a, b, rev, v0, v);
    EvenAfterFirstRound(v, |a| - |b|, Min(|a|, |b|));
  }

  lemma EvenWalkEnds(a: Text, b: Text, rev: bool, d: int, v0: seq<int>, p: Pruning, v: seq<int>, q: Pruning)
    requires Trimmed(a, b) && d >= 1 && OnePath(|a|, |b|, v0, d, p) && (|a| - |b|) % 2 == 0
    requires Walking(a, b, rev, d, v0, p, v, q, d - p.end + 2)
    requires Sound(v, d + 1) && Inside(v, |a| - |b|, Min(|a|, |b|), d + 1)
    ensures EvenPath(|a|, |b|, v, d + 1, q)
  {
    var delta, limit, lo := |a| - |b|, Min(|a|, |b|), -d + p.start + p.end;
    hide Even, Advanced, Ready, Sound, Inside;
    EvenBounds(|a|, |b|, d, p, q, v0);
    WalkGivesEven(a, b, rev, v0, v, delta, limit, d, lo, -(d + 1) + q.start + q.end);
  }

  lemma EvenBounds(n: int, m: int, d: int, p: Pruning, q: Pruning, v0: seq<int>)
    requires (n - m) % 2 == 0 && d >= 1 && EvenPath(n, m, v0, d, p) && EvenGrown(n, m, d, p, d - p.end + 2, q)
    requires p.start % 2 == 0 && p.end % 2 == 0 && q.start % 2 == 0 && q.end % 2 == 0
    requires p.start <= q.start && p.end <= q.end
    ensures var lo, lo' := -d + p.start + p.end, -(d + 1) + q.start + q.end;
      && Parity(lo, d) && Parity(lo', d + 1) && lo - 1 <= lo' <= d - 1 && lo' <= Gap(n - m) - (d + 1)
    ensures if n >= m then q.end == 0 else q.start == 0
  {
  }

  // ------------------------------------------------------------ odd length difference

  /** No forward entry is next to the far corner; the reverse path has left its own corner. */
  ghost predicate OddPaths(n: int, m: int, v1: seq<int>, v2: seq<int>, d: int) {
    && X(v1, n - m - 1) != n - 1 && X(v1, n - m + 1) != n
    && (d >= 2 ==> X(v2, 1) >= 1 && X(v2, -1) >= 0)
  }

  /** No entry of the front walk up to diagonal `next` has met the reverse path. */
  ghost predicate FrontMissed(n: int, m: int, v1: seq<int>, v2: seq<int>, d: int, lo: int, next: int) {
    forall k {:trigger X(v1, k)} | lo <= k < next && Parity(k, d) :: !FrontHit(n, m, v2, k, X(v1, k))
  }

  lemma FrontMissedOne(n: int, m: int, v1: seq<int>, v2: seq<int>, d: int, lo: int, k: int, off: int, x: int)
    requires FrontMissed(n, m, v1, v2, d, lo, k) && |v1| == 2 * off && 0 <= off + k < |v1| && Parity(k, d)
    requires !FrontHit(n, m, v2, k, x)
    ensures FrontMissed(n, m, v1[off + k := x], v2, d, lo, k + 2)
  {
    Written(v1, off, k, x);
    assert !Parity(k + 1, d);
  }

  lemma StepPositive(n: int, m: int, v: seq<int>, d: int, p: Pruning, k: int)
    requires d >= 1 && OnePath(n, m, v, d, p) && -d + p.start <= k <= d - p.end && Parity(k, d)
    ensures StepX(v, d, k) >= 0 && StepX(v, d, k) - k >= 0 && StepX(v, d, k) + (StepX(v, d, k) - k) >= 1
  {
    assert Reached(v, d, k) by {
      var _ := StepX(v, d, k);
    }
  }

  lemma FrontHitSplits(a: Text, b: Text, d: int, v1: seq<int>, p: Pruning, v2: seq<int>, p2: Pruning, k: int)
    requires Trimmed(a, b) && (|a| - |b|) % 2 != 0 && OnePath(|a|, |b|, v1, d, p) && OnePath(|a|, |b|, v2, d, p2)
    requires OddPaths(|a|, |b|, v1, v2, d) && -d + p.start <= k <= d - p.end && Parity(k, d)
    requires FrontHit(|a|, |b|, v2, k, Furthest(a, b, false, v1, d, k))
    ensures GoodSplit(a, b, Furthest(a, b, false, v1, d, k), Furthest(a, b, false, v1, d, k) - k)
  {
    var x := Furthest(a, b, false, v1, d, k);
    if d == 0 {
      FirstEntry(a, b, false, v1);
      assert false by {
        var _ := X(v2, |a| - |b| - k);
      }
    } else {
      StepPositive(|a|, |b|, v1, d, p, k);
      assert !Matches(a, b, false, |a| - 1, |b| - 1);
    }
  }

  lemma FrontMissKeeps(a: Text, b: Text, d: int, v1: seq<int>, p: Pruning, v2: seq<int>, k: int)
    requires Trimmed(a, b) && (|a| - |b|) % 2 != 0 && OnePath(|a|, |b|, v1, d, p)
    requires OddPaths(|a|, |b|, v1, v2, d) && -d + p.start <= k <= d - p.end && Parity(k, d)
    requires !FrontHit(|a|, |b|, v2, k, Furthest(a, b, false, v1, d, k))
    ensures k == |a| - |b| - 1 ==> Furthest(a, b, false, v1, d, k) != |a| - 1
    ensures k == |a| - |b| + 1 ==> Furthest(a, b, false, v1, d, k) != |a|
  {
    if d == 0 {
      FirstEntry(a, b, false, v1);
    }
  }

  /** After both walks of a round the reverse path has left its corner for good. */
  lemma OddNext(a: Text, b: Text, d: int, v1: seq<int>, v2: seq<int>, p2: Pruning, w1: seq<int>, w2: seq<int>)
    requires OnePath(|a|, |b|, v2, d, p2) && OddPaths(|a|, |b|, v1, v2, d)
    requires Advanced(a, b, true, d, v2, w2, -d + p2.start, d - p2.end + 2)
    requires X(w1, |a| - |b| - 1) != |a| - 1 && X(w1, |a| - |b| + 1) != |a|
    ensures OddPaths(|a|, |b|, w1, w2, d + 1)
  {
    var lo, hi := -d + p2.start, d - p2.end;
    AdvancedValid(a, b, true, d, v2, w2, lo, hi);
    if d >= 1 {
      assert X(w2, 1) == X(v2, 1) || (lo <= 1 <= hi && Parity(1, d)) by {
        assert !Parity(hi + 1, d);
      }
      assert X(w2, -1) == X(v2, -1) || (lo <= -1 <= hi && Parity(-1, d)) by {
        assert !Parity(hi + 1, d);
      }
      assert d == 1 ==> Parity(1, d) && Parity(-1, d);
    }
  }

  // ------------------------------------------------------------ even length difference

  /** No entry of the reverse walk up to diagonal `next` has met the front path. */
  ghost predicate ReverseMissed(n: int, m: int, v1: seq<int>, v2: seq<int>, d: int, lo: int, next: int) {
    forall k {:trigger X(v2, k)} | lo <= k < next && Parity(k, d) :: !ReverseHit(n, m, v1, k, X(v2, k))
  }

  lemma ReverseMissedOne(n: int, m: int, v1: seq<int>, v2: seq<int>, d: int, lo: int, k: int, off: int, x: int)
    requires ReverseMissed(n, m, v1, v2, d, lo, k) && |v2| == 2 * off && 0 <= off + k < |v2| && Parity(k, d)
    requires !ReverseHit(n, m, v1, k, x)
    ensures ReverseMissed(n, m, v1, v2[off + k := x], d, lo, k + 2)
  {
    Written(v2, off, k, x);
    assert !Parity(k + 1, d);
  }

  /** Facing entries written so far by the reverse walk do not reach the forward path. */
  ghost predicate NoOverlap(n: int, m: int, v1: seq<int>, v2: seq<int>, d: int, lo: int, next: int) {
    forall k {:trigger X(v2, k)} | lo <= k < next && Parity(k, d) && Gap(n - m) - d <= Diagonal(n - m, k) ::
      X(v1, n - m - k) + X(v2, k) < n
  }

  /** Diagonals near the other path's are never pruned. */
  lemma FacingInRange(n: int, m: int, v: seq<int>, d: int, p: Pruning, t: int)
    requires d >= 1 && (n - m) % 2 == 0 && OnePath(n, m, v, d, p)
    requires Gap(n - m) - d <= t <= d && Parity(t, d)
    ensures var k := Diagonal(n - m, t); -d + p.start <= k <= d - p.end && Parity(k, d)
  {
  }

  /** What the even case knows of a diagonal in range. */
  lemma DiagonalFacts(n: int, m: int, v: seq<int>, d: int, p: Pruning, k: int)
    requires d >= 1 && n >= 2 && m >= 2 && (n - m) % 2 == 0 && OnePath(n, m, v, d, p)
    requires -d + p.start <= k <= d - p.end && Parity(k, d)
    ensures var delta, limit, lo, t := n - m, Min(n, m), -d + p.start + p.end, Diagonal(n - m, k);
      && Sized(n, m, delta, limit) && Even(v, delta, limit, d, lo) && Reached(v, d, k)
      && lo <= t <= d && Parity(t, d) && Diagonal(delta, t) == k
  {
    hide Even;
    var _ := StepX(v, d, k);
  }

  lemma WrittenEntry(a: Text, b: Text, rev: bool, d: int, v0: seq<int>, p: Pruning, v: seq<int>, q: Pruning, k: int)
    requires OnePath(|a|, |b|, v0, d, p) && Walking(a, b, rev, d, v0, p, v, q, d - p.end + 2)
    requires -d + p.start <= k <= d - p.end && Parity(k, d)
    ensures X(v, k) == Furthest(a, b, rev, v0, d, k) && X(v, k) >= 0 && X(v, k) - k >= 0
  {
    hide Furthest, EvenPath, Grown;
    AdvancedValid(a, b, rev, d, v0, v, -d + p.start, d - p.end);
  }

  /** The forward entry facing a reverse entry: written in this round, on the grid, not at the corner. */
  lemma FacedEntry(a: Text, b: Text, d: int, v0: seq<int>, p: Pruning, v1: seq<int>, q: Pruning, t: int)
    requires Trimmed(a, b) && d >= 1 && (|a| - |b|) % 2 == 0 && OnePath(|a|, |b|, v0, d, p)
    requires Walking(a, b, false, d, v0, p, v1, q, d - p.end + 2)
    requires Gap(|a| - |b|) - d <= t <= d && Parity(t, d)
    ensures var k := Diagonal(|a| - |b|, t); X(v1, k) >= 0 && GoodSplit(a, b, X(v1, k), X(v1, k) - k)
  {
    hide OnePath, Walking, Even, Reached, MovedTo, StepX;
    var delta, limit, lo := |a| - |b|, Min(|a|, |b|), -d + p.start + p.end;
    var k := Diagonal(delta, t);
    FacingInRange(|a|, |b|, v0, d, p, t);
    DiagonalFacts(|a|, |b|, v0, d, p, k);
    WrittenEntry(a, b, false, d, v0, p, v1, q, k);
    StepPositive(|a|, |b|, v0, d, p, k);
    FurthestMoves(a, b, false, v0, delta, limit, d, lo, t);
    FacingOnGrid(a, b, v0, v1, delta, limit, d, lo, t);
  }

  lemma ReverseHitSplits(a: Text, b: Text, d: int, v0: seq<int>, p: Pruning, v1: seq<int>, q: Pruning, v2: seq<int>,
                         p2: Pruning, k: int)
    requires Trimmed(a, b) && (|a| - |b|) % 2 == 0 && OnePath(|a|, |b|, v0, d, p) && OnePath(|a|, |b|, v2, d, p2)
    requires Walking(a, b, false, d, v0, p, v1, q, d - p.end + 2)
    requires -d + p2.start <= k <= d - p2.end && Parity(k, d)
    requires ReverseHit(|a|, |b|, v1, k, Furthest(a, b, true, v2, d, k))
    ensures var f := |a| - |b| - k; GoodSplit(a, b, X(v1, f), X(v1, f) - f)
  {
    hide OnePath, Walking, Furthest, GoodSplit;
    var delta := |a| - |b|;
    RoundNumber(|a|, |b|, v0, d, p);
    if d == 0 {
      FirstDiagonal(|a|, |b|, v2, p2, k);
      NoFirstHit(a, b, v0, p, v1, q, v2, p2, k);
    } else {
      var t := Diagonal(delta, delta - k);
      HitInRange(a, b, d, v0, p, v1, q, v2, p2, k);
      FacedEntry(a, b, d, v0, p, v1, q, t);
    }
  }

  /** ... and lies on a cheapest way. */
  lemma ReverseHitBest(a: Text, b: Text, d: int, v0: seq<int>, p: Pruning, v1: seq<int>, q: Pruning,
                       v2: seq<int>, p2: Pruning, k: int)
    requires Trimmed(a, b) && (|a| - |b|) % 2 == 0 && OnePath(|a|, |b|, v0, d, p) && OnePath(|a|, |b|, v2, d, p2)
    requires Covering(a, b, false, v0, d, p) && Covering(a, b, true, v2, d, p2)
    requires Walking(a, b, false, d, v0, p, v1, q, d - p.end + 2)
    requires -d + p2.start <= k <= d - p2.end && Parity(k, d)
    requires ReverseHit(|a|, |b|, v1, k, Furthest(a, b, true, v2, d, k))
    ensures var f := |a| - |b| - k; BestSplit(a, b, X(v1, f), X(v1, f) - f)
  {
    hide OnePath, Furthest, Grown, Advanced, Sound, Ready, Covering, OnBest, ReverseHit, X;
    ReverseHitSplits(a, b, d, v0, p, v1, q, v2, p2, k);
    WalkReady(a, b, false, d, v0, p, v1, q);
    EvenWhole(a, b, false, v0, d, p);
    ReverseSplitBest(a, b, v0, v2, d, p, p2, v1, k);
  }

  /** With an even length difference the whole cost is even. */
  lemma EvenWhole(a: Text, b: Text, rev: bool, v: seq<int>, d: int, p: Pruning)
    requires Covering(a, b, rev, v, d, p)
    ensures (Whole(a, b) - (|a| - |b|)) % 2 == 0
    ensures (|a| - |b|) % 2 == 0 ==> Whole(a, b) >= 2 * d
  {
    hide Cost, Sound, Ready, Reach, Full, Needless;
    CostParity(a, b, false, |a|, |b|);
  }

  lemma HitInRange(a: Text, b: Text, d: int, v0: seq<int>, p: Pruning, v1: seq<int>, q: Pruning, v2: seq<int>,
                   p2: Pruning, k: int)
    requires |a| >= 2 && |b| >= 2 && d >= 1 && (|a| - |b|) % 2 == 0 && OnePath(|a|, |b|, v0, d, p)
      && OnePath(|a|, |b|, v2, d, p2)
    requires Walking(a, b, false, d, v0, p, v1, q, d - p.end + 2)
    requires -d + p2.start <= k <= d - p2.end && Parity(k, d) && X(v1, |a| - |b| - k) != -1
    ensures var t := Diagonal(|a| - |b|, |a| - |b| - k);
      Gap(|a| - |b|) - d <= t <= d && Parity(t, d) && Diagonal(|a| - |b|, t) == |a| - |b| - k
  {
    hide Even, Advanced, Grown, Ready;
    WalkReady(a, b, false, d, v0, p, v1, q);
    DiagonalFacts(|a|, |b|, v2, d, p2, k);
  }

  lemma RoundNumber(n: int, m: int, v: seq<int>, d: int, p: Pruning)
    requires OnePath(n, m, v, d, p)
    ensures 0 <= d && (d == 0 ==> p == Pruning(0, 0))
  {
  }

  lemma FirstDiagonal(n: int, m: int, v: seq<int>, p: Pruning, k: int)
    requires OnePath(n, m, v, 0, p) && p.start <= k <= -p.end
    ensures p == Pruning(0, 0) && k == 0
  {
  }

  /** In round 0 both paths are still at their own corners. */
  lemma NoFirstHit(a: Text, b: Text, v0: seq<int>, p: Pruning, v1: seq<int>, q: Pruning, v2: seq<int>, p2: Pruning,
                   k: int)
    requires Trimmed(a, b) && (|a| - |b|) % 2 == 0 && OnePath(|a|, |b|, v0, 0, p) && OnePath(|a|, |b|, v2, 0, p2)
    requires Walking(a, b, false, 0, v0, p, v1, q, 2)
    ensures !ReverseHit(|a|, |b|, v1, 0, Furthest(a, b, true, v2, 0, 0))
  {
    hide Even, EvenPath, EvenGrown, Ready;
    FirstEntry(a, b, true, v2);
    FirstEntry(a, b, false, v0);
    assert Parity(0, 0) && !Parity(1, 0);
    var x := X(v1, |a| - |b|);
    var _ := X(v0, |a| - |b|);
  }

  lemma ReverseMissKeeps(a: Text, b: Text, d: int, v0: seq<int>, p: Pruning, v1: seq<int>, q: Pruning, v2: seq<int>,
                         p2: Pruning, k: int)
    requires Trimmed(a, b) && d >= 1 && (|a| - |b|) % 2 == 0 && OnePath(|a|, |b|, v0, d, p)
      && OnePath(|a|, |b|, v2, d, p2)
    requires Walking(a, b, false, d, v0, p, v1, q, d - p.end + 2)
    requires -d + p2.start <= k <= d - p2.end && Parity(k, d)
    requires !ReverseHit(|a|, |b|, v1, k, Furthest(a, b, true, v2, d, k))
    requires Gap(|a| - |b|) - d <= Diagonal(|a| - |b|, k)
    ensures X(v1, |a| - |b| - k) + Furthest(a, b, true, v2, d, k) < |a|
  {
    hide OnePath, Walking, Even, Reached, MovedTo, StepX, Furthest, GoodSplit, X;
    var delta, limit, lo := |a| - |b|, Min(|a|, |b|), -d + p2.start + p2.end;
    var t := Diagonal(delta, k);
    DiagonalFacts(|a|, |b|, v2, d, p2, k);
    assert Parity(Gap(delta) - t, d);
    FacedEntry(a, b, d, v0, p, v1, q, Gap(delta) - t);
    Facing(delta, t);
    ReachedStep(v2, d, k);
    FurthestMoves(a, b, true, v2, delta, limit, d, lo, t);
    RunsOff(v2, delta, limit, d, lo, t, CoordOf(delta, t, Furthest(a, b, true, v2, d, k)));
  }

  lemma ReachedStep(v: seq<int>, d: int, k: int)
    requires Reached(v, d, k)
    ensures StepX(v, d, k) >= 0 && StepX(v, d, k) - k >= 0
  {
  }

  lemma NoOverlapApart(a: Text, b: Text, d: int, v0: seq<int>, p: Pruning, v1: seq<int>, q: Pruning,
                       v2: seq<int>, p2: Pruning, w2: seq<int>, q2: Pruning)
    requires Trimmed(a, b) && d >= 1 && (|a| - |b|) % 2 == 0 && OnePath(|a|, |b|, v0, d, p)
      && OnePath(|a|, |b|, v2, d, p2)
    requires Walking(a, b, false, d, v0, p, v1, q, d - p.end + 2)
    requires Walking(a, b, true, d, v2, p2, w2, q2, d - p2.end + 2)
    requires NoOverlap(|a|, |b|, v1, w2, d, -d + p2.start, d - p2.end + 2)
    ensures Inside(v1, |a| - |b|, Min(|a|, |b|), d + 1) && Inside(w2, |a| - |b|, Min(|a|, |b|), d + 1)
  {
    var delta, limit := |a| - |b|, Min(|a|, |b|);
    hide OnePath, Walking, FaceApart;
    forall t | Gap(delta) - d <= t <= d && Parity(t, d) ensures FaceApart(v1, w2, |a|, delta, t) {
      FacingApart(a, b, d, v0, p, v1, q, v2, p2, w2, q2, t);
    }
    ApartInside(v1, w2, |a|, |b|, delta, limit, d);
  }

  lemma FacingApart(a: Text, b: Text, d: int, v0: seq<int>, p: Pruning, v1: seq<int>, q: Pruning,
                    v2: seq<int>, p2: Pruning, w2: seq<int>, q2: Pruning, t: int)
    requires Trimmed(a, b) && d >= 1 && (|a| - |b|) % 2 == 0 && OnePath(|a|, |b|, v0, d, p)
      && OnePath(|a|, |b|, v2, d, p2)
    requires Walking(a, b, false, d, v0, p, v1, q, d - p.end + 2)
    requires Walking(a, b, true, d, v2, p2, w2, q2, d - p2.end + 2)
    requires NoOverlap(|a|, |b|, v1, w2, d, -d + p2.start, d - p2.end + 2)
    requires Gap(|a| - |b|) - d <= t <= d && Parity(t, d)
    ensures FaceApart(v1, w2, |a|, |a| - |b|, t)
  {
    hide OnePath, Walking, X, Furthest;
    var delta := |a| - |b|;
    var k := Diagonal(delta, t);
    FacingInRange(|a|, |b|, v2, d, p2, t);
    WrittenEntry(a, b, true, d, v2, p2, w2, q2, k);
    assert Parity(Gap(delta) - t, d);
    FacedEntry(a, b, d, v0, p, v1, q, Gap(delta) - t);
    Facing(delta, t);
    NoOverlapAt(|a|, |b|, v1, w2, d, -d + p2.start, d - p2.end + 2, k);
    hide NoOverlap;
  }

  lemma NoOverlapAt(n: int, m: int, v1: seq<int>, v2: seq<int>, d: int, lo: int, next: int, k: int)
    requires NoOverlap(n, m, v1, v2, d, lo, next)
    requires lo <= k < next && Parity(k, d) && Gap(n - m) - d <= Diagonal(n - m, k)
    ensures X(v1, n - m - k) + X(v2, k) < n
  {
    var _ := X(v2, k);
  }

  // ------------------------------------------------------------ the walks

  /** Follow the snake from a point. */
  method FollowSnake(a: Text, b: Text, rev: bool, x0: nat, y0: nat) returns (x: int)
    ensures x == x0 + Snake(a, b, rev, x0, y0)
  {
    x := x0;
    var y := y0;
    while x < |a| && y < |b| && CharAt(a, x, rev) == CharAt(b, y, rev)
      invariant x0 <= x && y == y0 + x - x0
      invariant Snake(a, b, rev, x0, y0) == x - x0 + Snake(a, b, rev, x, y)
      decreases |a| - x
    {
      x := x + 1;
      y := y + 1;
    }
  }

  /** Step to diagonal k and follow the snake from there. */
  method FollowDiagonal(a: Text, b: Text, rev: bool, v: array<int>, off: nat, d: int, k: int) returns (x: int)
    requires v.Length == 2 * off && 0 <= d < off && -d <= k <= d && 2 <= off
    requires StepX(v[..], d, k) >= 0 && StepX(v[..], d, k) - k >= 0
    ensures x == Furthest(a, b, rev, v[..], d, k)
  {
    var at := off + k;
    if k == -d || (k != d && v[at - 1] < v[at + 1]) {
      x := v[at + 1];
    } else {
      x := v[at - 1] + 1;
    }
    assert x == StepX(v[..], d, k);
    hide StepX, X, ComesDown;
    x := FollowSnake(a, b, rev, x, x - k);
  }

  /** Write the entry of the next diagonal of a walk. */
  method WriteEntry(a: Text, b: Text, rev: bool, v: array<int>, off: nat, d: int, k: int, p: Pruning, q: Pruning,
                    ghost v0: seq<int>)
    returns (x: int)
    requires Trimmed(a, b) && off == (|a| + |b| + 1) / 2 && d < off && OnePath(|a|, |b|, v0, d, p)
    requires Walking(a, b, rev, d, v0, p, v[..], q, k) && k <= d - p.end
    modifies v
    ensures 0 <= off + k < v.Length && v[..] == old(v[..])[off + k := x]
    ensures x == Furthest(a, b, rev, v0, d, k)
    ensures Walking(a, b, rev, d, v0, p, v[..], Pruned(q, |a|, |b|, x, x - k), k + 2)
  {
    ghost var w := v[..];
    WalkStep(a, b, rev, d, v0, p, w, q, k, off);
    NeighboursKept(a, b, rev, d, v0, w, -d + p.start, k);
    assert |w| == 2 * off && -d <= k <= d;
    hide OnePath, Walking, Furthest;
    x := FollowDiagonal(a, b, rev, v, off, d, k);
    v[off + k] := x;
    assert v[..] == w[off + k := x];
  }

  /** Entry k of the other path's vector, as the overlap check reads it. */
  method ReadEntry(v: array<int>, off: nat, k: int) returns (x: int)
    requires v.Length == 2 * off
    ensures x == X(v[..], k)
  {
    var at := off + k;
    x := if at >= 0 && at < v.Length then v[at] else -1;
  }

  /** Walk the front path one step. */
  method WalkFront(a: Text, b: Text, v1: array<int>, v2: array<int>, off: nat, d: int, p: Pruning, ghost p2: Pruning)
    returns (hit: bool, x: int, y: int, q: Pruning)
    requires v1 != v2 && Trimmed(a, b) && off == (|a| + |b| + 1) / 2 && d < off && v2.Length == 2 * off
    requires OnePath(|a|, |b|, v1[..], d, p) && OnePath(|a|, |b|, v2[..], d, p2)
    requires Covering(a, b, false, v1[..], d, p) && Covering(a, b, true, v2[..], d, p2)
    requires (|a| - |b|) % 2 != 0 ==> OddPaths(|a|, |b|, v1[..], v2[..], d)
    modifies v1
    ensures hit ==> BestSplit(a, b, x, y)
    ensures !hit ==> Walking(a, b, false, d, old(v1[..]), p, v1[..], q, d - p.end + 2)
    ensures !hit ==> Earned(a, b, d, p, d - p.end + 2, q)
    ensures !hit && (|a| - |b|) % 2 != 0 ==> FrontMissed(|a|, |b|, v1[..], v2[..], d, -d + p.start, d - p.end + 2)
    ensures !hit && (|a| - |b|) % 2 != 0 ==> X(v1[..], |a| - |b| - 1) != |a| - 1 && X(v1[..], |a| - |b| + 1) != |a|
  {
    hide Furthest, OnePath, Covering, Earned, FrontMissed, BestSplit;
    var n, m := |a|, |b|;
    var front := (n - m) % 2 != 0;
    ghost var v0 := v1[..];
    WalkBegins(a, b, false, d, v0, p);
    NothingYet(a, b, v0, v2[..], d, p);
    hit, x, y, q := false, 0, 0, p;
    var k := -d + p.start;
    while k <= d - p.end
      invariant k <= d - p.end + 2 && Walking(a, b, false, d, v0, p, v1[..], q, k)
      invariant front ==> X(v1[..], n - m - 1) != n - 1 && X(v1[..], n - m + 1) != n
      invariant Earned(a, b, d, p, k, q) && (front ==> FrontMissed(n, m, v1[..], v2[..], d, -d + p.start, k))
      decreases d - p.end - k
    {
      x, q := FrontEntry(a, b, v1, v2, off, d, k, p, q, p2, v0);
      y := x - k;
      if x <= n && y <= m && front {
        var reverse := ReadEntry(v2, off, (n - m) - k);
        if reverse != -1 && x >= n - reverse {
          hit := true;
          return;
        }
      }
      k := k + 2;
    }
    WalkOver(a, b, false, d, v0, p, v1[..], q, k);
  }

  /** Write one entry of the front path, with what the check that follows will decide. */
  method FrontEntry(a: Text, b: Text, v1: array<int>, v2: array<int>, off: nat, d: int, k: int, p: Pruning, q: Pruning,
                    ghost p2: Pruning, ghost v0: seq<int>) returns (x: int, q': Pruning)
    requires v1 != v2 && Trimmed(a, b) && off == (|a| + |b| + 1) / 2 && d < off
    requires OnePath(|a|, |b|, v0, d, p) && OnePath(|a|, |b|, v2[..], d, p2)
    requires Covering(a, b, false, v0, d, p) && Covering(a, b, true, v2[..], d, p2) && Earned(a, b, d, p, k, q)
    requires Walking(a, b, false, d, v0, p, v1[..], q, k) && k <= d - p.end
    requires (|a| - |b|) % 2 != 0 ==> OddPaths(|a|, |b|, v0, v2[..], d)
    requires (|a| - |b|) % 2 != 0 ==> X(v1[..], |a| - |b| - 1) != |a| - 1 && X(v1[..], |a| - |b| + 1) != |a|
    requires (|a| - |b|) % 2 != 0 ==> FrontMissed(|a|, |b|, v1[..], v2[..], d, -d + p.start, k)
    modifies v1
    ensures Walking(a, b, false, d, v0, p, v1[..], q', k + 2) && q' == Pruned(q, |a|, |b|, x, x - k)
    ensures Earned(a, b, d, p, k + 2, q')
    ensures (|a| - |b|) % 2 != 0 && FrontHit(|a|, |b|, v2[..], k, x) ==> BestSplit(a, b, x, x - k)
    ensures (|a| - |b|) % 2 != 0 && !FrontHit(|a|, |b|, v2[..], k, x) ==>
      FrontMissed(|a|, |b|, v1[..], v2[..], d, -d + p.start, k + 2)
    ensures (|a| - |b|) % 2 != 0 && !FrontHit(|a|, |b|, v2[..], k, x) ==>
      X(v1[..], |a| - |b| - 1) != |a| - 1 && X(v1[..], |a| - |b| + 1) != |a|
  {
    hide OnePath, Furthest, Advanced, Grown, GoodSplit, OddPaths, FrontHit, Covering, Earned, OnBest, FrontMissed;
    ghost var w := v1[..];
    WalkRange(a, b, false, d, v0, p, w, q, k, off);
    hide Walking;
    x := WriteEntry(a, b, false, v1, off, d, k, p, q, v0);
    Written(w, off, k, x);
    q' := Pruned(q, |a|, |b|, x, x - k);
    EarnedNext(a, b, false, v0, d, p, k, q);
    if (|a| - |b|) % 2 != 0 {
      if FrontHit(|a|, |b|, v2[..], k, x) {
        FrontHitSplits(a, b, d, v0, p, v2[..], p2, k);
        FrontSplitBest(a, b, v0, v2[..], d, p, p2, k);
      } else {
        FrontMissKeeps(a, b, d, v0, p, v2[..], k);
        FrontMissedOne(|a|, |b|, w, v2[..], d, -d + p.start, k, off, x);
      }
    }
  }

  lemma WalkRange(a: Text, b: Text, rev: bool, d: int, v0: seq<int>, p: Pruning, v: seq<int>, q: Pruning, k: int,
                  off: nat)
    requires OnePath(|a|, |b|, v0, d, p) && off == (|a| + |b| + 1) / 2 && d < off
    requires Walking(a, b, rev, d, v0, p, v, q, k) && k <= d - p.end
    ensures |v| == 2 * off && 0 <= off + k < |v| && -d + p.start <= k && Parity(k, d)
  {
    hide EvenPath, Sound, Furthest;
  }

  lemma WalkOver(a: Text, b: Text, rev: bool, d: int, v0: seq<int>, p: Pruning, v: seq<int>, q: Pruning, k: int)
    requires OnePath(|a|, |b|, v0, d, p) && Walking(a, b, rev, d, v0, p, v, q, k) && d - p.end < k
    ensures k == d - p.end + 2
  {
    hide EvenPath, Sound, Furthest, Advanced, Grown;
  }

  lemma NoneYet(n: int, m: int, v1: seq<int>, v2: seq<int>, d: int, lo: int)
    ensures NoOverlap(n, m, v1, v2, d, lo, lo) && ReverseMissed(n, m, v1, v2, d, lo, lo)
  {
  }

  lemma NothingYet(a: Text, b: Text, v1: seq<int>, v2: seq<int>, d: int, p: Pruning)
    ensures Earned(a, b, d, p, -d + p.start, p)
    ensures FrontMissed(|a|, |b|, v1, v2, d, -d + p.start, -d + p.start)
  {
  }

  /** Walk the reverse path one step. */
  method WalkReverse(a: Text, b: Text, v1: array<int>, v2: array<int>, off: nat, d: int, p2: Pruning,
                     ghost v0: seq<int>, ghost p: Pruning, ghost q: Pruning)
    returns (hit: bool, x: int, y: int, q2: Pruning)
    requires v1 != v2 && Trimmed(a, b) && off == (|a| + |b| + 1) / 2 && d < off && v1.Length == 2 * off
    requires OnePath(|a|, |b|, v0, d, p) && OnePath(|a|, |b|, v2[..], d, p2)
    requires Covering(a, b, false, v0, d, p) && Covering(a, b, true, v2[..], d, p2)
    requires Walking(a, b, false, d, v0, p, v1[..], q, d - p.end + 2)
    modifies v2
    ensures hit ==> BestSplit(a, b, x, y)
    ensures !hit ==> Walking(a, b, true, d, old(v2[..]), p2, v2[..], q2, d - p2.end + 2)
    ensures !hit ==> Earned(a, b, d, p2, d - p2.end + 2, q2)
    ensures !hit && (|a| - |b|) % 2 == 0 ==>
      ReverseMissed(|a|, |b|, v1[..], v2[..], d, -d + p2.start, d - p2.end + 2)
    ensures !hit && d >= 1 && (|a| - |b|) % 2 == 0 ==>
      NoOverlap(|a|, |b|, v1[..], v2[..], d, -d + p2.start, d - p2.end + 2)
  {
    hide Furthest, OnePath, GoodSplit, X, NoOverlap, Covering, Earned, ReverseMissed, BestSplit;
    var n, m := |a|, |b|;
    var front := (n - m) % 2 != 0;
    ghost var u0 := v2[..];
    WalkBegins(a, b, true, d, u0, p2);
    NoneYet(n, m, v1[..], u0, d, -d + p2.start);
    NothingYet(a, b, v1[..], u0, d, p2);
    hit, x, y, q2 := false, 0, 0, p2;
    var k := -d + p2.start;
    while k <= d - p2.end
      invariant k <= d - p2.end + 2 && Walking(a, b, true, d, u0, p2, v2[..], q2, k)
      invariant d >= 1 && !front ==> NoOverlap(n, m, v1[..], v2[..], d, -d + p2.start, k)
      invariant Earned(a, b, d, p2, k, q2) && (!front ==> ReverseMissed(n, m, v1[..], v2[..], d, -d + p2.start, k))
      decreases d - p2.end - k
    {
      var x2;
      x2, q2 := ReverseEntry(a, b, v1, v2, off, d, k, p2, q2, v0, p, q, u0);
      var y2 := x2 - k;
      if x2 <= n && y2 <= m && !front {
        x := ReadEntry(v1, off, (n - m) - k);
        if x != -1 {
          y := x - ((n - m) - k);
          if x >= n - x2 {
            hit := true;
            return;
          }
        }
      }
      k := k + 2;
    }
    WalkOver(a, b, true, d, u0, p2, v2[..], q2, k);
  }

  /** Write one entry of the reverse path, with what the check that follows will decide. */
  method ReverseEntry(a: Text, b: Text, v1: array<int>, v2: array<int>, off: nat, d: int, k: int, p2: Pruning,
                      q2: Pruning, ghost v0: seq<int>, ghost p: Pruning, ghost q: Pruning, ghost u0: seq<int>)
    returns (x: int, q': Pruning)
    requires v1 != v2 && Trimmed(a, b) && off == (|a| + |b| + 1) / 2 && d < off
    requires OnePath(|a|, |b|, v0, d, p) && OnePath(|a|, |b|, u0, d, p2)
    requires Covering(a, b, false, v0, d, p) && Covering(a, b, true, u0, d, p2) && Earned(a, b, d, p2, k, q2)
    requires Walking(a, b, false, d, v0, p, v1[..], q, d - p.end + 2)
    requires Walking(a, b, true, d, u0, p2, v2[..], q2, k) && k <= d - p2.end
    requires d >= 1 && (|a| - |b|) % 2 == 0 ==> NoOverlap(|a|, |b|, v1[..], v2[..], d, -d + p2.start, k)
    requires (|a| - |b|) % 2 == 0 ==> ReverseMissed(|a|, |b|, v1[..], v2[..], d, -d + p2.start, k)
    modifies v2
    ensures Walking(a, b, true, d, u0, p2, v2[..], q', k + 2) && q' == Pruned(q2, |a|, |b|, x, x - k)
    ensures Earned(a, b, d, p2, k + 2, q')
    ensures ReverseDecided(a, b, d, v1[..], v2[..], p2, k, x)
  {
    hide OnePath, Furthest, GoodSplit, ReverseHit, X, NoOverlap, Covering, Earned, ReverseMissed, BestSplit;
    ghost var w := v2[..];
    WalkRange(a, b, true, d, u0, p2, w, q2, k, off);
    hide Walking;
    x := WriteEntry(a, b, true, v2, off, d, k, p2, q2, u0);
    q' := Pruned(q2, |a|, |b|, x, x - k);
    EarnedNext(a, b, true, u0, d, p2, k, q2);
    if (|a| - |b|) % 2 == 0 {
      ReverseDecides(a, b, d, v0, p, v1[..], q, u0, p2, w, k, off, x);
    }
  }

  /** What follows from the reverse check on entry x of diagonal k, hit or not. */
  ghost predicate ReverseDecided(a: Text, b: Text, d: int, v1: seq<int>, v2: seq<int>, p2: Pruning, k: int, x: int) {
    var f := |a| - |b| - k;
    (|a| - |b|) % 2 == 0 ==>
      && (ReverseHit(|a|, |b|, v1, k, x) ==> BestSplit(a, b, X(v1, f), X(v1, f) - f))
      && (!ReverseHit(|a|, |b|, v1, k, x) ==> ReverseMissed(|a|, |b|, v1, v2, d, -d + p2.start, k + 2))
      && (d >= 1 && !ReverseHit(|a|, |b|, v1, k, x) ==> NoOverlap(|a|, |b|, v1, v2, d, -d + p2.start, k + 2))
  }

  lemma ReverseDecides(a: Text, b: Text, d: int, v0: seq<int>, p: Pruning, v1: seq<int>, q: Pruning,
                       u0: seq<int>, p2: Pruning, w: seq<int>, k: int, off: nat, x: int)
    requires Trimmed(a, b) && (|a| - |b|) % 2 == 0 && OnePath(|a|, |b|, v0, d, p) && OnePath(|a|, |b|, u0, d, p2)
    requires Covering(a, b, false, v0, d, p) && Covering(a, b, true, u0, d, p2)
    requires Walking(a, b, false, d, v0, p, v1, q, d - p.end + 2)
    requires -d + p2.start <= k <= d - p2.end && Parity(k, d) && |w| == 2 * off && 0 <= off + k < |w|
    requires x == Furthest(a, b, true, u0, d, k) && ReverseMissed(|a|, |b|, v1, w, d, -d + p2.start, k)
    requires d >= 1 ==> NoOverlap(|a|, |b|, v1, w, d, -d + p2.start, k)
    ensures ReverseDecided(a, b, d, v1, w[off + k := x], p2, k, x)
  {
    hide OnePath, Walking, Furthest, GoodSplit, ReverseHit, X, NoOverlap, Covering, ReverseMissed, BestSplit;
    if ReverseHit(|a|, |b|, v1, k, x) {
      ReverseHitBest(a, b, d, v0, p, v1, q, u0, p2, k);
    } else {
      ReverseMissedOne(|a|, |b|, v1, w, d, -d + p2.start, k, off, x);
      if d >= 1 {
        if Gap(|a| - |b|) - d <= Diagonal(|a| - |b|, k) {
          ReverseMissKeeps(a, b, d, v0, p, v1, q, u0, p2, k);
        }
        NoOverlapOne(|a|, |b|, v1, w, d, -d + p2.start, k, off, x);
      }
    }
  }

  lemma NoOverlapOne(n: int, m: int, v1: seq<int>, v2: seq<int>, d: int, lo: int, k: int, off: nat, x: int)
    requires NoOverlap(n, m, v1, v2, d, lo, k) && |v2| == 2 * off && 0 <= off + k < |v2| && Parity(k, d)
    requires Gap(n - m) - d <= Diagonal(n - m, k) ==> X(v1, n - m - k) + x < n
    ensures NoOverlap(n, m, v1, v2[off + k := x], d, lo, k + 2)
  {
    Written(v2, off, k, x);
    assert !Parity(k + 1, d);
  }

  // ------------------------------------------------------------ the search

  /** Everything known at the beginning of a round in which no overlap has been found yet. */
  ghost predicate Round(a: Text, b: Text, v1: seq<int>, v2: seq<int>, d: int, p1: Pruning, p2: Pruning) {
    && OnePath(|a|, |b|, v1, d, p1) && OnePath(|a|, |b|, v2, d, p2)
    && ((|a| - |b|) % 2 != 0 ==> OddPaths(|a|, |b|, v1, v2, d))
    && Covering(a, b, false, v1, d, p1) && Covering(a, b, true, v2, d, p2)
  }

  lemma FirstRound(a: Text, b: Text, v: seq<int>, off: nat)
    requires Trimmed(a, b) && off == (|a| + |b| + 1) / 2 && |v| == 2 * off
    requires forall i | 0 <= i < |v| :: v[i] == if i == off + 1 then 0 else -1
    ensures Round(a, b, v, v, 0, Pruning(0, 0), Pruning(0, 0))
  {
    assert forall k {:trigger X(v, k)} :: X(v, k) == if k == 1 then 0 else -1;
    assert OnePath(|a|, |b|, v, 0, Pruning(0, 0));
    CostOffDiagonal(a, b, false, |a|, |b|);
  }

  lemma NextRound(a: Text, b: Text, d: int, v1: seq<int>, v2: seq<int>, p1: Pruning, p2: Pruning,
                  w1: seq<int>, w2: seq<int>, q1: Pruning, q2: Pruning)
    requires Trimmed(a, b) && 0 <= d && Round(a, b, v1, v2, d, p1, p2)
    requires Walking(a, b, false, d, v1, p1, w1, q1, d - p1.end + 2)
    requires Walking(a, b, true, d, v2, p2, w2, q2, d - p2.end + 2)
    requires (|a| - |b|) % 2 != 0 ==> X(w1, |a| - |b| - 1) != |a| - 1 && X(w1, |a| - |b| + 1) != |a|
    requires d >= 1 && (|a| - |b|) % 2 == 0 ==> NoOverlap(|a|, |b|, w1, w2, d, -d + p2.start, d - p2.end + 2)
    requires Earned(a, b, d, p1, d - p1.end + 2, q1) && Earned(a, b, d, p2, d - p2.end + 2, q2)
    requires (|a| - |b|) % 2 != 0 ==> FrontMissed(|a|, |b|, w1, v2, d, -d + p1.start, d - p1.end + 2)
    requires (|a| - |b|) % 2 == 0 ==> ReverseMissed(|a|, |b|, w1, w2, d, -d + p2.start, d - p2.end + 2)
    ensures Round(a, b, w1, w2, d + 1, q1, q2)
  {
    hide OnePath, NoOverlap, Grown, X, Inside, OddPaths, Covering, Earned, FrontMissed, ReverseMissed;
    NextCovering(a, b, d, v1, v2, p1, p2, w1, w2, q1, q2);
    if (|a| - |b|) % 2 != 0 {
      OddNext(a, b, d, v1, v2, p2, w1, w2);
    } else if d >= 1 {
      hide Walking;
      NoOverlapApart(a, b, d, v1, p1, w1, q1, v2, p2, w2, q2);
    }
    hide Advanced;
    WalkEnds(a, b, false, d, v1, p1, w1, q1);
    WalkEnds(a, b, true, d, v2, p2, w2, q2);
  }

  /** A round without an overlap: the texts are further apart, and both paths cover as much more. */
  lemma NextCovering(a: Text, b: Text, d: int, v1: seq<int>, v2: seq<int>, p1: Pruning, p2: Pruning,
                     w1: seq<int>, w2: seq<int>, q1: Pruning, q2: Pruning)
    requires 0 <= d && OnePath(|a|, |b|, v1, d, p1) && OnePath(|a|, |b|, v2, d, p2)
    requires Covering(a, b, false, v1, d, p1) && Covering(a, b, true, v2, d, p2)
    requires Walking(a, b, false, d, v1, p1, w1, q1, d - p1.end + 2)
    requires Walking(a, b, true, d, v2, p2, w2, q2, d - p2.end + 2)
    requires Earned(a, b, d, p1, d - p1.end + 2, q1) && Earned(a, b, d, p2, d - p2.end + 2, q2)
    requires (|a| - |b|) % 2 != 0 ==> FrontMissed(|a|, |b|, w1, v2, d, -d + p1.start, d - p1.end + 2)
    requires (|a| - |b|) % 2 == 0 ==> ReverseMissed(|a|, |b|, w1, w2, d, -d + p2.start, d - p2.end + 2)
    ensures Covering(a, b, false, w1, d + 1, q1) && Covering(a, b, true, w2, d + 1, q2)
  {
    hide OnePath, Grown, X, Covering, Earned, Advanced, Sound, Ready, Whole, FrontHit, ReverseHit;
    CoveringWhole(a, b, false, v1, d, p1);
    EvenWhole(a, b, false, v1, d, p1);
    if Whole(a, b) == 2 * d - 1 {
      var k := FrontMeets(a, b, v1, v2, d, p1, p2, w1);
      var _ := X(w1, k);
    } else if Whole(a, b) == 2 * d {
      var k := ReverseMeets(a, b, v1, v2, d, p1, p2, w1, w2);
      var _ := X(w2, k);
    }
    WalkReady(a, b, false, d, v1, p1, w1, q1);
    WalkReady(a, b, true, d, v2, p2, w2, q2);
    CoversOn(a, b, false, v1, d, p1, w1, q1);
    CoversOn(a, b, true, v2, d, p2, w2, q2);
  }

  /** When the rounds run out the texts have nothing in common. */
  lemma NothingCommon(a: Text, b: Text, v1: seq<int>, v2: seq<int>, d: int, p1: Pruning, p2: Pruning)
    requires Round(a, b, v1, v2, d, p1, p2) && d >= (|a| + |b| + 1) / 2
    ensures Whole(a, b) == |a| + |b|
  {
    hide OnePath, OddPaths, Cost;
    EvenWhole(a, b, false, v1, d, p1);
    CoveringWhole(a, b, false, v1, d, p1);
    CostToCorner(a, b, false, 0, 0);
    CostOrigin(a, b);
  }

  lemma CostOrigin(a: Text, b: Text)
    ensures Cost(a, b, false, 0, 0) == 0
  {
  }

  /**
   Whether `time.time() > deadline`. The clock is not modelled: with a time limit any answer
   is possible at any time, so what is proved holds whichever check is the one that fires.
   Without one the deadline is `sys.maxsize`, which no clock passes.
   */
  method PastDeadline(patient: bool) returns (late: bool)
    ensures patient ==> !late
  {
    late := *;
    if patient {
      late := false;
    }
  }

  /**
   The loop of `diff_bisect`: a middle snake, if one is found in time. What is found lies on
   a cheapest way; when there is time enough, nothing is found only for texts without a
   common character.
   */
  method FindMiddleSnake(a: Text, b: Text, patient: bool) returns (found: bool, x: int, y: int)
    requires Trimmed(a, b)
    ensures found ==> BestSplit(a, b, x, y)
    ensures !found && patient ==> Whole(a, b) == |a| + |b|
  {
    hide Walking, OnePath, OddPaths, NoOverlap, X, BestSplit, Covering, Earned, FrontMissed, ReverseMissed, Whole;
    var n, m := |a|, |b|;
    var off := (n + m + 1) / 2;
    var v1 := new int[2 * off](i => -1);
    v1[off + 1] := 0;
    var v2 := new int[2 * off](i => -1);
    v2[off + 1] := 0;
    assert v1[..] == v2[..];
    var p1, p2 := Pruning(0, 0), Pruning(0, 0);
    FirstRound(a, b, v1[..], off);
    found, x, y := false, 0, 0;
    var d := 0;
    while d < off
      invariant 0 <= d && Round(a, b, v1[..], v2[..], d, p1, p2)
    {
      var late := PastDeadline(patient);
      if late {
        return false, 0, 0;
      }
      ghost var w1, w2 := v1[..], v2[..];
      var q1, q2;
      found, x, y, q1 := WalkFront(a, b, v1, v2, off, d, p1, p2);
      if found {
        return;
      }
      found, x, y, q2 := WalkReverse(a, b, v1, v2, off, d, p2, w1, p1, q1);
      if found {
        return;
      }
      NextRound(a, b, d, w1, w2, p1, p2, v1[..], v2[..], q1, q2);
      p1, p2 := q1, q2;
      d := d + 1;
    }
    NothingCommon(a, b, v1[..], v2[..], d, p1, p2);
  }
}
