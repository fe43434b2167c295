/**
 Why `diff_bisect` finds an overlap before either path reaches the far corner when the
 length difference is even. Diagonals are renumbered so that one argument serves both
 signs of the difference: t counts diagonals towards the corner's side, c is the
 coordinate whose limit is the shorter text (o = c + t has the longer one's), and the
 corner lies on diagonal t = gap.
 */
module Collision {
  import opened Texts
  import opened Frontier

  // ------------------------------------------------------------ coordinates

  /** The signed difference n - m of the text lengths decides which coordinate is which. */
  function Diagonal(delta: int, t: int): int {
    if delta >= 0 then t else -t
  }

  function Gap(delta: int): nat {
    if delta >= 0 then delta else -delta
  }

  ghost predicate IsSet(v: seq<int>, delta: int, t: int) {
    X(v, Diagonal(delta, t)) != -1
  }

  function CoordOf(delta: int, t: int, x: int): int {
    if delta >= 0 then x - t else x
  }

  /** The coordinate of entry t that is limited by the shorter text. */
  function C(v: seq<int>, delta: int, t: int): int {
    CoordOf(delta, t, X(v, Diagonal(delta, t)))
  }

  // ------------------------------------------------------------ invariants of a vector

  /** An entry past the shorter limit has a neighbour two diagonals on that reached the limit. */
  ghost predicate Wave(v: seq<int>, delta: int, limit: int, d: int) {
    forall t {:trigger C(v, delta, t)} | -d < t < d && IsSet(v, delta, t) && C(v, delta, t) > limit ::
      t + 2 < d && IsSet(v, delta, t + 2) && C(v, delta, t + 2) >= limit
  }

  /** No entry is more than d past the shorter limit. */
  ghost predicate Shallow(v: seq<int>, delta: int, limit: int, d: int) {
    forall t {:trigger C(v, delta, t)} | -d < t < d && IsSet(v, delta, t) :: C(v, delta, t) <= limit + d
  }

  /** The last round's entries from `lo` on are at least as far as either neighbour allows. */
  ghost predicate Furthered(v: seq<int>, delta: int, d: int, lo: int) {
    forall t {:trigger C(v, delta, t)} | lo <= t < d && Parity(t, d - 1) ::
      && IsSet(v, delta, t)
      && (IsSet(v, delta, t - 1) ==> C(v, delta, t) >= C(v, delta, t - 1))
      && (IsSet(v, delta, t + 1) ==> C(v, delta, t) >= C(v, delta, t + 1) + 1)
  }

  /** The last round's entries facing an entry of the other path lie strictly inside the grid. */
  ghost predicate Inside(v: seq<int>, delta: int, limit: int, d: int) {
    forall t {:trigger C(v, delta, t)} | Gap(delta) - (d - 1) <= t < d && Parity(t, d - 1) ::
      C(v, delta, t) < limit && C(v, delta, t) + t < limit + Gap(delta)
  }

  /** Everything a walk in round d relies on; its diagonals are t = lo .. d. */
  ghost predicate Even(v: seq<int>, delta: int, limit: int, d: int, lo: int) {
    && Sound(v, d) && lo <= Gap(delta) - d && Parity(lo, d) && -d <= lo <= d
    && (d >= 1 ==> lo <= d - 2)
    && Wave(v, delta, limit, d)
    && Shallow(v, delta, limit, d)
    && Furthered(v, delta, d, lo + 1)
    && Inside(v, delta, limit, d)
  }

  // ------------------------------------------------------------ one step in these coordinates

  /** A step takes the better of moving on from t - 1 and coming back from t + 1. */
  ghost predicate Best(v: seq<int>, delta: int, d: int, t: int, c0: int) {
    && (-d < t && IsSet(v, delta, t - 1) ==> c0 >= C(v, delta, t - 1))
    && (t < d && IsSet(v, delta, t + 1) ==> c0 >= C(v, delta, t + 1) + 1)
    && (|| (-d < t && IsSet(v, delta, t - 1) && c0 == C(v, delta, t - 1))
        || (t < d && IsSet(v, delta, t + 1) && c0 == C(v, delta, t + 1) + 1))
  }

  lemma StepIsBest(v: seq<int>, delta: int, d: int, lo: int, t: int)
    requires d >= 1 && Sound(v, d) && Furthered(v, delta, d, lo + 1)
    requires -d <= lo <= t <= d && lo <= d - 2 && Parity(t, d) && Parity(lo, d)
    ensures var k := Diagonal(delta, t); Best(v, delta, d, t, CoordOf(delta, t, StepX(v, d, k)))
  {
    var k := Diagonal(delta, t);
    assert Parity(t + 1, d - 1) && Parity(t - 1, d - 1);
    if t < d {
      var _ := C(v, delta, t + 1);
      assert IsSet(v, delta, t + 1);
    } else {
      var _ := C(v, delta, t - 1);
      assert IsSet(v, delta, t - 1);
    }
    assert Diagonal(delta, t + 1) == (if delta >= 0 then k + 1 else k - 1);
    assert Diagonal(delta, t - 1) == (if delta >= 0 then k - 1 else k + 1);
  }

  /** The smallest of a vector's diagonals that a walk in round d rewrites, in the source's numbering. */
  function First(delta: int, d: int, lo: int): int {
    if delta >= 0 then lo else -d
  }

  function Final(delta: int, d: int, lo: int): int {
    if delta >= 0 then d else -lo
  }

  /** The limits of c and o, for texts of these lengths. */
  ghost predicate Sized(n: int, m: int, delta: int, limit: int) {
    delta == n - m && limit == Min(n, m) && 2 <= limit && delta % 2 == 0
  }

  /** A new coordinate: one best step, then a snake that stays on the grid. */
  ghost predicate MovedTo(v0: seq<int>, delta: int, limit: int, d: int, t: int, c: int) {
    var c0 := CoordOf(delta, t, StepX(v0, d, Diagonal(delta, t)));
    && Best(v0, delta, d, t, c0) && c >= c0
    && (c > c0 ==> c <= limit && c + t <= limit + Gap(delta))
  }

  ghost predicate Moved(v0: seq<int>, v: seq<int>, delta: int, limit: int, d: int, t: int) {
    IsSet(v, delta, t) && MovedTo(v0, delta, limit, d, t, C(v, delta, t))
  }

  ghost predicate WalkedAt(v0: seq<int>, v: seq<int>, delta: int, limit: int, d: int, lo: int, t: int) {
    if lo <= t <= d && Parity(t, d) then Moved(v0, v, delta, limit, d, t)
    else C(v, delta, t) == C(v0, delta, t) && (IsSet(v, delta, t) <==> IsSet(v0, delta, t))
  }

  ghost predicate Walked(v0: seq<int>, v: seq<int>, delta: int, limit: int, d: int, lo: int) {
    forall t {:trigger C(v, delta, t)} {:trigger WalkedAt(v0, v, delta, limit, d, lo, t)} ::
      WalkedAt(v0, v, delta, limit, d, lo, t)
  }

  lemma WalkedEntry(v0: seq<int>, v: seq<int>, delta: int, limit: int, d: int, lo: int, t: int)
    requires Walked(v0, v, delta, limit, d, lo)
    ensures WalkedAt(v0, v, delta, limit, d, lo, t)
  {
    var _ := C(v, delta, t);
  }

  lemma AdvancedWalked(a: Text, b: Text, rev: bool, v0: seq<int>, v: seq<int>, delta: int, limit: int, d: int, lo: int)
    requires d >= 1 && Parity(lo, d) && Sized(|a|, |b|, delta, limit) && Even(v0, delta, limit, d, lo)
    requires Ready(v0, d, First(delta, d, lo), Final(delta, d, lo))
    requires Advanced(a, b, rev, d, v0, v, First(delta, d, lo), Final(delta, d, lo) + 2)
    ensures Walked(v0, v, delta, limit, d, lo)
  {
    hide Even, Ready, Advanced, MovedTo;
    forall t ensures WalkedAt(v0, v, delta, limit, d, lo, t) {
      if lo <= t <= d && Parity(t, d) {
        AdvancedEntry(a, b, rev, v0, v, delta, d, lo, t);
        FurthestMoves(a, b, rev, v0, delta, limit, d, lo, t);
      } else {
        EntryKept(a, b, rev, v0, v, delta, limit, d, lo, t);
      }
    }
  }

  lemma AdvancedEntry(a: Text, b: Text, rev: bool, v0: seq<int>, v: seq<int>, delta: int, d: int, lo: int, t: int)
    requires Ready(v0, d, First(delta, d, lo), Final(delta, d, lo))
    requires Advanced(a, b, rev, d, v0, v, First(delta, d, lo), Final(delta, d, lo) + 2)
    requires lo <= t <= d && Parity(t, d)
    ensures var k := Diagonal(delta, t);
      StepX(v0, d, k) >= 0 && StepX(v0, d, k) - k >= 0 && X(v, k) == Furthest(a, b, rev, v0, d, k)
  {
    var k := Diagonal(delta, t);
    assert Parity(k, d);
    assert StepX(v0, d, k) >= 0;
    assert X(v, k) == Furthest(a, b, rev, v0, d, k);
  }

  lemma EntryKept(a: Text, b: Text, rev: bool, v0: seq<int>, v: seq<int>, delta: int, limit: int, d: int, lo: int,
                  t: int)
    requires Parity(lo, d) && Advanced(a, b, rev, d, v0, v, First(delta, d, lo), Final(delta, d, lo) + 2)
    requires !(lo <= t <= d && Parity(t, d))
    ensures C(v, delta, t) == C(v0, delta, t) && (IsSet(v, delta, t) <==> IsSet(v0, delta, t))
  {
    var k := Diagonal(delta, t);
    assert Parity(t, d) <==> Parity(k, d);
    assert !Parity(Final(delta, d, lo) + 1, d);
    assert X(v, k) == X(v0, k);
  }

  lemma FurthestMoves(a: Text, b: Text, rev: bool, v0: seq<int>, delta: int, limit: int, d: int, lo: int, t: int)
    requires d >= 1 && Sized(|a|, |b|, delta, limit) && Even(v0, delta, limit, d, lo)
    requires lo <= t <= d && Parity(t, d)
    requires var k := Diagonal(delta, t); StepX(v0, d, k) >= 0 && StepX(v0, d, k) - k >= 0
    ensures MovedTo(v0, delta, limit, d, t, CoordOf(delta, t, Furthest(a, b, rev, v0, d, Diagonal(delta, t))))
  {
    StepIsBest(v0, delta, d, lo, t);
    hide Even, Best;
  }

  // ------------------------------------------------------------ what one walk keeps

  /** Facing the other path, a best step stays on the grid. */
  lemma StepOnGrid(v: seq<int>, delta: int, limit: int, d: int, lo: int, t: int, c0: int)
    requires d >= 1 && delta % 2 == 0 && Even(v, delta, limit, d, lo)
    requires Gap(delta) - d <= t <= d && Parity(t, d) && Best(v, delta, d, t, c0)
    ensures c0 <= limit && c0 + t <= limit + Gap(delta)
  {
    assert Wave(v, delta, limit, d) && Inside(v, delta, limit, d);
    hide Even;
    if -d < t && IsSet(v, delta, t - 1) && c0 == C(v, delta, t - 1) {
      RightOnGrid(v, delta, limit, d, t, c0);
    } else {
      DownOnGrid(v, delta, limit, d, t, c0);
    }
  }

  /** The step that moves on from t - 1. */
  lemma RightOnGrid(v: seq<int>, delta: int, limit: int, d: int, t: int, c0: int)
    requires d >= 1 && delta % 2 == 0 && Wave(v, delta, limit, d) && Inside(v, delta, limit, d)
    requires Gap(delta) - d <= t <= d && Parity(t, d) && Best(v, delta, d, t, c0)
    requires -d < t && IsSet(v, delta, t - 1) && c0 == C(v, delta, t - 1)
    ensures c0 <= limit && c0 + t <= limit + Gap(delta)
  {
    hide C, IsSet;
    assert Parity(t - 1, d - 1);
    if t - 1 < Gap(delta) - (d - 1) {
      assert t == Gap(delta) - d;
      var _ := C(v, delta, t + 1);
    }
  }

  /** The step that comes back from t + 1. */
  lemma DownOnGrid(v: seq<int>, delta: int, limit: int, d: int, t: int, c0: int)
    requires d >= 1 && delta % 2 == 0 && Inside(v, delta, limit, d)
    requires Gap(delta) - d <= t < d && Parity(t, d) && c0 == C(v, delta, t + 1) + 1
    ensures c0 <= limit && c0 + t <= limit + Gap(delta)
  {
    hide C;
    assert Parity(t + 1, d - 1);
  }

  /** On the outermost diagonal of its side, too. */
  lemma TopOnGrid(v: seq<int>, delta: int, limit: int, d: int, lo: int, c0: int)
    requires d >= 1 && Even(v, delta, limit, d, lo) && Best(v, delta, d, d, c0)
    ensures c0 <= limit
  {
  }

  /** Away from the other path the longer limit is out of reach. */
  lemma FarFromCorner(v: seq<int>, delta: int, limit: int, d: int, lo: int, t: int, c0: int)
    requires d >= 1 && delta % 2 == 0 && Even(v, delta, limit, d, lo)
    requires t < Gap(delta) - d && Parity(t, d) && Best(v, delta, d, t, c0) && -d <= t <= d
    ensures c0 + t <= limit + Gap(delta)
  {
    assert t <= Gap(delta) - d - 2;
  }

  /** A rewritten entry can leave the grid only past the shorter limit, away from the other path. */
  lemma RunsOff(v0: seq<int>, delta: int, limit: int, d: int, lo: int, t: int, c: int)
    requires d >= 1 && delta % 2 == 0 && Even(v0, delta, limit, d, lo)
    requires lo <= t <= d && Parity(t, d) && MovedTo(v0, delta, limit, d, t, c)
    ensures c + t <= limit + Gap(delta)
    ensures c > limit ==> t < d && t < Gap(delta) - d
  {
    var c0 := CoordOf(delta, t, StepX(v0, d, Diagonal(delta, t)));
    assert -d <= lo;
    if Gap(delta) - d <= t {
      StepOnGrid(v0, delta, limit, d, lo, t, c0);
    } else {
      FarFromCorner(v0, delta, limit, d, lo, t, c0);
    }
    if t == d {
      TopOnGrid(v0, delta, limit, d, lo, c0);
    }
    hide Even, Best;
  }

  lemma WalkKeepsWave(v0: seq<int>, v: seq<int>, delta: int, limit: int, d: int, lo: int)
    requires d >= 1 && Even(v0, delta, limit, d, lo) && Walked(v0, v, delta, limit, d, lo)
    ensures Wave(v, delta, limit, d + 1)
  {
    forall t {:trigger C(v, delta, t)} | -d - 1 < t < d + 1 && IsSet(v, delta, t) && C(v, delta, t) > limit
      ensures t + 2 < d + 1 && IsSet(v, delta, t + 2) && C(v, delta, t + 2) >= limit
    {
      if lo <= t <= d && Parity(t, d) {
        WaveNew(v0, v, delta, limit, d, lo, t);
      } else {
        assert C(v, delta, t) == C(v0, delta, t);
        WaveOld(v0, v, delta, limit, d, lo, t);
      }
    }
  }

  lemma WaveNew(v0: seq<int>, v: seq<int>, delta: int, limit: int, d: int, lo: int, t: int)
    requires d >= 1 && Even(v0, delta, limit, d, lo) && Walked(v0, v, delta, limit, d, lo)
    requires lo <= t <= d && Parity(t, d) && C(v, delta, t) > limit
    ensures t + 2 < d + 1 && IsSet(v, delta, t + 2) && C(v, delta, t + 2) >= limit
  {
    var c0 := CoordOf(delta, t, StepX(v0, d, Diagonal(delta, t)));
    WalkedEntry(v0, v, delta, limit, d, lo, t);
    assert C(v, delta, t) == c0;
    BestPastLimit(v0, delta, limit, d, lo, t, c0);
    var u := t + 2;
    assert Parity(u, d);
    var _ := C(v, delta, u);
    WalkedEntry(v0, v, delta, limit, d, lo, u);
    assert u - 1 == t + 1;
  }

  lemma BestPastLimit(v0: seq<int>, delta: int, limit: int, d: int, lo: int, t: int, c0: int)
    requires d >= 1 && Even(v0, delta, limit, d, lo) && -d <= t <= d && Parity(t, d) && Best(v0, delta, d, t, c0)
      && c0 > limit
    ensures t + 1 < d && IsSet(v0, delta, t + 1) && C(v0, delta, t + 1) >= limit
  {
    if t < d && IsSet(v0, delta, t + 1) && c0 == C(v0, delta, t + 1) + 1 {
      assert t + 1 != d by {
        assert Parity(t, d);
      }
    } else {
      assert C(v0, delta, t - 1) > limit;
      assert t - 1 + 2 == t + 1;
    }
  }

  lemma WaveOld(v0: seq<int>, v: seq<int>, delta: int, limit: int, d: int, lo: int, t: int)
    requires d >= 1 && Even(v0, delta, limit, d, lo) && Walked(v0, v, delta, limit, d, lo)
    requires -d < t < d && IsSet(v0, delta, t) && C(v0, delta, t) > limit
    ensures t + 2 < d + 1 && IsSet(v, delta, t + 2) && C(v, delta, t + 2) >= limit
  {
    var c2 := C(v, delta, t + 2);
    var u := t + 2;
    if lo <= u <= d && Parity(u, d) {
      WalkedEntry(v0, v, delta, limit, d, lo, u);
      assert Parity(u + 1, d - 1);
      var _ := C(v0, delta, u + 1);
      assert u + 1 - 1 == u;
    }
  }

  lemma WalkKeepsShallow(v0: seq<int>, v: seq<int>, delta: int, limit: int, d: int, lo: int)
    requires d >= 1 && -d <= lo && 0 <= limit && Sound(v0, d) && Shallow(v0, delta, limit, d)
      && Walked(v0, v, delta, limit, d, lo)
    ensures Shallow(v, delta, limit, d + 1)
  {
    forall t {:trigger C(v, delta, t)} | -d - 1 < t < d + 1 && IsSet(v, delta, t)
      ensures C(v, delta, t) <= limit + d + 1
    {
      WalkedEntry(v0, v, delta, limit, d, lo, t);
      if lo <= t <= d && Parity(t, d) {
        BestShallow(v0, delta, limit, d, t, CoordOf(delta, t, StepX(v0, d, Diagonal(delta, t))));
      } else {
        assert C(v, delta, t) == C(v0, delta, t) && IsSet(v0, delta, t);
      }
    }
  }

  lemma BestShallow(v0: seq<int>, delta: int, limit: int, d: int, t: int, c0: int)
    requires Shallow(v0, delta, limit, d) && Best(v0, delta, d, t, c0) && -d <= t <= d && Sound(v0, d) && d >= 1
    requires Parity(t, d)
    ensures c0 <= limit + d + 1
  {
    assert !Parity(t - 1, d) && !Parity(t + 1, d);
  }

  lemma WalkFurthers(v0: seq<int>, v: seq<int>, delta: int, limit: int, d: int, lo: int, lo': int)
    requires d >= 1 && -d <= lo && Sound(v0, d) && Walked(v0, v, delta, limit, d, lo)
    requires lo - 1 <= lo'
    ensures Furthered(v, delta, d + 1, lo' + 1)
  {
    forall t {:trigger C(v, delta, t)} | lo' + 1 <= t < d + 1 && Parity(t, d + 1 - 1)
      ensures IsSet(v, delta, t)
      ensures IsSet(v, delta, t - 1) ==> C(v, delta, t) >= C(v, delta, t - 1)
      ensures IsSet(v, delta, t + 1) ==> C(v, delta, t) >= C(v, delta, t + 1) + 1
    {
      assert Parity(t, d);
      WalkedEntry(v0, v, delta, limit, d, lo, t);
      WalkedNeighbours(v0, v, delta, limit, d, lo, t);
    }
  }

  lemma WalkedNeighbours(v0: seq<int>, v: seq<int>, delta: int, limit: int, d: int, lo: int, t: int)
    requires d >= 1 && Sound(v0, d) && Walked(v0, v, delta, limit, d, lo) && Parity(t, d) && -d <= t <= d
    ensures C(v, delta, t - 1) == C(v0, delta, t - 1) && C(v, delta, t + 1) == C(v0, delta, t + 1)
    ensures IsSet(v, delta, t - 1) == IsSet(v0, delta, t - 1) && IsSet(v, delta, t + 1) == IsSet(v0, delta, t + 1)
    ensures IsSet(v, delta, t - 1) ==> -d < t
    ensures IsSet(v, delta, t + 1) ==> t < d
  {
    assert !Parity(t - 1, d) && !Parity(t + 1, d);
  }

  /** After a full round without an overlap everything holds again for the next round. */
  lemma EvenNext(v0: seq<int>, v: seq<int>, delta: int, limit: int, d: int, lo: int, lo': int)
    requires d >= 1 && 0 <= limit && Even(v0, delta, limit, d, lo) && Walked(v0, v, delta, limit, d, lo)
    requires Sound(v, d + 1) && Inside(v, delta, limit, d + 1)
    requires lo - 1 <= lo' <= d - 1 && Parity(lo', d + 1) && lo' <= Gap(delta) - (d + 1)
    ensures Even(v, delta, limit, d + 1, lo')
  {
    WalkKeepsWave(v0, v, delta, limit, d, lo);
    WalkKeepsShallow(v0, v, delta, limit, d, lo);
    WalkFurthers(v0, v, delta, limit, d, lo, lo');
  }

  lemma WalkGivesEven(a: Text, b: Text, rev: bool, v0: seq<int>, v: seq<int>, delta: int, limit: int, d: int,
                      lo: int, lo': int)
    requires d >= 1 && Parity(lo, d) && Sized(|a|, |b|, delta, limit) && Even(v0, delta, limit, d, lo)
    requires Ready(v0, d, First(delta, d, lo), Final(delta, d, lo))
    requires Advanced(a, b, rev, d, v0, v, First(delta, d, lo), Final(delta, d, lo) + 2)
    requires Sound(v, d + 1) && Inside(v, delta, limit, d + 1)
    requires lo - 1 <= lo' <= d - 1 && Parity(lo', d + 1) && lo' <= Gap(delta) - (d + 1)
    ensures Even(v, delta, limit, d + 1, lo')
  {
    hide Even, Advanced, Ready, Sound, Inside, Walked;
    AdvancedWalked(a, b, rev, v0, v, delta, limit, d, lo);
    EvenNext(v0, v, delta, limit, d, lo, lo');
  }

  /** The first round only fills diagonal 0, with x = 0. */
  lemma EvenAfterFirstRound(v: seq<int>, delta: int, limit: int)
    requires 2 <= limit && delta % 2 == 0
    requires X(v, 0) == 0 && X(v, 1) == 0 && forall k {:trigger X(v, k)} | k != 0 && k != 1 :: X(v, k) == -1
    ensures Even(v, delta, limit, 1, -1)
  {
  }

  // ------------------------------------------------------------ overlaps

  /** The diagonal of the other path that meets diagonal t of this one. */
  lemma Facing(delta: int, t: int)
    ensures Diagonal(delta, Gap(delta) - t) == delta - Diagonal(delta, t)
  {
  }

  /** Two facing entries are valid and do not reach each other. */
  ghost predicate FaceApart(v1: seq<int>, v2: seq<int>, n: int, delta: int, t: int) {
    && ValidAt(v1, delta, Gap(delta) - t) && ValidAt(v2, delta, t)
    && X(v1, delta - Diagonal(delta, t)) + X(v2, Diagonal(delta, t)) < n
  }

  /** No two facing entries of this round reach each other. */
  ghost predicate Apart(v1: seq<int>, v2: seq<int>, n: int, delta: int, d: int) {
    forall t {:trigger FaceApart(v1, v2, n, delta, t)} | Gap(delta) - d <= t <= d && Parity(t, d) ::
      FaceApart(v1, v2, n, delta, t)
  }

  ghost predicate ValidAt(v: seq<int>, delta: int, t: int) {
    C(v, delta, t) >= 0 && C(v, delta, t) + t >= 0
  }

  lemma ApartAt(v1: seq<int>, v2: seq<int>, n: int, m: int, delta: int, limit: int, d: int, t: int)
    requires Sized(n, m, delta, limit) && Apart(v1, v2, n, delta, d)
    requires Gap(delta) - d <= t <= d && Parity(t, d)
    ensures C(v2, delta, t) < limit && C(v2, delta, t) + t < limit + Gap(delta)
    ensures var u := Gap(delta) - t; C(v1, delta, u) < limit && C(v1, delta, u) + u < limit + Gap(delta)
  {
    assert FaceApart(v1, v2, n, delta, t);
    Facing(delta, t);
  }

  lemma ApartInside(v1: seq<int>, v2: seq<int>, n: int, m: int, delta: int, limit: int, d: int)
    requires Sized(n, m, delta, limit) && Apart(v1, v2, n, delta, d)
    ensures Inside(v1, delta, limit, d + 1) && Inside(v2, delta, limit, d + 1)
  {
    hide Apart, C, Sized;
    forall t {:trigger C(v2, delta, t)} | Gap(delta) - d <= t < d + 1 && Parity(t, d + 1 - 1)
      ensures C(v2, delta, t) < limit && C(v2, delta, t) + t < limit + Gap(delta)
    {
      ApartAt(v1, v2, n, m, delta, limit, d, t);
    }
    forall t {:trigger C(v1, delta, t)} | Gap(delta) - d <= t < d + 1 && Parity(t, d + 1 - 1)
      ensures C(v1, delta, t) < limit && C(v1, delta, t) + t < limit + Gap(delta)
    {
      FacingParity(n, m, delta, limit, d, t);
      ApartAt(v1, v2, n, m, delta, limit, d, Gap(delta) - t);
    }
  }

  lemma FacingParity(n: int, m: int, delta: int, limit: int, d: int, t: int)
    requires Sized(n, m, delta, limit) && Parity(t, d)
    ensures Parity(Gap(delta) - t, d)
  {
  }

  /** Where the forward path faces the reverse path it is on the grid, and not at the far corner. */
  lemma FacingOnGrid(a: Text, b: Text, v0: seq<int>, v: seq<int>, delta: int, limit: int, d: int, lo: int, t: int)
    requires d >= 1 && Sized(|a|, |b|, delta, limit) && Even(v0, delta, limit, d, lo)
    requires Gap(delta) - d <= t <= d && Parity(t, d) && Moved(v0, v, delta, limit, d, t)
    requires X(v, Diagonal(delta, t)) == Furthest(a, b, false, v0, d, Diagonal(delta, t))
    requires a[|a| - 1] != b[|b| - 1]
    ensures var k := Diagonal(delta, t); var x := X(v, k);
      x <= |a| && x - k <= |b| && !(x == |a| && x - k == |b|)
  {
    var k := Diagonal(delta, t);
    var c0 := CoordOf(delta, t, StepX(v0, d, k));
    StepOnGrid(v0, delta, limit, d, lo, t, c0);
    if X(v, k) == |a| && X(v, k) - k == |b| {
      assert t == Gap(delta);
      assert Snake(a, b, false, StepX(v0, d, k), StepX(v0, d, k) - k) == 0;
      NotAtCorner(v0, delta, limit, d, lo, c0);
    }
  }

  /** No best step ends at the far corner. */
  lemma NotAtCorner(v: seq<int>, delta: int, limit: int, d: int, lo: int, c0: int)
    requires d >= 1 && delta % 2 == 0 && Gap(delta) <= d && Parity(Gap(delta), d)
    requires Even(v, delta, limit, d, lo) && Best(v, delta, d, Gap(delta), c0)
    ensures c0 != limit
  {
    var t: int := Gap(delta);
    assert d >= 2 && Parity(t - 1, d - 1) && Parity(t + 1, d - 1);
    var _ := C(v, delta, t - 1);
    var _ := C(v, delta, t + 1);
  }
}
