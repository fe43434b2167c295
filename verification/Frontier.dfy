/**
 The frontier vectors of `diff_bisect`. Entry k of a vector is the furthest x reached on
 diagonal k (y = x - k), or -1. One walk of one direction rewrites the entries of one
 parity; this module says what such a walk does and what it keeps.
 */
module Frontier {
  import opened Texts

  // ------------------------------------------------------------ vectors

  /** Entry for diagonal k of a vector whose middle is diagonal 0; -1 outside. */
  function X(v: seq<int>, k: int): int {
    var i := |v| / 2 + k;
    if 0 <= i < |v| then v[i] else -1
  }

  predicate Parity(k: int, d: int) {
    (k - d) % 2 == 0
  }

  lemma Written(v: seq<int>, off: int, k: int, x: int)
    requires |v| == 2 * off && 0 <= off + k < |v|
    ensures var w := v[off + k := x]; forall j {:trigger X(w, j)} :: X(w, j) == if j == k then x else X(v, j)
  {
    var w := v[off + k := x];
    assert |w| / 2 == off;
  }

  // ------------------------------------------------------------ snakes

  /** Character i counted from the front, or from the back on the reverse path. */
  function CharAt(t: Text, i: int, rev: bool): CodePoint
    requires 0 <= i < |t|
  {
    if rev then t[|t| - 1 - i] else t[i]
  }

  predicate Matches(a: Text, b: Text, rev: bool, x: int, y: int) {
    0 <= x < |a| && 0 <= y < |b| && CharAt(a, x, rev) == CharAt(b, y, rev)
  }

  /** Number of diagonal moves possible from (x, y). */
  function Snake(a: Text, b: Text, rev: bool, x: int, y: int): (s: nat)
    ensures s > 0 ==> x + s <= |a| && y + s <= |b| && Matches(a, b, rev, x + s - 1, y + s - 1)
    decreases |a| - x
  {
    if Matches(a, b, rev, x, y) then 1 + Snake(a, b, rev, x + 1, y + 1) else 0
  }

  // ------------------------------------------------------------ one step

  /** Whether diagonal k is reached by moving down from k + 1 rather than right from k - 1. */
  predicate ComesDown(v: seq<int>, d: int, k: int) {
    k == -d || (k != d && X(v, k - 1) < X(v, k + 1))
  }

  function StepX(v: seq<int>, d: int, k: int): int {
    if ComesDown(v, d, k) then X(v, k + 1) else X(v, k - 1) + 1
  }

  /** The furthest point on diagonal k after one more edit. */
  function Furthest(a: Text, b: Text, rev: bool, v: seq<int>, d: int, k: int): int {
    StepX(v, d, k) + Snake(a, b, rev, StepX(v, d, k), StepX(v, d, k) - k)
  }

  /** Diagonal k is stepped to from an entry that is set, at non-negative coordinates. */
  ghost predicate Reached(v: seq<int>, d: int, k: int) {
    && StepX(v, d, k) >= 0 && StepX(v, d, k) - k >= 0
    && (if ComesDown(v, d, k) then X(v, k + 1) else X(v, k - 1)) >= 0
  }

  /** Every diagonal of the round is reached at a point with non-negative coordinates. */
  ghost predicate Ready(v: seq<int>, d: int, lo: int, hi: int) {
    && -d <= lo <= hi <= d && Parity(lo, d) && Parity(hi, d)
    && forall k {:trigger StepX(v, d, k)} {:trigger Reached(v, d, k)} | lo <= k <= hi && Parity(k, d) ::
         Reached(v, d, k)
  }

  /** Entries within the first d rounds are unset or valid; those beyond are unset but for the seed. */
  ghost predicate Sound(v: seq<int>, d: int) {
    && (forall k | -d < k < d :: X(v, k) == -1 || (X(v, k) >= 0 && X(v, k) - k >= 0))
    && (forall k | k <= -d || d <= k :: X(v, k) == -1 || (d <= 1 && k == 1 && X(v, k) == 0))
  }

  /** v0 after the walk has rewritten the diagonals of parity d from lo up to but not including `next`. */
  ghost predicate Advanced(a: Text, b: Text, rev: bool, d: int, v0: seq<int>, v: seq<int>, lo: int, next: int) {
    && |v| == |v0|
    && (forall k {:trigger X(v, k)} | lo <= k < next && Parity(k, d) :: X(v, k) == Furthest(a, b, rev, v0, d, k))
    && (forall k {:trigger X(v, k)} | !(lo <= k < next && Parity(k, d)) :: X(v, k) == X(v0, k))
  }

  // ------------------------------------------------------------ pruning and overlaps

  /** By how much the diagonals of a round are cut off at the lower and the upper end. */
  datatype Pruning = Pruning(start: int, end: int)

  /** The pruning after an entry has been written. */
  function Pruned(q: Pruning, n: int, m: int, x: int, y: int): Pruning {
    if x > n then q.(end := q.end + 2) else if y > m then q.(start := q.start + 2) else q
  }

  /** What the front check on entry x of diagonal k decides. */
  predicate FrontHit(n: int, m: int, v2: seq<int>, k: int, x: int) {
    x <= n && x - k <= m && X(v2, n - m - k) != -1 && x >= n - X(v2, n - m - k)
  }

  /** What the reverse check on entry x of diagonal k decides. */
  predicate ReverseHit(n: int, m: int, v1: seq<int>, k: int, x: int) {
    x <= n && x - k <= m && X(v1, n - m - k) != -1 && X(v1, n - m - k) >= n - x
  }

  // ------------------------------------------------------------ what a walk keeps

  /** Inside a walk the neighbours of the next diagonal still hold the last round's values. */
  lemma NeighboursKept(a: Text, b: Text, rev: bool, d: int, v0: seq<int>, v: seq<int>, lo: int, next: int)
    requires Advanced(a, b, rev, d, v0, v, lo, next) && Parity(next, d)
    ensures StepX(v, d, next) == StepX(v0, d, next)
      && Furthest(a, b, rev, v, d, next) == Furthest(a, b, rev, v0, d, next)
    ensures ComesDown(v, d, next) == ComesDown(v0, d, next)
  {
    assert !Parity(next - 1, d) && !Parity(next + 1, d);
  }

  lemma AdvanceOne(a: Text, b: Text, rev: bool, d: int, v0: seq<int>, v: seq<int>, lo: int, k: int, off: int)
    requires Advanced(a, b, rev, d, v0, v, lo, k) && Parity(k, d) && lo <= k
    requires |v| == 2 * off && 0 <= off + k < |v|
    ensures Advanced(a, b, rev, d, v0, v[off + k := Furthest(a, b, rev, v0, d, k)], lo, k + 2)
  {
    Written(v, off, k, Furthest(a, b, rev, v0, d, k));
    assert !Parity(k + 1, d);
  }

  /** A finished walk leaves valid entries on its diagonals. */
  lemma AdvancedValid(a: Text, b: Text, rev: bool, d: int, v0: seq<int>, v: seq<int>, lo: int, hi: int)
    requires 0 <= d && Ready(v0, d, lo, hi) && Advanced(a, b, rev, d, v0, v, lo, hi + 2)
    ensures ValidOn(v, d, lo, hi)
  {
    forall k {:trigger X(v, k)} | lo <= k <= hi && Parity(k, d) ensures X(v, k) >= 0 && X(v, k) - k >= 0 {
      assert StepX(v0, d, k) >= 0 && StepX(v0, d, k) - k >= 0;
    }
  }

  ghost predicate ValidOn(v: seq<int>, d: int, lo: int, hi: int) {
    forall k {:trigger X(v, k)} | lo <= k <= hi && Parity(k, d) :: X(v, k) >= 0 && X(v, k) - k >= 0
  }

  lemma AdvancedSound(a: Text, b: Text, rev: bool, d: int, v0: seq<int>, v: seq<int>, lo: int, hi: int)
    requires 0 <= d && Ready(v0, d, lo, hi) && Sound(v0, d) && Advanced(a, b, rev, d, v0, v, lo, hi + 2)
    requires d == 1 ==> lo == -1 && hi == 1
    ensures Sound(v, d + 1)
  {
    AdvancedValid(a, b, rev, d, v0, v, lo, hi);
    forall k {:trigger X(v, k)}
      ensures -d - 1 < k < d + 1 ==> X(v, k) == -1 || (X(v, k) >= 0 && X(v, k) - k >= 0)
      ensures k <= -d - 1 || d + 1 <= k ==> X(v, k) == -1 || (d <= 0 && k == 1 && X(v, k) == 0)
    {
      if !(lo <= k < hi + 2 && Parity(k, d)) {
        assert X(v, k) == X(v0, k);
      } else {
        assert k <= hi by {
          assert !Parity(hi + 1, d);
        }
      }
    }
  }

  /** ... so the next round is ready on any interval that grew by at most one at each end. */
  lemma NextReady(d: int, v: seq<int>, lo: int, hi: int, lo': int, hi': int)
    requires 0 <= d && -d <= lo <= hi <= d && Parity(lo, d) && Parity(hi, d) && ValidOn(v, d, lo, hi)
    requires lo - 1 <= lo' <= hi' <= hi + 1 && Parity(lo', d + 1) && Parity(hi', d + 1)
    requires Sound(v, d + 1)
    ensures Ready(v, d + 1, lo', hi')
  {
    var e := d + 1;
    forall k | lo' <= k <= hi' && Parity(k, e) ensures Reached(v, e, k) {
      StepFromRange(v, e, k, lo, hi);
    }
  }

  lemma StepFromRange(v: seq<int>, d: int, k: int, lo: int, hi: int)
    requires 1 <= d && Sound(v, d) && -d < lo <= hi < d && Parity(lo, d - 1) && Parity(hi, d - 1)
    requires ValidOn(v, d - 1, lo, hi)
    requires lo - 1 <= k <= hi + 1 && Parity(k, d)
    ensures Reached(v, d, k)
  {
    assert Parity(k + 1, d - 1) && Parity(k - 1, d - 1);
    if k + 1 > hi {
      assert k - 1 == hi;
    }
    if k - 1 < lo {
      assert k + 1 == lo;
    }
  }
}
