/**
 `lcs` in shared/utils/text.py: a table of lengths, a walk back through it that changes
 its tie-breaking rule half way, and a cut at the first wide gap.
 */
module Subsequence {
  import opened Sequences
  import opened Texts

  // ------------------------------------------------------------ common subsequences

  ghost predicate Increasing(qs: seq<nat>) {
    forall i, j | 0 <= i < j < |qs| :: qs[i] < qs[j]
  }

  /** Positions `ps` of s and `qs` of t, both increasing, where the same elements stand. */
  ghost predicate Common<T(!new)>(s: seq<T>, t: seq<T>, ps: seq<nat>, qs: seq<nat>) {
    && |ps| == |qs| && Increasing(ps) && Increasing(qs)
    && (forall k | 0 <= k < |ps| :: ps[k] < |s| && qs[k] < |t| && s[ps[k]] == t[qs[k]])
  }

  /** Length of a longest common subsequence of the first i and the first j elements. */
  function Length<T(==)>(s: seq<T>, t: seq<T>, i: nat, j: nat): (n: nat)
    requires i <= |s| && j <= |t|
    ensures n <= i && n <= j
  {
    if i == 0 || j == 0 then 0
    else if s[i - 1] == t[j - 1] then Length(s, t, i - 1, j - 1) + 1
    else Max(Length(s, t, i - 1, j), Length(s, t, i, j - 1))
  }

  lemma {:induction false} OneMore<T>(s: seq<T>, t: seq<T>, i: nat, j: nat)
    requires i <= |s| && j <= |t|
    ensures i > 0 ==> Length(s, t, i - 1, j) <= Length(s, t, i, j) <= Length(s, t, i - 1, j) + 1
    ensures j > 0 ==> Length(s, t, i, j - 1) <= Length(s, t, i, j) <= Length(s, t, i, j - 1) + 1
    decreases i + j
  {
    if i > 0 && j > 0 {
      OneMore(s, t, i - 1, j);
      OneMore(s, t, i, j - 1);
    }
  }

  /** No common subsequence of the prefixes is longer. */
  lemma {:induction false} NoneLonger<T(!new)>(s: seq<T>, t: seq<T>, i: nat, j: nat, ps: seq<nat>, qs: seq<nat>)
    requires i <= |s| && j <= |t| && Common(s[..i], t[..j], ps, qs)
    ensures |ps| <= Length(s, t, i, j)
    decreases i + j
  {
    var k := |ps|;
    if k > 0 {
      assert ps[k - 1] < i && qs[k - 1] < j;
      OneMore(s, t, i, j);
      if ps[k - 1] < i - 1 {
        StillCommon(s, t, i, j, i - 1, j, ps, qs);
        NoneLonger(s, t, i - 1, j, ps, qs);
      } else if qs[k - 1] < j - 1 {
        StillCommon(s, t, i, j, i, j - 1, ps, qs);
        NoneLonger(s, t, i, j - 1, ps, qs);
      } else {
        assert s[i - 1] == s[..i][ps[k - 1]] == t[..j][qs[k - 1]] == t[j - 1];
        StillCommon(s, t, i, j, i - 1, j - 1, ps[..k - 1], qs[..k - 1]);
        NoneLonger(s, t, i - 1, j - 1, ps[..k - 1], qs[..k - 1]);
      }
    }
  }

  lemma StillCommon<T(!new)>(s: seq<T>, t: seq<T>, i: nat, j: nat, i': nat, j': nat, ps: seq<nat>, qs: seq<nat>)
    requires i' <= i <= |s| && j' <= j <= |t| && |ps| == |qs| && Increasing(ps) && Increasing(qs)
    requires forall k | 0 <= k < |ps| :: ps[k] < i && qs[k] < j && s[..i][ps[k]] == t[..j][qs[k]]
    requires ps != [] ==> ps[|ps| - 1] < i' && qs[|ps| - 1] < j'
    ensures Common(s[..i'], t[..j'], ps, qs)
  {
  }

  // ------------------------------------------------------------ the traceback

  /**
   The positions the walk back from (i, j) collects, in increasing order. In the later half
   of both sequences ties go to the smaller j, elsewhere to the smaller i.
   */
  function Trace<T(==)>(s: seq<T>, t: seq<T>, i: nat, j: nat): seq<nat>
    requires i <= |s| && j <= |t|
    decreases i + j
  {
    if i == 0 || j == 0 then []
    else
      var back, up := Length(s, t, i, j - 1) == Length(s, t, i, j), Length(s, t, i - 1, j) == Length(s, t, i, j);
      if back && (!up || (i >= |s| / 2 && j >= |t| / 2)) then Trace(s, t, i, j - 1)
      else if up then Trace(s, t, i - 1, j)
      else Trace(s, t, i - 1, j - 1) + [j - 1]
  }

  /** The walk collects a longest common subsequence, whichever rule breaks its ties. */
  lemma {:induction false} TraceIsCommon<T(!new)>(s: seq<T>, t: seq<T>, i: nat, j: nat) returns (ps: seq<nat>)
    requires i <= |s| && j <= |t|
    ensures Common(s[..i], t[..j], ps, Trace(s, t, i, j))
    ensures |Trace(s, t, i, j)| == Length(s, t, i, j)
    decreases i + j
  {
    ps := [];
    if i > 0 && j > 0 {
      var back, up := Length(s, t, i, j - 1) == Length(s, t, i, j), Length(s, t, i - 1, j) == Length(s, t, i, j);
      OneMore(s, t, i, j);
      if back && (!up || (i >= |s| / 2 && j >= |t| / 2)) {
        ps := TraceIsCommon(s, t, i, j - 1);
        Widened(s, t, i, j - 1, i, j, ps, Trace(s, t, i, j - 1));
      } else if up {
        ps := TraceIsCommon(s, t, i - 1, j);
        Widened(s, t, i - 1, j, i, j, ps, Trace(s, t, i - 1, j));
      } else {
        var front := TraceIsCommon(s, t, i - 1, j - 1);
        ps := front + [i - 1];
        Extended(s, t, i, j, front, Trace(s, t, i - 1, j - 1));
      }
    }
  }

  lemma Widened<T(!new)>(s: seq<T>, t: seq<T>, i: nat, j: nat, i': nat, j': nat, ps: seq<nat>, qs: seq<nat>)
    requires i <= i' <= |s| && j <= j' <= |t| && Common(s[..i], t[..j], ps, qs)
    ensures Common(s[..i'], t[..j'], ps, qs)
  {
    forall k | 0 <= k < |ps| ensures s[..i'][ps[k]] == t[..j'][qs[k]] {
      assert s[..i][ps[k]] == t[..j][qs[k]];
    }
  }

  lemma Extended<T(!new)>(s: seq<T>, t: seq<T>, i: nat, j: nat, ps: seq<nat>, qs: seq<nat>)
    requires 0 < i <= |s| && 0 < j <= |t| && s[i - 1] == t[j - 1] && Common(s[..i - 1], t[..j - 1], ps, qs)
    ensures Common(s[..i], t[..j], ps + [i - 1], qs + [j - 1])
  {
    Widened(s, t, i - 1, j - 1, i, j, ps, qs);
  }

  // ------------------------------------------------------------ which of the longest ones

  /**
   The first p elements of s are enough, and no fewer are, to share as many with the first
   j of t as the first i do.
   */
  ghost predicate LeastSource<T>(s: seq<T>, t: seq<T>, i: nat, j: nat, p: int)
    requires i <= |s| && j <= |t|
  {
    && 0 < p <= i && Length(s, t, p, j) == Length(s, t, i, j) && Length(s, t, p - 1, j) < Length(s, t, i, j)
  }

  ghost predicate LeastTarget<T>(s: seq<T>, t: seq<T>, i: nat, j: nat, q: int)
    requires i <= |s| && j <= |t|
  {
    && 0 < q <= j && Length(s, t, i, q) == Length(s, t, i, j) && Length(s, t, i, q - 1) < Length(s, t, i, j)
  }

  /** The walk's last match, p and q elements into the sequences, and what it collects before that. */
  ghost predicate LastMatch<T>(s: seq<T>, t: seq<T>, i: nat, j: nat, p: int, q: int)
    requires i <= |s| && j <= |t|
  {
    && 0 < p <= i && 0 < q <= j && s[p - 1] == t[q - 1] && Trace(s, t, i, j) == Trace(s, t, p - 1, q - 1) + [q - 1]
  }

  predicate Later<T>(s: seq<T>, t: seq<T>, i: nat, j: nat) {
    i >= |s| / 2 && j >= |t| / 2
  }

  lemma TraceStep<T>(s: seq<T>, t: seq<T>, i: nat, j: nat)
    requires i <= |s| && j <= |t| && Length(s, t, i, j) > 0
    ensures i > 0 && j > 0
    ensures var back, up := Length(s, t, i, j - 1) == Length(s, t, i, j), Length(s, t, i - 1, j) == Length(s, t, i, j);
      if back && (!up || Later(s, t, i, j)) then Trace(s, t, i, j) == Trace(s, t, i, j - 1)
      else if up then Trace(s, t, i, j) == Trace(s, t, i - 1, j)
      else LastMatch(s, t, i, j, i, j)
    ensures Length(s, t, i - 1, j - 1) <= Length(s, t, i - 1, j) <= Length(s, t, i, j)
    ensures Length(s, t, i - 1, j - 1) <= Length(s, t, i, j - 1) <= Length(s, t, i, j)
  {
    OneMore(s, t, i, j);
    OneMore(s, t, i - 1, j);
    OneMore(s, t, i, j - 1);
  }

  /**
   Outside the later half of both sequences: as few elements of the source as possible, and
   then as few of the target.
   */
  lemma {:induction false} EarlierMatch<T>(s: seq<T>, t: seq<T>, i: nat, j: nat) returns (p: nat, q: nat)
    requires i <= |s| && j <= |t| && Length(s, t, i, j) > 0 && !Later(s, t, i, j)
    ensures LeastSource(s, t, i, j, p) && LeastTarget(s, t, p, j, q) && LastMatch(s, t, i, j, p, q)
    decreases i + j
  {
    hide Length, Trace;
    TraceStep(s, t, i, j);
    if Length(s, t, i - 1, j) == Length(s, t, i, j) {
      p, q := EarlierMatch(s, t, i - 1, j);
    } else if Length(s, t, i, j - 1) == Length(s, t, i, j) {
      p, q := EarlierMatch(s, t, i, j - 1);
      if p < i {
        FewerAtLeast(s, t, p, i - 1, j - 1);
      }
    } else {
      p, q := i, j;
    }
  }

  /**
   In the later half of both: as few elements of the target as possible, and then as few of
   the source, as long as that does not leave the later half of the target.
   */
  lemma {:induction false} LaterMatch<T>(s: seq<T>, t: seq<T>, i: nat, j: nat, q: nat) returns (p: nat)
    requires i <= |s| && j <= |t| && i >= |s| / 2 && |t| / 2 <= q && LeastTarget(s, t, i, j, q)
    ensures LeastSource(s, t, i, q, p) && LastMatch(s, t, i, j, p, q)
    decreases i + j
  {
    hide Length, Trace;
    TraceStep(s, t, i, j);
    if q < j {
      LengthMonotone(s, t, i, q, j - 1);
      p := LaterMatch(s, t, i, j - 1, q);
    } else if Length(s, t, i - 1, j) == Length(s, t, i, j) {
      if i - 1 >= |s| / 2 {
        p := LaterMatch(s, t, i - 1, j, q);
      } else {
        var last;
        p, last := EarlierMatch(s, t, i - 1, j);
        if last < j {
          LengthMonotone(s, t, p, last, j - 1);
          FewerAtLeast(s, t, p, i, j - 1);
        }
      }
    } else {
      p := i;
    }
  }

  lemma {:induction false} LengthMonotone<T>(s: seq<T>, t: seq<T>, i: nat, q: nat, j: nat)
    requires i <= |s| && q <= j <= |t|
    ensures Length(s, t, i, q) <= Length(s, t, i, j)
    decreases j - q
  {
    if q < j {
      OneMore(s, t, i, j);
      LengthMonotone(s, t, i, q, j - 1);
    }
  }

  lemma {:induction false} FewerAtLeast<T>(s: seq<T>, t: seq<T>, p: nat, i: nat, j: nat)
    requires p <= i <= |s| && j <= |t|
    ensures Length(s, t, p, j) <= Length(s, t, i, j)
    decreases i - p
  {
    if p < i {
      OneMore(s, t, i, j);
      FewerAtLeast(s, t, p, i - 1, j);
    }
  }

  /** Where that would leave the later half of the target, the walk goes on from its border by the other rule. */
  lemma {:induction false} CrossingMatch<T>(s: seq<T>, t: seq<T>, i: nat, j: nat, q: nat)
    requires i <= |s| && j <= |t| && i >= |s| / 2 && LeastTarget(s, t, i, j, q) && q < |t| / 2 <= j
    ensures Trace(s, t, i, j) == Trace(s, t, i, |t| / 2 - 1)
    ensures Length(s, t, i, |t| / 2 - 1) == Length(s, t, i, j)
    decreases j
  {
    hide Length, Trace;
    TraceStep(s, t, i, j);
    LengthMonotone(s, t, i, q, j - 1);
    if j - 1 >= |t| / 2 {
      CrossingMatch(s, t, i, j - 1, q);
    }
  }

  /** "ab" and "ba" share either character; the walk picks the one that comes first in the target. */
  lemma FirstOfTwo()
    ensures Trace("ab", "ba", 2, 2) == [0]
  {
    var s, t := "ab", "ba";
    assert Length(s, t, 2, 1) == 1 && Length(s, t, 2, 0) == 0;
    assert Length(s, t, 2, 2) == 1;
    var p := LaterMatch(s, t, 2, 2, 1);
    assert Trace(s, t, p - 1, 0) == [];
  }

  // ------------------------------------------------------------ the cut

  const WIDEST_GAP := 20

  /** The longest beginning whose neighbouring positions are at most 20 apart. */
  function Cut(path: seq<nat>): (p: seq<nat>)
    ensures p <= path && (path != [] ==> p != [])
    ensures forall k | 0 < k < |p| :: p[k] <= p[k - 1] + 20
    ensures |p| < |path| ==> path[|p|] > path[|p| - 1] + 20
  {
    if |path| <= 1 then path
    else
      var front := Cut(path[..|path| - 1]);
      if |front| == |path| - 1 && path[|path| - 1] - path[|path| - 2] <= WIDEST_GAP then path else front
  }

  lemma CutUnique(path: seq<nat>, p: seq<nat>)
    requires p <= path && (path != [] ==> p != [])
    requires forall k | 0 < k < |p| :: p[k] <= p[k - 1] + 20
    requires |p| < |path| ==> path[|p|] > path[|p| - 1] + 20
    ensures p == Cut(path)
  {
    var q := Cut(path);
  }

  // ------------------------------------------------------------ the algorithm

  /** Fill the table of lengths. */
  method Table<T(==)>(s: seq<T>, t: seq<T>) returns (dp: array2<nat>)
    ensures fresh(dp) && dp.Length0 == |s| + 1 && dp.Length1 == |t| + 1
    ensures forall i, j | 0 <= i <= |s| && 0 <= j <= |t| :: dp[i, j] == Length(s, t, i, j)
  {
    dp := new nat[|s| + 1, |t| + 1]((i, j) => 0);
    for i := 1 to |s| + 1
      invariant forall x, y | 0 <= x < i && 0 <= y <= |t| :: dp[x, y] == Length(s, t, x, y)
      invariant forall x, y | i <= x <= |s| && 0 <= y <= |t| :: dp[x, y] == 0
    {
      assert Length(s, t, i, 0) == 0;
      FillRow(s, t, dp, i);
    }
  }

  method FillRow<T(==)>(s: seq<T>, t: seq<T>, dp: array2<nat>, i: nat)
    requires dp.Length0 == |s| + 1 && dp.Length1 == |t| + 1 && 1 <= i <= |s|
    requires forall x, y | 0 <= x < i && 0 <= y <= |t| :: dp[x, y] == Length(s, t, x, y)
    requires forall x, y | i <= x <= |s| && 0 <= y <= |t| :: dp[x, y] == 0
    requires Length(s, t, i, 0) == 0
    modifies dp
    ensures forall x, y | 0 <= x <= i && 0 <= y <= |t| :: dp[x, y] == Length(s, t, x, y)
    ensures forall x, y | i < x <= |s| && 0 <= y <= |t| :: dp[x, y] == 0
  {
    hide Length;
    for j := 1 to |t| + 1
      invariant forall x, y | 0 <= x < i && 0 <= y <= |t| :: dp[x, y] == Length(s, t, x, y)
      invariant forall y | 0 <= y < j :: dp[i, y] == Length(s, t, i, y)
      invariant forall x, y | i < x <= |s| && 0 <= y <= |t| :: dp[x, y] == 0
    {
      Cell(s, t, i, j);
      dp[i, j] := if s[i - 1] == t[j - 1] then dp[i - 1, j - 1] + 1 else Max(dp[i - 1, j], dp[i, j - 1]);
    }
  }

  lemma Cell<T>(s: seq<T>, t: seq<T>, i: nat, j: nat)
    requires 1 <= i <= |s| && 1 <= j <= |t|
    ensures Length(s, t, i, j) == if s[i - 1] == t[j - 1] then Length(s, t, i - 1, j - 1) + 1
                                  else Max(Length(s, t, i - 1, j), Length(s, t, i, j - 1))
  {
  }

  method ReversePath(a: seq<nat>) returns (r: seq<nat>)
    ensures r == Reverse(a)
  {
    r := [];
    for k := 0 to |a|
      invariant Reverse(a) == Reverse(a[k..]) + r
    {
      assert a[k..][1..] == a[k + 1..];
      r := [a[k]] + r;
    }
    assert a[|a|..] == [];
  }

  /** The walk back through the table. */
  method WalkBack<T(==)>(s: seq<T>, t: seq<T>, dp: array2<nat>) returns (path: seq<nat>)
    requires dp.Length0 == |s| + 1 && dp.Length1 == |t| + 1
    requires forall i, j | 0 <= i <= |s| && 0 <= j <= |t| :: dp[i, j] == Length(s, t, i, j)
    ensures path == Trace(s, t, |s|, |t|)
  {
    hide Length, Reverse;
    var i: nat, j: nat := |s|, |t|;
    path := [];
    ReverseNil<nat>();
    while i > 0 && j > 0
      invariant 0 <= i <= |s| && 0 <= j <= |t|
      invariant Trace(s, t, |s|, |t|) == Trace(s, t, i, j) + Reverse(path)
      decreases i + j
    {
      ghost var whole := Trace(s, t, i, j) + Reverse(path);
      if i >= |s| / 2 && j >= |t| / 2 {
        if dp[i, j - 1] == dp[i, j] {
          j := j - 1;
        } else if dp[i - 1, j] == dp[i, j] {
          i := i - 1;
        } else {
          ReverseSnoc<nat>(path, j - 1);
          assert whole == Trace(s, t, i - 1, j - 1) + ([j - 1] + Reverse(path));
          path := path + [j - 1];
          i, j := i - 1, j - 1;
        }
      } else {
        if dp[i - 1, j] == dp[i, j] {
          i := i - 1;
        } else if dp[i, j - 1] == dp[i, j] {
          j := j - 1;
        } else {
          ReverseSnoc<nat>(path, j - 1);
          assert whole == Trace(s, t, i - 1, j - 1) + ([j - 1] + Reverse(path));
          path := path + [j - 1];
          i, j := i - 1, j - 1;
        }
      }
    }
    assert Trace(s, t, i, j) == [];
    path := ReversePath(path);
  }

  /** Keep positions until the first wide gap. */
  method CutPath(path: seq<nat>) returns (positions: seq<nat>)
    requires path != []
    ensures positions == Cut(path)
  {
    positions := [path[0]];
    var k := 1;
    while k < |path| && path[k] - positions[|positions| - 1] <= WIDEST_GAP
      invariant 1 <= k <= |path| && positions == path[..k]
      invariant forall x | 0 < x < k :: positions[x] - positions[x - 1] <= WIDEST_GAP
    {
      positions := positions + [path[k]];
      k := k + 1;
    }
    CutUnique(path, positions);
  }

  /** `lcs` */
  method Lcs<T(==, !new)>(source: seq<T>, target: seq<T>) returns (positions: seq<nat>)
    ensures positions == Cut(Trace(source, target, |source|, |target|))
  {
    var dp := Table(source, target);
    var path := WalkBack(source, target, dp);
    if path == [] {
      return [];
    }
    positions := CutPath(path);
  }

  /**
   What `lcs` returns: the longest beginning without a wide gap of positions in the target
   that spell, with some increasing positions in the source, a common subsequence of the
   greatest possible length.
   */
  lemma LcsMeaning<T(!new)>(source: seq<T>, target: seq<T>) returns (path: seq<nat>, ps: seq<nat>)
    ensures path == Trace(source, target, |source|, |target|) && Cut(path) <= path
    ensures Common(source, target, ps, path)
    ensures forall ks, ls | Common(source, target, ks, ls) :: |ks| <= |path|
  {
    assert source[..|source|] == source && target[..|target|] == target;
    path := Trace(source, target, |source|, |target|);
    ps := TraceIsCommon(source, target, |source|, |target|);
    forall ks, ls | Common(source, target, ks, ls) ensures |ks| <= |path| {
      NoneLonger(source, target, |source|, |target|, ks, ls);
    }
  }
}
