/**
 What the cost of two texts means for diffs: no diff edits fewer characters, and it is what
 a longest common subsequence leaves over. Cheapest diffs of the two halves of a cheapest
 way, and of texts without their common affixes, make cheapest diffs of the whole.
 */
module Minimal {
  import opened Texts
  import opened Diffs
  import opened Frontier
  import opened Costs
  import opened Subsequence

  // ------------------------------------------------------------ parts of the texts

  lemma {:induction false} CostOfPrefixes(a: Text, b: Text, x: nat, y: nat, i: nat, j: nat)
    requires i <= x <= |a| && j <= y <= |b|
    ensures Cost(a[..x], b[..y], false, i, j) == Cost(a, b, false, i, j)
    decreases i + j
  {
    if i > 0 && j > 0 {
      CostOfPrefixes(a, b, x, y, i - 1, j - 1);
      CostOfPrefixes(a, b, x, y, i - 1, j);
      CostOfPrefixes(a, b, x, y, i, j - 1);
    }
  }

  lemma {:induction false} CostOfSuffixes(a: Text, b: Text, x: nat, y: nat, i: nat, j: nat)
    requires x + i <= |a| && y + j <= |b|
    ensures Cost(a[x..], b[y..], true, i, j) == Cost(a, b, true, i, j)
    decreases i + j
  {
    if i > 0 && j > 0 {
      CostOfSuffixes(a, b, x, y, i - 1, j - 1);
      CostOfSuffixes(a, b, x, y, i - 1, j);
      CostOfSuffixes(a, b, x, y, i, j - 1);
    }
  }

  /** Cutting the texts in two costs nothing exactly at the points of a cheapest way. */
  lemma WholeOfParts(a: Text, b: Text, x: nat, y: nat)
    requires x <= |a| && y <= |b|
    ensures Whole(a, b) <= Whole(a[..x], b[..y]) + Whole(a[x..], b[y..])
    ensures OnBest(a, b, false, x, y) <==> Whole(a, b) == Whole(a[..x], b[..y]) + Whole(a[x..], b[y..])
  {
    hide Cost;
    CostOfPrefixes(a, b, x, y, x, y);
    CostOfSuffixes(a, b, x, y, |a| - x, |b| - y);
    CostMirror(a[x..], b[y..], true);
    CostThrough(a, b, false, x, y);
  }

  lemma {:induction false} CostSame(a: Text, x: nat)
    requires x <= |a|
    ensures Cost(a, a, false, x, x) == 0
  {
    if x > 0 {
      CostSame(a, x - 1);
    }
  }

  /** A common prefix costs nothing. */
  lemma SharedPrefix(p: Text, a: Text, b: Text)
    ensures Whole(p + a, p + b) == Whole(a, b)
  {
    hide Cost;
    var pa, pb, n := p + a, p + b, |p|;
    assert pa[..n] == p && pb[..n] == p && pa[n..] == a && pb[n..] == b;
    CostSame(p, n);
    WholeOfParts(pa, pb, n, n);
    CostOfSuffixes(pa, pb, n, n, |a|, |b|);
    CostAlong(pa, pb, true, |a|, |b|, n);
    CostMirror(pa, pb, true);
    CostMirror(a, b, true);
  }

  lemma SharedSuffix(a: Text, b: Text, s: Text)
    ensures Whole(a + s, b + s) == Whole(a, b)
  {
    hide Cost;
    var as', bs := a + s, b + s;
    assert as'[..|a|] == a && bs[..|b|] == b && as'[|a|..] == s && bs[|b|..] == s;
    CostSame(s, |s|);
    WholeOfParts(as', bs, |a|, |b|);
    CostOfPrefixes(as', bs, |a|, |b|, |a|, |b|);
    CostAlong(as', bs, false, |a|, |b|, |s|);
  }

  lemma WholeNone(a: Text)
    ensures Whole(a, []) == |a| && Whole([], a) == |a|
  {
  }

  /** Texts cost at least the difference of their lengths and at most their sum. */
  lemma WholeBounds(a: Text, b: Text)
    ensures |a| - |b| <= Whole(a, b) <= |a| + |b| && |b| - |a| <= Whole(a, b)
  {
    CostOffDiagonal(a, b, false, |a|, |b|);
    CostToCorner(a, b, false, 0, 0);
  }

  lemma {:induction false} NoneShared(a: Text, b: Text, x: nat, y: nat)
    requires forall i, j | 0 <= i < |a| && 0 <= j < |b| :: a[i] != b[j]
    requires x <= |a| && y <= |b|
    ensures Cost(a, b, false, x, y) == x + y
    decreases x + y
  {
    if x > 0 && y > 0 {
      assert !Matches(a, b, false, x - 1, y - 1);
      NoneShared(a, b, x - 1, y);
      NoneShared(a, b, x, y - 1);
    }
  }

  // ------------------------------------------------------------ diffs

  /** No diff of the two texts edits fewer characters. */
  lemma {:induction false} NoneCheaper(ds: Script)
    ensures EditChars(ds) >= Whole(Source(ds), Target(ds))
  {
    hide Cost, Whole;
    if ds == [] {
      TextsNone();
      WholeNone([]);
    } else {
      NoneCheaper(ds[1..]);
      FirstEntry(ds[0], Source(ds[1..]), Target(ds[1..]));
    }
  }

  lemma FirstEntry(d: Diff, source: Text, target: Text)
    ensures Whole((if d.op == Insert then [] else d.text) + source, (if d.op == Delete then [] else d.text) + target)
         <= (if d.op == Equal then 0 else |d.text|) + Whole(source, target)
  {
    hide Whole;
    var s, t: Text := if d.op == Insert then [] else d.text, if d.op == Delete then [] else d.text;
    if d.op == Equal {
      SharedPrefix(d.text, source, target);
    } else {
      WholeOfParts(s + source, t + target, |s|, |t|);
      assert (s + source)[..|s|] == s && (t + target)[..|t|] == t;
      assert (s + source)[|s|..] == source && (t + target)[|t|..] == target;
      WholeNone(d.text);
    }
  }

  /** A diff with as few edited characters as its texts cost. */
  ghost predicate Cheapest(ds: Script) {
    EditChars(ds) == Whole(Source(ds), Target(ds))
  }

  /** A cheapest diff is one that no other diff of the same texts beats. */
  lemma CheapestIsMinimal(ds: Script, other: Script)
    requires Cheapest(ds) && SameTexts(ds, other)
    ensures EditChars(ds) <= EditChars(other)
  {
    NoneCheaper(other);
  }

  /** What is left over by a longest common subsequence. */
  lemma {:induction false} CostIsLength(a: Text, b: Text, x: nat, y: nat)
    requires x <= |a| && y <= |b|
    ensures Cost(a, b, false, x, y) == x + y - 2 * Length(a, b, x, y)
    decreases x + y
  {
    if x > 0 && y > 0 {
      CostIsLength(a, b, x - 1, y - 1);
      CostIsLength(a, b, x - 1, y);
      CostIsLength(a, b, x, y - 1);
    }
  }
}
