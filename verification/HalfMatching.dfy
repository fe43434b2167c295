/**
 `diff_halfMatch`: a common substring at least half as long as the longer text, found by
 growing every occurrence of a quarter-length seed in both directions.
 */
module HalfMatching {
  import opened Texts
  import opened Simplify

  /** The parts of a longer and a shorter text around a common middle. */
  datatype Half = Half(longA: Text, longB: Text, shortA: Text, shortB: Text, common: Text)

  ghost predicate Cuts(h: Half, long: Text, short: Text) {
    long == h.longA + h.common + h.longB && short == h.shortA + h.common + h.shortB
  }

  /** Length to which the occurrence of the seed at long[i..] and short[j..] grows. */
  function Grown(long: Text, short: Text, i: nat, j: nat): nat
    requires i <= |long| && j <= |short|
  {
    SuffixLen(long[..i], short[..j]) + PrefixLen(long[i..], short[j..])
  }

  /** The cut around what the occurrence grows to. */
  function CutAt(long: Text, short: Text, i: nat, j: nat): Half
    requires i <= |long| && j <= |short|
  {
    var s, p := SuffixLen(long[..i], short[..j]), PrefixLen(long[i..], short[j..]);
    Half(long[..i - s], long[i + p..], short[..j - s], short[j + p..], short[j - s..j + p])
  }

  /** Where the seed at long[i..] stands in the other text. */
  predicate SeedAt(long: Text, short: Text, i: nat, j: int)
    requires i + |long| / 4 <= |long|
  {
    0 <= j <= |short| && OccursAt(short, long[i..i + |long| / 4], j)
  }

  /** The first of the occurrences that grow furthest. */
  ghost predicate FirstFurthest(long: Text, short: Text, i: nat, j: int)
    requires i + |long| / 4 <= |long|
  {
    && SeedAt(long, short, i, j)
    && forall k | SeedAt(long, short, i, k) ::
         Grown(long, short, i, k) <= Grown(long, short, i, j)
         && (k < j ==> Grown(long, short, i, k) < Grown(long, short, i, j))
  }

  /** What `diff_halfMatchI` finds for a seed. */
  ghost predicate Found(long: Text, short: Text, i: nat, h: Option<Half>)
    requires i + |long| / 4 <= |long|
  {
    if h.Some? then
      && 2 * |h.value.common| >= |long|
      && exists j :: FirstFurthest(long, short, i, j) && h.value == CutAt(long, short, i, j)
    else SeedFails(long, short, i)
  }

  /** The search for the best occurrence, standing at occurrence j, or behind the last one. */
  ghost predicate Searching(long: Text, short: Text, i: nat, j: int, found: bool, best: Half)
    requires i + |long| / 4 <= |long|
  {
    && (forall k | SeedAt(long, short, i, k) && (j == -1 || k < j) :: Grown(long, short, i, k) <= |best.common|)
    && (if found then
          && Cuts(best, long, short)
          && exists k :: SeedAt(long, short, i, k) && BestAt(long, short, i, best, k)
        else best.common == [])
  }

  ghost predicate BestAt(long: Text, short: Text, i: nat, best: Half, k: int)
    requires i + |long| / 4 <= |long| && SeedAt(long, short, i, k)
  {
    && best == CutAt(long, short, i, k) && |best.common| == Grown(long, short, i, k)
    && forall m | SeedAt(long, short, i, m) && m < k :: Grown(long, short, i, m) < Grown(long, short, i, k)
  }

  /** The next occurrence of the seed, or -1. */
  ghost predicate Follows(long: Text, short: Text, i: nat, j: int, next: int)
    requires i + |long| / 4 <= |long|
  {
    && (next == -1 || (j < next && SeedAt(long, short, i, next)))
    && forall k | SeedAt(long, short, i, k) && j < k :: next != -1 && next <= k
  }

  lemma SearchStep(long: Text, short: Text, i: nat, j: int, next: int, found: bool, best: Half, grown: Half)
    requires i + |long| / 4 <= |long| && SeedAt(long, short, i, j) && Searching(long, short, i, j, found, best)
    requires Cuts(grown, long, short) && grown == CutAt(long, short, i, j) && |grown.common| == Grown(long, short, i, j)
    requires Follows(long, short, i, j, next)
    ensures if |best.common| < |grown.common| then Searching(long, short, i, next, true, grown)
            else Searching(long, short, i, next, found, best)
  {
    hide CutAt, Grown, Cuts, OccursAt;
    if |best.common| < |grown.common| {
      assert BestAt(long, short, i, grown, j);
    }
  }

  lemma SearchEnds(long: Text, short: Text, i: nat, found: bool, best: Half)
    requires i + |long| / 4 <= |long| && 4 <= |long| && Searching(long, short, i, -1, found, best)
    ensures Found(long, short, i, if 2 * |best.common| >= |long| then Some(best) else None)
    ensures 2 * |best.common| >= |long| ==> Cuts(best, long, short)
    ensures forall j | SeedAt(long, short, i, j) :: Grown(long, short, i, j) <= |best.common|
  {
    hide CutAt, Grown, Cuts, OccursAt;
    if 2 * |best.common| >= |long| {
      var k :| SeedAt(long, short, i, k) && BestAt(long, short, i, best, k);
      assert FirstFurthest(long, short, i, k);
    }
  }

  /** The cut around a grown occurrence. */
  method Grow(long: Text, short: Text, i: nat, j: nat) returns (h: Half)
    requires i <= |long| && j <= |short|
    ensures Cuts(h, long, short) && |h.common| == Grown(long, short, i, j) && h == CutAt(long, short, i, j)
  {
    var p := CommonPrefix(long[i..], short[j..]);
    var s := CommonSuffix(long[..i], short[..j]);
    PrefixCut(long[i..], short[j..]);
    SuffixCut(long[..i], short[..j]);
    h := Half(long[..i - s], long[i + p..], short[..j - s], short[j + p..], short[j - s..j] + short[j..j + p]);
    hide PrefixLen, SuffixLen;
    CutsAround(long, i, s, p);
    CutsAround(short, j, s, p);
  }

  lemma CutsAround(t: Text, i: nat, s: nat, p: nat)
    requires s <= i && i + p <= |t|
    ensures Last(t[..i], s) == t[i - s..i] && t[i..][..p] == t[i..i + p]
    ensures t == t[..i - s] + (t[i - s..i] + t[i..i + p]) + t[i + p..]
  {
  }

  /** `diff_halfMatchI`: the first of the longest growths of the seed at long[i..], if it is long enough. */
  method HalfMatchAt(long: Text, short: Text, i: nat) returns (h: Option<Half>)
    requires 4 <= |long| && i + |long| / 4 <= |long|
    ensures h.Some? ==> Cuts(h.value, long, short) && 2 * |h.value.common| >= |long|
    ensures h.Some? ==> forall j | SeedAt(long, short, i, j) :: Grown(long, short, i, j) <= |h.value.common|
    ensures h.None? ==> SeedFails(long, short, i)
    ensures Found(long, short, i, h)
  {
    hide SuffixLen, PrefixLen, Grown, CutAt, Cuts, Searching;
    var seed := long[i..i + |long| / 4];
    var best := Half([], [], [], [], []);
    ghost var found := false;
    var j := Find(short, seed, 0);
    SearchStarts(long, short, i, j, best);
    while j != -1
      invariant j == -1 || SeedAt(long, short, i, j)
      invariant Searching(long, short, i, j, found, best)
      decreases if j == -1 then 0 else |short| + 1 - j
    {
      ghost var at, was, before := j, found, best;
      var grown := Grow(long, short, i, j);
      if |best.common| < |grown.common| {
        best, found := grown, true;
      }
      j := Find(short, seed, j + 1);
      SearchStep(long, short, i, at, j, was, before, grown);
    }
    SearchEnds(long, short, i, found, best);
    h := if 2 * |best.common| >= |long| then Some(best) else None;
  }

  lemma SearchStarts(long: Text, short: Text, i: nat, j: int, best: Half)
    requires i + |long| / 4 <= |long| && best.common == []
    requires forall k | SeedAt(long, short, i, k) :: j != -1 && j <= k
    ensures Searching(long, short, i, j, false, best)
  {
  }

  /** A half-match told in terms of the two texts. */
  datatype Match = Match(text1A: Text, text1B: Text, text2A: Text, text2B: Text, common: Text)

  /** No occurrence of either seed, the second or the third quarter, grows to half the longer text. */
  ghost predicate NoHalfMatch(long: Text, short: Text)
    requires |long| >= |short|
  {
    |long| >= 4 && 2 * |short| >= |long| ==>
      SeedFails(long, short, (|long| + 3) / 4) && SeedFails(long, short, (|long| + 1) / 2)
  }

  ghost predicate SeedFails(long: Text, short: Text, i: nat)
    requires i + |long| / 4 <= |long|
  {
    forall j | SeedAt(long, short, i, j) :: 2 * Grown(long, short, i, j) < |long|
  }

  // ------------------------------------------------------------ the longest common substring

  /** The c characters from position p in one text stand from position q in the other. */
  predicate Shared(a: Text, b: Text, p: int, q: int, c: int) {
    0 <= p && 0 <= q && 0 <= c && p + c <= |a| && q + c <= |b| && a[p..p + c] == b[q..q + c]
  }

  /** Two texts of which one has four characters share at least half of the longer one. */
  ghost predicate SharesHalf(a: Text, b: Text) {
    Max(|a|, |b|) >= 4 && exists p, q, c :: Shared(a, b, p, q, c) && 2 * c >= Max(|a|, |b|)
  }

  /** One of the two seeds lies inside any stretch of at least half the text. */
  lemma SeedInside(n: nat, p: nat, c: nat) returns (i: nat)
    requires p + c <= n && 2 * c >= n
    ensures i == (n + 3) / 4 || i == (n + 1) / 2
    ensures p <= i && i + n / 4 <= p + c
  {
    i := if p <= (n + 3) / 4 then (n + 3) / 4 else (n + 1) / 2;
  }

  /** The seed's occurrence there grows to the whole shared stretch. */
  lemma SharedGrows(long: Text, short: Text, p: nat, q: nat, c: nat, i: nat)
    requires Shared(long, short, p, q, c) && p <= i && i + |long| / 4 <= p + c
    ensures var j := q + (i - p);
      SeedAt(long, short, i, j) && c <= Grown(long, short, i, j)
  {
    hide SuffixLen, PrefixLen, Grown, Shared;
    var u: nat, j: nat := i - p, q + (i - p);
    SharedFits(long, short, p, q, c);
    SubShared(long, short, p, q, c, u, |long| / 4);
    SubShared(long, short, p, q, c, 0, u);
    SubShared(long, short, p, q, c, u, c - u);
    GrownAtLeast(long, short, i, j, u, c - u);
  }

  lemma SharedFits(a: Text, b: Text, p: int, q: int, c: int)
    requires Shared(a, b, p, q, c)
    ensures 0 <= p && 0 <= q && 0 <= c && p + c <= |a| && q + c <= |b|
  {
  }

  lemma SubShared(a: Text, b: Text, p: nat, q: nat, c: nat, u: nat, l: nat)
    requires Shared(a, b, p, q, c) && u + l <= c
    ensures a[p + u..p + u + l] == b[q + u..q + u + l]
  {
    var v, w := a[p + u..p + u + l], b[q + u..q + u + l];
    forall k | 0 <= k < l ensures v[k] == w[k] {
      assert a[p..p + c][u + k] == b[q..q + c][u + k];
    }
  }

  lemma GrownAtLeast(long: Text, short: Text, i: nat, j: nat, u: nat, v: nat)
    requires u <= i <= |long| && u <= j <= |short| && i + v <= |long| && j + v <= |short|
    requires long[i - u..i] == short[j - u..j] && long[i..i + v] == short[j..j + v]
    ensures Grown(long, short, i, j) >= u + v
  {
    SuffixExact(long[..i], short[..j], u);
    PrefixExact(long[i..], short[j..], v);
    hide SuffixLen, PrefixLen;
    assert Last(long[..i], u) == long[i - u..i] && Last(short[..j], u) == short[j - u..j];
    assert long[i..][..v] == long[i..i + v] && short[j..][..v] == short[j..j + v];
  }

  /** No occurrence of either seed grows beyond c characters, if it grows to half of the longer text at all. */
  ghost predicate GrowsNoFurther(long: Text, short: Text, i: nat, c: nat)
    requires i + |long| / 4 <= |long|
  {
    forall j | SeedAt(long, short, i, j) :: Grown(long, short, i, j) <= c || 2 * Grown(long, short, i, j) < |long|
  }

  /** So no stretch that both texts share is longer, if it is half of the longer text at all. */
  lemma SharedNoLonger(long: Text, short: Text, best: nat, p: int, q: int, c: int)
    requires 4 <= |long| && Shared(long, short, p, q, c)
    requires GrowsNoFurther(long, short, (|long| + 3) / 4, best) && GrowsNoFurther(long, short, (|long| + 1) / 2, best)
    ensures c <= best || 2 * c < |long|
  {
    hide Grown, OccursAt, Shared;
    SharedFits(long, short, p, q, c);
    if 2 * c >= |long| {
      var i := SeedInside(|long|, p, c);
      SharedGrows(long, short, p, q, c, i);
    }
  }

  /** Nothing longer than c characters, or half the longer text, is shared. */
  ghost predicate LongestShared(a: Text, b: Text, best: nat) {
    forall p, q, c :: Shared(a, b, p, q, c) ==> c <= best || 2 * c < Max(|a|, |b|)
  }

  lemma LongestFromSeeds(text1: Text, text2: Text, long: Text, short: Text, best: nat)
    requires if |text1| > |text2| then long == text1 && short == text2 else long == text2 && short == text1
    requires 4 <= |long|
    requires GrowsNoFurther(long, short, (|long| + 3) / 4, best) && GrowsNoFurther(long, short, (|long| + 1) / 2, best)
    ensures LongestShared(text1, text2, best)
  {
    hide GrowsNoFurther;
    forall p, q, c | Shared(text1, text2, p, q, c) ensures c <= best || 2 * c < Max(|text1|, |text2|) {
      if |text1| > |text2| {
        SharedNoLonger(long, short, best, p, q, c);
      } else {
        SharedNoLonger(long, short, best, q, p, c);
      }
    }
  }

  function Swapped(m: Match): Match {
    Match(m.text2A, m.text2B, m.text1A, m.text1B, m.common)
  }

  /** The longer of what the two seeds give; that of the later one when they are as long. */
  function Longer(hm1: Option<Half>, hm2: Option<Half>): Option<Half> {
    if hm2.None? then hm1
    else if hm1.None? then hm2
    else if |hm1.value.common| > |hm2.value.common| then hm1 else hm2
  }

  ghost predicate IsLonger(long: Text, short: Text, m: Match) {
    4 <= |long| && exists hm1, hm2 ::
      && Found(long, short, (|long| + 3) / 4, hm1) && Found(long, short, (|long| + 1) / 2, hm2)
      && Longer(hm1, hm2) == Some(Half(m.text1A, m.text1B, m.text2A, m.text2B, m.common))
  }

  ghost predicate IsHalf(text1: Text, text2: Text, m: Match) {
    if |text1| > |text2| then IsLonger(text1, text2, m) else IsLonger(text2, text1, Swapped(m))
  }

  lemma LongerIs(long: Text, short: Text, hm1: Option<Half>, hm2: Option<Half>, h: Half)
    requires 4 <= |long| && Longer(hm1, hm2) == Some(h)
    requires Found(long, short, (|long| + 3) / 4, hm1) && Found(long, short, (|long| + 1) / 2, hm2)
    ensures IsLonger(long, short, Match(h.longA, h.longB, h.shortA, h.shortB, h.common))
  {
    hide Found;
  }

  /** What `diff_halfMatchI` found for a seed is as far as any occurrence of it grows. */
  ghost predicate Furthest(long: Text, short: Text, i: nat, h: Option<Half>)
    requires i + |long| / 4 <= |long|
  {
    GrowsNoFurther(long, short, i, if h.Some? then |h.value.common| else 0)
  }

  lemma FoundFurthest(long: Text, short: Text, i: nat, h: Option<Half>)
    requires i + |long| / 4 <= |long|
    requires h.Some? ==> forall j | SeedAt(long, short, i, j) :: Grown(long, short, i, j) <= |h.value.common|
    requires h.None? ==> SeedFails(long, short, i)
    ensures Furthest(long, short, i, h)
  {
  }

  lemma FurthestOfBoth(long: Text, short: Text, i: nat, h: Option<Half>, best: nat)
    requires i + |long| / 4 <= |long| && Furthest(long, short, i, h) && (h.Some? ==> |h.value.common| <= best)
    ensures GrowsNoFurther(long, short, i, best)
  {
  }

  lemma HopelessLengths(a: Text, b: Text)
    requires Max(|a|, |b|) < 4 || 2 * Min(|a|, |b|) < Max(|a|, |b|)
    ensures !SharesHalf(a, b)
  {
  }

  lemma NothingShared(a: Text, b: Text)
    requires LongestShared(a, b, 0) && Max(|a|, |b|) >= 4
    ensures !SharesHalf(a, b)
  {
  }

  /** The middle of the cut is a shared stretch, and no shared stretch is longer. */
  lemma CommonIsShared(text1: Text, text2: Text, long: Text, short: Text, h: Half)
    requires if |text1| > |text2| then long == text1 && short == text2 else long == text2 && short == text1
    requires Cuts(h, long, short) && 2 * |h.common| >= |long| >= 4 && LongestShared(text1, text2, |h.common|)
    ensures SharesHalf(text1, text2)
    ensures forall p, q, c :: Shared(text1, text2, p, q, c) ==> c <= |h.common|
  {
    var p, q, c := |h.longA|, |h.shortA|, |h.common|;
    assert long[p..p + c] == h.common && short[q..q + c] == h.common;
    assert if |text1| > |text2| then Shared(text1, text2, p, q, c) else Shared(text1, text2, q, p, c);
  }

  /**
   `diff_halfMatch`. A match is never empty, cuts both texts around it and is a longest
   common substring; one is found exactly when there is a time limit and the texts share
   half of the longer one.
   */
  method HalfMatch(cfg: Settings, text1: Text, text2: Text) returns (hm: Option<Match>)
    ensures hm.Some? ==> var m := hm.value;
      && text1 == m.text1A + m.common + m.text1B && text2 == m.text2A + m.common + m.text2B
      && 2 * |m.common| >= Max(|text1|, |text2|) && |m.common| >= 2
    ensures hm.Some? ==> forall p, q, c :: Shared(text1, text2, p, q, c) ==> c <= |hm.value.common|
    ensures hm.Some? <==> cfg.timeout > 0.0 && SharesHalf(text1, text2)
    ensures hm.Some? ==> IsHalf(text1, text2, hm.value)
    ensures hm.Some? ==> cfg.timeout > 0.0
    ensures hm.None? && cfg.timeout > 0.0 ==>
      if |text1| > |text2| then NoHalfMatch(text1, text2) else NoHalfMatch(text2, text1)
  {
    hide Grown, SeedAt, GrowsNoFurther, LongestShared, SharesHalf, Shared, SeedFails, Found, IsLonger;
    if cfg.timeout <= 0.0 {
      return None;
    }
    var long, short := text2, text1;
    if |text1| > |text2| {
      long, short := text1, text2;
    }
    if |long| < 4 || 2 * |short| < |long| {
      HopelessLengths(text1, text2);
      return None;
    }
    var hm1 := HalfMatchAt(long, short, (|long| + 3) / 4);
    var hm2 := HalfMatchAt(long, short, (|long| + 1) / 2);
    var h: Half;
    FoundFurthest(long, short, (|long| + 3) / 4, hm1);
    FoundFurthest(long, short, (|long| + 1) / 2, hm2);
    if hm1.None? && hm2.None? {
      LongestFromSeeds(text1, text2, long, short, 0);
      NothingShared(text1, text2);
      return None;
    } else if hm2.None? {
      h := hm1.value;
    } else if hm1.None? {
      h := hm2.value;
    } else {
      h := if |hm1.value.common| > |hm2.value.common| then hm1.value else hm2.value;
    }
    FurthestOfBoth(long, short, (|long| + 3) / 4, hm1, |h.common|);
    FurthestOfBoth(long, short, (|long| + 1) / 2, hm2, |h.common|);
    LongestFromSeeds(text1, text2, long, short, |h.common|);
    CommonIsShared(text1, text2, long, short, h);
    LongerIs(long, short, hm1, hm2, h);
    if |text1| > |text2| {
      hm := Some(Match(h.longA, h.longB, h.shortA, h.shortB, h.common));
    } else {
      hm := Some(Match(h.shortA, h.shortB, h.longA, h.longB, h.common));
    }
  }
}
