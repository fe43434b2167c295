/**
 The subtitle checker's masks: which characters of a template the recognised text covers,
 cut down to the longest stretch without a wide gap.
 */
module Masks {
  import opened Texts
  import opened Diffs
  import opened Merging
  import opened Simplify
  import opened Subsequence
  import opened Engine

  // ------------------------------------------------------------ marking equalities

  /** One flag per source character: whether it lies in an equality. */
  function Marks(ds: Script): (m: seq<bool>)
    ensures |m| == |Source(ds)|
  {
    if ds == [] then [] else Block(ds[0]) + Marks(ds[1..])
  }

  /** The flags of one entry. */
  function Block(d: Diff): (m: seq<bool>)
    ensures |m| == if d.op == Insert then 0 else |d.text|
  {
    match d.op
    case Equal => seq(|d.text|, _ => true)
    case Delete => seq(|d.text|, _ => false)
    case Insert => []
  }

  function CountTrue(m: seq<bool>): (n: nat)
    ensures n <= |m|
  {
    if m == [] then 0 else (if m[|m| - 1] then 1 else 0) + CountTrue(m[..|m| - 1])
  }

  /** The flagged positions, in order. */
  ghost predicate Flags(m: seq<bool>, ps: seq<nat>) {
    && Increasing(ps)
    && (forall k | 0 <= k < |ps| :: ps[k] < |m| && m[ps[k]])
    && (forall i: nat | i < |m| && m[i] :: i in ps)
  }

  lemma {:induction false} FlagsCount(m: seq<bool>, ps: seq<nat>)
    requires Flags(m, ps)
    ensures CountTrue(m) == |ps|
  {
    if m == [] {
      if ps != [] {
        FirstFlag(m, ps);
      }
    } else {
      var n := |m| - 1;
      FlagsFront(m, ps);
      hide Flags;
      FlagsCount(m[..n], if m[n] then ps[..|ps| - 1] else ps);
    }
  }

  lemma FirstFlag(m: seq<bool>, ps: seq<nat>)
    requires Flags(m, ps) && ps != []
    ensures ps[0] < |m|
  {
  }

  lemma FlagsFront(m: seq<bool>, ps: seq<nat>)
    requires Flags(m, ps) && m != []
    ensures m[|m| - 1] ==> ps != []
    ensures Flags(m[..|m| - 1], if m[|m| - 1] then ps[..|ps| - 1] else ps)
  {
    var n := |m| - 1;
    if m[n] {
      LastFlag(m, ps);
    }
    FrontKept(m, ps, if m[n] then ps[..|ps| - 1] else ps);
  }

  lemma FrontKept(m: seq<bool>, ps: seq<nat>, front: seq<nat>)
    requires Flags(m, ps) && m != []
    requires if m[|m| - 1] then ps != [] && ps[|ps| - 1] == |m| - 1 && front == ps[..|ps| - 1] else front == ps
    ensures Flags(m[..|m| - 1], front)
  {
    forall i: nat | i < |m| - 1 && m[i] ensures i in front {
      var k :| 0 <= k < |ps| && ps[k] == i;
      assert front[k] == i;
    }
  }

  lemma LastFlag(m: seq<bool>, ps: seq<nat>)
    requires Flags(m, ps) && m != [] && m[|m| - 1]
    ensures ps != [] && ps[|ps| - 1] == |m| - 1
  {
    var k :| 0 <= k < |ps| && ps[k] == |m| - 1;
  }

  /** The equalities of a diff pair flagged source positions with target positions. */
  lemma {:induction false} MarksAreCommon(ds: Script) returns (ps: seq<nat>, qs: seq<nat>)
    ensures Flags(Marks(ds), ps) && Common(Source(ds), Target(ds), ps, qs)
  {
    ps, qs := [], [];
    if ds != [] {
      hide Flags, Common;
      var d, s, t := ds[0], Source(ds[1..]), Target(ds[1..]);
      var xs, ys := MarksAreCommon(ds[1..]);
      assert [] + s == s && [] + t == t;
      match d.op {
        case Insert =>
          ps, qs := xs, Shift(ys, |d.text|);
          CommonAfterGap([], d.text, s, t, xs, ys);
          assert [] + Marks(ds[1..]) == Marks(ds[1..]);
        case Delete =>
          ps, qs := Shift(xs, |d.text|), ys;
          CommonAfterGap(d.text, [], s, t, xs, ys);
          FlagsAfterGap(d.text, Marks(ds[1..]), xs);
        case Equal =>
          ps, qs := Upto(|d.text|) + Shift(xs, |d.text|), Upto(|d.text|) + Shift(ys, |d.text|);
          FlagsAfterBlock(d.text, Marks(ds[1..]), xs);
          CommonAfterBlock(d.text, s, t, xs, ys);
      }
    }
  }

  function Shift(ps: seq<nat>, n: nat): seq<nat> {
    seq(|ps|, k requires 0 <= k < |ps| => ps[k] + n)
  }

  function Upto(n: nat): seq<nat> {
    seq(n, k requires 0 <= k < n => k)
  }

  lemma CommonAfterGap(e: Text, f: Text, s: Text, t: Text, ps: seq<nat>, qs: seq<nat>)
    requires Common(s, t, ps, qs)
    ensures Common(e + s, f + t, Shift(ps, |e|), Shift(qs, |f|))
    ensures Shift(ps, 0) == ps && Shift(qs, 0) == qs
  {
  }

  lemma FlagsAfterGap(e: Text, m: seq<bool>, ps: seq<nat>)
    requires Flags(m, ps)
    ensures Flags(seq(|e|, _ => false) + m, Shift(ps, |e|))
  {
    var w := seq(|e|, _ => false) + m;
    forall i: nat | i < |w| && w[i] ensures i in Shift(ps, |e|) {
      assert m[i - |e|];
      var k :| 0 <= k < |ps| && ps[k] == i - |e|;
      assert Shift(ps, |e|)[k] == i;
    }
  }

  lemma FlagsAfterBlock(e: Text, m: seq<bool>, ps: seq<nat>)
    requires Flags(m, ps)
    ensures Flags(seq(|e|, _ => true) + m, Upto(|e|) + Shift(ps, |e|))
  {
    var w, rs := seq(|e|, _ => true) + m, Upto(|e|) + Shift(ps, |e|);
    forall i: nat | i < |w| && w[i] ensures i in rs {
      if i < |e| {
        assert rs[i] == i;
      } else {
        assert m[i - |e|];
        var k :| 0 <= k < |ps| && ps[k] == i - |e|;
        assert rs[|e| + k] == i;
      }
    }
  }

  lemma CommonAfterBlock(e: Text, s: Text, t: Text, ps: seq<nat>, qs: seq<nat>)
    requires Common(s, t, ps, qs)
    ensures Common(e + s, e + t, Upto(|e|) + Shift(ps, |e|), Upto(|e|) + Shift(qs, |e|))
  {
  }

  /** `mask[lo:hi] = True` */
  method SetSlice(mask: array<bool>, lo: nat, hi: nat)
    requires lo <= hi <= mask.Length
    modifies mask
    ensures mask[..] == old(mask[..lo]) + seq(hi - lo, _ => true) + old(mask[hi..])
  {
    for i := lo to hi
      invariant forall j | 0 <= j < mask.Length :: mask[j] == if lo <= j < i then true else old(mask[j])
    {
      mask[i] := true;
    }
  }

  /** Write the flags of one entry and step over them. */
  method FillEntry(mask: array<bool>, index: nat, d: Diff) returns (next: nat)
    requires index + |Block(d)| <= mask.Length && forall i | index <= i < mask.Length :: !mask[i]
    modifies mask
    ensures next == index + |Block(d)|
    ensures mask[..next] == old(mask[..index]) + Block(d)
    ensures forall i | next <= i < mask.Length :: !mask[i]
  {
    next := index;
    match d.op {
      case Equal =>
        next := index + |d.text|;
        SetSlice(mask, index, next);
        assert forall i | next <= i < mask.Length :: mask[..][i] == old(mask[i]);
      case Delete =>
        next := index + |d.text|;
      case Insert =>
    }
  }

  lemma MarksStep(diffs: Script, k: nat, done: seq<bool>)
    requires k < |diffs|
    ensures |Marks(diffs[k..])| == |Block(diffs[k])| + |Marks(diffs[k + 1..])|
    ensures done + Marks(diffs[k..]) == done + Block(diffs[k]) + Marks(diffs[k + 1..])
  {
    assert diffs[k..][0] == diffs[k] && diffs[k..][1..] == diffs[k + 1..];
  }

  /** Write the mask of a diff, entry by entry. */
  method FillMask(diffs: Script, mask: array<bool>)
    requires mask.Length == |Source(diffs)| && forall i | 0 <= i < mask.Length :: !mask[i]
    modifies mask
    ensures mask[..] == Marks(diffs)
  {
    var index := 0;
    for k := 0 to |diffs|
      invariant 0 <= index <= mask.Length && index + |Marks(diffs[k..])| == mask.Length
      invariant Marks(diffs) == mask[..index] + Marks(diffs[k..])
      invariant forall i | index <= i < mask.Length :: !mask[i]
    {
      MarksStep(diffs, k, mask[..index]);
      hide Marks, Block;
      index := FillEntry(mask, index, diffs[k]);
    }
    assert diffs[|diffs|..] == [];
    assert mask[..] == mask[..index];
  }

  // ------------------------------------------------------------ the longest stretch

  const MOST_UNMATCHED := 4

  /** Entries x to y of the flagged positions, with at most 4 unmatched characters between neighbours. */
  ghost predicate Chain(ps: seq<nat>, x: int, y: int) {
    && 0 <= x <= y < |ps|
    && forall k | x < k <= y :: ps[k] <= ps[k - 1] + 1 + 4
  }

  ghost function Span(ps: seq<nat>, x: int, y: int): int
    requires 0 <= x <= y < |ps|
  {
    var lo: int, hi: int := ps[x], ps[y];
    hi - lo + 1
  }

  /** Entries x to y are the first of the longest chains of more than one character. */
  ghost predicate FirstLongest(ps: seq<nat>, x: int, y: int) {
    && Chain(ps, x, y) && Span(ps, x, y) > 1
    && (forall v, w | Chain(ps, v, w) :: Span(ps, v, w) <= Span(ps, x, y))
    && (forall v, w | Chain(ps, v, w) && w < y :: Span(ps, v, w) < Span(ps, x, y))
  }

  /** No two neighbouring flagged positions are close. */
  ghost predicate Scattered(ps: seq<nat>) {
    forall v, w | Chain(ps, v, w) :: v == w
  }

  /** A longest chain so far: of those ending before `pos`. */
  ghost predicate LongestSoFar(ps: seq<nat>, pos: nat, length: int, lo: int, hi: int, x: int, y: int) {
    && pos <= |ps|
    && (forall v, w | Chain(ps, v, w) && w < pos :: Span(ps, v, w) <= length)
    && (if length == 1 then lo == hi == -1
        else Chain(ps, x, y) && y < pos && lo == ps[x] && hi == ps[y] && length == Span(ps, x, y) > 1
             && forall v, w | Chain(ps, v, w) && w < y :: Span(ps, v, w) < length)
  }

  /** The loop over the flagged positions. */
  method LongestStretch(ps: seq<nat>) returns (length: int, lo: int, hi: int, ghost x: int, ghost y: int)
    requires ps != [] && Increasing(ps)
    ensures if length == 1 then lo == hi == -1 && Scattered(ps)
            else FirstLongest(ps, x, y) && lo == ps[x] && hi == ps[y] && length == Span(ps, x, y)
  {
    length, lo, hi, x, y := 1, -1, -1, 0, 0;
    var pos, start := 1, 0;
    hide LongestSoFar, FirstLongest, Scattered;
    LongestStart(ps);
    while pos < |ps|
      invariant 0 <= start < pos <= |ps| && Chain(ps, start, pos - 1)
      invariant start > 0 ==> ps[start] - ps[start - 1] - 1 > MOST_UNMATCHED
      invariant 1 <= length && LongestSoFar(ps, pos, length, lo, hi, x, y)
    {
      if ps[pos] - ps[pos - 1] - 1 > MOST_UNMATCHED {
        start := pos;
        AloneAt(ps, pos, length, lo, hi, x, y);
      } else {
        LongestAt(ps, start, pos, length, lo, hi, x, y);
        if ps[pos] - ps[start] + 1 > length {
          lo, hi := ps[start], ps[pos];
          length := hi - lo + 1;
          x, y := start, pos;
        }
      }
      pos := pos + 1;
    }
    StretchFound(ps, length, lo, hi, x, y);
  }

  lemma StretchFound(ps: seq<nat>, length: int, lo: int, hi: int, x: int, y: int)
    requires Increasing(ps) && LongestSoFar(ps, |ps|, length, lo, hi, x, y)
    ensures if length == 1 then lo == hi == -1 && Scattered(ps)
            else FirstLongest(ps, x, y) && lo == ps[x] && hi == ps[y] && length == Span(ps, x, y)
  {
    if length == 1 {
      forall v, w | Chain(ps, v, w) ensures v == w {
        assert Span(ps, v, w) <= 1;
      }
    }
  }

  lemma LongestStart(ps: seq<nat>)
    requires ps != []
    ensures LongestSoFar(ps, 1, 1, -1, -1, 0, 0)
  {
  }

  lemma AloneAt(ps: seq<nat>, pos: nat, length: int, lo: int, hi: int, x: int, y: int)
    requires Increasing(ps) && 0 < pos < |ps| && LongestSoFar(ps, pos, length, lo, hi, x, y) && length >= 1
    requires ps[pos] - ps[pos - 1] - 1 > MOST_UNMATCHED
    ensures LongestSoFar(ps, pos + 1, length, lo, hi, x, y)
  {
    forall v, w | Chain(ps, v, w) && w < pos + 1 ensures Span(ps, v, w) <= length {
      assert w == pos ==> v == pos;
    }
  }

  lemma LongestAt(ps: seq<nat>, start: nat, pos: nat, length: int, lo: int, hi: int, x: int, y: int)
    requires Increasing(ps) && start < pos < |ps| && LongestSoFar(ps, pos, length, lo, hi, x, y) && length >= 1
    requires Chain(ps, start, pos - 1) && ps[pos] - ps[pos - 1] - 1 <= MOST_UNMATCHED
    requires start > 0 ==> ps[start] - ps[start - 1] - 1 > MOST_UNMATCHED
    ensures Chain(ps, start, pos)
    ensures if ps[pos] - ps[start] + 1 > length
            then LongestSoFar(ps, pos + 1, ps[pos] - ps[start] + 1, ps[start], ps[pos], start, pos)
            else LongestSoFar(ps, pos + 1, length, lo, hi, x, y)
  {
    forall v, w | Chain(ps, v, w) && w == pos ensures Span(ps, v, w) <= ps[pos] - ps[start] + 1 {
      StartsLater(ps, start, v, w);
    }
    assert Chain(ps, start, pos);
    hide Chain, Increasing;
    if ps[pos] - ps[start] + 1 > length {
      LongestNew(ps, start, pos, length, lo, hi, x, y);
    }
  }

  lemma LongestNew(ps: seq<nat>, start: nat, pos: nat, length: int, lo: int, hi: int, x: int, y: int)
    requires start < pos < |ps| && LongestSoFar(ps, pos, length, lo, hi, x, y) && length >= 1
    requires Chain(ps, start, pos) && ps[pos] - ps[start] + 1 > length
    requires forall v, w | Chain(ps, v, w) && w == pos :: Span(ps, v, w) <= ps[pos] - ps[start] + 1
    ensures LongestSoFar(ps, pos + 1, ps[pos] - ps[start] + 1, ps[start], ps[pos], start, pos)
  {
    hide Chain;
  }

  /** No chain reaches back over a wide gap. */
  lemma StartsLater(ps: seq<nat>, start: nat, v: int, w: int)
    requires Increasing(ps) && start <= w && Chain(ps, v, w)
    requires start > 0 ==> ps[start] - ps[start - 1] - 1 > MOST_UNMATCHED
    ensures start <= v && ps[start] <= ps[v]
  {
  }

  // ------------------------------------------------------------ cutting the mask

  /** The flags at positions from lo to hi. */
  function Within(m: seq<bool>, lo: int, hi: int): (w: seq<bool>)
    ensures |w| == |m|
  {
    seq(|m|, i requires 0 <= i < |m| => m[i] && lo <= i <= hi)
  }

  /** The stretch with ends ps[x] and ps[y] keeps exactly the flags in between. */
  lemma FlagsWithin(m: seq<bool>, ps: seq<nat>, x: nat, y: nat)
    requires Flags(m, ps) && x <= y < |ps|
    ensures Flags(Within(m, ps[x], ps[y]), ps[x..y + 1])
  {
    var w, cut := Within(m, ps[x], ps[y]), ps[x..y + 1];
    forall i: nat | i < |w| && w[i] ensures i in cut {
      var k :| 0 <= k < |ps| && ps[k] == i;
      assert x <= k <= y;
      assert cut[k - x] == i;
    }
  }

  lemma CommonWithin(s: Text, t: Text, ps: seq<nat>, qs: seq<nat>, x: nat, y: nat)
    requires Common(s, t, ps, qs) && x <= y < |ps|
    ensures Common(s, t, ps[x..y + 1], qs[x..y + 1])
  {
  }

  /** The mask flags positions of s at which a common subsequence of s and t stands. */
  ghost predicate Covers(s: Text, t: Text, mask: seq<bool>) {
    |mask| == |s| && exists ps, qs :: Flags(mask, ps) && Common(s, t, ps, qs)
  }

  /**
   The mask is what is left of the marks of a diff: the first longest stretch, if any is
   longer than one character.
   */
  ghost predicate Stretch(s: Text, marks: seq<bool>, mask: seq<bool>, text: Text)
    requires |marks| == |s|
  {
    exists ps :: Flags(marks, ps) && IsStretch(s, marks, ps, mask, text)
  }

  ghost predicate IsStretch(s: Text, marks: seq<bool>, ps: seq<nat>, mask: seq<bool>, text: Text)
    requires |marks| == |s| && Flags(marks, ps)
  {
    if Scattered(ps) then mask == marks && text == []
    else exists x, y | FirstLongest(ps, x, y) :: mask == Within(marks, ps[x], ps[y]) && text == s[ps[x]..ps[y] + 1]
  }

  method TruePositions(m: seq<bool>) returns (ps: seq<nat>)
    ensures Flags(m, ps)
  {
    ps := [];
    for i := 0 to |m|
      invariant Increasing(ps)
      invariant forall k | 0 <= k < |ps| :: ps[k] < i && m[ps[k]]
      invariant forall j: nat | j < i && m[j] :: j in ps
    {
      if m[i] {
        ps := ps + [i];
      }
    }
  }

  /** `mask[lo:hi] = False` */
  method ClearSlice(mask: array<bool>, lo: nat, hi: nat)
    requires lo <= hi <= mask.Length
    modifies mask
    ensures forall j | 0 <= j < mask.Length :: mask[j] == if lo <= j < hi then false else old(mask[j])
  {
    for i := lo to hi
      invariant forall j | 0 <= j < mask.Length :: mask[j] == if lo <= j < i then false else old(mask[j])
    {
      mask[i] := false;
    }
  }

  /** Find the longest stretch of the mask and clear everything outside it. */
  method CutToStretch(s: Text, mask: array<bool>) returns (length: int, text: Text)
    requires mask.Length == |s|
    modifies mask
    ensures Stretch(s, old(mask[..]), mask[..], text)
    ensures length == if text == [] then (if forall i | 0 <= i < |s| :: !old(mask[..])[i] then -1 else 1) else |text|
  {
    ghost var marks := mask[..];
    var ps := TruePositions(mask[..]);
    text := [];
    if ps == [] {
      length := -1;
      assert Scattered(ps);
      assert IsStretch(s, marks, ps, mask[..], text);
    } else {
      assert marks[ps[0]];
      var lo, hi;
      ghost var x, y;
      length, lo, hi, x, y := LongestStretch(ps);
      if hi > lo && lo >= 0 {
        NotScattered(ps, x, y);
        ClearSlice(mask, 0, lo);
        ClearSlice(mask, hi + 1, mask.Length);
        text := s[lo..hi + 1];
        assert mask[..] == Within(marks, lo, hi);
      }
      assert IsStretch(s, marks, ps, mask[..], text);
    }
  }

  lemma NotScattered(ps: seq<nat>, x: int, y: int)
    requires FirstLongest(ps, x, y)
    ensures !Scattered(ps)
  {
    assert Chain(ps, x, y) && x != y;
  }

  /** A stretch of the marks of a diff still spells a common subsequence. */
  lemma StretchCovers(ds: Script, mask: seq<bool>, text: Text)
    requires Stretch(Source(ds), Marks(ds), mask, text)
    ensures Covers(Source(ds), Target(ds), mask)
  {
    var s, t, marks := Source(ds), Target(ds), Marks(ds);
    var ps :| Flags(marks, ps) && IsStretch(s, marks, ps, mask, text);
    var ps', qs := MarksAreCommon(ds);
    SameFlags(marks, ps, ps');
    hide Flags, Common, Marks, Source, Target, FirstLongest, Within;
    if !Scattered(ps) {
      hide Scattered;
      var x, y :| FirstLongest(ps, x, y) && mask == Within(marks, ps[x], ps[y]);
      StretchEnds(ps, x, y);
      FlagsWithin(marks, ps, x, y);
      CommonWithin(s, t, ps, qs, x, y);
      CoverFound(s, t, mask, ps[x..y + 1], qs[x..y + 1]);
    } else {
      CoverFound(s, t, mask, ps, qs);
    }
  }

  lemma StretchEnds(ps: seq<nat>, x: int, y: int)
    requires FirstLongest(ps, x, y)
    ensures 0 <= x <= y < |ps|
  {
  }

  lemma CoverFound(s: Text, t: Text, mask: seq<bool>, ps: seq<nat>, qs: seq<nat>)
    requires |mask| == |s| && Flags(mask, ps) && Common(s, t, ps, qs)
    ensures Covers(s, t, mask)
  {
  }

  /** The flagged positions are determined by the mask. */
  lemma {:induction false} SameFlags(m: seq<bool>, ps: seq<nat>, ps': seq<nat>)
    requires Flags(m, ps) && Flags(m, ps')
    ensures ps == ps'
  {
    FlagsCount(m, ps);
    FlagsCount(m, ps');
    if m != [] {
      var n := |m| - 1;
      FlagsFront(m, ps);
      FlagsFront(m, ps');
      if m[n] {
        LastFlag(m, ps);
        LastFlag(m, ps');
        SameFlags(m[..n], ps[..|ps| - 1], ps'[..|ps'| - 1]);
      } else {
        SameFlags(m[..n], ps, ps');
      }
    }
  }

  /** A covering mask flags no more characters than a longest common subsequence has. */
  lemma CoverIsShort(s: Text, t: Text, mask: seq<bool>)
    requires Covers(s, t, mask)
    ensures CountTrue(mask) <= Length(s, t, |s|, |t|)
  {
    var ps, qs :| Flags(mask, ps) && Common(s, t, ps, qs);
    FlagsCount(mask, ps);
    assert s[..|s|] == s && t[..|t|] == t;
    NoneLonger(s, t, |s|, |t|, ps, qs);
  }

  // ------------------------------------------------------------ the matchers

  /** Number of flagged characters over the number of all. */
  function Ratio(mask: seq<bool>, total: int): real
    requires total > 0
  {
    CountTrue(mask) as real / total as real
  }

  lemma RatioInRange(mask: seq<bool>, total: int)
    requires 0 < total && CountTrue(mask) <= total
    ensures 0.0 <= Ratio(mask, total) <= 1.0
  {
  }

  lemma WholeRatio(cfg: Settings, patient: bool, s: Text, t: Text, mask: seq<bool>, text: Text)
    requires FromDiff(cfg, patient, s, t, mask, text) && (exists i :: OccursAt(t, s, i)) && s != []
    ensures |mask| == |s| && Ratio(mask, |mask|) == 1.0
  {
    hide FromDiff, CountTrue;
    var i :| OccursAt(t, s, i);
    WholeMarked(cfg, patient, s, t, mask, text, i);
    var n := |mask| as real;
    assert n > 0.0 && n / n == 1.0;
  }

  method CountFlags(m: seq<bool>) returns (n: nat)
    ensures n == CountTrue(m)
  {
    n := 0;
    for i := 0 to |m|
      invariant n == CountTrue(m[..i])
    {
      assert m[..i + 1][..i] == m[..i];
      if m[i] {
        n := n + 1;
      }
    }
    assert m[..|m|] == m;
  }

  /** The mask and text are what is left of a diff of s and t as good as is promised. */
  ghost predicate FromDiff(cfg: Settings, patient: bool, s: Text, t: Text, mask: seq<bool>, text: Text) {
    exists ds :: Good(cfg, s, t, true, patient, ds) && Stretch(s, Marks(ds), mask, text)
  }

  lemma {:induction false} CountConcat(a: seq<bool>, b: seq<bool>)
    ensures CountTrue(a + b) == CountTrue(a) + CountTrue(b)
  {
    if b == [] {
      assert a + b == a;
    } else {
      assert (a + b)[..|a + b| - 1] == a + b[..|b| - 1];
      CountConcat(a, b[..|b| - 1]);
    }
  }

  lemma {:induction false} CountSame(n: nat, flag: bool)
    ensures CountTrue(seq(n, _ => flag)) == if flag then n else 0
  {
    if n > 0 {
      CountSame(n - 1, flag);
      assert seq(n, _ => flag)[..n - 1] == seq(n - 1, _ => flag);
    }
  }

  /** Every character of the two texts is either edited or half of a marked pair. */
  lemma {:induction false} MarkedOrEdited(ds: Script)
    ensures 2 * CountTrue(Marks(ds)) + EditChars(ds) == |Source(ds)| + |Target(ds)|
  {
    if ds != [] {
      MarkedOrEdited(ds[1..]);
      CountConcat(Block(ds[0]), Marks(ds[1..]));
      CountSame(|ds[0].text|, ds[0].op == Equal);
      assert ds[0].op == Equal ==> Block(ds[0]) == seq(|ds[0].text|, _ => ds[0].op == Equal);
      assert ds[0].op == Delete ==> Block(ds[0]) == seq(|ds[0].text|, _ => ds[0].op == Equal);
    }
  }

  lemma {:induction false} AllCounted(m: seq<bool>)
    requires CountTrue(m) == |m|
    ensures forall i | 0 <= i < |m| :: m[i]
  {
    if m != [] {
      AllCounted(m[..|m| - 1]);
    }
  }

  /** Cutting common ends off leaves a text inside the other one there. */
  lemma CoreOccurs(a: Text, b: Text, i: nat)
    requires OccursAt(b, a, i)
    ensures Nested(Core(a, b).0, Core(a, b).1) && |Core(a, b).0| <= |Core(a, b).1|
    ensures |Core(a, b).1| - |Core(a, b).0| == |b| - |a|
  {
    var n := PrefixLen(a, b);
    var x, y := a[n..], b[n..];
    var m := SuffixLen(x, y);
    RestOccurs(a, b, i, n);
    FrontOccurs(x, y, i, m);
    hide OccursAt;
    assert Core(a, b) == (Front(x, m), Front(y, m));
  }

  lemma RestOccurs(a: Text, b: Text, i: nat, n: nat)
    requires OccursAt(b, a, i) && n <= |a|
    ensures OccursAt(b[n..], a[n..], i)
  {
    assert b[n..][i..i + |a| - n] == b[i..i + |a|][n..];
  }

  lemma FrontOccurs(x: Text, y: Text, i: nat, m: nat)
    requires OccursAt(y, x, i) && m <= |x|
    ensures OccursAt(Front(y, m), Front(x, m), i)
  {
    var n := |x| - m;
    assert Front(x, m) == y[i..i + |x|][..n] == y[i..i + n] == Front(y, m)[i..i + n];
  }

  /** With every character marked, the longest stretch is the whole text. */
  lemma FullStretch(s: Text, marks: seq<bool>, mask: seq<bool>, text: Text)
    requires |marks| == |s| && (forall i | 0 <= i < |s| :: marks[i]) && Stretch(s, marks, mask, text)
    ensures mask == marks && text == if |s| >= 2 then s else []
  {
    var all := Upto(|s|);
    AllFlags(marks);
    var ps :| Flags(marks, ps) && IsStretch(s, marks, ps, mask, text);
    SameFlags(marks, ps, all);
    if |s| >= 2 {
      FullChain(|s|);
      StretchFull(s, marks, all, mask, text);
    } else {
      FewScattered(all);
    }
  }

  lemma StretchFull(s: Text, marks: seq<bool>, all: seq<nat>, mask: seq<bool>, text: Text)
    requires |marks| == |s| >= 2 && (forall i | 0 <= i < |s| :: marks[i])
    requires all == Upto(|s|) && Flags(marks, all) && !Scattered(all) && IsStretch(s, marks, all, mask, text)
    ensures mask == marks && text == s
  {
    var x, y :| FirstLongest(all, x, y) && mask == Within(marks, all[x], all[y]) && text == s[all[x]..all[y] + 1];
    hide Flags, IsStretch;
    FullLongest(|s|, x, y);
    hide FirstLongest, Scattered;
    assert all[0] == 0 && all[|s| - 1] == |s| - 1;
    assert mask == marks;
  }

  lemma AllFlags(m: seq<bool>)
    requires forall i | 0 <= i < |m| :: m[i]
    ensures Flags(m, Upto(|m|))
  {
    var all := Upto(|m|);
    forall i: nat | i < |m| ensures i in all {
      assert all[i] == i;
    }
  }

  lemma FewScattered(ps: seq<nat>)
    requires |ps| <= 1
    ensures Scattered(ps)
  {
  }

  lemma FullChain(n: nat)
    requires n >= 2
    ensures Chain(Upto(n), 0, n - 1) && Span(Upto(n), 0, n - 1) == n && !Scattered(Upto(n))
  {
    assert Chain(Upto(n), 0, n - 1);
  }

  lemma FullLongest(n: nat, x: int, y: int)
    requires n >= 2 && FirstLongest(Upto(n), x, y)
    ensures x == 0 && y == n - 1
  {
    FullChain(n);
    assert Span(Upto(n), x, y) >= n;
  }

  /** A text that occurs in the other is marked from end to end, whether or not the deadline is felt. */
  lemma WholeMarked(cfg: Settings, patient: bool, s: Text, t: Text, mask: seq<bool>, text: Text, i: nat)
    requires FromDiff(cfg, patient, s, t, mask, text) && OccursAt(t, s, i)
    ensures |mask| == |s| && (forall k | 0 <= k < |s| :: mask[k]) && CountTrue(mask) == |s|
    ensures text == if |s| >= 2 then s else []
  {
    var ds :| Good(cfg, s, t, true, patient, ds) && Stretch(s, Marks(ds), mask, text);
    CoreOccurs(s, t, i);
    MarkedOrEdited(ds);
    hide Core, Nested, Stretch, NeverHalved, SharesAny, KeepsShared, Merged;
    AllCounted(Marks(ds));
    FullStretch(s, Marks(ds), mask, text);
  }

  /** The mask of a diff of two texts, cut to its longest stretch. */
  method MaskOfDiff(cfg: Settings, s: Text, t: Text, patient: bool) returns (mask: seq<bool>, length: int, text: Text)
    ensures FromDiff(cfg, patient, s, t, mask, text)
    ensures Covers(s, t, mask) && CountTrue(mask) <= Length(s, t, |s|, |t|)
    ensures if text == [] then length == 1 || length == -1 else length == |text|
  {
    hide Merged, Stretch, Covers, Marks, Source, Target, Length, CountTrue, Core, Promised;
    var diffs := DiffMain(cfg, s, t, true, patient);
    var flags := new bool[|s|](i => false);
    FillMask(diffs.items, flags);
    length, text := CutToStretch(s, flags);
    mask := flags[..];
    StretchCovers(diffs.items, mask, text);
    CoverIsShort(s, t, mask);
  }

  /** `_get_match_mask2` */
  method MatchMask2(cfg: Settings, aText: Text, bText: Text, patient: bool)
    returns (mask: seq<bool>, similarity: real, text: Text)
    ensures Covers(Strip(aText), bText, mask)
    ensures Strip(aText) != [] ==> FromDiff(cfg, patient, Strip(aText), bText, mask, text)
    ensures |mask| == |Strip(aText)| && similarity == if mask == [] then 0.0 else Ratio(mask, |mask|)
    ensures CountTrue(mask) <= Length(Strip(aText), bText, |Strip(aText)|, |bText|)
    ensures 0.0 <= similarity <= 1.0
    ensures Strip(aText) != [] && (exists i :: OccursAt(bText, Strip(aText), i)) ==> similarity == 1.0
  {
    hide FromDiff, Strip, Length, OccursAt;
    var a := Strip(aText);
    if |a| == 0 {
      NothingCovered(a, bText);
      return [], 0.0, [];
    }
    var length;
    mask, length, text := MaskOfDiff(cfg, a, bText, patient);
    assert |mask| == |a|;
    hide Covers;
    var n := CountFlags(mask);
    RatioInRange(mask, |mask|);
    similarity := n as real / |mask| as real;
    if exists i :: OccursAt(bText, a, i) {
      WholeRatio(cfg, patient, a, bText, mask, text);
    }
  }

  lemma NothingCovered(s: Text, t: Text)
    ensures var mask := seq(|s|, _ => false); Covers(s, t, mask) && CountTrue(mask) == 0
  {
    var mask := seq(|s|, _ => false);
    assert Flags(mask, []) && Common(s, t, [], []);
    FlagsCount(mask, []);
  }

  /** `_get_match_mask` */
  method MatchMask(cfg: Settings, moduleText: Text, recogText: Text, patient: bool)
    returns (mask: seq<bool>, similarity: real)
    ensures Covers(moduleText, recogText, mask)
    ensures CountTrue(mask) <= Length(moduleText, recogText, |moduleText|, |recogText|)
    ensures |recogText| > |moduleText| || |recogText| <= 2 ==> CountTrue(mask) == 0 && similarity == 0.0
    ensures 2 < |recogText| <= |moduleText| ==>
      exists text :: FromDiff(cfg, patient, moduleText, recogText, mask, text)
        && similarity == Ratio(mask, Max(|text|, |recogText|))
    ensures 0.0 <= similarity <= 1.0
  {
    hide FromDiff, Covers, CountTrue;
    if |recogText| > |moduleText| || |recogText| <= 2 {
      NothingCovered(moduleText, recogText);
      return seq(|moduleText|, _ => false), 0.0;
    }
    var length, text;
    mask, length, text := MaskOfDiff(cfg, moduleText, recogText, patient);
    var n := CountFlags(mask);
    RatioInRange(mask, Max(|text|, |recogText|));
    similarity := n as real / Max(length, |recogText|) as real;
  }

  // ------------------------------------------------------------ rotated templates

  /** A template split in the middle with its halves swapped. */
  function Rotate<T>(s: seq<T>): (r: seq<T>)
    ensures |r| == |s|
  {
    var clip := |s| / 2;
    s[clip..] + s[..clip]
  }

  /** The flags of a rotated template of length n moved back. */
  function Recover<T>(mask: seq<T>, n: nat): seq<T> {
    var recover := if n % 2 == 0 then n / 2 else n / 2 + 1;
    mask[Min(recover, |mask|)..] + mask[..Min(recover, |mask|)]
  }

  /** Moving back undoes the rotation, element by element. */
  lemma RecoverRotate<T>(s: seq<T>)
    ensures Recover(Rotate(s), |s|) == s
  {
  }

  lemma RotateRecover<T>(mask: seq<T>)
    ensures Rotate(Recover(mask, |mask|)) == mask
  {
  }

  /**
   A recovered mask is flags on the template's own characters exactly when the rotated
   template starts and ends without white space; otherwise it does not even have the
   template's length.
   */
  lemma RecoverFits(template: Text, mask: seq<bool>)
    requires |mask| == |Strip(Rotate(template))|
    ensures |Recover(mask, |template|)| == |template| <==> Strip(Rotate(template)) == Rotate(template)
    ensures |Recover(mask, |template|)| == |template| ==> Rotate(Recover(mask, |template|)) == mask
  {
    StripShorter(Rotate(template));
    if |mask| == |template| {
      RotateRecover(mask);
    }
  }

  lemma {:induction false} StripShorter(t: Text)
    ensures |Strip(t)| <= |t| && (|Strip(t)| == |t| ==> Strip(t) == t)
  {
    TrimLeftShorter(t);
    TrimRightShorter(TrimLeft(t));
  }

  lemma {:induction false} TrimLeftShorter(t: Text)
    ensures |TrimLeft(t)| <= |t| && (|TrimLeft(t)| == |t| ==> TrimLeft(t) == t)
  {
    if t != [] && IsSpace(t[0]) {
      TrimLeftShorter(t[1..]);
    }
  }

  lemma {:induction false} TrimRightShorter(t: Text)
    ensures |TrimRight(t)| <= |t| && (|TrimRight(t)| == |t| ==> TrimRight(t) == t)
  {
    if t != [] && IsSpace(t[|t| - 1]) {
      TrimRightShorter(t[..|t| - 1]);
    }
  }

  /** Position k of a rotated text is position k + n / 2 of the text, counted around its end. */
  lemma RotatedAt<T>(s: seq<T>, k: nat)
    requires k < |s|
    ensures (k + |s| / 2) % |s| < |s| && Rotate(s)[k] == s[(k + |s| / 2) % |s|]
  {
    var clip := |s| / 2;
    Around(k + clip, |s|);
  }

  /** Once around the end at most. */
  lemma Around(x: nat, n: nat)
    requires x < 2 * n
    ensures x % n == if x < n then x else x - n
  {
  }

  /** A recovered flag stands at the position of the template that the rotated template's position came from. */
  lemma RecoveredAt(template: Text, mask: seq<bool>, k: nat)
    requires |mask| == |template| && k < |template|
    ensures |Recover(mask, |template|)| == |template|
    ensures (k + |template| / 2) % |template| < |template|
    ensures Recover(mask, |template|)[(k + |template| / 2) % |template|] == mask[k]
  {
    RotateRecover(mask);
    RotatedAt(Recover(mask, |template|), k);
  }

  /** A template with a space before its middle: rotated, it ends in that space. */
  lemma RecoverMisfit()
    ensures var template: Text := [97, 32, 98, 99];
      Strip(template) == template && Strip(Rotate(template)) != Rotate(template)
  {
    var template: Text := [97, 32, 98, 99];
    var r := Rotate(template);
    assert r == [98, 99, 97, 32];
    assert TrimLeft(r) == r;
    assert r[..3] == [98, 99, 97] && TrimRight(r) == TrimRight(r[..3]) == r[..3];
    assert TrimLeft(template) == template && TrimRight(template) == template;
  }

  /** What `_get_match_mask2` returns. */
  datatype Outcome = Outcome(mask: seq<bool>, similarity: real, text: Text)

  /** Everything `MatchMask2` promises about its result. */
  ghost predicate IsOutcome(cfg: Settings, patient: bool, aText: Text, bText: Text, o: Outcome) {
    && Covers(Strip(aText), bText, o.mask)
    && (Strip(aText) != [] ==> FromDiff(cfg, patient, Strip(aText), bText, o.mask, o.text))
    && |o.mask| == |Strip(aText)| && o.similarity == (if o.mask == [] then 0.0 else Ratio(o.mask, |o.mask|))
    && 0.0 <= o.similarity <= 1.0
  }

  method Outcome2(cfg: Settings, aText: Text, bText: Text, patient: bool) returns (o: Outcome)
    ensures IsOutcome(cfg, patient, aText, bText, o)
    ensures Strip(aText) != [] && (exists i :: OccursAt(bText, Strip(aText), i)) ==> o.similarity == 1.0
  {
    hide FromDiff, Strip, Length, Covers, CountTrue;
    var mask, similarity, text := MatchMask2(cfg, aText, bText, patient);
    o := Outcome(mask, similarity, text);
  }

  /** What `_build_match_map2` decides for one template. */
  datatype Decision = Skipped | Matched(mask: seq<bool>, similarity: real)

  /** The decision, from the match of the template and that of the template with its halves swapped. */
  function Decide(partText: bool, threshold: real, n: nat, plain: Outcome, rotated: Outcome): Decision {
    if !partText then (if plain.similarity < threshold then Skipped else Matched(plain.mask, plain.similarity))
    else if plain.similarity >= threshold / 2.0 then Matched(plain.mask, plain.similarity)
    else if rotated.similarity < threshold / 2.0 then Skipped
    else Matched(Recover(rotated.mask, n), rotated.similarity)
  }

  /**
   A template is reported exactly when its own match reaches its threshold or, for a partial
   text, when it or that of the swapped template reaches half of it. The match itself goes
   first; a swapped one is reported at the template's own positions.
   */
  lemma DecideMeaning(partText: bool, threshold: real, template: Text, plain: Outcome, rotated: Outcome)
    ensures var d := Decide(partText, threshold, |template|, plain, rotated);
      && (d.Matched? <==> if partText then plain.similarity >= threshold / 2.0 || rotated.similarity >= threshold / 2.0
                          else plain.similarity >= threshold)
      && (d.Matched? && (!partText || plain.similarity >= threshold / 2.0) ==>
            d.mask == plain.mask && d.similarity == plain.similarity)
      && (d.Matched? && partText && plain.similarity < threshold / 2.0 ==>
            && d.similarity == rotated.similarity
            && (|rotated.mask| == |template| ==>
                  && |d.mask| == |template|
                  && forall k: nat {:trigger rotated.mask[k]} | k < |template| ::
                       d.mask[(k + |template| / 2) % |template|] == rotated.mask[k]))
  {
    if |rotated.mask| == |template| {
      forall k: nat {:trigger rotated.mask[k]} | k < |template|
        ensures |Recover(rotated.mask, |template|)| == |template|
        ensures Recover(rotated.mask, |template|)[(k + |template| / 2) % |template|] == rotated.mask[k]
      {
        RecoveredAt(template, rotated.mask, k);
      }
      RecoverLength(rotated.mask);
    }
  }

  lemma RecoverLength(mask: seq<bool>)
    ensures |Recover(mask, |mask|)| == |mask|
  {
  }

  /**
   One round of the loop of `_build_match_map2` over the valid subtitles: a partial-text
   template that matches badly is tried once more with its halves swapped. When the
   recognised text is the longer one, only the stretch of it that fits the template is used.
   */
  method MatchTemplate(cfg: Settings, template: Text, allText: Text, partText: bool, threshold: real, patient: bool)
    returns (d: Decision, ghost fitted: Outcome, ghost plain: Outcome, ghost rotated: Outcome)
    ensures template == [] ==> d == Skipped
    ensures template != [] ==> d == Decide(partText, threshold, |template|, plain, rotated)
    ensures |template| < |allText| ==> template == [] || IsOutcome(cfg, patient, allText, template, fitted)
    ensures template != [] ==>
      IsOutcome(cfg, patient, template, if |template| < |allText| then fitted.text else allText, plain)
    ensures template != [] && partText && plain.similarity < threshold / 2.0 ==>
      IsOutcome(cfg, patient, Rotate(template), if |template| < |allText| then fitted.text else allText, rotated)
  {
    hide IsOutcome, Rotate, Recover;
    fitted, plain, rotated := Outcome([], 0.0, []), Outcome([], 0.0, []), Outcome([], 0.0, []);
    if |template| == 0 {
      return Skipped, fitted, plain, rotated;
    }
    var current := allText;
    if |template| < |allText| {
      var o := Outcome2(cfg, current, template, patient);
      current, fitted := o.text, o;
    }
    var first := Outcome2(cfg, template, current, patient);
    plain := first;
    var mask, similarity := first.mask, first.similarity;
    if partText {
      if similarity < threshold / 2.0 {
        var second := Outcome2(cfg, Rotate(template), current, patient);
        rotated := second;
        if second.similarity < threshold / 2.0 {
          return Skipped, fitted, plain, rotated;
        }
        mask, similarity := Recover(second.mask, |template|), second.similarity;
      }
    } else if similarity < threshold {
      return Skipped, fitted, plain, rotated;
    }
    d := Matched(mask, similarity);
  }
}
