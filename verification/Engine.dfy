/**
 The recursive driver of the diff engine: `diff_main` and the functions it calls back and
 forth with. Whatever the settings, and whichever deadline check fires, the result is a
 merged diff of exactly the two given texts, and the recursion ends.
 */
module Engine {
  import opened Texts
  import opened Diffs
  import opened Dropping
  import opened Merging
  import opened Simplify
  import opened LineCodes
  import opened HalfMatching
  import opened Costs
  import opened Minimal
  import opened Sequences
  import opened Subsequence
  import Bisecting

  /** No common first and no common last character. */
  ghost predicate Apart(a: Text, b: Text) {
    PrefixLen(a, b) == 0 && SuffixLen(a, b) == 0
  }

  // ------------------------------------------------------------ what a diff of trimmed texts promises

  /** The texts without their common prefix, and then without their common suffix. */
  function Core(a: Text, b: Text): (Text, Text) {
    var n := PrefixLen(a, b);
    var m := SuffixLen(a[n..], b[n..]);
    (Front(a[n..], m), Front(b[n..], m))
  }

  /** One of the texts, the shorter one, occurs in the other. */
  ghost predicate Nested(text1: Text, text2: Text) {
    if |text1| > |text2| then exists i :: OccursAt(text1, text2, i) else exists i :: OccursAt(text2, text1, i)
  }

  /** The deadline is not felt: there is none, or the clock does not reach it during the call. */
  predicate Timely(cfg: Settings, patient: bool) {
    patient || cfg.timeout <= 0.0
  }

  predicate LineMode(text1: Text, text2: Text, checklines: bool) {
    checklines && |text1| > 100 && |text2| > 100
  }

  ghost predicate SharesAny(a: Text, b: Text) {
    exists i, j :: 0 <= i < |a| && 0 <= j < |b| && a[i] == b[j]
  }

  /** Wherever the texts are cut, no part of the one shares half with a part of the other. */
  ghost predicate NeverHalved(a: Text, b: Text) {
    forall p, q, r, s {:trigger a[p..q], b[r..s]} | 0 <= p <= q <= |a| && 0 <= r <= s <= |b| ::
      !SharesHalf(a[p..q], b[r..s])
  }

  /** n edited characters leave as much unedited as any stretch of at least half the longer text that both share. */
  ghost predicate KeepsShared(a: Text, b: Text, n: nat) {
    Max(|a|, |b|) >= 4 ==>
      forall p, q, c :: Shared(a, b, p, q, c) && 2 * c >= Max(|a|, |b|) ==> n <= |a| + |b| - 2 * c
  }

  /**
   How few characters a diff of two texts without common affixes edits. A shorter text
   inside the longer one is kept, and with a time limit so is a shared half. When the
   deadline is not felt and the line mode not used, something is kept of any two texts that
   share a character; and nothing could be better unless a half-match is in the way.
   */
  ghost predicate Promised(cfg: Settings, a: Text, b: Text, checklines: bool, patient: bool, n: nat) {
    && n <= |a| + |b|
    && (Nested(a, b) ==> n <= Max(|a|, |b|) - Min(|a|, |b|))
    && (cfg.timeout > 0.0 ==> KeepsShared(a, b, n))
    && (Timely(cfg, patient) && !LineMode(a, b, checklines) ==>
          && (SharesAny(a, b) ==> n < |a| + |b|)
          && (cfg.timeout <= 0.0 || NeverHalved(a, b) ==> n <= Whole(a, b)))
  }

  /** Nothing cuts the search short: no deadline, no line mode and no half-match. */
  ghost predicate Exhaustive(cfg: Settings, text1: Text, text2: Text, checklines: bool, patient: bool) {
    && Timely(cfg, patient) && !LineMode(text1, text2, checklines)
    && (cfg.timeout <= 0.0 || NeverHalved(text1, text2))
  }

  /** A merged diff of the two texts that edits no more than is promised of them. */
  ghost predicate Good(cfg: Settings, text1: Text, text2: Text, checklines: bool, patient: bool, ds: Script) {
    && Denotes(ds, text1, text2) && Merged(ds)
    && var (c, d) := Core(text1, text2); Promised(cfg, c, d, checklines, patient, EditChars(ds))
  }

  lemma PromisedZero(cfg: Settings, a: Text, b: Text, checklines: bool, patient: bool)
    ensures Promised(cfg, a, b, checklines, patient, 0)
  {
  }

  lemma PromisedFewer(cfg: Settings, a: Text, b: Text, checklines: bool, patient: bool, n: nat, n': nat)
    requires Promised(cfg, a, b, checklines, patient, n) && n' <= n
    ensures Promised(cfg, a, b, checklines, patient, n')
  {
    hide Nested, SharesAny, NeverHalved, Whole, Shared;
  }

  /** Keeping the whole shorter text keeps everything that is promised. */
  lemma PromisedNested(cfg: Settings, a: Text, b: Text, checklines: bool, patient: bool, n: nat)
    requires n <= Max(|a|, |b|) - Min(|a|, |b|)
    ensures Promised(cfg, a, b, checklines, patient, n)
  {
    hide Nested, NeverHalved, Whole;
    WholeBounds(a, b);
  }

  lemma PromisedSingle(cfg: Settings, a: Text, b: Text, checklines: bool, patient: bool)
    requires Min(|a|, |b|) == 1 && !Nested(a, b)
    ensures Promised(cfg, a, b, checklines, patient, |a| + |b|)
    ensures Whole(a, b) == |a| + |b|
  {
    SingleUnshared(a, b);
    hide NeverHalved, Whole;
  }

  lemma PromisedHalf(cfg: Settings, a: Text, b: Text, checklines: bool, patient: bool, best: nat, n: nat)
    requires cfg.timeout > 0.0 && !Nested(a, b) && SharesHalf(a, b)
    requires forall p, q, c :: Shared(a, b, p, q, c) ==> c <= best
    requires 2 <= best && n + 2 * best <= |a| + |b|
    ensures Promised(cfg, a, b, checklines, patient, n)
  {
    hide Nested, SharesAny, Whole, Shared;
    WholeHalved(a, b);
  }

  lemma WholeHalved(a: Text, b: Text)
    requires SharesHalf(a, b)
    ensures !NeverHalved(a, b)
  {
    assert a[0..|a|] == a && b[0..|b|] == b;
  }

  /** Without a half-match: either line mode, or what the search promises. */
  lemma PromisedRest(cfg: Settings, a: Text, b: Text, checklines: bool, patient: bool, n: nat)
    requires !Nested(a, b) && !(cfg.timeout > 0.0 && SharesHalf(a, b)) && n <= |a| + |b|
    requires Timely(cfg, patient) && !LineMode(a, b, checklines) ==>
      (SharesAny(a, b) ==> n < |a| + |b|) && (cfg.timeout <= 0.0 || NeverHalved(a, b) ==> n <= Whole(a, b))
    ensures Promised(cfg, a, b, checklines, patient, n)
  {
    hide Nested, SharesAny, NeverHalved, Whole, Shared;
  }

  lemma NeverHalvedPart(a: Text, b: Text, p: int, q: int, r: int, s: int)
    requires NeverHalved(a, b) && 0 <= p <= q <= |a| && 0 <= r <= s <= |b|
    ensures NeverHalved(a[p..q], b[r..s])
  {
    var x, y := a[p..q], b[r..s];
    forall i, j, k, l | 0 <= i <= j <= |x| && 0 <= k <= l <= |y| ensures !SharesHalf(x[i..j], y[k..l]) {
      SliceOfSlice(a, p, q, i, j);
      SliceOfSlice(b, r, s, k, l);
    }
  }

  /** The core costs what the texts cost, and is smaller unless nothing was cut off. */
  lemma CoreParts(a: Text, b: Text)
    ensures var (c, d) := Core(a, b); Whole(c, d) == Whole(a, b) && (|c| + |d| < |a| + |b| || (c, d) == (a, b))
    ensures |Core(a, b).0| <= |a| && |Core(a, b).1| <= |b|
    ensures NeverHalved(a, b) ==> NeverHalved(Core(a, b).0, Core(a, b).1)
  {
    hide Whole, PrefixLen, SuffixLen, Front, Last, NeverHalved;
    var n := PrefixLen(a, b);
    PrefixCut(a, b);
    var x, y := a[n..], b[n..];
    var m := SuffixLen(x, y);
    SuffixCut(x, y);
    FrontLast(x, m);
    FrontLast(y, m);
    CoreIsFront(a, n, m);
    CoreIsFront(b, n, m);
    assert a == a[..n] + x && b == a[..n] + y;
    SharedPrefix(a[..n], x, y);
    SharedSuffix(Front(x, m), Front(y, m), Last(x, m));
    if NeverHalved(a, b) {
      NeverHalvedPart(a, b, n, |a| - m, n, |b| - m);
    }
  }

  lemma CoreIsFront(t: Text, n: nat, m: nat)
    requires n + m <= |t|
    ensures Front(t[n..], m) == t[n..|t| - m] && (n + m == 0 ==> Front(t[n..], m) == t)
  {
  }

  /** What the core is promised is promised to the whole texts. */
  lemma PromisedWhole(cfg: Settings, a: Text, b: Text, checklines: bool, patient: bool, n: nat)
    requires var (c, d) := Core(a, b); Promised(cfg, c, d, checklines, patient, n)
    ensures n <= |a| + |b|
    ensures Timely(cfg, patient) && !LineMode(a, b, checklines) ==>
      (SharesAny(a, b) ==> n < |a| + |b|) && (cfg.timeout <= 0.0 || NeverHalved(a, b) ==> n <= Whole(a, b))
  {
    hide Nested, NeverHalved, Whole, Core, KeepsShared;
    CoreParts(a, b);
  }

  /** A diff that replaces some text and keeps what follows. */
  lemma ReplaceAndKeep(del: Text, ins: Text, kept: Text) returns (ds: Script)
    ensures Denotes(ds, del + kept, ins + kept) && EditChars(ds) == |del| + |ins|
  {
    hide Source, Target, EditChars, EqualCount;
    var d, i, e := Diff(Delete, del), Diff(Insert, ins), Diff(Equal, kept);
    ds := [d, i, e];
    TextsThree(d, i, e);
    SizesThree(d, i, e);
    TextsOne(d);
    TextsOne(i);
    TextsOne(e);
    SizesOne(d);
    SizesOne(i);
    SizesOne(e);
    assert del + [] + kept == del + kept && [] + ins + kept == ins + kept;
  }

  /** Cutting texts in four parts costs no less. */
  lemma FourParts(a: Script, b: Script, c: Script, d: Script)
    ensures Whole(Source(a) + Source(b) + Source(c) + Source(d), Target(a) + Target(b) + Target(c) + Target(d))
         <= EditChars(a) + EditChars(b) + EditChars(c) + EditChars(d)
  {
    hide Source, Target, EditChars, Whole;
    TextsConcat3(a, b, c);
    SizesConcat3(a, b, c);
    TextsConcat(a + b + c, d);
    SizesConcat(a + b + c, d);
    NoneCheaper(a + b + c + d);
  }

  /**
   Why a half-match may stand in the way: of "qHilloHelloHew" and "xHelloHeHulloy", in
   numbers, whatever diff is built around the shared half "HelloHe" edits at least 14
   characters, where 10 are enough.
   */
  lemma HalfMatchCosts(cfg: Settings, checklines: bool, patient: bool, ds: Script)
    requires Halved(cfg, HILLO, HULLO, checklines, patient, ds)
    ensures EditChars(ds) >= 14 && Whole(HILLO, HULLO) <= 10
  {
    TenEnough(HILLO, HULLO);
    HalfWhole();
    hide Whole, EditChars, Source, Target, Good, IsHalf, Shared;
    var m, before, after :|
      IsHalf(HILLO, HULLO, m) && HalvedBy(cfg, HILLO, HULLO, checklines, patient, ds, m, before, after);
    GoodCosts(cfg, m, checklines, patient, ds, before, after);
    HalvedThere(m);
  }

  lemma HalfWhole()
    ensures Whole([1, 2, 3, 4, 4, 5], [8]) == 7 && Whole([7], [2, 9, 4, 4, 5, 10]) == 7
  {
    hide Whole;
    NothingThere([1, 2, 3, 4, 4, 5], [8]);
    NothingThere([7], [2, 9, 4, 4, 5, 10]);
  }

  const HILLO: Text := [1, 2, 3, 4, 4, 5, 2, 6, 4, 4, 5, 2, 6, 7]
  const HULLO: Text := [8, 2, 6, 4, 4, 5, 2, 6, 2, 9, 4, 4, 5, 10]

  /** "HelloHe" is the only shared stretch of seven characters, and none is longer. */
  lemma HalvedThere(m: Match)
    requires HILLO == m.text1A + m.common + m.text1B && HULLO == m.text2A + m.common + m.text2B
    requires forall p, q, c :: Shared(HILLO, HULLO, p, q, c) ==> c <= |m.common|
    ensures m.text1A == [1, 2, 3, 4, 4, 5] && m.text2A == [8]
    ensures m.text1B == [7] && m.text2B == [2, 9, 4, 4, 5, 10]
  {
    HelloShared();
    var p, q, c := |m.text1A|, |m.text2A|, |m.common|;
    assert c >= 7;
    forall i | p <= i < p + c ensures HILLO[i] == HULLO[i - p + q] {
      assert HILLO[i] == m.common[i - p] == HULLO[i - p + q];
    }
    hide Shared;
    OnlyHello(p, q, c);
    assert m.text1A == HILLO[..6] && m.text2A == HULLO[..1] && m.text1B == HILLO[13..] && m.text2B == HULLO[8..];
  }

  lemma HelloShared()
    ensures Shared(HILLO, HULLO, 6, 1, 7)
  {
    assert HILLO[6..13] == [2, 6, 4, 4, 5, 2, 6] && HULLO[1..8] == [2, 6, 4, 4, 5, 2, 6];
  }

  lemma OnlyHello(p: nat, q: nat, c: nat)
    requires p + c <= |HILLO| && q + c <= |HULLO| && c >= 7
    requires forall i | p <= i < p + c :: HILLO[i] == HULLO[i - p + q]
    ensures p == 6 && q == 1 && c == 7
  {
    assert HILLO[p] == HULLO[q] && HILLO[p + 6] == HULLO[q + 6];
    assert HILLO[2] == 3 && HILLO[13] == 7;
    assert HILLO[p + Min(6, Max(0, 9 - q))] != 9;
  }

  lemma GoodCosts(cfg: Settings, m: Match, checklines: bool, patient: bool, ds: Script, before: Script, after: Script)
    requires HalvedBy(cfg, HILLO, HULLO, checklines, patient, ds, m, before, after)
    ensures EditChars(ds) >= Whole(m.text1A, m.text2A) + Whole(m.text1B, m.text2B)
  {
    NoneCheaper(before);
    NoneCheaper(after);
    hide Whole, EditChars, EqualCount, Source, Target;
    SizesConcat3(before, [Diff(Equal, m.common)], after);
  }

  lemma NothingThere(a: Text, b: Text)
    requires forall i, j | 0 <= i < |a| && 0 <= j < |b| :: a[i] != b[j]
    ensures Whole(a, b) == |a| + |b|
  {
    NoneShared(a, b, |a|, |b|);
  }

  lemma TenEnough(a: Text, b: Text)
    requires a == [1, 2, 3, 4, 4, 5, 2, 6, 4, 4, 5, 2, 6, 7] && b == [8, 2, 6, 4, 4, 5, 2, 6, 2, 9, 4, 4, 5, 10]
    ensures Whole(a, b) <= 10
  {
    hide Source, Target, EditChars, Whole;
    var w := ReplaceAndKeep([1], [8], [2]);
    var x := ReplaceAndKeep([3], [6], [4, 4, 5, 2, 6]);
    var y := ReplaceAndKeep([], [2, 9], [4, 4, 5]);
    var z := ReplaceAndKeep([2, 6, 7], [10], []);
    FourParts(w, x, y, z);
    assert a == [1] + [2] + ([3] + [4, 4, 5, 2, 6]) + ([] + [4, 4, 5]) + ([2, 6, 7] + []);
    assert b == [8] + [2] + ([6] + [4, 4, 5, 2, 6]) + ([2, 9] + [4, 4, 5]) + ([10] + []);
  }

  /** Texts that share a character cost less than all their characters. */
  lemma AnyShared(a: Text, b: Text)
    ensures SharesAny(a, b) <==> Whole(a, b) < |a| + |b|
  {
    if i, j :| 0 <= i < |a| && 0 <= j < |b| && a[i] == b[j] {
      WholeOfParts(a, b, i, j);
      assert a[i..] == [a[i]] + a[i + 1..] && b[j..] == [a[i]] + b[j + 1..];
      hide Whole, Cost;
      SharedPrefix([a[i]], a[i + 1..], b[j + 1..]);
      WholeBounds(a[..i], b[..j]);
      WholeBounds(a[i + 1..], b[j + 1..]);
    } else {
      NoneShared(a, b, |a|, |b|);
    }
  }

  /** `diff_main` */
  method DiffMain(cfg: Settings, text1: Text, text2: Text, checklines: bool, patient: bool) returns (diffs: DiffList)
    ensures fresh(diffs)
    ensures Denotes(diffs.items, text1, text2)
    ensures Merged(diffs.items)
    ensures Good(cfg, text1, text2, checklines, patient, diffs.items)
    ensures text1 == text2 ==> diffs.items == if text1 == [] then [] else [Diff(Equal, text1)]
    ensures var (core1, core2) := Core(text1, text2);
      && Promised(cfg, core1, core2, checklines, patient, EditChars(diffs.items))
      && (text1 != text2 ==>
            exists middle :: Computed(cfg, core1, core2, checklines, patient, middle)
              && EditChars(diffs.items) <= EditChars(middle))
    ensures Exhaustive(cfg, text1, text2, checklines, patient) ==> Cheapest(diffs.items)
    ensures Exhaustive(cfg, text1, text2, checklines, patient) ==>
      EditChars(diffs.items) == |text1| + |text2| - 2 * Length(text1, text2, |text1|, |text2|)
    decreases |text1| + |text2|, checklines, 3
  {
    hide Cost, Length, Whole, Promised, NeverHalved, Core, Computed;
    CostIsLength(text1, text2, |text1|, |text2|);
    WholeIs(text1, text2);
    if text1 == text2 {
      CostSame(text1, |text1|);
      PromisedZero(cfg, Core(text1, text2).0, Core(text1, text2).1, checklines, patient);
      if text1 != [] {
        TextsOne(Diff(Equal, text1));
        SizesOne(Diff(Equal, text1));
        diffs := new DiffList([Diff(Equal, text1)]);
      } else {
        diffs := new DiffList([]);
      }
      return;
    }
    var prefix, t1, t2, suffix := Trim(text1, text2);
    diffs := DiffCompute(cfg, t1, t2, checklines, patient);
    ghost var core := diffs.items;
    assert Computed(cfg, t1, t2, checklines, patient, core);
    if prefix != [] {
      diffs.items := [Diff(Equal, prefix)] + diffs.items;
    }
    if suffix != [] {
      diffs.items := diffs.items + [Diff(Equal, suffix)];
    }
    Restored(prefix, core, suffix, diffs.items);
    ghost var restored := diffs.items;
    CleanupMerge(diffs);
    PromisedFewer(cfg, t1, t2, checklines, patient, EditChars(restored), EditChars(diffs.items));
    PromisedWhole(cfg, text1, text2, checklines, patient, EditChars(diffs.items));
    NoneCheaper(diffs.items);
  }

  lemma WholeIs(a: Text, b: Text)
    ensures Whole(a, b) == Cost(a, b, false, |a|, |b|)
  {
  }

  /** Cut the common prefix, then the common suffix, off both texts. */
  method Trim(text1: Text, text2: Text) returns (prefix: Text, t1: Text, t2: Text, suffix: Text)
    requires text1 != text2
    ensures text1 == prefix + t1 + suffix && text2 == prefix + t2 + suffix
    ensures Apart(t1, t2) && |prefix| == PrefixLen(text1, text2) && (t1, t2) == Core(text1, text2)
  {
    var n := CommonPrefix(text1, text2);
    PrefixCut(text1, text2);
    prefix, t1, t2 := text1[..n], text1[n..], text2[n..];
    assert text1 == prefix + t1 && text2 == prefix + t2;
    var m := CommonSuffix(t1, t2);
    SuffixCut(t1, t2);
    suffix := Last(t1, m);
    FrontLast(t1, m);
    FrontLast(t2, m);
    FrontPrefix(t1, t2, m);
    hide PrefixLen, SuffixLen, Front, Last;
    Regrouped(prefix, t1, Front(t1, m), suffix);
    Regrouped(prefix, t2, Front(t2, m), suffix);
    t1, t2 := Front(t1, m), Front(t2, m);
  }

  lemma FrontPrefix(a: Text, b: Text, m: nat)
    requires m <= |a| && m <= |b| && PrefixLen(a, b) == 0
    ensures PrefixLen(Front(a, m), Front(b, m)) == 0
  {
  }

  lemma Regrouped(prefix: Text, whole: Text, front: Text, suffix: Text)
    requires whole == front + suffix
    ensures prefix + whole == prefix + front + suffix
  {
  }

  lemma Restored(prefix: Text, core: Script, suffix: Text, ds: Script)
    requires ds == (if prefix == [] then [] else [Diff(Equal, prefix)]) + core
                   + (if suffix == [] then [] else [Diff(Equal, suffix)])
    ensures Denotes(ds, prefix + Source(core) + suffix, prefix + Target(core) + suffix)
    ensures Cheapest(core) ==> Cheapest(ds)
    ensures EditChars(ds) == EditChars(core)
  {
    hide Whole;
    SharedPrefix(prefix, Source(core), Target(core));
    SharedSuffix(prefix + Source(core), prefix + Target(core), suffix);
    SizesOne(Diff(Equal, prefix));
    SizesOne(Diff(Equal, suffix));
    var p: Script, s: Script :=
      if prefix == [] then [] else [Diff(Equal, prefix)], if suffix == [] then [] else [Diff(Equal, suffix)];
    TextsOne(Diff(Equal, prefix));
    TextsOne(Diff(Equal, suffix));
    TextsConcat3(p, core, s);
    SizesConcat3(p, core, s);
  }

  lemma ReplaceAll(a: Text, b: Text)
    ensures Denotes([Diff(Delete, a), Diff(Insert, b)], a, b)
      && EditChars([Diff(Delete, a), Diff(Insert, b)]) == |a| + |b|
    ensures Whole(a, b) == |a| + |b| ==> Cheapest([Diff(Delete, a), Diff(Insert, b)])
  {
    hide Whole;
    SizesTwo(Diff(Delete, a), Diff(Insert, b));
    SizesOne(Diff(Delete, a));
    SizesOne(Diff(Insert, b));
    TextsTwo(Diff(Delete, a), Diff(Insert, b));
    TextsOne(Diff(Delete, a));
    TextsOne(Diff(Insert, b));
    assert a + [] == a && [] + b == b;
  }

  /** The shorter text lies inside the longer one. */
  lemma Contained(op: Op, long: Text, short: Text, i: nat)
    requires op != Equal && OccursAt(long, short, i)
    ensures var ds := [Diff(op, long[..i]), Diff(Equal, short), Diff(op, long[i + |short|..])];
      EditChars(ds) == |long| - |short| && (if op == Delete then Denotes(ds, long, short) else Denotes(ds, short, long))
  {
    var pre, post := long[..i], long[i + |short|..];
    assert long == pre + short + post;
    EqualBetween(op, pre, short, post);
    SizesThree(Diff(op, pre), Diff(Equal, short), Diff(op, post));
    SizesOne(Diff(op, pre));
    SizesOne(Diff(Equal, short));
    SizesOne(Diff(op, post));
  }

  /** No diff of two texts edits fewer characters than their lengths differ by. */
  lemma {:induction false} NoFewerEdits(ds: Script)
    ensures EditChars(ds) >= |Source(ds)| - |Target(ds)| && EditChars(ds) >= |Target(ds)| - |Source(ds)|
  {
    if ds != [] {
      NoFewerEdits(ds[1..]);
    }
  }

  /** A diff that edits no more characters than the lengths differ by is cheapest. */
  lemma NestedCheapest(ds: Script, a: Text, b: Text)
    requires Denotes(ds, a, b) && EditChars(ds) <= Max(|a|, |b|) - Min(|a|, |b|)
    ensures Cheapest(ds)
  {
    hide Whole;
    WholeBounds(a, b);
    NoneCheaper(ds);
  }

  /** A single character that does not occur in the other text: nothing is shared. */
  lemma SingleUnshared(a: Text, b: Text)
    requires Min(|a|, |b|) == 1 && !Nested(a, b)
    ensures !SharesAny(a, b) && Whole(a, b) == |a| + |b|
  {
    var long, short := if |a| > |b| then a else b, if |a| > |b| then b else a;
    forall i | 0 <= i < |long| ensures long[i] != short[0] {
      assert long[i..i + 1] == [long[i]] && short == [short[0]];
      assert !OccursAt(long, short, i);
    }
    NoneShared(a, b, |a|, |b|);
  }

  lemma EqualBetween(op: Op, pre: Text, mid: Text, post: Text)
    requires op != Equal
    ensures var ds := [Diff(op, pre), Diff(Equal, mid), Diff(op, post)];
      if op == Delete then Denotes(ds, pre + mid + post, mid) else Denotes(ds, mid, pre + mid + post)
  {
    TextsThree(Diff(op, pre), Diff(Equal, mid), Diff(op, post));
    TextsOne(Diff(op, pre));
    TextsOne(Diff(Equal, mid));
    TextsOne(Diff(op, post));
    assert [] + mid + [] == mid;
  }

  // ------------------------------------------------------------ what is computed for trimmed texts

  /** An empty text, and a shorter text at its first place in the longer one. */
  ghost predicate Insertion(long: Text, short: Text, op: Op, ds: Script) {
    if short == [] then ds == [Diff(op, long)]
    else
      exists i :: OccursAt(long, short, i) && (forall j :: j < i ==> !OccursAt(long, short, j))
        && ds == [Diff(op, long[..i]), Diff(Equal, short), Diff(op, long[i + |short|..])]
  }

  /** A half-match stays as it is, and what is before and after it is diffed on its own. */
  ghost predicate Halved(cfg: Settings, text1: Text, text2: Text, checklines: bool, patient: bool, ds: Script) {
    exists m, before, after ::
      IsHalf(text1, text2, m) && HalvedBy(cfg, text1, text2, checklines, patient, ds, m, before, after)
  }

  ghost predicate HalvedBy(cfg: Settings, text1: Text, text2: Text, checklines: bool, patient: bool, ds: Script,
                           m: Match, before: Script, after: Script) {
    && text1 == m.text1A + m.common + m.text1B && text2 == m.text2A + m.common + m.text2B
    && (forall p, q, c :: Shared(text1, text2, p, q, c) ==> c <= |m.common|)
    && ds == before + [Diff(Equal, m.common)] + after
    && Good(cfg, m.text1A, m.text2A, checklines, patient, before)
    && Good(cfg, m.text1B, m.text2B, checklines, patient, after)
  }

  /** Everything is replaced, or the texts are cut at a point of a cheapest way and the parts diffed on their own. */
  ghost predicate Bisected(cfg: Settings, text1: Text, text2: Text, patient: bool, ds: Script) {
    || ds == [Diff(Delete, text1), Diff(Insert, text2)]
    || exists x, y :: Bisecting.BestSplit(text1, text2, x, y) && SplitAt(cfg, text1, text2, x, y, patient, ds)
  }

  ghost predicate SplitAt(cfg: Settings, text1: Text, text2: Text, x: int, y: int, patient: bool, ds: Script) {
    && 0 <= x <= |text1| && 0 <= y <= |text2|
    && exists before, after :: ds == before + after
         && Good(cfg, text1[..x], text2[..y], false, patient, before)
         && Good(cfg, text1[x..], text2[y..], false, patient, after)
  }

  /** The cases of `diff_compute`, in their order. */
  ghost predicate Computed(cfg: Settings, text1: Text, text2: Text, checklines: bool, patient: bool, ds: Script) {
    && Denotes(ds, text1, text2) && Promised(cfg, text1, text2, checklines, patient, EditChars(ds))
    && (if Nested(text1, text2) then
          if |text1| > |text2| then Insertion(text1, text2, Delete, ds) else Insertion(text2, text1, Insert, ds)
        else if Min(|text1|, |text2|) == 1 then ds == [Diff(Delete, text1), Diff(Insert, text2)]
        else if cfg.timeout > 0.0 && SharesHalf(text1, text2) then Halved(cfg, text1, text2, checklines, patient, ds)
        else if LineMode(text1, text2, checklines) then LineDiffed(cfg, text1, text2, patient, ds)
        else Bisected(cfg, text1, text2, patient, ds))
  }

  lemma HalvesDone(cfg: Settings, text1: Text, text2: Text, checklines: bool, patient: bool, ds: Script,
                   m: Match, before: Script, after: Script)
    requires IsHalf(text1, text2, m)
    requires HalvedBy(cfg, text1, text2, checklines, patient, ds, m, before, after)
    ensures Halved(cfg, text1, text2, checklines, patient, ds)
  {
    hide IsHalf, HalvedBy;
  }

  lemma ComputedInsertion(cfg: Settings, text1: Text, text2: Text, checklines: bool, patient: bool, ds: Script)
    requires Nested(text1, text2) && Denotes(ds, text1, text2)
    requires if |text1| > |text2| then Insertion(text1, text2, Delete, ds) else Insertion(text2, text1, Insert, ds)
    requires EditChars(ds) == Max(|text1|, |text2|) - Min(|text1|, |text2|)
    ensures Computed(cfg, text1, text2, checklines, patient, ds)
  {
    hide Nested, Source, Target, EditChars, Insertion;
    PromisedNested(cfg, text1, text2, checklines, patient, EditChars(ds));
  }

  lemma AtMostAll(ds: Script, text1: Text, text2: Text)
    requires Denotes(ds, text1, text2)
    ensures EditChars(ds) <= |text1| + |text2|
  {
    EditCharsBound(ds);
  }

  lemma ComputedEmpty(cfg: Settings, text1: Text, text2: Text, checklines: bool, patient: bool, ds: Script)
    requires if text1 == [] then ds == [Diff(Insert, text2)] else text2 == [] && ds == [Diff(Delete, text1)]
    ensures Denotes(ds, text1, text2) && Promised(cfg, text1, text2, checklines, patient, EditChars(ds))
    ensures EditChars(ds) == Max(|text1|, |text2|) - Min(|text1|, |text2|)
    ensures Computed(cfg, text1, text2, checklines, patient, ds)
  {
    EmptyNested(text1, text2);
    TextsOne(ds[0]);
    SizesOne(ds[0]);
    hide Source, Target, EditChars, Nested;
    PromisedNested(cfg, text1, text2, checklines, patient, EditChars(ds));
    ComputedInsertion(cfg, text1, text2, checklines, patient, ds);
  }

  /** The shorter text was found in the longer one. */
  lemma ComputedInside(cfg: Settings, text1: Text, text2: Text, checklines: bool, patient: bool, ds: Script,
                       op: Op, long: Text, short: Text, i: nat)
    requires if |text1| > |text2| then op == Delete && long == text1 && short == text2
             else op == Insert && long == text2 && short == text1
    requires short != [] && OccursAt(long, short, i) && forall j :: 0 <= j < i ==> !OccursAt(long, short, j)
    requires ds == [Diff(op, long[..i]), Diff(Equal, short), Diff(op, long[i + |short|..])]
    ensures Denotes(ds, text1, text2) && Promised(cfg, text1, text2, checklines, patient, EditChars(ds))
    ensures EditChars(ds) == Max(|text1|, |text2|) - Min(|text1|, |text2|)
    ensures Computed(cfg, text1, text2, checklines, patient, ds)
  {
    assert Nested(text1, text2);
    Contained(op, long, short, i);
    hide Source, Target, EditChars, Nested;
    PromisedNested(cfg, text1, text2, checklines, patient, EditChars(ds));
    assert forall j :: j < i ==> !OccursAt(long, short, j);
    assert Insertion(long, short, op, ds);
    ComputedInsertion(cfg, text1, text2, checklines, patient, ds);
  }

  lemma ComputedHalf(cfg: Settings, text1: Text, text2: Text, checklines: bool, patient: bool, ds: Script,
                     m: Match, before: Script, after: Script)
    requires !Nested(text1, text2) && Min(|text1|, |text2|) > 1 && cfg.timeout > 0.0 && SharesHalf(text1, text2)
    requires IsHalf(text1, text2, m) && 2 <= |m.common|
    requires HalvedBy(cfg, text1, text2, checklines, patient, ds, m, before, after)
    ensures Denotes(ds, text1, text2) && Promised(cfg, text1, text2, checklines, patient, EditChars(ds))
    ensures Computed(cfg, text1, text2, checklines, patient, ds)
  {
    HalvesDone(cfg, text1, text2, checklines, patient, ds, m, before, after);
    AroundCommon(before, m.common, after);
    hide Nested, Source, Target, EditChars, SharesHalf, Halved, Promised, Shared, Core, Merged, IsHalf;
    PromisedHalf(cfg, text1, text2, checklines, patient, |m.common|, EditChars(ds));
  }

  lemma ComputedRest(cfg: Settings, text1: Text, text2: Text, checklines: bool, patient: bool, ds: Script)
    requires Denotes(ds, text1, text2) && Promised(cfg, text1, text2, checklines, patient, EditChars(ds))
    requires !Nested(text1, text2)
    requires Min(|text1|, |text2|) == 1 ==> ds == [Diff(Delete, text1), Diff(Insert, text2)]
    requires Min(|text1|, |text2|) > 1 ==> cfg.timeout <= 0.0 || !SharesHalf(text1, text2)
    requires Min(|text1|, |text2|) > 1 ==>
      if LineMode(text1, text2, checklines) then LineDiffed(cfg, text1, text2, patient, ds)
      else Bisected(cfg, text1, text2, patient, ds)
    ensures Computed(cfg, text1, text2, checklines, patient, ds)
  {
    EmptyNested(text1, text2);
    hide Nested, Source, Target, EditChars, SharesHalf, LineDiffed, Bisected, Promised;
  }

  /** `diff_compute` */
  method DiffCompute(cfg: Settings, text1: Text, text2: Text, checklines: bool, patient: bool) returns (diffs: DiffList)
    requires Apart(text1, text2)
    ensures fresh(diffs)
    ensures Denotes(diffs.items, text1, text2)
    ensures Nested(text1, text2) ==> EditChars(diffs.items) == Max(|text1|, |text2|) - Min(|text1|, |text2|)
    ensures Promised(cfg, text1, text2, checklines, patient, EditChars(diffs.items))
    ensures Computed(cfg, text1, text2, checklines, patient, diffs.items)
    decreases |text1| + |text2|, checklines, 2
  {
    hide Whole, Cost, Length, EditChars, Project, PrefixLen, SuffixLen, Merged, Promised, SharesHalf, Shared,
      LineDiffed, Halved, IsHalf, Good, Core, Computed, Denotes, Bisected;
    EmptyNested(text1, text2);
    if text1 == [] {
      diffs := new DiffList([Diff(Insert, text2)]);
      ComputedEmpty(cfg, text1, text2, checklines, patient, diffs.items);
      return;
    }
    if text2 == [] {
      diffs := new DiffList([Diff(Delete, text1)]);
      ComputedEmpty(cfg, text1, text2, checklines, patient, diffs.items);
      return;
    }
    var long, short := text2, text1;
    if |text1| > |text2| {
      long, short := text1, text2;
    }
    var i := Find(long, short, 0);
    if i != -1 {
      var op := if |text1| > |text2| then Delete else Insert;
      diffs := new DiffList([Diff(op, long[..i]), Diff(Equal, short), Diff(op, long[i + |short|..])]);
      ComputedInside(cfg, text1, text2, checklines, patient, diffs.items, op, long, short, i);
      return;
    }
    assert !Nested(text1, text2);
    hide Nested;
    if |short| == 1 {
      PromisedSingle(cfg, text1, text2, checklines, patient);
      ReplaceAll(text1, text2);
      diffs := new DiffList([Diff(Delete, text1), Diff(Insert, text2)]);
      ComputedRest(cfg, text1, text2, checklines, patient, diffs.items);
      return;
    }
    var hm := HalfMatch(cfg, text1, text2);
    if hm.Some? {
      var m := hm.value;
      var diffsA := DiffMain(cfg, m.text1A, m.text2A, checklines, patient);
      var diffsB := DiffMain(cfg, m.text1B, m.text2B, checklines, patient);
      diffs := new DiffList(diffsA.items + [Diff(Equal, m.common)] + diffsB.items);
      ComputedHalf(cfg, text1, text2, checklines, patient, diffs.items, m, diffsA.items, diffsB.items);
      return;
    }
    if checklines && |text1| > 100 && |text2| > 100 {
      ghost var coarse;
      diffs, coarse := DiffLineMode(cfg, text1, text2, patient);
      LinesDone(cfg, text1, text2, patient, diffs.items, coarse);
    } else {
      diffs := DiffBisect(cfg, text1, text2, patient, checklines);
    }
    AtMostAll(diffs.items, text1, text2);
    PromisedRest(cfg, text1, text2, checklines, patient, EditChars(diffs.items));
    ComputedRest(cfg, text1, text2, checklines, patient, diffs.items);
  }

  lemma EmptyNested(a: Text, b: Text)
    ensures a == [] || b == [] ==> Nested(a, b)
  {
    assert (a == [] || b == []) ==> OccursAt(a, [], 0) && OccursAt(b, [], 0);
  }

  /** The diffs of what stands before and after a common middle, put around it. */
  lemma AroundCommon(a: Script, common: Text, b: Script)
    ensures var ds := a + [Diff(Equal, common)] + b;
      && Denotes(ds, Source(a) + common + Source(b), Target(a) + common + Target(b))
      && EditChars(ds) <= |Source(a)| + |Source(b)| + |Target(a)| + |Target(b)|
  {
    TextsOne(Diff(Equal, common));
    SizesOne(Diff(Equal, common));
    TextsConcat3(a, [Diff(Equal, common)], b);
    SizesConcat3(a, [Diff(Equal, common)], b);
    EditCharsBound(a);
    EditCharsBound(b);
  }

  /** How far the search gets when the deadline is not felt. */
  ghost predicate Searched(cfg: Settings, a: Text, b: Text, patient: bool, n: nat) {
    Timely(cfg, patient) ==>
      (SharesAny(a, b) ==> n < |a| + |b|) && (cfg.timeout <= 0.0 || NeverHalved(a, b) ==> n <= Whole(a, b))
  }

  /** `diff_bisect` and `diff_bisectSplit` */
  method DiffBisect(cfg: Settings, text1: Text, text2: Text, patient: bool, ghost checklines: bool)
    returns (diffs: DiffList)
    requires Apart(text1, text2) && |text1| >= 2 && |text2| >= 2
    ensures fresh(diffs)
    ensures Denotes(diffs.items, text1, text2)
    ensures Searched(cfg, text1, text2, patient, EditChars(diffs.items))
    ensures Bisected(cfg, text1, text2, patient, diffs.items)
    decreases |text1| + |text2|, checklines, 1
  {
    hide SharesAny, NeverHalved, Whole, SplitAt;
    var found, x, y := Bisecting.FindMiddleSnake(text1, text2, patient || cfg.timeout <= 0.0);
    if found {
      diffs := DiffBisectSplit(cfg, text1, text2, x, y, patient, checklines);
    } else {
      AnyShared(text1, text2);
      ReplaceAll(text1, text2);
      diffs := new DiffList([Diff(Delete, text1), Diff(Insert, text2)]);
      EditCharsBound(diffs.items);
    }
  }

  method DiffBisectSplit(cfg: Settings, text1: Text, text2: Text, x: int, y: int, patient: bool, ghost checklines: bool)
    returns (diffs: DiffList)
    requires Bisecting.BestSplit(text1, text2, x, y)
    ensures fresh(diffs)
    ensures Denotes(diffs.items, text1, text2)
    ensures Searched(cfg, text1, text2, patient, EditChars(diffs.items))
    ensures SplitAt(cfg, text1, text2, x, y, patient, diffs.items)
    decreases |text1| + |text2|, checklines, 0
  {
    hide Whole, Promised, Core, SharesAny, NeverHalved, Cheapest, Merged, OnBest, Computed, Good, Denotes, Searched;
    var a := DiffMain(cfg, text1[..x], text2[..y], false, patient);
    var b := DiffMain(cfg, text1[x..], text2[y..], false, patient);
    diffs := new DiffList(a.items + b.items);
    SplitJoined(cfg, text1, text2, x, y, patient, a.items, b.items);
  }

  lemma SplitJoined(cfg: Settings, text1: Text, text2: Text, x: int, y: int, patient: bool, a: Script, b: Script)
    requires Bisecting.BestSplit(text1, text2, x, y)
    requires Good(cfg, text1[..x], text2[..y], false, patient, a)
    requires Good(cfg, text1[x..], text2[y..], false, patient, b)
    ensures Denotes(a + b, text1, text2)
    ensures Searched(cfg, text1, text2, patient, EditChars(a + b))
  {
    hide Whole, Promised, SharesAny, NeverHalved, Cheapest, Merged, OnBest, Source, Target, EditChars, EqualCount;
    PromisedWhole(cfg, text1[..x], text2[..y], false, patient, EditChars(a));
    PromisedWhole(cfg, text1[x..], text2[y..], false, patient, EditChars(b));
    TextsConcat(a, b);
    SizesConcat(a, b);
    hide Core;
    assert text1[..x] + text1[x..] == text1 && text2[..y] + text2[y..] == text2;
    SplitSearched(cfg, text1, text2, x, y, patient, EditChars(a), EditChars(b));
  }

  /** What the halves of a cheapest way are promised adds up. */
  lemma SplitSearched(cfg: Settings, a: Text, b: Text, x: nat, y: nat, patient: bool, n: nat, m: nat)
    requires Bisecting.BestSplit(a, b, x, y) && n <= x + y && m <= |a| - x + |b| - y
    requires Searched(cfg, a[..x], b[..y], patient, n) && Searched(cfg, a[x..], b[y..], patient, m)
    ensures Searched(cfg, a, b, patient, n + m)
  {
    WholeOfParts(a, b, x, y);
    hide Whole, Cost, SharesAny, OnBest;
    AnyShared(a, b);
    AnyShared(a[..x], b[..y]);
    AnyShared(a[x..], b[y..]);
    WholeBounds(a[..x], b[..y]);
    WholeBounds(a[x..], b[y..]);
    if NeverHalved(a, b) {
      NeverHalvedPart(a, b, 0, x, 0, y);
      NeverHalvedPart(a, b, x, |a|, y, |b|);
      assert a[0..x] == a[..x] && b[0..y] == b[..y] && a[x..|a|] == a[x..] && b[y..|b|] == b[y..];
    }
    hide NeverHalved;
  }

  // ------------------------------------------------------------ line mode

  /** The rediffing loop over `pointer`: the current run of edits, counted and collected. */
  ghost predicate Rediffing(ds: Script, text1: Text, text2: Text, pointer: nat, cd: nat, ci: nat, td: Text, ti: Text) {
    && Denotes(ds, text1, text2)
    && ds != [] && ds[|ds| - 1] == Diff(Equal, [])
    && cd + ci <= pointer <= |ds|
    && Denotes(ds[pointer - cd - ci..pointer], td, ti)
  }

  lemma RediffEdit(ds: Script, text1: Text, text2: Text, pointer: nat, cd: nat, ci: nat, td: Text, ti: Text)
    requires Rediffing(ds, text1, text2, pointer, cd, ci, td, ti) && pointer < |ds|
    ensures ds[pointer].op == Delete ==> Rediffing(ds, text1, text2, pointer + 1, cd + 1, ci, td + ds[pointer].text, ti)
    ensures ds[pointer].op == Insert ==> Rediffing(ds, text1, text2, pointer + 1, cd, ci + 1, td, ti + ds[pointer].text)
  {
    var start := pointer - cd - ci;
    assert ds[start..pointer + 1] == ds[start..pointer] + [ds[pointer]];
    TextsConcat(ds[start..pointer], [ds[pointer]]);
    TextsOne(ds[pointer]);
    assert td + [] == td && ti + [] == ti;
  }

  /** A run's texts are no longer than the whole texts. */
  lemma RunFits(ds: Script, text1: Text, text2: Text, pointer: nat, cd: nat, ci: nat, td: Text, ti: Text)
    requires Rediffing(ds, text1, text2, pointer, cd, ci, td, ti)
    ensures |td| <= |text1| && |ti| <= |text2| && cd + ci <= pointer <= |ds|
  {
    var start := pointer - cd - ci;
    assert ds == ds[..start] + ds[start..pointer] + ds[pointer..];
    TextsConcat3(ds[..start], ds[start..pointer], ds[pointer..]);
  }

  lemma RediffReplace(ds: Script, text1: Text, text2: Text, pointer: nat, cd: nat, ci: nat, td: Text, ti: Text,
                      sub: Script)
    requires Rediffing(ds, text1, text2, pointer, cd, ci, td, ti) && pointer < |ds| && Denotes(sub, td, ti)
    ensures var start := pointer - cd - ci;
      Rediffing(ds[..start] + sub + ds[pointer..], text1, text2, start + |sub| + 1, 0, 0, [], [])
  {
    var start := pointer - cd - ci;
    assert ds == ds[..start] + ds[start..pointer] + ds[pointer..];
    SpliceSame(ds[..start], ds[start..pointer], sub, ds[pointer..]);
    var ds' := ds[..start] + sub + ds[pointer..];
    assert ds'[|ds'| - 1] == ds[|ds| - 1];
    assert ds'[start + |sub| + 1..start + |sub| + 1] == [];
  }

  lemma RediffSkip(ds: Script, text1: Text, text2: Text, pointer: nat, cd: nat, ci: nat, td: Text, ti: Text)
    requires Rediffing(ds, text1, text2, pointer, cd, ci, td, ti) && pointer < |ds|
    ensures Rediffing(ds, text1, text2, pointer + 1, 0, 0, [], [])
  {
    assert ds[pointer + 1..pointer + 1] == [];
  }

  /**
   A line-level diff of the two texts: a diff of their line codes, as good as is promised of
   any two texts, decoded and cleaned up.
   */
  ghost predicate Coarse(cfg: Settings, text1: Text, text2: Text, patient: bool, coarse: Script) {
    exists lines, codes, dropped, merged :: CoarseBy(cfg, text1, text2, patient, coarse, lines, codes, dropped, merged)
  }

  ghost predicate CoarseBy(cfg: Settings, text1: Text, text2: Text, patient: bool, coarse: Script,
                           lines: seq<Text>, codes: Script, dropped: Script, merged: Script) {
    && ScriptInTable(lines, codes) && Denotes(DecodeScript(lines, codes), text1, text2)
    && InTable(lines, Source(codes)) && InTable(lines, Target(codes))
    && (|lines| <= 666666 ==> Distinct(lines) && Linewise(lines, Source(codes)) && Linewise(lines, Target(codes)))
    && Good(cfg, Source(codes), Target(codes), false, patient, codes)
    && SemanticallyClean(cfg, DecodeScript(lines, codes), dropped, merged, coarse)
  }

  /** A line-level diff with every replacement in it diffed once more. */
  ghost predicate LineDiffed(cfg: Settings, text1: Text, text2: Text, patient: bool, ds: Script) {
    exists coarse ::
      Coarse(cfg, text1, text2, patient, coarse) && Rediffed(cfg, patient, coarse + [DUMMY], ds + [DUMMY])
  }

  lemma LinesDone(cfg: Settings, text1: Text, text2: Text, patient: bool, ds: Script, coarse: Script)
    requires Coarse(cfg, text1, text2, patient, coarse) && Rediffed(cfg, patient, coarse + [DUMMY], ds + [DUMMY])
    ensures LineDiffed(cfg, text1, text2, patient, ds)
  {
    hide Coarse, Rediffed;
  }

  /** `diff_lineMode` */
  method DiffLineMode(cfg: Settings, text1: Text, text2: Text, patient: bool)
    returns (diffs: DiffList, ghost coarse: Script)
    ensures fresh(diffs)
    ensures Denotes(diffs.items, text1, text2)
    ensures Coarse(cfg, text1, text2, patient, coarse)
    ensures Rediffed(cfg, patient, coarse + [DUMMY], diffs.items + [DUMMY])
    decreases |text1| + |text2|, true, 1
  {
    hide Rediffed, Promised, Coarse, Core, Merged, Linewise, Length, Computed;
    var chars1, chars2, lines := LinesToChars(text1, text2);
    diffs := DiffMain(cfg, chars1, chars2, false, patient);
    ghost var codes := diffs.items;
    ScriptCodes(lines, diffs.items);
    DecodeProject(lines, diffs.items, Insert);
    DecodeProject(lines, diffs.items, Delete);
    CharsToLines(diffs, lines);
    ghost var decoded := diffs.items;
    ghost var dropped, merged := CleanupSemantic(cfg, diffs);
    coarse := diffs.items;
    assert CoarseBy(cfg, text1, text2, patient, coarse, lines, codes, dropped, merged);
    CoarseIs(cfg, text1, text2, patient, coarse, lines, codes, dropped, merged);
    Rediff(cfg, diffs, text1, text2, patient);
  }

  lemma CoarseIs(cfg: Settings, text1: Text, text2: Text, patient: bool, coarse: Script,
                 lines: seq<Text>, codes: Script, dropped: Script, merged: Script)
    requires CoarseBy(cfg, text1, text2, patient, coarse, lines, codes, dropped, merged)
    ensures Coarse(cfg, text1, text2, patient, coarse)
  {
    hide CoarseBy;
  }

  /** A run with both kinds of edit is replaced by a diff of its texts, as good as is promised of any; others stay. */
  ghost predicate Redone(cfg: Settings, patient: bool, run: Script, sub: Script) {
    if HasOp(run, Delete) && HasOp(run, Insert) then
      Good(cfg, Source(run), Target(run), false, patient, sub)
    else sub == run
  }

  /** Every run of edits, up to the equality that ends the list, is redone; the equalities between them stay. */
  ghost predicate Rediffed(cfg: Settings, patient: bool, ds: Script, out: Script) {
    if ds == [] then out == []
    else
      && ds[|ds| - 1].op == Equal
      && var s := RunStart(ds, |ds| - 1);
         exists front, sub :: RediffedBy(cfg, patient, ds, out, s, front, sub)
           && Rediffed(cfg, patient, ds[..s], front)
  }

  ghost predicate RediffedBy(cfg: Settings, patient: bool, ds: Script, out: Script,
                             s: nat, front: Script, sub: Script) {
    && s < |ds| && out == front + sub + [ds[|ds| - 1]]
    && Redone(cfg, patient, ds[s..|ds| - 1], sub)
  }

  /** The list being rewritten against the list as it was: done up to `begun`, the current run not yet. */
  ghost predicate Halfway(cfg: Settings, patient: bool, orig: Script, ds: Script, begun: nat, pointer: nat,
                          cd: nat, ci: nat) {
    var start := pointer - cd - ci;
    && cd + ci <= pointer <= |ds| && begun + cd + ci <= |orig| && ds[start..] == orig[begun..]
    && Rediffed(cfg, patient, orig[..begun], ds[..start])
    && (forall j | begun <= j < begun + cd + ci :: orig[j].op != Equal)
    && (begun == 0 || orig[begun - 1].op == Equal)
    && (cd > 0 <==> HasOp(orig[begun..begun + cd + ci], Delete))
    && (ci > 0 <==> HasOp(orig[begun..begun + cd + ci], Insert))
  }

  lemma HalfwayEdit(cfg: Settings, patient: bool, orig: Script, ds: Script, begun: nat, pointer: nat, cd: nat, ci: nat)
    requires Halfway(cfg, patient, orig, ds, begun, pointer, cd, ci) && pointer < |ds|
    ensures begun + cd + ci < |orig| && ds[pointer] == orig[begun + cd + ci]
    ensures ds[pointer].op == Delete ==> Halfway(cfg, patient, orig, ds, begun, pointer + 1, cd + 1, ci)
    ensures ds[pointer].op == Insert ==> Halfway(cfg, patient, orig, ds, begun, pointer + 1, cd, ci + 1)
  {
    hide Rediffed;
    var start := pointer - cd - ci;
    assert ds[start..][cd + ci] == orig[begun..][cd + ci];
    RunGrows(orig, begun, begun + cd + ci);
  }

  lemma RunGrows(orig: Script, begun: nat, end: nat)
    requires begun <= end < |orig|
    ensures forall op :: HasOp(orig[begun..end + 1], op) <==> HasOp(orig[begun..end], op) || orig[end].op == op
  {
    var run, more := orig[begun..end], orig[begun..end + 1];
    assert more == run + [orig[end]];
    forall op ensures HasOp(more, op) <==> HasOp(run, op) || orig[end].op == op {
      if i :| 0 <= i < |run| && run[i].op == op {
        assert more[i].op == op;
      }
      assert more[|run|].op == orig[end].op;
      if i :| 0 <= i < |more| && more[i].op == op {
        assert i == |run| || run[i].op == op;
      }
    }
  }

  /** The run and the equality behind it are done. */
  lemma HalfwayDone(cfg: Settings, patient: bool, orig: Script, ds: Script, begun: nat, pointer: nat, cd: nat, ci: nat,
                    sub: Script)
    requires Halfway(cfg, patient, orig, ds, begun, pointer, cd, ci) && pointer < |ds| && ds[pointer].op == Equal
    requires Redone(cfg, patient, orig[begun..begun + cd + ci], sub)
    ensures var start := pointer - cd - ci;
      Halfway(cfg, patient, orig, ds[..start] + sub + ds[pointer..], begun + cd + ci + 1, start + |sub| + 1, 0, 0)
  {
    hide Redone, Rediffed, HasOp;
    HalfwayEdit(cfg, patient, orig, ds, begun, pointer, cd, ci);
    var start, end := pointer - cd - ci, begun + cd + ci;
    var ds' := ds[..start] + sub + ds[pointer..];
    SameTail(orig, ds, begun, start, cd + ci);
    RunDone(cfg, patient, orig, begun, end, ds[..start], sub);
    assert ds'[start + |sub| + 1..] == ds[pointer + 1..];
    assert ds'[..start + |sub| + 1] == ds[..start] + sub + [ds[pointer]];
    NoOps(orig[end + 1..end + 1]);
  }

  lemma NoOps(ds: Script)
    requires ds == []
    ensures forall op :: !HasOp(ds, op)
  {
  }

  /** The list up to the equality behind a run, when the list up to the run is done. */
  lemma RunDone(cfg: Settings, patient: bool, orig: Script, begun: nat, end: nat, front: Script, sub: Script)
    requires begun <= end < |orig| && orig[end].op == Equal && forall j | begun <= j < end :: orig[j].op != Equal
    requires begun == 0 || orig[begun - 1].op == Equal
    requires Rediffed(cfg, patient, orig[..begun], front) && Redone(cfg, patient, orig[begun..end], sub)
    ensures Rediffed(cfg, patient, orig[..end + 1], front + sub + [orig[end]])
  {
    hide Redone, Rediffed;
    var done := orig[..end + 1];
    RunStartUnique(done, begun, end);
    assert done[begun..end] == orig[begun..end] && done[..begun] == orig[..begun];
    RediffedNext(cfg, patient, done, front + sub + [orig[end]], begun, front, sub);
  }

  lemma RediffedNext(cfg: Settings, patient: bool, ds: Script, out: Script, s: nat, front: Script, sub: Script)
    requires ds != [] && ds[|ds| - 1].op == Equal && s == RunStart(ds, |ds| - 1)
    requires RediffedBy(cfg, patient, ds, out, s, front, sub) && Rediffed(cfg, patient, ds[..s], front)
    ensures Rediffed(cfg, patient, ds, out)
  {
    hide RediffedBy;
  }

  /** Rediff every replacement of a line-level diff character by character. */
  method Rediff(cfg: Settings, diffs: DiffList, ghost text1: Text, ghost text2: Text, patient: bool)
    requires Denotes(diffs.items, text1, text2)
    modifies diffs
    ensures Denotes(diffs.items, text1, text2)
    ensures Rediffed(cfg, patient, old(diffs.items) + [DUMMY], diffs.items + [DUMMY])
    decreases |text1| + |text2|, true, 0
  {
    hide Rediffing, Halfway, Rediffed, Promised, Core, Merged, HasOp, Computed, Good, Exhaustive, Cheapest, Length,
      Denotes;
    RediffStart(diffs.items, text1, text2);
    diffs.items := diffs.items + [DUMMY];
    ghost var orig, begun: nat := diffs.items, 0;
    HalfwayStart(cfg, patient, orig);
    var pointer: nat, cd: nat, ci: nat := 0, 0, 0;
    var td: Text, ti: Text := [], [];
    while pointer < |diffs.items|
      invariant pointer <= |diffs.items| && Rediffing(diffs.items, text1, text2, pointer, cd, ci, td, ti)
      invariant Halfway(cfg, patient, orig, diffs.items, begun, pointer, cd, ci)
      decreases |diffs.items| - pointer
    {
      HalfwayEdit(cfg, patient, orig, diffs.items, begun, pointer, cd, ci);
      match diffs.items[pointer].op {
        case Insert =>
          RediffEdit(diffs.items, text1, text2, pointer, cd, ci, td, ti);
          ci, ti := ci + 1, ti + diffs.items[pointer].text;
        case Delete =>
          RediffEdit(diffs.items, text1, text2, pointer, cd, ci, td, ti);
          cd, td := cd + 1, td + diffs.items[pointer].text;
        case Equal =>
          RunFits(diffs.items, text1, text2, pointer, cd, ci, td, ti);
          if cd >= 1 && ci >= 1 {
            var sub := DiffMain(cfg, td, ti, false, patient);
            RunReplaced(cfg, patient, orig, diffs.items, begun, text1, text2, pointer, cd, ci, td, ti, sub.items);
            diffs.items := diffs.items[..pointer - cd - ci] + sub.items + diffs.items[pointer..];
            begun := begun + cd + ci + 1;
            pointer := pointer - cd - ci + |sub.items|;
          } else {
            RunKept(cfg, patient, orig, diffs.items, begun, text1, text2, pointer, cd, ci, td, ti);
            begun := begun + cd + ci + 1;
          }
          cd, ci, td, ti := 0, 0, [], [];
      }
      pointer := pointer + 1;
    }
    RediffEnd(diffs.items, text1, text2, pointer, cd, ci, td, ti);
    HalfwayEnd(cfg, patient, orig, diffs.items, begun, text1, text2, pointer, cd, ci, td, ti);
    diffs.items := diffs.items[..|diffs.items| - 1];
  }

  lemma HalfwayStart(cfg: Settings, patient: bool, orig: Script)
    ensures Halfway(cfg, patient, orig, orig, 0, 0, 0, 0)
  {
    assert orig[..0] == [] && orig[0..0] == [];
  }

  /** The texts collected are those of the run in the list as it was. */
  lemma RunTexts(cfg: Settings, patient: bool, orig: Script, ds: Script, begun: nat, text1: Text, text2: Text,
                 pointer: nat, cd: nat, ci: nat, td: Text, ti: Text)
    requires Halfway(cfg, patient, orig, ds, begun, pointer, cd, ci)
    requires Rediffing(ds, text1, text2, pointer, cd, ci, td, ti)
    ensures begun + cd + ci <= |orig| && var run := orig[begun..begun + cd + ci];
      && run == ds[pointer - cd - ci..pointer] && Denotes(run, td, ti)
      && (cd > 0 <==> HasOp(run, Delete)) && (ci > 0 <==> HasOp(run, Insert))
  {
    hide Rediffed, HasOp;
    var start := pointer - cd - ci;
    assert ds[start..][..cd + ci] == orig[begun..][..cd + ci];
    assert ds[start..][..cd + ci] == ds[start..pointer] && orig[begun..][..cd + ci] == orig[begun..begun + cd + ci];
  }

  lemma RunReplaced(cfg: Settings, patient: bool, orig: Script, ds: Script, begun: nat, text1: Text, text2: Text,
                    pointer: nat, cd: nat, ci: nat, td: Text, ti: Text, sub: Script)
    requires Halfway(cfg, patient, orig, ds, begun, pointer, cd, ci)
    requires Rediffing(ds, text1, text2, pointer, cd, ci, td, ti)
    requires pointer < |ds| && ds[pointer].op == Equal && cd >= 1 && ci >= 1
    requires Good(cfg, td, ti, false, patient, sub)
    ensures cd + ci <= pointer && var start := pointer - cd - ci; var ds' := ds[..start] + sub + ds[pointer..];
      && Halfway(cfg, patient, orig, ds', begun + cd + ci + 1, start + |sub| + 1, 0, 0)
      && Rediffing(ds', text1, text2, start + |sub| + 1, 0, 0, [], [])
  {
    RunTexts(cfg, patient, orig, ds, begun, text1, text2, pointer, cd, ci, td, ti);
    RunFits(ds, text1, text2, pointer, cd, ci, td, ti);
    hide Halfway, Rediffing, HasOp, Promised, Core, Merged, Source, Target;
    assert Redone(cfg, patient, orig[begun..begun + cd + ci], sub);
    HalfwayDone(cfg, patient, orig, ds, begun, pointer, cd, ci, sub);
    RediffReplace(ds, text1, text2, pointer, cd, ci, td, ti, sub);
  }

  lemma RunKept(cfg: Settings, patient: bool, orig: Script, ds: Script, begun: nat, text1: Text, text2: Text,
                pointer: nat, cd: nat, ci: nat, td: Text, ti: Text)
    requires Halfway(cfg, patient, orig, ds, begun, pointer, cd, ci)
    requires Rediffing(ds, text1, text2, pointer, cd, ci, td, ti)
    requires pointer < |ds| && ds[pointer].op == Equal && (cd == 0 || ci == 0)
    ensures Halfway(cfg, patient, orig, ds, begun + cd + ci + 1, pointer + 1, 0, 0)
    ensures Rediffing(ds, text1, text2, pointer + 1, 0, 0, [], [])
  {
    RunTexts(cfg, patient, orig, ds, begun, text1, text2, pointer, cd, ci, td, ti);
    RunFits(ds, text1, text2, pointer, cd, ci, td, ti);
    RediffSkip(ds, text1, text2, pointer, cd, ci, td, ti);
    hide Rediffing, HasOp, Good, Denotes, Source, Target;
    assert Redone(cfg, patient, orig[begun..begun + cd + ci], orig[begun..begun + cd + ci]);
    hide Redone, Halfway;
    HalfwayKept(cfg, patient, orig, ds, begun, pointer, cd, ci);
  }

  lemma HalfwayKept(cfg: Settings, patient: bool, orig: Script, ds: Script, begun: nat, pointer: nat, cd: nat, ci: nat)
    requires Halfway(cfg, patient, orig, ds, begun, pointer, cd, ci) && pointer < |ds| && ds[pointer].op == Equal
    requires Redone(cfg, patient, orig[begun..begun + cd + ci], orig[begun..begun + cd + ci])
    ensures Halfway(cfg, patient, orig, ds, begun + cd + ci + 1, pointer + 1, 0, 0)
  {
    hide Redone, Rediffed, HasOp;
    HalfwaySame(cfg, patient, orig, ds, begun, pointer, cd, ci);
    HalfwayDone(cfg, patient, orig, ds, begun, pointer, cd, ci, orig[begun..begun + cd + ci]);
  }

  /** Putting a run back where it was changes nothing. */
  lemma HalfwaySame(cfg: Settings, patient: bool, orig: Script, ds: Script, begun: nat, pointer: nat, cd: nat, ci: nat)
    requires Halfway(cfg, patient, orig, ds, begun, pointer, cd, ci)
    ensures begun + cd + ci <= |orig|
    ensures ds[..pointer - cd - ci] + orig[begun..begun + cd + ci] + ds[pointer..] == ds
  {
    hide Rediffed, HasOp;
    var start := pointer - cd - ci;
    assert ds[start..][..cd + ci] == orig[begun..][..cd + ci];
    assert ds[start..][..cd + ci] == ds[start..pointer] && orig[begun..][..cd + ci] == orig[begun..begun + cd + ci];
  }

  lemma HalfwayEnd(cfg: Settings, patient: bool, orig: Script, ds: Script, begun: nat, text1: Text, text2: Text,
                   pointer: nat, cd: nat, ci: nat, td: Text, ti: Text)
    requires Halfway(cfg, patient, orig, ds, begun, pointer, cd, ci) && pointer == |ds|
    requires Rediffing(ds, text1, text2, pointer, cd, ci, td, ti)
    ensures ds != [] && ds == ds[..|ds| - 1] + [DUMMY] && Rediffed(cfg, patient, orig, ds)
  {
    hide Rediffed, HasOp;
    var start := pointer - cd - ci;
    assert ds[start..] == [] && orig[..begun] == orig && ds[..start] == ds;
  }

  lemma RediffStart(ds: Script, text1: Text, text2: Text)
    requires Denotes(ds, text1, text2)
    ensures Rediffing(ds + [Diff(Equal, [])], text1, text2, 0, 0, 0, [], [])
  {
    TextsConcat(ds, [Diff(Equal, [])]);
    TextsOne(Diff(Equal, []));
  }

  lemma RediffEnd(ds: Script, text1: Text, text2: Text, pointer: nat, cd: nat, ci: nat, td: Text, ti: Text)
    requires Rediffing(ds, text1, text2, pointer, cd, ci, td, ti)
    ensures ds != [] && Denotes(ds[..|ds| - 1], text1, text2)
  {
    DropDummy(ds);
  }

  lemma DropDummy(ds: Script)
    requires ds != [] && ds[|ds| - 1] == Diff(Equal, [])
    ensures SameTexts(ds, ds[..|ds| - 1])
  {
    var n := |ds| - 1;
    assert ds == ds[..n] + [ds[n]];
    TextsConcat(ds[..n], [ds[n]]);
    TextsOne(ds[n]);
  }
}
