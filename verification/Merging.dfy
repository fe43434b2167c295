/**
 `diff_cleanupMerge`: merge runs of edits, factor out what they share, merge equalities,
 then slide single edits sideways; repeat while a slide happened.
 */
module Merging {
  import opened Texts
  import opened Diffs
  import opened Sequences

  // ------------------------------------------------------------ normal form

  /** A deletion followed by an insertion with nothing in common at either end. */
  ghost predicate Replaces(d: Diff, e: Diff) {
    && d.op == Delete && e.op == Insert
    && d.text != [] && e.text != []
    && d.text[0] != e.text[0]
    && d.text[|d.text| - 1] != e.text[|e.text| - 1]
  }

  ghost predicate NormalAt(ds: Script, i: nat)
    requires i + 1 < |ds|
  {
    ds[i].op != Equal && ds[i + 1].op != Equal ==> Replaces(ds[i], ds[i + 1])
  }

  /** Neighbouring edits are exactly one deletion followed by one insertion. */
  ghost predicate Normal(ds: Script) {
    forall i: nat | i + 1 < |ds| :: NormalAt(ds, i)
  }

  /** An entry between two equalities can slide over one of them and swallow it. */
  predicate CanSlide(ds: Script, i: nat)
    requires 0 < i < |ds| - 1
  {
    && ds[i - 1].op == Equal && ds[i + 1].op == Equal
    && (EndsWith(ds[i].text, ds[i - 1].text) || StartsWith(ds[i].text, ds[i + 1].text))
  }

  /** What `diff_cleanupMerge` leaves behind: normal, and nothing left to slide. */
  ghost predicate Merged(ds: Script) {
    Normal(ds) && forall i: nat | 0 < i < |ds| - 1 :: !CanSlide(ds, i)
  }

  predicate EndsWith(s: Text, t: Text) {
    |t| <= |s| && Last(s, |t|) == t
  }

  predicate StartsWith(s: Text, t: Text) {
    |t| <= |s| && s[..|t|] == t
  }

  lemma AffixesAre(s: Text, t: Text)
    ensures EndsWith(s, t) <==> exists u: Text :: s == u + t
    ensures StartsWith(s, t) <==> exists u: Text :: s == t + u
  {
    if EndsWith(s, t) {
      assert s == s[..|s| - |t|] + t;
    }
    if StartsWith(s, t) {
      assert s == t + s[|t|..];
    }
  }

  /** The measure of the clean-up's recursion: edit characters, then entries. */
  ghost predicate NoLarger(a: Script, b: Script) {
    EditChars(a) < EditChars(b) || (EditChars(a) == EditChars(b) && |a| <= |b|)
  }

  // ------------------------------------------------------------ one merged run

  /** `pre` with a common prefix moved into its last equality, or into a new first one. */
  function Head(pre: Script, common: Text): Script
    requires pre == [] || pre[|pre| - 1].op == Equal
  {
    if common == [] then pre
    else if pre == [] then [Diff(Equal, common)]
    else pre[|pre| - 1 := Diff(Equal, pre[|pre| - 1].text + common)]
  }

  /** The merged deletion and insertion that replace a run of edits. */
  function Ops(del: Text, ins: Text): Script {
    (if del == [] then [] else [Diff(Delete, del)]) + (if ins == [] then [] else [Diff(Insert, ins)])
  }

  lemma HeadKeeps(pre: Script, common: Text)
    requires pre == [] || pre[|pre| - 1].op == Equal
    ensures Source(Head(pre, common)) == Source(pre) + common
    ensures Target(Head(pre, common)) == Target(pre) + common
    ensures EditChars(Head(pre, common)) == EditChars(pre)
    ensures Normal(pre) ==> Normal(Head(pre, common))
    ensures common == [] ==> Head(pre, common) == pre
  {
    if common == [] {
      NothingAdded(Source(pre));
      NothingAdded(Target(pre));
    } else if pre == [] {
      HeadAlone(common);
    } else {
      HeadExtends(pre, common);
    }
  }

  lemma NothingAdded(t: Text)
    ensures t + [] == t
  {
  }

  lemma HeadAlone(common: Text)
    requires common != []
    ensures Source(Head([], common)) == Source([]) + common
    ensures Target(Head([], common)) == Target([]) + common
    ensures EditChars(Head([], common)) == EditChars([])
    ensures Normal(Head([], common))
  {
    TextsOne(Diff(Equal, common));
    SizesOne(Diff(Equal, common));
    assert [] + common == common;
  }

  lemma HeadExtends(pre: Script, common: Text)
    requires pre != [] && pre[|pre| - 1].op == Equal && common != []
    ensures Source(Head(pre, common)) == Source(pre) + common
    ensures Target(Head(pre, common)) == Target(pre) + common
    ensures EditChars(Head(pre, common)) == EditChars(pre)
    ensures Normal(pre) ==> Normal(Head(pre, common))
  {
    var n := |pre| - 1;
    var front, t := pre[..n], pre[n].text;
    HeadNormal(pre, common);
    HeadSplit(pre, common, front, t);
    hide Source, Target, EditChars, Normal, Head;
    LastEqualityGrows(front, t, common);
  }

  lemma HeadSplit(pre: Script, common: Text, front: Script, t: Text)
    requires pre != [] && pre[|pre| - 1] == Diff(Equal, t) && front == pre[..|pre| - 1] && common != []
    ensures pre == front + [Diff(Equal, t)] && Head(pre, common) == front + [Diff(Equal, t + common)]
  {
  }

  lemma LastEqualityGrows(p: Script, t: Text, common: Text)
    ensures Source(p + [Diff(Equal, t + common)]) == Source(p + [Diff(Equal, t)]) + common
    ensures Target(p + [Diff(Equal, t + common)]) == Target(p + [Diff(Equal, t)]) + common
    ensures EditChars(p + [Diff(Equal, t + common)]) == EditChars(p + [Diff(Equal, t)])
  {
    hide Source, Target, EditChars, EqualCount;
    var d, d' := Diff(Equal, t), Diff(Equal, t + common);
    TextsConcat(p, [d]);
    TextsConcat(p, [d']);
    SizesConcat(p, [d]);
    SizesConcat(p, [d']);
    TextsOne(d);
    TextsOne(d');
    SizesOne(d);
    SizesOne(d');
  }

  lemma HeadNormal(pre: Script, common: Text)
    requires pre != [] && pre[|pre| - 1].op == Equal && common != []
    ensures Normal(pre) ==> Normal(Head(pre, common))
  {
    var h := Head(pre, common);
    if Normal(pre) {
      forall i: nat | i + 1 < |h| ensures NormalAt(h, i) {
        assert NormalAt(pre, i);
      }
    }
  }

  lemma OpsKeep(del: Text, ins: Text)
    ensures Source(Ops(del, ins)) == del
    ensures Target(Ops(del, ins)) == ins
    ensures EditChars(Ops(del, ins)) == |del| + |ins|
  {
    var d, e := Diff(Delete, del), Diff(Insert, ins);
    TextsOne(d);
    TextsOne(e);
    SizesOne(d);
    SizesOne(e);
    TextsTwo(d, e);
    SizesTwo(d, e);
    assert [d] + [] == [d] && [] + [e] == [e] && [d] + [e] == [d, e];
  }

  /** Appending a merged run and the equality after it keeps normality. */
  lemma RunNormal(pre: Script, del: Text, ins: Text, eq: Diff)
    requires Normal(pre) && (pre == [] || pre[|pre| - 1].op == Equal) && eq.op == Equal
    requires PrefixLen(ins, del) == 0 && SuffixLen(ins, del) == 0
    ensures Normal(pre + Ops(del, ins) + [eq])
  {
    var ds := pre + Ops(del, ins) + [eq];
    forall i: nat | i + 1 < |ds| ensures NormalAt(ds, i) {
      if i + 1 < |pre| {
        assert NormalAt(pre, i);
      }
    }
  }

  /**
   The run of edits deleting `del` and inserting `ins` is replaced: `a` common characters
   move into the equality before it and `b` into the equality after it.
   */
  lemma RunKeeps(pre: Script, run: Script, eq: Diff, del: Text, ins: Text, a: nat, b: nat)
    requires pre == [] || pre[|pre| - 1].op == Equal
    requires eq.op == Equal && Denotes(run, del, ins) && EditChars(run) == |del| + |ins|
    requires a <= |del| && a <= |ins| && del[..a] == ins[..a]
    requires b <= |del| - a && b <= |ins| - a && Last(del[a..], b) == Last(ins[a..], b)
    ensures var out := Head(pre, ins[..a]) + Ops(Front(del[a..], b), Front(ins[a..], b))
                       + [Diff(Equal, Last(ins[a..], b) + eq.text)];
      && SameTexts(pre + run + [eq], out)
      && EditChars(out) + 2 * (a + b) == EditChars(pre + run + [eq])
  {
    var c, s := ins[..a], Last(ins[a..], b);
    var del', ins' := Front(del[a..], b), Front(ins[a..], b);
    var eq' := Diff(Equal, s + eq.text);
    HeadKeeps(pre, c);
    OpsKeep(del', ins');
    TextsConcat3(pre, run, [eq]);
    TextsConcat3(Head(pre, c), Ops(del', ins'), [eq']);
    SizesConcat3(pre, run, [eq]);
    SizesConcat3(Head(pre, c), Ops(del', ins'), [eq']);
    TextsOne(eq);
    TextsOne(eq');
    SizesOne(eq);
    SizesOne(eq');
    FrontLast(del[a..], b);
    FrontLast(ins[a..], b);
    Regroup(Source(pre), c, del', s, eq.text, del);
    Regroup(Target(pre), c, ins', s, eq.text, ins);
  }

  lemma Regroup(p: Text, c: Text, m: Text, s: Text, e: Text, whole: Text)
    requires |c| + |m| + |s| == |whole| && c == whole[..|c|] && whole[|c|..] == m + s
    ensures p + whole + e == p + c + m + (s + e)
  {
    assert whole == c + (m + s);
  }

  // ------------------------------------------------------------ the run under the pointer

  /** The entries of a run are edits, counted by `cd` and `ci`, with texts `td` and `ti`. */
  ghost predicate IsRun(run: Script, cd: nat, ci: nat, td: Text, ti: Text) {
    && |run| == cd + ci
    && (forall i | 0 <= i < |run| :: run[i].op != Equal)
    && Denotes(run, td, ti)
    && EditChars(run) == |td| + |ti|
    && (cd == 0 ==> td == []) && (ci == 0 ==> ti == [])
  }

  lemma RunGrows(run: Script, cd: nat, ci: nat, td: Text, ti: Text, d: Diff)
    requires IsRun(run, cd, ci, td, ti) && d.op != Equal
    ensures d.op == Delete ==> IsRun(run + [d], cd + 1, ci, td + d.text, ti)
    ensures d.op == Insert ==> IsRun(run + [d], cd, ci + 1, td, ti + d.text)
  {
    hide Source, Target, EditChars, EqualCount;
    TextsConcat(run, [d]);
    SizesConcat(run, [d]);
    TextsOne(d);
    SizesOne(d);
    assert td + [] == td && ti + [] == ti;
  }

  /** No larger than `orig` once a still empty dummy entry is dropped. */
  ghost predicate Budget(orig: Script, ds: Script)
  {
    || EditChars(ds) < EditChars(orig)
    || (EditChars(ds) == EditChars(orig)
        && (|ds| <= |orig| || (|ds| == |orig| + 1 && ds[|ds| - 1] == Diff(Equal, []))))
  }

  /**
   The state of the first pass over `orig`, to which a dummy equality was appended:
   entries before `start` are finished, entries from there to the pointer are a run.
   */
  ghost predicate FirstPass(orig: Script, ds: Script, pointer: nat, cd: nat, ci: nat, td: Text, ti: Text) {
    && cd + ci <= pointer <= |ds|
    && SameTexts(orig, ds)
    && ds != [] && ds[|ds| - 1].op == Equal
    && Budget(orig, ds)
    && var start := pointer - cd - ci;
    && (start == 0 || ds[start - 1].op == Equal)
    && Normal(ds[..start])
    && IsRun(ds[start..pointer], cd, ci, td, ti)
  }

  lemma FirstPassStart(orig: Script)
    ensures FirstPass(orig, orig + [Diff(Equal, [])], 0, 0, 0, [], [])
  {
    TextsConcat(orig, [Diff(Equal, [])]);
    SizesConcat(orig, [Diff(Equal, [])]);
    TextsOne(Diff(Equal, []));
    SizesOne(Diff(Equal, []));
  }

  lemma FirstPassEdit(orig: Script, ds: Script, pointer: nat, cd: nat, ci: nat, td: Text, ti: Text)
    requires FirstPass(orig, ds, pointer, cd, ci, td, ti) && pointer < |ds|
    ensures ds[pointer].op == Delete ==> FirstPass(orig, ds, pointer + 1, cd + 1, ci, td + ds[pointer].text, ti)
    ensures ds[pointer].op == Insert ==> FirstPass(orig, ds, pointer + 1, cd, ci + 1, td, ti + ds[pointer].text)
  {
    var start := pointer - cd - ci;
    if ds[pointer].op != Equal {
      assert ds[start..pointer + 1] == ds[start..pointer] + [ds[pointer]];
      RunGrows(ds[start..pointer], cd, ci, td, ti, ds[pointer]);
    }
  }

  lemma CutAt(ds: Script, i: nat, j: nat)
    requires i <= j < |ds|
    ensures ds == ds[..i] + ds[i..j] + [ds[j]] + ds[j + 1..]
  {
  }

  /** The equality under the pointer closes a run of several edits. */
  lemma FirstPassMerge(orig: Script, ds: Script, pointer: nat, cd: nat, ci: nat, td: Text, ti: Text, a: nat, b: nat)
    requires FirstPass(orig, ds, pointer, cd, ci, td, ti)
    requires pointer < |ds| && ds[pointer].op == Equal && cd + ci > 1
    requires a == PrefixLen(ti, td) && b == SuffixLen(ti[a..], td[a..])
    ensures var out := MergedRun(ds[..pointer - cd - ci], ds[pointer], td, ti, a, b);
      FirstPass(orig, out + ds[pointer + 1..], |out|, 0, 0, [], [])
  {
    var start := pointer - cd - ci;
    var pre, run, eq, post := ds[..start], ds[start..pointer], ds[pointer], ds[pointer + 1..];
    CutAt(ds, start, pointer);
    assert post == [] || post[|post| - 1] == ds[|ds| - 1];
    hide Normal, Budget, IsRun, SameTexts;
    FirstPassReplaced(orig, pre, run, eq, post, cd, ci, td, ti, a, b);
  }

  lemma FirstPassReplaced(orig: Script, pre: Script, run: Script, eq: Diff, post: Script,
                          cd: nat, ci: nat, td: Text, ti: Text, a: nat, b: nat)
    requires SameTexts(orig, pre + run + [eq] + post) && Budget(orig, pre + run + [eq] + post) && Normal(pre)
    requires (pre == [] || pre[|pre| - 1].op == Equal) && eq.op == Equal && (post == [] || post[|post| - 1].op == Equal)
    requires IsRun(run, cd, ci, td, ti) && cd + ci > 1
    requires a == PrefixLen(ti, td) && b == SuffixLen(ti[a..], td[a..])
    ensures var out := MergedRun(pre, eq, td, ti, a, b); FirstPass(orig, out + post, |out|, 0, 0, [], [])
  {
    var out := MergedRun(pre, eq, td, ti, a, b);
    MergedRunKeeps(pre, run, eq, cd, ci, td, ti, a, b);
    hide FirstPass, Budget, IsRun, PrefixLen, SuffixLen, MergedRun, Normal, SameTexts, EditChars;
    ReplaceFinished(orig, pre + run + [eq], out, post);
  }

  lemma ReplaceFinished(orig: Script, front: Script, out: Script, post: Script)
    requires front != [] && out != [] && out[|out| - 1].op == Equal && Normal(out) && SameTexts(front, out)
    requires EditChars(out) < EditChars(front)
      || (EditChars(out) == EditChars(front) && |out| <= |front| && out[|out| - 1] == front[|front| - 1])
    requires SameTexts(orig, front + post) && Budget(orig, front + post)
    requires post == [] || post[|post| - 1].op == Equal
    ensures FirstPass(orig, out + post, |out|, 0, 0, [], [])
  {
    hide Normal, FirstPass, Budget, Source, Target, EditChars;
    FirstPassReplace(orig, front + post, front, out, post);
    FirstPassFinished(orig, out, post);
  }

  lemma FirstPassFinished(orig: Script, out: Script, post: Script)
    requires out != [] && out[|out| - 1].op == Equal && Normal(out)
    requires post == [] || post[|post| - 1].op == Equal
    requires SameTexts(orig, out + post) && Budget(orig, out + post)
    ensures FirstPass(orig, out + post, |out|, 0, 0, [], [])
  {
    var ds := out + post;
    assert ds[..|out|] == out;
    assert ds[|out|..|out|] == [];
    assert ds[|out| - 1] == out[|out| - 1];
    assert post != [] ==> ds[|ds| - 1] == post[|post| - 1];
  }

  /** What the closing of a run leaves in place of everything up to its equality. */
  function MergedRun(pre: Script, eq: Diff, td: Text, ti: Text, a: nat, b: nat): Script
    requires pre == [] || pre[|pre| - 1].op == Equal
    requires a <= |td| && a <= |ti| && b <= |td| - a && b <= |ti| - a
  {
    Head(pre, ti[..a]) + Ops(Front(td[a..], b), Front(ti[a..], b)) + [Diff(Equal, Last(ti[a..], b) + eq.text)]
  }

  lemma MergedRunKeeps(pre: Script, run: Script, eq: Diff, cd: nat, ci: nat, td: Text, ti: Text, a: nat, b: nat)
    requires Normal(pre) && (pre == [] || pre[|pre| - 1].op == Equal) && eq.op == Equal
    requires IsRun(run, cd, ci, td, ti) && cd + ci > 1
    requires a == PrefixLen(ti, td) && b == SuffixLen(ti[a..], td[a..])
    ensures var front, out := pre + run + [eq], MergedRun(pre, eq, td, ti, a, b);
      && SameTexts(front, out)
      && Normal(out) && out[|out| - 1].op == Equal
      && (EditChars(out) < EditChars(front)
          || (EditChars(out) == EditChars(front) && |out| <= |front| && out[|out| - 1] == eq))
  {
    PrefixCut(ti, td);
    SuffixCut(ti[a..], td[a..]);
    MergedRunNormal(pre, eq, td, ti, a, b);
    if a == 0 && b == 0 {
      MergedRunShort(pre, run, eq, td, ti);
    }
    RunKeeps(pre, run, eq, td, ti, a, b);
    MergedRunLast(pre, eq, td, ti, a, b);
    hide Source, Target, EditChars, Normal, PrefixLen, SuffixLen, Head, Ops;
  }

  lemma MergedRunLast(pre: Script, eq: Diff, td: Text, ti: Text, a: nat, b: nat)
    requires pre == [] || pre[|pre| - 1].op == Equal
    requires a <= |td| && a <= |ti| && b <= |td| - a && b <= |ti| - a
    ensures var out := MergedRun(pre, eq, td, ti, a, b); out[|out| - 1].op == Equal
  {
  }

  lemma MergedRunNormal(pre: Script, eq: Diff, td: Text, ti: Text, a: nat, b: nat)
    requires Normal(pre) && (pre == [] || pre[|pre| - 1].op == Equal)
    requires a == PrefixLen(ti, td) && b == SuffixLen(ti[a..], td[a..])
    ensures Normal(MergedRun(pre, eq, td, ti, a, b))
  {
    PrefixCut(ti, td);
    SuffixCut(ti[a..], td[a..]);
    var del, ins := Front(td[a..], b), Front(ti[a..], b);
    NoCommonStart(ti[a..], td[a..], b);
    HeadKeeps(pre, ti[..a]);
    HeadEnds(pre, ti[..a]);
    hide Head, Ops, Normal, PrefixLen, SuffixLen;
    RunNormal(Head(pre, ti[..a]), del, ins, Diff(Equal, Last(ti[a..], b) + eq.text));
  }

  lemma HeadEnds(pre: Script, common: Text)
    requires pre == [] || pre[|pre| - 1].op == Equal
    ensures var h := Head(pre, common); h == [] || h[|h| - 1].op == Equal
  {
  }

  /** Texts without a common prefix have none after their ends are cut off. */
  lemma NoCommonStart(s: Text, t: Text, b: nat)
    requires PrefixLen(s, t) == 0 && b <= |s| && b <= |t|
    ensures PrefixLen(Front(s, b), Front(t, b)) == 0
  {
  }

  /** Without anything shared the run's place is taken by at most two entries, and the equality stays. */
  lemma MergedRunShort(pre: Script, run: Script, eq: Diff, td: Text, ti: Text)
    requires pre == [] || pre[|pre| - 1].op == Equal
    requires eq.op == Equal && |run| > 1
    ensures var out := MergedRun(pre, eq, td, ti, 0, 0); |out| <= |pre + run + [eq]| && out[|out| - 1] == eq
  {
    assert ti[..0] == [] && Last(ti[0..], 0) + eq.text == eq.text;
  }

  lemma FirstPassReplace(orig: Script, ds: Script, front: Script, out: Script, post: Script)
    requires front != [] && out != [] && ds == front + post && SameTexts(front, out)
    requires EditChars(out) < EditChars(front)
      || (EditChars(out) == EditChars(front) && |out| <= |front| && out[|out| - 1] == front[|front| - 1])
    requires Budget(orig, ds)
    ensures SameTexts(ds, out + post)
    ensures Budget(orig, out + post)
  {
    TextsConcat(front, post);
    TextsConcat(out, post);
    SizesConcat(front, post);
    SizesConcat(out, post);
    var ds' := out + post;
    if post == [] {
      assert ds == front && ds' == out;
    } else {
      assert ds'[|ds'| - 1] == post[|post| - 1] == ds[|ds| - 1];
    }
  }

  /** An equality right after another one is joined to it. */
  lemma FirstPassJoin(orig: Script, ds: Script, pointer: nat, td: Text, ti: Text)
    requires FirstPass(orig, ds, pointer, 0, 0, td, ti)
    requires 0 < pointer < |ds| && ds[pointer].op == Equal && ds[pointer - 1].op == Equal
    ensures FirstPass(orig,
                      ds[..pointer - 1] + [Diff(Equal, ds[pointer - 1].text + ds[pointer].text)] + ds[pointer + 1..],
                      pointer, 0, 0, [], [])
  {
    var pre, d, e, post := ds[..pointer - 1], ds[pointer - 1], ds[pointer], ds[pointer + 1..];
    var joined := Diff(Equal, d.text + e.text);
    assert ds == pre + [d, e] + post && ds[..pointer] == pre + [d];
    JoinKeeps(pre, d, e, joined, post);
    NormalLast(pre, d, joined);
    hide Source, Target, EditChars, Normal;
    FirstPassFinished(orig, pre + [joined], post);
  }

  /** Joining two equalities keeps the texts and the sizes. */
  lemma JoinKeeps(pre: Script, d: Diff, e: Diff, joined: Diff, post: Script)
    requires d.op == Equal && e.op == Equal && joined == Diff(Equal, d.text + e.text)
    ensures SameTexts(pre + [d, e] + post, pre + [joined] + post)
    ensures EditChars(pre + [d, e] + post) == EditChars(pre + [joined] + post)
  {
    hide Source, Target, EditChars, EqualCount;
    TextsTwo(d, e);
    TextsOne(d);
    TextsOne(e);
    TextsOne(joined);
    SpliceSame(pre, [d, e], [joined], post);
    SizesTwo(d, e);
    SizesOne(d);
    SizesOne(e);
    SizesOne(joined);
    SizesConcat3(pre, [d, e], post);
    SizesConcat3(pre, [joined], post);
  }

  lemma NormalLast(pre: Script, d: Diff, e: Diff)
    requires Normal(pre + [d]) && e.op == Equal
    ensures Normal(pre + [e])
  {
    forall i: nat | i + 1 < |pre + [e]| ensures NormalAt(pre + [e], i) {
      assert NormalAt(pre + [d], i);
    }
  }

  /** An equality after at most one edit is stepped over. */
  lemma FirstPassSkip(orig: Script, ds: Script, pointer: nat, cd: nat, ci: nat, td: Text, ti: Text)
    requires FirstPass(orig, ds, pointer, cd, ci, td, ti) && cd + ci <= 1
    requires pointer < |ds| && ds[pointer].op == Equal
    ensures FirstPass(orig, ds, pointer + 1, 0, 0, [], [])
  {
    var start := pointer - cd - ci;
    var out := ds[..pointer + 1];
    forall i: nat | i + 1 < |out| ensures NormalAt(out, i) {
      if i + 1 < start {
        assert NormalAt(ds[..start], i);
      }
    }
    assert ds[pointer + 1..pointer + 1] == [];
  }

  /** When the pass is over, the dummy entry is dropped if it is still empty. */
  lemma FirstPassEnd(orig: Script, ds: Script, cd: nat, ci: nat, td: Text, ti: Text)
    requires FirstPass(orig, ds, |ds|, cd, ci, td, ti)
    ensures ds != []
    ensures var out := if ds[|ds| - 1].text == [] then ds[..|ds| - 1] else ds;
      SameTexts(orig, out) && Normal(out) && NoLarger(out, orig)
  {
    var start := |ds| - cd - ci;
    assert start == |ds|;
    assert ds[..|ds|] == ds;
    hide Source, Target, EditChars, EqualCount;
    if ds[|ds| - 1].text == [] {
      var n := |ds| - 1;
      assert ds == ds[..n] + [ds[n]];
      TextsConcat(ds[..n], [ds[n]]);
      SizesConcat(ds[..n], [ds[n]]);
      TextsOne(ds[n]);
      SizesOne(ds[n]);
      forall i: nat | i + 1 < n ensures NormalAt(ds[..n], i) {
        assert NormalAt(ds, i);
      }
    }
  }

  /** Move a common prefix of a run's two texts into the equality before the run. */
  method FactorPrefix(diffs: DiffList, pointer: nat, cd: nat, ci: nat, td: Text, ti: Text)
    returns (next: nat, del: Text, ins: Text)
    requires cd + ci <= pointer < |diffs.items|
    requires pointer - cd - ci == 0 || diffs.items[pointer - cd - ci - 1].op == Equal
    modifies diffs
    ensures var ds, start, a := old(diffs.items), pointer - cd - ci, PrefixLen(ti, td);
      && diffs.items == Head(ds[..start], ti[..a]) + ds[start..]
      && next == |Head(ds[..start], ti[..a])| + cd + ci
      && del == td[a..] && ins == ti[a..]
  {
    next, del, ins := pointer, td, ti;
    ghost var pre := diffs.items[..pointer - cd - ci];
    assert diffs.items == pre + diffs.items[pointer - cd - ci..];
    var common := CommonPrefix(ins, del);
    if common != 0 {
      var x := next - cd - ci - 1;
      if x >= 0 && diffs.items[x].op == Equal {
        diffs.items := diffs.items[x := Diff(Equal, diffs.items[x].text + ins[..common])];
      } else {
        assert pre == [];
        diffs.items := [Diff(Equal, ins[..common])] + diffs.items;
        next := next + 1;
      }
      ins, del := ins[common..], del[common..];
    }
  }

  /** Move a common suffix of a run's two texts into the equality after the run. */
  method FactorSuffix(diffs: DiffList, pointer: nat, td: Text, ti: Text) returns (del: Text, ins: Text)
    requires pointer < |diffs.items| && diffs.items[pointer].op == Equal
    modifies diffs
    ensures var ds, b := old(diffs.items), SuffixLen(ti, td);
      && diffs.items == ds[pointer := Diff(Equal, Last(ti, b) + ds[pointer].text)]
      && del == Front(td, b) && ins == Front(ti, b)
  {
    del, ins := td, ti;
    var common := CommonSuffix(ins, del);
    if common != 0 {
      diffs.items := diffs.items[pointer := Diff(Equal, Last(ins, common) + diffs.items[pointer].text)];
      ins, del := Front(ins, common), Front(del, common);
    } else {
      assert Last(ti, 0) + diffs.items[pointer].text == diffs.items[pointer].text;
    }
  }

  /** Move what the run's two texts share into the neighbouring equalities. */
  method FactorRun(diffs: DiffList, pointer: nat, cd: nat, ci: nat, td: Text, ti: Text)
    returns (next: nat, del: Text, ins: Text)
    requires cd + ci <= pointer < |diffs.items| && diffs.items[pointer].op == Equal
    requires pointer - cd - ci == 0 || diffs.items[pointer - cd - ci - 1].op == Equal
    requires (cd == 0 ==> td == []) && (ci == 0 ==> ti == [])
    modifies diffs
    ensures var ds, start, a := old(diffs.items), pointer - cd - ci, PrefixLen(ti, td);
      var b, head := SuffixLen(ti[a..], td[a..]), Head(ds[..start], ti[..a]);
      && next == |head| + cd + ci && next <= |diffs.items| && diffs.items[..|head|] == head
      && diffs.items[next..] == [Diff(Equal, Last(ti[a..], b) + ds[pointer].text)] + ds[pointer + 1..]
      && del == Front(td[a..], b) && ins == Front(ti[a..], b)
  {
    hide PrefixLen, SuffixLen, Head, Front, Last;
    ghost var ds, start, a := diffs.items, pointer - cd - ci, PrefixLen(ti, td);
    ghost var head := Head(ds[..start], ti[..a]);
    del, ins, next := td, ti, pointer;
    if cd != 0 && ci != 0 {
      next, del, ins := FactorPrefix(diffs, pointer, cd, ci, td, ti);
      AfterHead(head, ds, start, pointer, Diff(Equal, Last(ti[a..], SuffixLen(ti[a..], td[a..])) + ds[pointer].text));
      del, ins := FactorSuffix(diffs, next, del, ins);
    } else {
      NothingShared(ds, start, pointer, td, ti);
    }
    Slices(head, ds[start..pointer],
      [Diff(Equal, Last(ti[a..], SuffixLen(ti[a..], td[a..])) + ds[pointer].text)] + ds[pointer + 1..]);
  }

  /**
   At the equality that ends a run of several edits: move what the run's two texts share
   into the neighbouring equalities and put at most two entries in the run's place.
   */
  method MergeRun(diffs: DiffList, pointer: nat, cd: nat, ci: nat, td: Text, ti: Text) returns (next: nat)
    requires cd + ci <= pointer < |diffs.items| && diffs.items[pointer].op == Equal
    requires pointer - cd - ci == 0 || diffs.items[pointer - cd - ci - 1].op == Equal
    requires (cd == 0 ==> td == []) && (ci == 0 ==> ti == [])
    modifies diffs
    ensures var ds, a := old(diffs.items), PrefixLen(ti, td);
      var out := MergedRun(ds[..pointer - cd - ci], ds[pointer], td, ti, a, SuffixLen(ti[a..], td[a..]));
      diffs.items == out + ds[pointer + 1..] && next == |out|
  {
    ghost var ds, start, a := diffs.items, pointer - cd - ci, PrefixLen(ti, td);
    ghost var b, head := SuffixLen(ti[a..], td[a..]), Head(ds[..start], ti[..a]);
    hide PrefixLen, SuffixLen, Head, Ops, Front, Last, MergedRun;
    ghost var tail := [Diff(Equal, Last(ti[a..], b) + ds[pointer].text)] + ds[pointer + 1..];
    var del, ins;
    next, del, ins := FactorRun(diffs, pointer, cd, ci, td, ti);
    next := ReplaceRun(diffs, head, tail, next, cd + ci, del, ins);
    MergedRunTail(ds[..start], ds[pointer], td, ti, a, b, ds[pointer + 1..]);
  }

  lemma MergedRunTail(pre: Script, eq: Diff, td: Text, ti: Text, a: nat, b: nat, post: Script)
    requires pre == [] || pre[|pre| - 1].op == Equal
    requires a <= |td| && a <= |ti| && b <= |td| - a && b <= |ti| - a
    ensures var front := Head(pre, ti[..a]) + Ops(Front(td[a..], b), Front(ti[a..], b));
      var out := MergedRun(pre, eq, td, ti, a, b);
      out + post == front + ([Diff(Equal, Last(ti[a..], b) + eq.text)] + post) && |out| == |front| + 1
  {
  }

  lemma Slices(a: Script, b: Script, c: Script)
    ensures (a + b + c)[..|a|] == a && (a + b + c)[|a| + |b|..] == c
  {
  }

  /** The `count` entries before `pointer` give way to one deletion and one insertion at most. */
  method ReplaceRun(diffs: DiffList, ghost head: Script, ghost tail: Script, pointer: nat, count: nat, del: Text,
                    ins: Text)
    returns (next: nat)
    requires count <= pointer <= |diffs.items|
    requires head == diffs.items[..pointer - count] && tail == diffs.items[pointer..]
    modifies diffs
    ensures diffs.items == head + Ops(del, ins) + tail
    ensures next == |head + Ops(del, ins)| + 1
  {
    var ops := [];
    if |del| != 0 {
      ops := ops + [Diff(Delete, del)];
    }
    if |ins| != 0 {
      ops := ops + [Diff(Insert, ins)];
    }
    assert ops == Ops(del, ins);
    next := pointer - count;
    diffs.items := diffs.items[..next] + ops + diffs.items[next + count..];
    next := next + |ops| + 1;
  }

  lemma AfterHead(head: Script, ds: Script, start: nat, pointer: nat, eq: Diff)
    requires start <= pointer < |ds|
    ensures var at := |head| + pointer - start;
      && (head + ds[start..])[at] == ds[pointer]
      && (head + ds[start..])[at := eq] == head + ds[start..pointer] + ([eq] + ds[pointer + 1..])
  {
  }

  lemma NothingShared(ds: Script, start: nat, pointer: nat, td: Text, ti: Text)
    requires start <= pointer < |ds| && ds[pointer].op == Equal
    requires start == 0 || ds[start - 1].op == Equal
    requires td == [] || ti == []
    ensures PrefixLen(ti, td) == 0 && SuffixLen(ti, td) == 0 && td[0..] == td && ti[0..] == ti
    ensures Head(ds[..start], ti[..0]) == ds[..start] && Front(td, 0) == td && Front(ti, 0) == ti
    ensures ds == ds[..start] + ds[start..pointer] + ([Diff(Equal, Last(ti, 0) + ds[pointer].text)] + ds[pointer + 1..])
  {
    CutAt(ds, start, pointer);
    assert Last(ti, 0) + ds[pointer].text == ds[pointer].text;
  }

  // ------------------------------------------------------------ what the first pass makes of a list

  /** A run and the equality behind it, put after what is finished. */
  function Close(out: Script, run: Script, eq: Diff): (r: Script)
    requires out == [] || out[|out| - 1].op == Equal
    requires eq.op == Equal
    ensures r != [] && r[|r| - 1].op == Equal
  {
    if |run| > 1 then
      var td, ti := Source(run), Target(run);
      var a := PrefixLen(ti, td);
      MergedRun(out, eq, td, ti, a, SuffixLen(ti[a..], td[a..]))
    else if run == [] && out != [] then out[..|out| - 1] + [Diff(Equal, out[|out| - 1].text + eq.text)]
    else out + run + [eq]
  }

  /** The first pass over a list that ends with an equality. */
  function Passed(ds: Script): (out: Script)
    requires ds == [] || ds[|ds| - 1].op == Equal
    ensures out == [] || out[|out| - 1].op == Equal
    decreases |ds|
  {
    if ds == [] then []
    else
      var s := RunStart(ds, |ds| - 1);
      Close(Passed(ds[..s]), ds[s..|ds| - 1], ds[|ds| - 1])
  }

  function WithoutDummy(ds: Script): Script {
    if ds != [] && ds[|ds| - 1].text == [] then ds[..|ds| - 1] else ds
  }

  /** The list being rewritten against the list as it was: finished up to `begun`, then n edits of the current run. */
  ghost predicate PassState(orig: Script, ds: Script, begun: nat, pointer: nat, n: nat) {
    && n <= pointer <= |ds| && begun + n <= |orig| && ds[pointer - n..] == orig[begun..]
    && (begun == 0 || orig[begun - 1].op == Equal)
    && (forall j | begun <= j < begun + n :: orig[j].op != Equal)
    && ds[..pointer - n] == Passed(orig[..begun])
  }

  lemma PassStart(orig: Script)
    ensures PassState(orig, orig, 0, 0, 0)
  {
    assert orig[..0] == [];
  }

  lemma PassEdit(orig: Script, ds: Script, begun: nat, pointer: nat, n: nat)
    requires PassState(orig, ds, begun, pointer, n) && pointer < |ds|
    ensures begun + n < |orig| && ds[pointer] == orig[begun + n]
    ensures ds[pointer].op != Equal ==> PassState(orig, ds, begun, pointer + 1, n + 1)
  {
    hide Passed;
    assert ds[pointer - n..][n] == orig[begun..][n];
  }

  lemma PassClose(orig: Script, ds: Script, begun: nat, pointer: nat, n: nat)
    requires PassState(orig, ds, begun, pointer, n) && pointer < |ds| && ds[pointer].op == Equal
    ensures var front := ds[..pointer - n];
      && (front == [] || front[|front| - 1].op == Equal)
      && var out := Close(front, ds[pointer - n..pointer], ds[pointer]);
      PassState(orig, out + ds[pointer + 1..], begun + n + 1, |out|, 0)
  {
    hide Close, Passed;
    var start := pointer - n;
    SameTail(orig, ds, begun, start, n);
    PassedNext(orig, begun, begun + n);
    var out := Close(ds[..start], ds[start..pointer], ds[pointer]);
    var ds' := out + ds[pointer + 1..];
    assert ds'[|out|..] == ds[pointer + 1..] && ds'[..|out|] == out;
  }

  /** The pass over the list up to the equality behind a run. */
  lemma PassedNext(orig: Script, begun: nat, end: nat)
    requires begun <= end < |orig| && orig[end].op == Equal && forall j | begun <= j < end :: orig[j].op != Equal
    requires begun == 0 || orig[begun - 1].op == Equal
    ensures Passed(orig[..end + 1]) == Close(Passed(orig[..begun]), orig[begun..end], orig[end])
  {
    hide Close;
    var done := orig[..end + 1];
    RunStartUnique(done, begun, end);
    assert done[..begun] == orig[..begun] && done[begun..end] == orig[begun..end];
  }

  lemma PassEnd(orig: Script, ds: Script, begun: nat, pointer: nat, n: nat)
    requires PassState(orig, ds, begun, pointer, n) && pointer == |ds|
    requires orig != [] && orig[|orig| - 1].op == Equal
    ensures ds == Passed(orig)
  {
    hide Passed;
    assert |ds[pointer - n..]| == |orig[begun..]|;
    assert orig[..begun] == orig && ds[..pointer] == ds;
  }

  /** Of a diff of equalities only, the first pass leaves one. */
  lemma {:induction false} PassedEqualities(ds: Script)
    requires ds != [] && forall d :: d in ds ==> d.op == Equal
    ensures ds[|ds| - 1].op == Equal && Passed(ds) == [Diff(Equal, Source(ds))]
  {
    var n := |ds| - 1;
    assert ds[n] in ds;
    assert ds[n..n] == [] && ds == ds[..n] + [ds[n]];
    TextsConcat(ds[..n], [ds[n]]);
    TextsOne(ds[n]);
    if n > 0 {
      assert ds[n - 1] in ds;
      PassedEqualities(ds[..n]);
    } else {
      assert ds[..n] == [] && [] + ds[n].text == ds[n].text;
    }
  }

  /** The pass reaches an equality. */
  method AtEquality(diffs: DiffList, pointer: nat, cd: nat, ci: nat, td: Text, ti: Text, ghost orig: Script)
    returns (next: nat)
    requires FirstPass(orig, diffs.items, pointer, cd, ci, td, ti)
    requires pointer < |diffs.items| && diffs.items[pointer].op == Equal
    modifies diffs
    ensures next <= |diffs.items| && FirstPass(orig, diffs.items, next, 0, 0, [], [])
    ensures |diffs.items| - next == |old(diffs.items)| - pointer - 1
    ensures var ds, start := old(diffs.items), pointer - cd - ci;
      && start >= 0 && (start == 0 || ds[start - 1].op == Equal)
      && var out := Close(ds[..start], ds[start..pointer], ds[pointer]);
      diffs.items == out + ds[pointer + 1..] && next == |out|
  {
    hide Close, FirstPass, MergedRun, PrefixLen, SuffixLen;
    next := pointer;
    FirstPassFits(orig, diffs.items, pointer, cd, ci, td, ti);
    CloseIs(orig, diffs.items, pointer, cd, ci, td, ti);
    if cd + ci > 1 {
      ghost var a := PrefixLen(ti, td);
      FirstPassMerge(orig, diffs.items, pointer, cd, ci, td, ti, a, SuffixLen(ti[a..], td[a..]));
      next := MergeRun(diffs, pointer, cd, ci, td, ti);
    } else if pointer != 0 && diffs.items[pointer - 1].op == Equal {
      NoRunAfterEqual(orig, diffs.items, pointer, cd, ci, td, ti);
      FirstPassJoin(orig, diffs.items, pointer, td, ti);
      diffs.items := diffs.items[..pointer - 1]
        + [Diff(Equal, diffs.items[pointer - 1].text + diffs.items[pointer].text)] + diffs.items[pointer + 1..];
    } else {
      FirstPassSkip(orig, diffs.items, pointer, cd, ci, td, ti);
      next := pointer + 1;
    }
  }

  lemma FirstPassFits(orig: Script, ds: Script, pointer: nat, cd: nat, ci: nat, td: Text, ti: Text)
    requires FirstPass(orig, ds, pointer, cd, ci, td, ti)
    ensures cd + ci <= pointer <= |ds|
    ensures pointer - cd - ci == 0 || ds[pointer - cd - ci - 1].op == Equal
    ensures (cd == 0 ==> td == []) && (ci == 0 ==> ti == [])
  {
  }

  /** What closing the run comes to in the three branches. */
  lemma CloseIs(orig: Script, ds: Script, pointer: nat, cd: nat, ci: nat, td: Text, ti: Text)
    requires FirstPass(orig, ds, pointer, cd, ci, td, ti) && pointer < |ds| && ds[pointer].op == Equal
    ensures var start := pointer - cd - ci;
      && start >= 0 && (start == 0 || ds[start - 1].op == Equal)
      && var out, a := Close(ds[..start], ds[start..pointer], ds[pointer]), PrefixLen(ti, td);
      if cd + ci > 1 then out == MergedRun(ds[..start], ds[pointer], td, ti, a, SuffixLen(ti[a..], td[a..]))
      else if pointer != 0 && ds[pointer - 1].op == Equal then
        out == ds[..pointer - 1] + [Diff(Equal, ds[pointer - 1].text + ds[pointer].text)]
      else out == ds[..pointer + 1]
  {
    hide Normal, Budget, SameTexts, MergedRun, EditChars, Source, Target;
    var start := pointer - cd - ci;
    if cd + ci == 1 {
      assert ds[start..pointer] == [ds[start]];
    } else if cd + ci == 0 && pointer != 0 {
      assert ds[..pointer][..pointer - 1] == ds[..pointer - 1];
    }
  }

  lemma JoinedEqualities(ds: Script)
    ensures (forall d :: d in ds ==> d.op == Equal) ==> Passed(ds + [DUMMY]) == [Diff(Equal, Source(ds))]
  {
    if forall d :: d in ds ==> d.op == Equal {
      PassedEqualities(ds + [DUMMY]);
      TextsConcat(ds, [DUMMY]);
      TextsOne(DUMMY);
      assert Source(ds) + [] == Source(ds);
    }
  }

  /** The first pass of `diff_cleanupMerge`. */
  method MergeEdits(diffs: DiffList)
    modifies diffs
    ensures diffs.items == WithoutDummy(Passed(old(diffs.items) + [DUMMY]))
    ensures SameTexts(old(diffs.items), diffs.items)
    ensures Normal(diffs.items)
    ensures NoLarger(diffs.items, old(diffs.items))
  {
    hide FirstPass, Passed, PassState, Close;
    ghost var orig := diffs.items;
    FirstPassStart(orig);
    diffs.items := diffs.items + [DUMMY];
    ghost var whole, begun: nat := diffs.items, 0;
    PassStart(whole);
    var pointer: nat, cd: nat, ci: nat := 0, 0, 0;
    var td: Text, ti: Text := [], [];
    while pointer < |diffs.items|
      invariant pointer <= |diffs.items| && FirstPass(orig, diffs.items, pointer, cd, ci, td, ti)
      invariant PassState(whole, diffs.items, begun, pointer, cd + ci)
      decreases |diffs.items| - pointer
    {
      FirstPassEdit(orig, diffs.items, pointer, cd, ci, td, ti);
      PassEdit(whole, diffs.items, begun, pointer, cd + ci);
      match diffs.items[pointer].op {
        case Insert =>
          ci := ci + 1;
          ti := ti + diffs.items[pointer].text;
          pointer := pointer + 1;
        case Delete =>
          cd := cd + 1;
          td := td + diffs.items[pointer].text;
          pointer := pointer + 1;
        case Equal =>
          PassClose(whole, diffs.items, begun, pointer, cd + ci);
          pointer := AtEquality(diffs, pointer, cd, ci, td, ti, orig);
          begun := begun + cd + ci + 1;
          cd, ci, td, ti := 0, 0, [], [];
      }
    }
    FirstPassEnd(orig, diffs.items, cd, ci, td, ti);
    PassEnd(whole, diffs.items, begun, pointer, cd + ci);
    if diffs.items[|diffs.items| - 1].text == [] {
      diffs.items := diffs.items[..|diffs.items| - 1];
    }
  }

  lemma NoRunAfterEqual(orig: Script, ds: Script, pointer: nat, cd: nat, ci: nat, td: Text, ti: Text)
    requires FirstPass(orig, ds, pointer, cd, ci, td, ti)
    requires 0 < pointer && ds[pointer - 1].op == Equal
    ensures cd == ci == 0
  {
    hide Normal, Budget, Source, Target, EditChars;
    if cd + ci > 0 {
      LastOfSlice(ds, pointer - cd - ci, pointer);
    }
  }

  lemma LastOfSlice(ds: Script, i: nat, j: nat)
    requires i < j <= |ds|
    ensures ds[i..j][j - i - 1] == ds[j - 1]
  {
  }

  // ------------------------------------------------------------ the shift sweep

  /** Sliding entry i over the equality before it: that equality moves behind it. */
  function SlideBack(ds: Script, i: nat): Script
    requires 0 < i < |ds| - 1 && EndsWith(ds[i].text, ds[i - 1].text)
  {
    var p := ds[i - 1].text;
    ds[..i - 1] + [Diff(ds[i].op, p + Front(ds[i].text, |p|)), Diff(ds[i + 1].op, p + ds[i + 1].text)] + ds[i + 2..]
  }

  /** Sliding entry i over the equality after it: that equality moves in front. */
  function SlideForth(ds: Script, i: nat): Script
    requires 0 < i < |ds| - 1 && StartsWith(ds[i].text, ds[i + 1].text)
  {
    var n := ds[i + 1].text;
    ds[..i - 1] + [Diff(ds[i - 1].op, ds[i - 1].text + n), Diff(ds[i].op, ds[i].text[|n|..] + n)] + ds[i + 2..]
  }

  lemma Around(ds: Script, i: nat)
    requires 0 < i < |ds| - 1
    ensures ds == ds[..i - 1] + [ds[i - 1], ds[i], ds[i + 1]] + ds[i + 2..]
  {
  }

  lemma SlideBackKeeps(ds: Script, i: nat)
    requires 0 < i < |ds| - 1 && EndsWith(ds[i].text, ds[i - 1].text)
    requires ds[i - 1].op == Equal && ds[i + 1].op == Equal
    ensures SameTexts(ds, SlideBack(ds, i))
    ensures EditChars(SlideBack(ds, i)) == EditChars(ds)
    ensures |SlideBack(ds, i)| == |ds| - 1
  {
    var a, d, b := ds[i - 1], ds[i], ds[i + 1];
    var d', b' := Diff(d.op, a.text + Front(d.text, |a.text|)), Diff(Equal, a.text + b.text);
    assert b' == Diff(b.op, a.text + b.text);
    Around(ds, i);
    TwoForThree(ds[..i - 1], a, d, b, d', b', ds[i + 2..]) by {
      FrontLast(d.text, |a.text|);
      assert a.text + d.text + b.text == d'.text + b'.text;
    }
  }

  lemma SlideForthKeeps(ds: Script, i: nat)
    requires 0 < i < |ds| - 1 && StartsWith(ds[i].text, ds[i + 1].text)
    requires ds[i - 1].op == Equal && ds[i + 1].op == Equal
    ensures SameTexts(ds, SlideForth(ds, i))
    ensures EditChars(SlideForth(ds, i)) == EditChars(ds)
    ensures |SlideForth(ds, i)| == |ds| - 1
  {
    var a, d, b := ds[i - 1], ds[i], ds[i + 1];
    var a', d' := Diff(Equal, a.text + b.text), Diff(d.op, d.text[|b.text|..] + b.text);
    assert a' == Diff(a.op, a.text + b.text);
    Around(ds, i);
    assert d.text == b.text + d.text[|b.text|..];
    assert a.text + d.text + b.text == a'.text + d'.text;
    TwoForThree(ds[..i - 1], a, d, b, a', d', ds[i + 2..]);
  }

  /** [equality, entry, equality] may become two entries when both readings agree. */
  lemma TwoForThree(pre: Script, a: Diff, d: Diff, b: Diff, x: Diff, y: Diff, post: Script)
    requires a.op == Equal && b.op == Equal && (x.op == Equal || y.op == Equal)
    requires (x.op == d.op && y.op == Equal) || (y.op == d.op && x.op == Equal)
    requires a.text + d.text + b.text == x.text + y.text
    requires (if x.op == Equal && y.op == d.op then x.text else y.text) == a.text + b.text || d.op == Equal
    requires d.op != Equal ==> |x.text| + |y.text| == |a.text| + |d.text| + |b.text|
    ensures SameTexts(pre + [a, d, b] + post, pre + [x, y] + post)
    ensures EditChars(pre + [a, d, b] + post) == EditChars(pre + [x, y] + post)
  {
    hide Source, Target, EditChars, EqualCount;
    TextsThree(a, d, b);
    TextsTwo(x, y);
    TextsOne(a);
    TextsOne(d);
    TextsOne(b);
    TextsOne(x);
    TextsOne(y);
    SizesThree(a, d, b);
    SizesTwo(x, y);
    SizesOne(a);
    SizesOne(d);
    SizesOne(b);
    SizesOne(x);
    SizesOne(y);
    assert a.text + [] == a.text && [] + y.text == y.text && x.text + [] == x.text;
    SpliceSame(pre, [a, d, b], [x, y], post);
    SizesConcat3(pre, [a, d, b], post);
    SizesConcat3(pre, [x, y], post);
  }

  lemma SlideBackParts(ds: Script, i: nat)
    requires 0 < i < |ds| - 1 && EndsWith(ds[i].text, ds[i - 1].text)
    ensures ds[i - 1].text == [] ==> SlideBack(ds, i) == ds[..i - 1] + ds[i..]
  {
    if ds[i - 1].text == [] {
      assert ds[i - 1].text + Front(ds[i].text, 0) == ds[i].text;
      assert ds[i - 1].text + ds[i + 1].text == ds[i + 1].text;
    }
  }

  /** The three list operations of a slide back. */
  lemma SlideBackEdits(ds: Script, i: nat)
    requires 0 < i < |ds| - 1 && EndsWith(ds[i].text, ds[i - 1].text)
    ensures var p := ds[i - 1].text;
      var x := ds[i := Diff(ds[i].op, p + Front(ds[i].text, |p|))];
      var y := x[i + 1 := Diff(x[i + 1].op, p + x[i + 1].text)];
      y[..i - 1] + y[i..] == SlideBack(ds, i)
  {
  }

  lemma SlideForthEdits(ds: Script, i: nat)
    requires 0 < i < |ds| - 1 && StartsWith(ds[i].text, ds[i + 1].text)
    ensures var n := ds[i + 1].text;
      var x := ds[i - 1 := Diff(ds[i - 1].op, ds[i - 1].text + n)];
      var y := x[i := Diff(x[i].op, x[i].text[|n|..] + n)];
      y[..i + 1] + y[i + 2..] == SlideForth(ds, i)
  {
  }

  /** One position of the sweep. */
  method SlideAt(diffs: DiffList, i: nat) returns (changed: bool)
    requires 0 < i < |diffs.items| - 1
    modifies diffs
    ensures changed <==> CanSlide(old(diffs.items), i)
    ensures var ds := old(diffs.items);
      diffs.items == if !changed then ds
                     else if EndsWith(ds[i].text, ds[i - 1].text) then SlideBack(ds, i) else SlideForth(ds, i)
  {
    changed := false;
    var ds := diffs.items;
    if ds[i - 1].op == Equal && ds[i + 1].op == Equal {
      if EndsWith(ds[i].text, ds[i - 1].text) {
        SlideBackParts(ds, i);
        SlideBackEdits(ds, i);
        hide SlideBack, SlideForth;
        if ds[i - 1].text != [] {
          var p := ds[i - 1].text;
          diffs.items := diffs.items[i := Diff(ds[i].op, p + Front(ds[i].text, |p|))];
          diffs.items := diffs.items[i + 1 := Diff(ds[i + 1].op, p + ds[i + 1].text)];
        }
        diffs.items := diffs.items[..i - 1] + diffs.items[i..];
        changed := true;
      } else if StartsWith(ds[i].text, ds[i + 1].text) {
        SlideForthEdits(ds, i);
        hide SlideBack, SlideForth;
        var n := ds[i + 1].text;
        diffs.items := diffs.items[i - 1 := Diff(ds[i - 1].op, ds[i - 1].text + n)];
        diffs.items := diffs.items[i := Diff(ds[i].op, ds[i].text[|n|..] + n)];
        diffs.items := diffs.items[..i + 1] + diffs.items[i + 2..];
        changed := true;
      }
    }
  }

  lemma SlideKeeps(ds: Script, i: nat, ds': Script)
    requires 0 < i < |ds| - 1 && CanSlide(ds, i)
    requires ds' == if EndsWith(ds[i].text, ds[i - 1].text) then SlideBack(ds, i) else SlideForth(ds, i)
    ensures SameTexts(ds, ds') && EditChars(ds') == EditChars(ds) && |ds'| == |ds| - 1
  {
    if EndsWith(ds[i].text, ds[i - 1].text) {
      SlideBackKeeps(ds, i);
    } else {
      SlideForthKeeps(ds, i);
    }
  }

  /** The second pass of `diff_cleanupMerge`. */
  method SlideEdits(diffs: DiffList) returns (changes: bool)
    modifies diffs
    ensures SameTexts(old(diffs.items), diffs.items)
    ensures EditChars(diffs.items) == EditChars(old(diffs.items))
    ensures changes ==> |diffs.items| < |old(diffs.items)| && 3 <= |old(diffs.items)|
    ensures !changes ==> diffs.items == old(diffs.items)
    ensures !changes ==> forall i: nat | 0 < i < |diffs.items| - 1 :: !CanSlide(diffs.items, i)
  {
    changes := false;
    var pointer := 1;
    while pointer < |diffs.items| - 1
      invariant 1 <= pointer
      invariant SameTexts(old(diffs.items), diffs.items)
      invariant EditChars(diffs.items) == EditChars(old(diffs.items))
      invariant changes ==> |diffs.items| < |old(diffs.items)| && 3 <= |old(diffs.items)|
      invariant !changes ==> diffs.items == old(diffs.items)
      invariant !changes ==> forall i: nat | 0 < i < |diffs.items| - 1 && i < pointer :: !CanSlide(diffs.items, i)
      decreases |diffs.items| - pointer
    {
      ghost var ds := diffs.items;
      var slid := SlideAt(diffs, pointer);
      if slid {
        SlideKeeps(ds, pointer, diffs.items);
        changes := true;
      }
      pointer := pointer + 1;
    }
  }

  /** `diff_cleanupMerge` */
  method CleanupMerge(diffs: DiffList)
    modifies diffs
    ensures SameTexts(old(diffs.items), diffs.items)
    ensures Merged(diffs.items)
    ensures NoLarger(diffs.items, old(diffs.items))
    ensures (forall d :: d in old(diffs.items) ==> d.op == Equal) ==>
      diffs.items == WithoutDummy([Diff(Equal, Source(old(diffs.items)))])
    decreases EditChars(diffs.items), |diffs.items|
  {
    hide Passed;
    JoinedEqualities(diffs.items);
    MergeEdits(diffs);
    var changes := SlideEdits(diffs);
    if changes {
      CleanupMerge(diffs);
    }
  }
}
