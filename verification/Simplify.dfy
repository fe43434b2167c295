/**
 `diff_cleanupSemantic`, `diff_cleanupSemanticLossless` and `diff_cleanupEfficiency`:
 clean-ups that trade short equalities for fewer edits, slide edits to word boundaries
 and pull overlaps out of replacements, all without changing what the diff denotes.
 */
module Simplify {
  import opened Texts
  import opened Diffs
  import opened Dropping
  import opened Merging

  /** The engine's settings, and Python's `str.isalnum` for one character. */
  datatype Settings = Settings(timeout: real, editCost: int, isAlnum: CodePoint -> bool)

  // ------------------------------------------------------------ cleanupSemantic, overlaps

  /** A replacement whose deletion ends in the first o characters of its insertion. */
  lemma ForwardOverlapKeeps(del: Text, ins: Text, o: nat)
    requires IsOverlap(del, ins, o)
    ensures SameTexts([Diff(Delete, del), Diff(Insert, ins)],
                      [Diff(Delete, Front(del, o)), Diff(Equal, ins[..o]), Diff(Insert, ins[o..])])
  {
    PairAndTriple(Diff(Delete, del), Diff(Insert, ins), Diff(Delete, Front(del, o)), Diff(Equal, ins[..o]),
      Diff(Insert, ins[o..]));
    FrontLast(del, o);
    assert ins[..o] + ins[o..] == ins;
  }

  /** A replacement whose insertion ends in the first o characters of its deletion. */
  lemma BackwardOverlapKeeps(del: Text, ins: Text, o: nat)
    requires IsOverlap(ins, del, o)
    ensures SameTexts([Diff(Delete, del), Diff(Insert, ins)],
                      [Diff(Insert, Front(ins, o)), Diff(Equal, del[..o]), Diff(Delete, del[o..])])
  {
    PairAndTriple(Diff(Delete, del), Diff(Insert, ins), Diff(Insert, Front(ins, o)), Diff(Equal, del[..o]),
      Diff(Delete, del[o..]));
    FrontLast(ins, o);
    assert del[..o] + del[o..] == del;
  }

  /** What a replacement with the common part taken out of its two texts denotes. */
  lemma PairAndTriple(d: Diff, i: Diff, x: Diff, y: Diff, z: Diff)
    requires d.op == Delete && i.op == Insert
    ensures Denotes([d, i], d.text, i.text)
    ensures y.op == Equal && x.op == Delete && z.op == Insert ==> Denotes([x, y, z], x.text + y.text, y.text + z.text)
    ensures y.op == Equal && x.op == Insert && z.op == Delete ==> Denotes([x, y, z], y.text + z.text, x.text + y.text)
  {
    PairDenotes(d, i);
    TripleDenotes(x, y, z);
  }

  lemma PairDenotes(d: Diff, i: Diff)
    requires d.op == Delete && i.op == Insert
    ensures Denotes([d, i], d.text, i.text)
  {
    hide Source, Target;
    TextsTwo(d, i);
    TextsOne(d);
    TextsOne(i);
    assert d.text + [] == d.text && [] + i.text == i.text;
  }

  lemma TripleDenotes(x: Diff, y: Diff, z: Diff)
    ensures y.op == Equal && x.op == Delete && z.op == Insert ==> Denotes([x, y, z], x.text + y.text, y.text + z.text)
    ensures y.op == Equal && x.op == Insert && z.op == Delete ==> Denotes([x, y, z], y.text + z.text, x.text + y.text)
  {
    hide Source, Target;
    TextsThree(x, y, z);
    TextsOne(x);
    TextsOne(y);
    TextsOne(z);
    Empties(x.text, y.text, z.text);
  }

  lemma Empties(x: Text, y: Text, z: Text)
    ensures x + y + [] == x + y && [] + y + z == y + z
  {
  }

  /** The longest overlap of at most n characters, by trying every length. */
  ghost function LongestOverlap(a: Text, b: Text, n: nat): (o: nat)
    requires n <= |a| && n <= |b|
    ensures IsOverlap(a, b, o) && forall m :: o < m <= n ==> !IsOverlap(a, b, m)
  {
    if IsOverlap(a, b, n) then n
    else
      assert n > 0;
      LongestOverlap(a, b, n - 1)
  }

  ghost function Overlap(a: Text, b: Text): (o: nat)
    ensures IsOverlap(a, b, o) && forall m :: o < m ==> !IsOverlap(a, b, m)
  {
    LongestOverlap(a, b, Min(|a|, |b|))
  }

  /** A replacement with its longest overlap taken out, if that is half as long as either text. */
  ghost function Extracted(del: Text, ins: Text): Script {
    var f, r := Overlap(del, ins), Overlap(ins, del);
    if f >= r && (2 * f >= |del| || 2 * f >= |ins|) then
      [Diff(Delete, Front(del, f)), Diff(Equal, ins[..f]), Diff(Insert, ins[f..])]
    else if f < r && (2 * r >= |del| || 2 * r >= |ins|) then
      [Diff(Insert, Front(ins, r)), Diff(Equal, del[..r]), Diff(Delete, del[r..])]
    else [Diff(Delete, del), Diff(Insert, ins)]
  }

  lemma ExtractedKeeps(del: Text, ins: Text)
    ensures SameTexts([Diff(Delete, del), Diff(Insert, ins)], Extracted(del, ins))
    ensures Extracted(del, ins) == [Diff(Delete, del), Diff(Insert, ins)] || |Extracted(del, ins)| == 3
    ensures forall o :: IsOverlap(del, ins, o) && (2 * o >= |del| || 2 * o >= |ins|) ==>
      |Extracted(del, ins)| == 3 && |Extracted(del, ins)[1].text| >= o
  {
    hide Source, Target, LongestOverlap;
    ForwardOverlapKeeps(del, ins, Overlap(del, ins));
    BackwardOverlapKeeps(del, ins, Overlap(ins, del));
  }

  /** Every deletion followed by an insertion, from the front on, has its overlap extracted. */
  ghost function ExtractedAll(ds: Script): Script {
    if |ds| < 2 then ds
    else if ds[0].op == Delete && ds[1].op == Insert then Extracted(ds[0].text, ds[1].text) + ExtractedAll(ds[2..])
    else [ds[0]] + ExtractedAll(ds[1..])
  }

  lemma {:induction false} ExtractedAllKeeps(ds: Script)
    ensures SameTexts(ds, ExtractedAll(ds))
  {
    if |ds| >= 2 {
      if ds[0].op == Delete && ds[1].op == Insert {
        ExtractedAllKeeps(ds[2..]);
        ExtractedKeeps(ds[0].text, ds[1].text);
        assert ds == [ds[0], ds[1]] + ds[2..];
        hide Source, Target, Extracted;
        TextsConcat([ds[0], ds[1]], ds[2..]);
        TextsConcat(Extracted(ds[0].text, ds[1].text), ExtractedAll(ds[2..]));
      } else {
        ExtractedAllKeeps(ds[1..]);
        assert ds == [ds[0]] + ds[1..];
        hide Source, Target, Extracted;
        TextsConcat([ds[0]], ds[1..]);
        TextsConcat([ds[0]], ExtractedAll(ds[1..]));
      }
    }
  }

  lemma OverlapUnique(a: Text, b: Text, n: nat)
    requires IsOverlap(a, b, n) && forall m :: n < m ==> !IsOverlap(a, b, m)
    ensures n == Overlap(a, b)
  {
  }

  /** What the loop makes of one replacement; the same two entries if no overlap is large enough. */
  method ExtractOverlap(del: Text, ins: Text) returns (out: Script)
    ensures out == Extracted(del, ins)
  {
    var forward := CommonOverlap(del, ins);
    var backward := CommonOverlap(ins, del);
    OverlapUnique(del, ins, forward);
    OverlapUnique(ins, del, backward);
    hide Overlap, IsOverlap;
    out := [Diff(Delete, del), Diff(Insert, ins)];
    if forward >= backward {
      if 2 * forward >= |del| || 2 * forward >= |ins| {
        out := [Diff(Delete, Front(del, forward)), Diff(Equal, ins[..forward]), Diff(Insert, ins[forward..])];
      }
    } else {
      if 2 * backward >= |del| || 2 * backward >= |ins| {
        out := [Diff(Insert, Front(ins, backward)), Diff(Equal, del[..backward]), Diff(Delete, del[backward..])];
      }
    }
  }

  lemma ExtractedAllPair(ds: Script)
    requires |ds| >= 2 && ds[0].op == Delete && ds[1].op == Insert
    ensures ExtractedAll(ds) == Extracted(ds[0].text, ds[1].text) + ExtractedAll(ds[2..])
  {
  }

  lemma ExtractedAllOther(ds: Script)
    requires |ds| >= 2 && !(ds[0].op == Delete && ds[1].op == Insert)
    ensures ExtractedAll(ds) == [ds[0]] + ExtractedAll(ds[1..])
  {
  }

  /** One entry inserted between two that are overwritten. */
  method WriteThree(diffs: DiffList, pointer: nat, out: Script)
    requires 1 <= pointer < |diffs.items| && |out| == 3
    modifies diffs
    ensures diffs.items == old(diffs.items)[..pointer - 1] + out + old(diffs.items)[pointer + 1..]
  {
    diffs.items := diffs.items[..pointer] + [out[1]] + diffs.items[pointer..];
    diffs.items := diffs.items[pointer - 1 := out[0]];
    diffs.items := diffs.items[pointer + 1 := out[2]];
  }

  /** Extract the overlap of the two entries before the pointer, the first of `rest`. */
  method ExtractAt(diffs: DiffList, pointer: nat, ghost done: Script, ghost rest: Script) returns (next: nat)
    requires 1 <= pointer < |diffs.items| && diffs.items == done + rest && pointer - 1 == |done|
    requires diffs.items[pointer - 1].op == Delete && diffs.items[pointer].op == Insert
    modifies diffs
    ensures |rest| >= 2 && rest[0].op == Delete && rest[1].op == Insert
    ensures var out := Extracted(rest[0].text, rest[1].text);
      diffs.items == done + out + rest[2..] && next - 1 == |done + out|
  {
    var d, e := diffs.items[pointer - 1], diffs.items[pointer];
    var out := ExtractOverlap(d.text, e.text);
    ExtractedKeeps(d.text, e.text);
    assert rest == [d, e] + rest[2..];
    hide Extracted, Source, Target;
    next := pointer;
    if |out| == 3 {
      WriteThree(diffs, pointer, out);
      next := next + 1;
    }
    next := next + 2;
  }

  /** The last loop of `diff_cleanupSemantic`. */
  method ExtractOverlaps(diffs: DiffList)
    modifies diffs
    ensures diffs.items == ExtractedAll(old(diffs.items))
  {
    hide ExtractedAll, Extracted;
    var pointer: nat := 1;
    ghost var done: Script, rest := [], diffs.items;
    while pointer < |diffs.items|
      invariant 1 <= pointer && pointer - 1 == |done| && diffs.items == done + rest
      invariant ExtractedAll(old(diffs.items)) == done + ExtractedAll(rest)
      decreases |diffs.items| - pointer
    {
      if diffs.items[pointer - 1].op == Delete && diffs.items[pointer].op == Insert {
        pointer := ExtractAt(diffs, pointer, done, rest);
        ExtractedAllPair(rest);
        done, rest := done + Extracted(rest[0].text, rest[1].text), rest[2..];
      } else {
        ExtractedAllOther(rest);
        assert rest == [rest[0]] + rest[1..];
        done, rest := done + [rest[0]], rest[1..];
        pointer := pointer + 1;
      }
    }
    ExtractedAllShort(rest);
  }

  lemma ExtractedAllShort(ds: Script)
    requires |ds| < 2
    ensures ExtractedAll(ds) == ds
  {
  }

  // ------------------------------------------------------------ cleanupSemanticLossless

  /** An edit between two equalities. */
  datatype Window = Window(before: Text, edit: Text, after: Text)

  /** Two windows that read the same with and without the edit. */
  ghost predicate SameWindow(a: Window, b: Window) {
    && a.before + a.edit + a.after == b.before + b.edit + b.after
    && a.before + a.after == b.before + b.after
  }

  predicate CanStep(w: Window) {
    w.edit != [] && w.after != [] && w.edit[0] == w.after[0]
  }

  /** The edit moved one character to the right. */
  function Step(w: Window): Window
    requires CanStep(w)
  {
    Window(w.before + [w.edit[0]], w.edit[1..] + [w.after[0]], w.after[1..])
  }

  /** The edit can be moved n times, and each position on the way. */
  ghost predicate CanSteps(w: Window, n: nat)
    decreases n
  {
    n == 0 || (CanStep(w) && CanSteps(Step(w), n - 1))
  }

  ghost function Steps(w: Window, n: nat): Window
    requires CanSteps(w, n)
    decreases n
  {
    if n == 0 then w else Steps(Step(w), n - 1)
  }

  /** The edit moved as far left as the equality before it allows. */
  function Leftmost(w: Window): Window {
    var c := SuffixLen(w.before, w.edit);
    Window(Front(w.before, c), Last(w.edit, c) + Front(w.edit, c), Last(w.edit, c) + w.after)
  }

  lemma StepSame(w: Window)
    requires CanStep(w)
    ensures SameWindow(w, Step(w)) && |Step(w).after| < |w.after|
  {
    var c := w.edit[0];
    assert w.edit == [c] + w.edit[1..] && w.after == [c] + w.after[1..];
    assert w.before + w.edit + w.after == w.before + [c] + (w.edit[1..] + [c]) + w.after[1..];
    assert w.before + w.after == w.before + [c] + w.after[1..];
  }

  lemma LeftmostSame(w: Window)
    ensures SameWindow(w, Leftmost(w))
  {
    var c := SuffixLen(w.before, w.edit);
    SuffixCut(w.before, w.edit);
    FrontLast(w.before, c);
    FrontLast(w.edit, c);
    var x, y, s := Front(w.before, c), Front(w.edit, c), Last(w.edit, c);
    assert w.before == x + s && w.edit == y + s;
    Regroup(x, y, s, w.after);
  }

  lemma Regroup(x: Text, y: Text, s: Text, after: Text)
    ensures x + s + (y + s) + after == x + (s + y) + (s + after)
    ensures x + s + after == x + (s + after)
  {
  }

  lemma {:induction false} StepsSnoc(w: Window, n: nat)
    requires CanSteps(w, n)
    ensures CanSteps(w, n + 1) <==> CanStep(Steps(w, n))
    ensures CanStep(Steps(w, n)) ==> Steps(w, n + 1) == Step(Steps(w, n))
    decreases n
  {
    if n > 0 {
      StepsSnoc(Step(w), n - 1);
    }
  }

  /** How well a boundary between two texts falls: 6 (edge) down to 0. */
  function Score(cfg: Settings, one: Text, two: Text): (r: nat)
    ensures r <= 6 && (r == 6 <==> one == [] || two == [])
  {
    if one == [] || two == [] then 6 else
    var c1, c2 := one[|one| - 1], two[0];
    var na1, na2 := !cfg.isAlnum(c1), !cfg.isAlnum(c2);
    var ws1, ws2 := na1 && IsSpace(c1), na2 && IsSpace(c2);
    var lb1, lb2 := ws1 && (c1 == 13 || c1 == 10), ws2 && (c2 == 13 || c2 == 10);
    var bl1, bl2 := lb1 && BlankLineEnd(one), lb2 && BlankLineStart(two);
    if bl1 || bl2 then 5
    else if lb1 || lb2 then 4
    else if na1 && !ws1 && ws2 then 3
    else if ws1 || ws2 then 2
    else if na1 || na2 then 1
    else 0
  }

  /** The regular expression \n\r?\n$ matches somewhere. */
  predicate BlankLineEnd(s: Text) {
    EndsWith(s, [10, 10]) || EndsWith(s, [10, 13, 10])
  }

  /** The regular expression ^\r?\n\r?\n matches. */
  predicate BlankLineStart(s: Text) {
    StartsWith(s, [10, 10]) || StartsWith(s, [13, 10, 10]) || StartsWith(s, [10, 13, 10])
      || StartsWith(s, [13, 10, 13, 10])
  }

  /** What is neither a letter nor a digit scores, more so a space, a line break, a blank line. */
  lemma ScoreMeaning(cfg: Settings, one: Text, two: Text)
    ensures one == [] || two == [] <==> Score(cfg, one, two) == 6
    ensures one != [] && two != [] ==>
      var c1, c2, r := one[|one| - 1], two[0], Score(cfg, one, two);
      var other1, other2 := !cfg.isAlnum(c1), !cfg.isAlnum(c2);
      var break1, break2 := other1 && c1 in {10, 13}, other2 && c2 in {10, 13};
      && (r == 5 <==>
            || (break1 && (EndsWith(one, [10, 10]) || EndsWith(one, [10, 13, 10])))
            || (break2 && (|| StartsWith(two, [10, 10]) || StartsWith(two, [13, 10, 10])
                           || StartsWith(two, [10, 13, 10]) || StartsWith(two, [13, 10, 13, 10]))))
      && (r >= 4 <==> break1 || break2)
      && (r == 3 <==> !break1 && !break2 && other1 && !IsSpace(c1) && other2 && IsSpace(c2))
      && (r >= 2 <==> (other1 && IsSpace(c1)) || (other2 && IsSpace(c2)))
      && (r >= 1 <==> other1 || other2)
  {
  }

  function WindowScore(cfg: Settings, w: Window): nat {
    Score(cfg, w.before, w.edit) + Score(cfg, w.edit, w.after)
  }

  /** `n` steps from `left` is the best position, and the last of the equally good ones. */
  ghost predicate BestPosition(cfg: Settings, left: Window, n: nat) {
    && CanSteps(left, n)
    && forall m: nat | CanSteps(left, m) ::
         if m <= n then WindowScore(cfg, Steps(left, m)) <= WindowScore(cfg, Steps(left, n))
         else WindowScore(cfg, Steps(left, m)) < WindowScore(cfg, Steps(left, n))
  }

  /** Shift the edit as far left as possible. */
  method ShiftLeft(w: Window) returns (left: Window)
    ensures left == Leftmost(w)
  {
    left := w;
    var offset := CommonSuffix(w.before, w.edit);
    if offset != 0 {
      var common := Last(w.edit, offset);
      left := Window(Front(w.before, offset), common + Front(w.edit, offset), common + w.after);
    } else {
      assert Last(w.edit, 0) + Front(w.edit, 0) == w.edit && Last(w.edit, 0) + w.after == w.after;
    }
  }

  /** There is one best position. */
  lemma BestUnique(cfg: Settings, left: Window, n: nat, m: nat)
    requires BestPosition(cfg, left, n) && BestPosition(cfg, left, m)
    ensures n == m
  {
  }

  lemma BestExists(cfg: Settings, w: Window) returns (n: nat)
    ensures BestPosition(cfg, Leftmost(w), n)
    ensures SameWindow(w, Steps(Leftmost(w), n)) && |Steps(Leftmost(w), n).edit| == |w.edit|
  {
    hide SuffixLen, Score, WindowScore, Leftmost, CanStep, Step;
    var left := Leftmost(w);
    LeftmostSame(w);
    var cur, k: nat := left, 0;
    n := 0;
    while CanStep(cur)
      invariant CanSteps(left, k) && cur == Steps(left, k) && SameWindow(w, cur)
      invariant n <= k && CanSteps(left, n) && SameWindow(w, Steps(left, n))
      invariant BestSoFar(cfg, left, n, k)
      decreases |cur.after|
    {
      StepsSnoc(left, k);
      StepSame(cur);
      cur, k := Step(cur), k + 1;
      var was := n;
      if WindowScore(cfg, cur) >= WindowScore(cfg, Steps(left, n)) {
        n := k;
      }
      BestExtends(cfg, left, was, n, k);
    }
    StepsSnoc(left, k);
    BestFound(cfg, left, n, k);
    var best := Steps(left, n);
    assert |best.before + best.edit + best.after| == |w.before + w.edit + w.after|;
    assert |best.before + best.after| == |w.before + w.after|;
  }

  /** The window with its edit in the best position. */
  ghost function Best(cfg: Settings, w: Window): (b: Window)
    ensures SameWindow(w, b) && |b.edit| == |w.edit|
    ensures exists n: nat :: BestPosition(cfg, Leftmost(w), n) && b == Steps(Leftmost(w), n)
  {
    var at := BestAt(cfg, w);
    Steps(Leftmost(w), at)
  }

  /** The best position, which leaves the window's texts as they are. */
  ghost predicate IsBestAt(cfg: Settings, w: Window, n: nat) {
    && BestPosition(cfg, Leftmost(w), n)
    && SameWindow(w, Steps(Leftmost(w), n)) && |Steps(Leftmost(w), n).edit| == |w.edit|
  }

  ghost function BestAt(cfg: Settings, w: Window): (n: nat)
    ensures IsBestAt(cfg, w, n)
  {
    BestIsThere(cfg, w);
    var n: nat :| IsBestAt(cfg, w, n);
    n
  }

  lemma BestIsThere(cfg: Settings, w: Window)
    ensures exists n: nat :: IsBestAt(cfg, w, n)
  {
    var n := BestExists(cfg, w);
    assert IsBestAt(cfg, w, n);
  }

  /** Step the edit right from its leftmost position, looking for the best fit. */
  method BestWindow(cfg: Settings, w: Window) returns (best: Window)
    ensures best == Best(cfg, w)
  {
    hide SuffixLen, Score, WindowScore, Leftmost, CanStep, Step;
    var cur := ShiftLeft(w);
    ghost var left := Leftmost(w);
    best := cur;
    var bestScore := WindowScore(cfg, cur);
    ghost var k: nat, at: nat := 0, 0;
    while CanStep(cur)
      invariant CanSteps(left, k) && cur == Steps(left, k)
      invariant at <= k && CanSteps(left, at) && best == Steps(left, at)
      invariant bestScore == WindowScore(cfg, best)
      invariant BestSoFar(cfg, left, at, k)
      decreases |cur.after|
    {
      StepsSnoc(left, k);
      StepSame(cur);
      cur := Step(cur);
      k := k + 1;
      var score := WindowScore(cfg, cur);
      ghost var wasAt := at;
      if score >= bestScore {
        bestScore := score;
        best := cur;
        at := k;
      }
      BestExtends(cfg, left, wasAt, at, k);
    }
    StepsSnoc(left, k);
    BestFound(cfg, left, at, k);
    BestUnique(cfg, left, at, BestAt(cfg, w));
  }

  lemma BestFound(cfg: Settings, left: Window, at: nat, k: nat)
    requires at <= k && CanSteps(left, at) && BestSoFar(cfg, left, at, k)
    requires CanSteps(left, k) && !CanSteps(left, k + 1)
    ensures BestPosition(cfg, left, at)
  {
    forall m: nat | CanSteps(left, m) ensures m <= k {
      if m > k {
        StepsPrefix(left, k + 1, m);
      }
    }
  }

  ghost predicate BestSoFar(cfg: Settings, left: Window, at: nat, k: nat)
    requires CanSteps(left, at)
  {
    forall m: nat | m <= k && CanSteps(left, m) ::
      if m <= at then WindowScore(cfg, Steps(left, m)) <= WindowScore(cfg, Steps(left, at))
      else WindowScore(cfg, Steps(left, m)) < WindowScore(cfg, Steps(left, at))
  }

  lemma BestExtends(cfg: Settings, left: Window, at: nat, at': nat, k: nat)
    requires k > 0 && CanSteps(left, k) && CanSteps(left, at) && at < k && BestSoFar(cfg, left, at, k - 1)
    requires at' == if WindowScore(cfg, Steps(left, k)) >= WindowScore(cfg, Steps(left, at)) then k else at
    ensures BestSoFar(cfg, left, at', k)
  {
  }

  lemma {:induction false} StepsPrefix(w: Window, n: nat, m: nat)
    requires n <= m && CanSteps(w, m)
    ensures CanSteps(w, n)
    decreases n
  {
    if n > 0 {
      StepsPrefix(Step(w), n - 1, m - 1);
    }
  }

  lemma WindowMeans(a: Diff, d: Diff, b: Diff)
    requires a.op == Equal && b.op == Equal
    ensures Source([a, d, b]) == if d.op == Insert then a.text + b.text else a.text + d.text + b.text
    ensures Target([a, d, b]) == if d.op == Delete then a.text + b.text else a.text + d.text + b.text
  {
    TextsThree(a, d, b);
    TextsOne(a);
    TextsOne(d);
    TextsOne(b);
    assert a.text + [] + b.text == a.text + b.text;
  }

  /** The three entries of a window, with empty equalities left out. */
  function Unwindow(op: Op, w: Window): Script {
    (if w.before == [] then [] else [Diff(Equal, w.before)]) + [Diff(op, w.edit)]
    + (if w.after == [] then [] else [Diff(Equal, w.after)])
  }

  lemma UnwindowSame(a: Diff, d: Diff, b: Diff, w: Window)
    requires a.op == Equal && b.op == Equal && SameWindow(Window(a.text, d.text, b.text), w)
    ensures SameTexts([a, d, b], Unwindow(d.op, w))
    ensures |w.edit| == |d.text| ==> EditChars([a, d, b]) == EditChars(Unwindow(d.op, w))
  {
    var a', d', b' := Diff(Equal, w.before), Diff(d.op, w.edit), Diff(Equal, w.after);
    hide Source, Target, EditChars;
    TextsNone();
    WindowMeans(a, d, b);
    WindowMeans(a', d', b');
    TextsThree(a', d', b');
    TextsOne(a');
    TextsOne(b');
    var p: Script, q: Script := if w.before == [] then [] else [a'], if w.after == [] then [] else [b'];
    TextsConcat3(p, [d'], q);
    assert [] + Source([d']) == Source([d']) && [] + Target([d']) == Target([d']);
    UnwindowSize(a, d, b, w);
  }

  lemma UnwindowSize(a: Diff, d: Diff, b: Diff, w: Window)
    requires a.op == Equal && b.op == Equal
    ensures |w.edit| == |d.text| ==> EditChars([a, d, b]) == EditChars(Unwindow(d.op, w))
  {
    var a', d', b' := Diff(Equal, w.before), Diff(d.op, w.edit), Diff(Equal, w.after);
    SizesThree(a, d, b);
    SizesOne(a);
    SizesOne(d);
    SizesOne(b);
    SizesOne(a');
    SizesOne(d');
    SizesOne(b');
    var p: Script, q: Script := if w.before == [] then [] else [a'], if w.after == [] then [] else [b'];
    SizesConcat3(p, [d'], q);
  }

  /** Write the best window back: overwrite the edit, overwrite or delete the equalities around it. */
  method WriteWindow(diffs: DiffList, pointer: nat, w: Window) returns (at: int)
    requires 1 <= pointer < |diffs.items| - 1
    requires diffs.items[pointer - 1].op == Equal && diffs.items[pointer + 1].op == Equal
    requires w.before != [] || w.after != []
    modifies diffs
    ensures diffs.items ==
      old(diffs.items)[..pointer - 1] + Unwindow(old(diffs.items)[pointer].op, w) + old(diffs.items)[pointer + 2..]
    ensures 0 <= at && |diffs.items| - at == |old(diffs.items)| - pointer
  {
    at := pointer;
    if w.before != [] {
      diffs.items := diffs.items[at - 1 := Diff(diffs.items[at - 1].op, w.before)];
    } else {
      diffs.items := diffs.items[..at - 1] + diffs.items[at..];
      at := at - 1;
    }
    diffs.items := diffs.items[at := Diff(diffs.items[at].op, w.edit)];
    if w.after != [] {
      diffs.items := diffs.items[at + 1 := Diff(diffs.items[at + 1].op, w.after)];
    } else {
      diffs.items := diffs.items[..at + 1] + diffs.items[at + 2..];
      at := at - 1;
    }
  }

  /** The entry at p stands between two equalities. */
  predicate Surrounded(ds: Script, p: nat) {
    1 <= p && p + 1 < |ds| && ds[p - 1].op == Equal && ds[p + 1].op == Equal
  }

  function WindowAt(ds: Script, p: nat): Window
    requires Surrounded(ds, p)
  {
    Window(ds[p - 1].text, ds[p].text, ds[p + 1].text)
  }

  /** The list with the window at p replaced. */
  function Rewindowed(ds: Script, p: nat, w: Window): Script
    requires Surrounded(ds, p)
  {
    ds[..p - 1] + Unwindow(ds[p].op, w) + ds[p + 2..]
  }

  /** The pass from p on: every edit between two equalities goes to its best position in turn. */
  ghost function ShiftedFrom(cfg: Settings, ds: Script, p: nat): Script
    decreases |ds| - p
  {
    if p + 1 >= |ds| then ds
    else if Surrounded(ds, p) && WindowAt(ds, p).before != Best(cfg, WindowAt(ds, p)).before then
      var ds' := Rewindowed(ds, p, Best(cfg, WindowAt(ds, p)));
      ShiftedFrom(cfg, ds', |ds'| - (|ds| - p) + 1)
    else ShiftedFrom(cfg, ds, p + 1)
  }

  /** Where the edit of "The c[at c]ame." can stand, from the left. */
  lemma CatWindows(w: Window) returns (w0: Window, w1: Window, w2: Window, w3: Window)
    requires w == Window(Ascii("The c"), Ascii("at c"), Ascii("ame."))
    ensures w0 == Leftmost(w) == Window(Ascii("The"), Ascii(" cat"), Ascii(" came."))
    ensures w1 == Window(Ascii("The "), Ascii("cat "), Ascii("came."))
    ensures w2 == w && w3 == Window(Ascii("The ca"), Ascii("t ca"), Ascii("me."))
    ensures CanStep(w0) && Step(w0) == w1 && CanStep(w1) && Step(w1) == w2 && CanStep(w2) && Step(w2) == w3
    ensures !CanStep(w3)
  {
    w0 := Window(Ascii("The"), Ascii(" cat"), Ascii(" came."));
    w1 := Window(Ascii("The "), Ascii("cat "), Ascii("came."));
    w2, w3 := w, Window(Ascii("The ca"), Ascii("t ca"), Ascii("me."));
    CatSuffix(w.before, w.edit);
    CatLeftmost(w);
    hide SuffixLen, Leftmost;
  }

  lemma CatLeftmost(w: Window)
    requires w == Window(Ascii("The c"), Ascii("at c"), Ascii("ame.")) && SuffixLen(w.before, w.edit) == 2
    ensures Leftmost(w) == Window(Ascii("The"), Ascii(" cat"), Ascii(" came."))
  {
    hide SuffixLen;
  }

  lemma CatSuffix(before: Text, edit: Text)
    requires before == Ascii("The c") && edit == Ascii("at c")
    ensures SuffixLen(before, edit) == 2
  {
    assert Last(before, 2) == [32, 99] == Last(edit, 2);
    assert Last(before, 3)[0] == 101 && Last(edit, 3)[0] == 116;
    SuffixExact(before, edit, 2);
    SuffixExact(before, edit, 3);
  }

  lemma CatScores(cfg: Settings)
    requires !cfg.isAlnum(32) && forall c | 65 <= c <= 122 :: cfg.isAlnum(c)
    ensures WindowScore(cfg, Window(Ascii("The"), Ascii(" cat"), Ascii(" came."))) == 4
    ensures WindowScore(cfg, Window(Ascii("The "), Ascii("cat "), Ascii("came."))) == 4
    ensures WindowScore(cfg, Window(Ascii("The c"), Ascii("at c"), Ascii("ame."))) == 0
    ensures WindowScore(cfg, Window(Ascii("The ca"), Ascii("t ca"), Ascii("me."))) == 0
  {
  }

  /** The last of the four positions with the best score is the second. */
  lemma CatBest(cfg: Settings, w: Window, w0: Window, w1: Window, w2: Window, w3: Window)
    requires w0 == Leftmost(w) && CanStep(w0) && Step(w0) == w1 && CanStep(w1) && Step(w1) == w2
    requires CanStep(w2) && Step(w2) == w3 && !CanStep(w3)
    requires WindowScore(cfg, w0) <= WindowScore(cfg, w1)
    requires WindowScore(cfg, w2) < WindowScore(cfg, w1) && WindowScore(cfg, w3) < WindowScore(cfg, w1)
    ensures Best(cfg, w) == w1
  {
    BestIsThere(cfg, w);
    hide Step, CanStep, WindowScore, Leftmost;
    assert !CanSteps(w3, 1) && !CanSteps(w2, 2) && !CanSteps(w1, 3) && !CanSteps(w0, 4);
    assert CanSteps(w3, 0) && CanSteps(w2, 1) && CanSteps(w1, 2) && CanSteps(w0, 3);
    assert CanSteps(w2, 0) && CanSteps(w1, 1) && CanSteps(w0, 2) && CanSteps(w1, 0) && CanSteps(w0, 1);
    assert Steps(w2, 1) == w3 && Steps(w1, 1) == w2 && Steps(w1, 2) == w3;
    assert Steps(w0, 1) == w1 && Steps(w0, 2) == w2 && Steps(w0, 3) == w3;
    forall m: nat | CanSteps(w0, m) ensures m <= 3 {
      if m > 3 {
        StepsPrefix(w0, 4, m);
      }
    }
    assert BestPosition(cfg, w0, 1);
  }

  /** "The c[at c]ame." becomes "The [cat ]came." */
  lemma CatCame(cfg: Settings, op: Op)
    requires op != Equal && !cfg.isAlnum(32) && forall c | 65 <= c <= 122 :: cfg.isAlnum(c)
    ensures
      ShiftedFrom(cfg, [Diff(Equal, Ascii("The c")), Diff(op, Ascii("at c")), Diff(Equal, Ascii("ame."))], 1)
      == [Diff(Equal, Ascii("The ")), Diff(op, Ascii("cat ")), Diff(Equal, Ascii("came."))]
  {
    var w := Window(Ascii("The c"), Ascii("at c"), Ascii("ame."));
    var w0, w1, w2, w3 := CatWindows(w);
    CatScores(cfg);
    CatBest(cfg, w, w0, w1, w2, w3);
    hide Best, Ascii, Score, WindowScore, Leftmost, Step, CanStep;
    var ds := [Diff(Equal, w.before), Diff(op, w.edit), Diff(Equal, w.after)];
    assert WindowAt(ds, 1) == w;
    assert Rewindowed(ds, 1, w1) == Unwindow(op, w1);
  }

  lemma RewindowedKeeps(cfg: Settings, ds: Script, p: nat)
    requires Surrounded(ds, p)
    ensures var ds' := Rewindowed(ds, p, Best(cfg, WindowAt(ds, p)));
      SameTexts(ds, ds') && EditChars(ds) == EditChars(ds')
  {
    var pre, post, best := ds[..p - 1], ds[p + 2..], Best(cfg, WindowAt(ds, p));
    var three, parts := [ds[p - 1], ds[p], ds[p + 1]], Unwindow(ds[p].op, best);
    Around(ds, p);
    UnwindowSame(ds[p - 1], ds[p], ds[p + 1], best);
    hide Source, Target, EditChars, EqualCount, Best, Unwindow;
    SpliceSame(pre, three, parts, post);
    SizesConcat3(pre, three, post);
    SizesConcat3(pre, parts, post);
  }

  lemma {:induction false} ShiftedKeeps(cfg: Settings, ds: Script, p: nat)
    ensures SameTexts(ds, ShiftedFrom(cfg, ds, p)) && EditChars(ds) == EditChars(ShiftedFrom(cfg, ds, p))
    decreases |ds| - p
  {
    hide Source, Target, EditChars, Best;
    if p + 1 < |ds| {
      if Surrounded(ds, p) && WindowAt(ds, p).before != Best(cfg, WindowAt(ds, p)).before {
        var ds' := Rewindowed(ds, p, Best(cfg, WindowAt(ds, p)));
        RewindowedKeeps(cfg, ds, p);
        ShiftedKeeps(cfg, ds', |ds'| - (|ds| - p) + 1);
      } else {
        ShiftedKeeps(cfg, ds, p + 1);
      }
    }
  }

  lemma ShiftedStep(cfg: Settings, ds: Script, p: nat)
    requires p + 1 < |ds|
    ensures !Surrounded(ds, p) ==> ShiftedFrom(cfg, ds, p) == ShiftedFrom(cfg, ds, p + 1)
    ensures Surrounded(ds, p) ==> var w := WindowAt(ds, p); var best := Best(cfg, w);
      ShiftedFrom(cfg, ds, p) ==
        if w.before != best.before
        then var ds' := Rewindowed(ds, p, best); ShiftedFrom(cfg, ds', |ds'| - (|ds| - p) + 1)
        else ShiftedFrom(cfg, ds, p + 1)
  {
    hide Best, Unwindow, Rewindowed, WindowAt, Surrounded;
  }

  /** One position: write the best window back if the edit moved. */
  method ShiftAt(cfg: Settings, diffs: DiffList, pointer: nat) returns (next: nat)
    requires 1 <= pointer && pointer + 1 < |diffs.items|
    modifies diffs
    ensures 1 <= next && |diffs.items| - next == |old(diffs.items)| - pointer - 1
    ensures ShiftedFrom(cfg, diffs.items, next) == ShiftedFrom(cfg, old(diffs.items), pointer)
  {
    var ds := diffs.items;
    ShiftedStep(cfg, ds, pointer);
    hide ShiftedFrom, Best, Unwindow;
    next := pointer;
    if ds[pointer - 1].op == Equal && ds[pointer + 1].op == Equal {
      var w := Window(ds[pointer - 1].text, ds[pointer].text, ds[pointer + 1].text);
      var best := BestWindow(cfg, w);
      if w.before != best.before {
        assert |best.before + best.after| == |w.before + w.after|;
        next := WriteWindow(diffs, pointer, best);
      }
    }
    next := next + 1;
  }

  /**
   `diff_cleanupSemanticLossless`. The pointer never drops below 1, so the entry before
   it is always the list's own: a window cannot lose both of its equalities.
   */
  method CleanupSemanticLossless(cfg: Settings, diffs: DiffList)
    modifies diffs
    ensures diffs.items == ShiftedFrom(cfg, old(diffs.items), 1)
    ensures SameTexts(old(diffs.items), diffs.items)
    ensures EditChars(diffs.items) == EditChars(old(diffs.items))
  {
    var pointer := 1;
    ShiftedKeeps(cfg, diffs.items, 1);
    hide SameTexts, Best;
    while pointer < |diffs.items| - 1
      invariant 1 <= pointer
      invariant ShiftedFrom(cfg, old(diffs.items), 1) == ShiftedFrom(cfg, diffs.items, pointer)
      decreases |diffs.items| - pointer
    {
      pointer := ShiftAt(cfg, diffs, pointer);
    }
  }

  /** What `diff_cleanupSemantic` makes of a list: drop, merge if anything was dropped, shift, extract. */
  ghost predicate SemanticallyClean(cfg: Settings, before: Script, dropped: Script, merged: Script, after: Script) {
    && DropsTo(TrivialJudge(), before, dropped) && Settled(TrivialJudge(), dropped, |dropped|)
    && (Settled(TrivialJudge(), before, |before|) ==> merged == dropped == before)
    && (!Settled(TrivialJudge(), before, |before|) ==>
          SameTexts(dropped, merged) && Merged(merged) && NoLarger(merged, dropped))
    && after == ExtractedAll(ShiftedFrom(cfg, merged, 1))
  }

  /**
   `diff_cleanupSemantic`: drop the trivial equalities one by one, merge if any was dropped,
   shift the edits to their best positions, extract the overlaps.
   */
  method CleanupSemantic(cfg: Settings, diffs: DiffList) returns (ghost dropped: Script, ghost merged: Script)
    modifies diffs
    ensures SameTexts(old(diffs.items), diffs.items)
    ensures DropsTo(TrivialJudge(), old(diffs.items), dropped) && Settled(TrivialJudge(), dropped, |dropped|)
    ensures Settled(TrivialJudge(), old(diffs.items), |old(diffs.items)|) ==> merged == dropped == old(diffs.items)
    ensures !Settled(TrivialJudge(), old(diffs.items), |old(diffs.items)|) ==>
      SameTexts(dropped, merged) && Merged(merged) && NoLarger(merged, dropped)
    ensures diffs.items == ExtractedAll(ShiftedFrom(cfg, merged, 1))
  {
    hide Settled, DropsTo, TrivialJudge, Merged, NoLarger, Source, Target, EditChars, ShiftedFrom, ExtractedAll;
    var changes := DropTrivialEqualities(diffs);
    dropped := diffs.items;
    if changes {
      CleanupMerge(diffs);
    }
    merged := diffs.items;
    CleanupSemanticLossless(cfg, diffs);
    ExtractedAllKeeps(diffs.items);
    ExtractOverlaps(diffs);
  }

  // ------------------------------------------------------------ cleanupEfficiency

  /** `diff_cleanupEfficiency`: drop the inefficient equalities one by one, and merge if there was one. */
  method CleanupEfficiency(cfg: Settings, diffs: DiffList) returns (ghost dropped: Script)
    modifies diffs
    ensures SameTexts(old(diffs.items), diffs.items)
    ensures var judge := InefficientJudge(cfg.editCost);
      DropsTo(judge, old(diffs.items), dropped) && Settled(judge, dropped, |dropped|)
    ensures Settled(InefficientJudge(cfg.editCost), old(diffs.items), |old(diffs.items)|) ==>
      diffs.items == old(diffs.items)
    ensures !Settled(InefficientJudge(cfg.editCost), old(diffs.items), |old(diffs.items)|) ==>
      Merged(diffs.items) && NoLarger(diffs.items, dropped)
  {
    hide Settled, DropsTo, InefficientJudge, Merged, NoLarger, Source, Target, EditChars;
    var changes := DropInefficientEqualities(cfg.editCost, diffs);
    dropped := diffs.items;
    if changes {
      CleanupMerge(diffs);
    }
  }
}
