/**
 The scanning loops of `diff_cleanupSemantic` and `diff_cleanupEfficiency`. Both walk the
 list with a stack of equalities, turn an unwanted equality into a deletion and an
 insertion, and retreat to look at the one before it again.
 */
module Dropping {
  import opened Texts
  import opened Diffs

  // ------------------------------------------------------------ splitting an equality

  /** The equality at e becomes a deletion and an insertion of the same text. */
  function Split(ds: Script, e: nat): Script
    requires e < |ds|
  {
    ds[..e] + [Diff(Delete, ds[e].text), Diff(Insert, ds[e].text)] + ds[e + 1..]
  }

  lemma SplitKeeps(ds: Script, e: nat)
    requires e < |ds| && ds[e].op == Equal
    ensures SameTexts(ds, Split(ds, e))
    ensures EqualCount(Split(ds, e)) == EqualCount(ds) - 1
  {
    hide Source, Target, EditChars, EqualCount;
    var t := ds[e].text;
    var x, y := Diff(Delete, t), Diff(Insert, t);
    assert ds == ds[..e] + [ds[e]] + ds[e + 1..];
    TextsOne(ds[e]);
    TextsOne(x);
    TextsOne(y);
    TextsTwo(x, y);
    assert t + [] == t && [] + t == t;
    SpliceSame(ds[..e], [ds[e]], [x, y], ds[e + 1..]);
    SizesOne(ds[e]);
    SizesOne(x);
    SizesOne(y);
    SizesTwo(x, y);
    SizesConcat3(ds[..e], [ds[e]], ds[e + 1..]);
    SizesConcat3(ds[..e], [x, y], ds[e + 1..]);
  }

  // ------------------------------------------------------------ runs of edits

  /** Where the run of edits that begins at index i ends. */
  function RunEnd(ds: Script, i: nat): (e: nat)
    requires i <= |ds|
    ensures i <= e <= |ds| && (e == |ds| || ds[e].op == Equal)
    ensures forall j | i <= j < e :: ds[j].op != Equal
    decreases |ds| - i
  {
    if i == |ds| || ds[i].op == Equal then i else RunEnd(ds, i + 1)
  }

  function RunBefore(ds: Script, e: nat): Script
    requires e <= |ds|
  {
    ds[RunStart(ds, e)..e]
  }

  function RunAfter(ds: Script, e: nat): Script
    requires e < |ds|
  {
    ds[e + 1..RunEnd(ds, e + 1)]
  }

  /** Whether an equality of this text between these two runs of edits is unwanted. */
  type Judge = (Text, Script, Script) -> bool

  ghost predicate UnwantedAt(p: Judge, ds: Script, e: nat)
    requires e < |ds|
  {
    ds[e].op == Equal && p(ds[e].text, RunBefore(ds, e), RunAfter(ds, e))
  }

  /** No equality before index n is unwanted. */
  ghost predicate Settled(p: Judge, ds: Script, n: nat) {
    forall e: nat | e < n && e < |ds| :: !UnwantedAt(p, ds, e)
  }

  /** `b` is `a` with one unwanted equality dropped. */
  ghost predicate DropsOne(p: Judge, a: Script, b: Script) {
    exists e: nat :: e < |a| && UnwantedAt(p, a, e) && b == Split(a, e)
  }

  /** Dropping the equalities at these places in turn, each unwanted when it is dropped, leads from `a` to `b`. */
  ghost predicate Drops(p: Judge, a: Script, es: seq<nat>, b: Script)
    decreases |es|
  {
    if es == [] then a == b
    else es[0] < |a| && UnwantedAt(p, a, es[0]) && Drops(p, Split(a, es[0]), es[1..], b)
  }

  ghost predicate DropsTo(p: Judge, a: Script, b: Script) {
    exists es :: Drops(p, a, es, b)
  }

  lemma {:induction false} DropsSnoc(p: Judge, a: Script, es: seq<nat>, b: Script, e: nat)
    requires Drops(p, a, es, b) && e < |b| && UnwantedAt(p, b, e)
    ensures Drops(p, a, es + [e], Split(b, e))
    decreases |es|
  {
    if es == [] {
      assert [e][1..] == [];
    } else {
      assert (es + [e])[1..] == es[1..] + [e];
      DropsSnoc(p, Split(a, es[0]), es[1..], b, e);
    }
  }

  lemma DropsMore(p: Judge, a: Script, b: Script, c: Script)
    requires DropsTo(p, a, b) && (b == c || DropsOne(p, b, c))
    ensures DropsTo(p, a, c)
  {
    if b != c {
      var es :| Drops(p, a, es, b);
      var e: nat :| e < |b| && UnwantedAt(p, b, e) && c == Split(b, e);
      DropsSnoc(p, a, es, b, e);
    }
  }

  lemma DropsNothing(p: Judge, a: Script)
    ensures DropsTo(p, a, a)
  {
    assert Drops(p, a, [], a);
  }

  lemma RunEndUnique(ds: Script, i: nat, e: nat)
    requires i <= e <= |ds| && (e == |ds| || ds[e].op == Equal)
    requires forall j | i <= j < e :: ds[j].op != Equal
    ensures RunEnd(ds, i) == e
  {
    var r := RunEnd(ds, i);
  }

  /** The run after an equality is the run up to the pointer and what follows it. */
  lemma RunExtends(ds: Script, top: nat, pointer: nat) returns (rest: Script)
    requires top < pointer <= |ds| && RunStart(ds, pointer) == top + 1
    ensures RunAfter(ds, top) == RunBefore(ds, pointer) + rest
  {
    var e := RunEnd(ds, pointer);
    RunEndUnique(ds, top + 1, e);
    rest := ds[pointer..e];
  }

  // ------------------------------------------------------------ the scan

  /**
   The stack of indices where equalities were found: increasing, below the pointer, each
   an equality; `last`, when present, is the text of the topmost one.
   */
  ghost predicate Stack(equalities: seq<nat>, ds: Script, pointer: int, last: Option<Text>) {
    && pointer <= |ds|
    && (forall i | 0 <= i < |equalities| :: equalities[i] < pointer && ds[equalities[i]].op == Equal)
    && (forall i, j | 0 <= i < j < |equalities| :: equalities[i] < equalities[j])
    && (last.Some? ==> equalities != [] && ds[equalities[|equalities| - 1]].text == last.value)
  }

  /**
   The scan has reached `pointer`: everything before it is settled, except that the
   topmost equality, when it is `last`, still waits for the rest of the run after it.
   */
  ghost predicate Scan(p: Judge, ds: Script, pointer: nat, equalities: seq<nat>, last: Option<Text>) {
    && Stack(equalities, ds, pointer, last)
    && (last.None? ==> Settled(p, ds, pointer))
    && (last.Some? ==>
          var top := equalities[|equalities| - 1];
          RunStart(ds, pointer) == top + 1 && Settled(p, ds, top))
  }

  lemma ScanStart(p: Judge, ds: Script)
    ensures Scan(p, ds, 0, [], None) && RunBefore(ds, 0) == []
  {
  }

  /** An equality ends the run after the topmost one, which is settled if the run left it wanted. */
  lemma ScanSettles(p: Judge, ds: Script, pointer: nat, equalities: seq<nat>, last: Option<Text>)
    requires Scan(p, ds, pointer, equalities, last)
    requires pointer == |ds| || ds[pointer].op == Equal
    requires last.Some? ==> !p(last.value, RunBefore(ds, equalities[|equalities| - 1]), RunBefore(ds, pointer))
    ensures Settled(p, ds, pointer)
  {
    if last.Some? {
      var top := equalities[|equalities| - 1];
      RunEndUnique(ds, top + 1, pointer);
      assert RunAfter(ds, top) == RunBefore(ds, pointer);
    }
  }

  lemma ScanPush(p: Judge, ds: Script, pointer: nat, equalities: seq<nat>, last: Option<Text>)
    requires Stack(equalities, ds, pointer, last) && pointer < |ds| && ds[pointer].op == Equal
    requires Settled(p, ds, pointer)
    ensures Scan(p, ds, pointer + 1, equalities + [pointer], Some(ds[pointer].text))
  {
  }

  lemma ScanEdit(p: Judge, ds: Script, pointer: nat, equalities: seq<nat>, last: Option<Text>)
    requires Scan(p, ds, pointer, equalities, last)
    requires pointer < |ds| && ds[pointer].op != Equal
    ensures Scan(p, ds, pointer + 1, equalities, last)
    ensures RunBefore(ds, pointer + 1) == RunBefore(ds, pointer) + [ds[pointer]]
  {
    RunBeforeEdit(ds, pointer);
    hide RunBefore, Settled;
  }

  lemma RunBeforeEdit(ds: Script, pointer: nat)
    requires pointer < |ds| && ds[pointer].op != Equal
    ensures RunStart(ds, pointer + 1) == RunStart(ds, pointer)
    ensures RunBefore(ds, pointer + 1) == RunBefore(ds, pointer) + [ds[pointer]]
  {
    var b := RunStart(ds, pointer);
    assert RunStart(ds, pointer + 1) == b;
    assert ds[b..pointer + 1] == ds[b..pointer] + [ds[pointer]];
  }

  /** Splitting at e leaves the runs before e as they are. */
  lemma SplitBefore(ds: Script, e: nat, k: nat)
    requires k <= e < |ds|
    ensures RunBefore(Split(ds, e), k) == RunBefore(ds, k)
  {
    var b := RunStart(ds, k);
    RunStartUnique(Split(ds, e), b, k);
    assert Split(ds, e)[b..k] == ds[b..k];
  }

  /** Splitting at e leaves equalities alone that have another equality between them and e. */
  lemma SplitSettled(p: Judge, ds: Script, e: nat, f: nat, m: nat)
    requires f < m < e < |ds| && ds[m].op == Equal && Settled(p, ds, e)
    ensures Settled(p, Split(ds, e), f + 1)
  {
    var ds' := Split(ds, e);
    forall k: nat | k < f + 1 ensures !UnwantedAt(p, ds', k) {
      assert !UnwantedAt(p, ds, k);
      SplitBefore(ds, e, k);
      RunEndUnique(ds', k + 1, RunEnd(ds, k + 1));
      assert RunAfter(ds', k) == RunAfter(ds, k);
    }
  }

  /** Replace the equality on top of the stack by a deletion and an insertion. */
  method DropEquality(diffs: DiffList, e: nat, text: Text)
    requires e < |diffs.items| && diffs.items[e] == Diff(Equal, text)
    modifies diffs
    ensures diffs.items == Split(old(diffs.items), e)
    ensures SameTexts(old(diffs.items), diffs.items)
    ensures EqualCount(diffs.items) == EqualCount(old(diffs.items)) - 1
  {
    SplitKeeps(diffs.items, e);
    diffs.items := diffs.items[..e] + [Diff(Delete, text)] + diffs.items[e..];
    diffs.items := diffs.items[e + 1 := Diff(Insert, diffs.items[e + 1].text)];
  }

  /**
   Drop the topmost equality and throw away the one before it, which must be looked at
   again; the scan resumes after the equality that is then on top.
   */
  method DropAndRetreat(ghost p: Judge, diffs: DiffList, ghost pointer: nat, equalities: seq<nat>, last: Text)
    returns (rest: seq<nat>, back: int)
    requires Scan(p, diffs.items, pointer, equalities, Some(last))
    modifies diffs
    ensures -1 <= back && Scan(p, diffs.items, back + 1, rest, None)
    ensures RunBefore(diffs.items, back + 1) == []
    ensures SameTexts(old(diffs.items), diffs.items)
    ensures EqualCount(diffs.items) == EqualCount(old(diffs.items)) - 1
    ensures equalities != [] && equalities[|equalities| - 1] < |old(diffs.items)|
    ensures diffs.items == Split(old(diffs.items), equalities[|equalities| - 1])
  {
    var n := |equalities| - 1;
    RetreatScan(p, diffs.items, pointer, equalities, last);
    hide Scan, RunBefore, Split;
    DropEquality(diffs, equalities[n], last);
    rest := equalities[..n];
    if |rest| > 0 {
      rest := rest[..|rest| - 1];
    }
    assert rest == equalities[..if n > 0 then n - 1 else n];
    back := if |rest| > 0 then rest[|rest| - 1] else -1;
  }

  /** Without its topmost equality and the one before it the stack is that of a scan resumed earlier. */
  lemma RetreatScan(p: Judge, ds: Script, pointer: nat, equalities: seq<nat>, last: Text)
    requires Scan(p, ds, pointer, equalities, Some(last))
    ensures var n := |equalities| - 1;
      && 0 <= n && equalities[n] < |ds| && ds[equalities[n]] == Diff(Equal, last)
      && var rest: seq<nat> := equalities[..if n > 0 then n - 1 else n];
         var back: int := if |rest| > 0 then rest[|rest| - 1] else -1;
         var ds' := Split(ds, equalities[n]);
         back + 1 <= |ds'| && Scan(p, ds', back + 1, rest, None) && RunBefore(ds', back + 1) == []
  {
    var n := |equalities| - 1;
    if n > 1 {
      SplitSettled(p, ds, equalities[n], equalities[n - 2], equalities[n - 1]);
    }
  }

  // ------------------------------------------------------------ cleanupSemantic

  /** Number of characters inserted and deleted. */
  datatype Amount = Amount(insertions: nat, deletions: nat)

  function AmountOf(run: Script): Amount {
    if run == [] then Amount(0, 0) else
    var d, rest := run[|run| - 1], AmountOf(run[..|run| - 1]);
    match d.op
    case Insert => rest.(insertions := rest.insertions + |d.text|)
    case Delete => rest.(deletions := rest.deletions + |d.text|)
    case Equal => rest
  }

  function Counted(a: Amount, d: Diff): Amount {
    if d.op == Insert then a.(insertions := a.insertions + |d.text|) else a.(deletions := a.deletions + |d.text|)
  }

  lemma AmountSnoc(run: Script, d: Diff)
    requires d.op != Equal
    ensures AmountOf(run + [d]) == Counted(AmountOf(run), d)
  {
    assert (run + [d])[..|run|] == run;
  }

  predicate Trivial(last: Option<Text>, before: Amount, after: Amount) {
    && last.Some? && last.value != []
    && |last.value| <= Max(before.insertions, before.deletions)
    && |last.value| <= Max(after.insertions, after.deletions)
  }

  /** An equality no longer than the edits on either side of it. */
  ghost function TrivialJudge(): Judge {
    (t, before, after) => Trivial(Some(t), AmountOf(before), AmountOf(after))
  }

  /** Of edits only, the counters are the lengths of the two texts. */
  lemma {:induction false} AmountIsLengths(run: Script)
    requires !HasOp(run, Equal)
    ensures AmountOf(run) == Amount(|Target(run)|, |Source(run)|)
  {
    if run != [] {
      var n := |run| - 1;
      assert run == run[..n] + [run[n]];
      AmountIsLengths(run[..n]);
      TextsConcat(run[..n], [run[n]]);
      TextsOne(run[n]);
    }
  }

  lemma RunsOfEdits(ds: Script, e: nat)
    requires e < |ds|
    ensures !HasOp(RunBefore(ds, e), Equal) && !HasOp(RunAfter(ds, e), Equal)
  {
  }

  /**
   What is dropped: an equality that is no longer than the longer of the two texts that
   change places before it, and no longer than the longer of the two after it.
   */
  lemma TrivialMeaning(ds: Script, e: nat)
    requires e < |ds| && ds[e].op == Equal
    ensures var t, before, after := ds[e].text, RunBefore(ds, e), RunAfter(ds, e);
      UnwantedAt(TrivialJudge(), ds, e) <==>
        && 0 < |t| && (|t| <= |Source(before)| || |t| <= |Target(before)|)
        && (|t| <= |Source(after)| || |t| <= |Target(after)|)
  {
    RunsOfEdits(ds, e);
    AmountIsLengths(RunBefore(ds, e));
    AmountIsLengths(RunAfter(ds, e));
  }

  /** The variables of the scan: counters hold the edits before the waiting equality, and after it so far. */
  datatype Counting = Counting(pointer: int, equalities: seq<nat>, last: Option<Text>, before: Amount, after: Amount)

  ghost predicate SemanticScan(ds: Script, s: Counting) {
    && 0 <= s.pointer <= |ds| && Scan(TrivialJudge(), ds, s.pointer, s.equalities, s.last)
    && s.after == AmountOf(RunBefore(ds, s.pointer))
    && (s.last.Some? ==> s.before == AmountOf(RunBefore(ds, s.equalities[|s.equalities| - 1])))
  }

  /** The state in which every loop iteration begins. */
  ghost predicate SemanticReady(ds: Script, s: Counting) {
    SemanticScan(ds, s) && !Trivial(s.last, s.before, s.after)
  }

  /** The scan starts, or resumes, with nothing counted and no equality waiting. */
  lemma SemanticResume(ds: Script, pointer: nat, equalities: seq<nat>)
    requires Scan(TrivialJudge(), ds, pointer, equalities, None) && RunBefore(ds, pointer) == []
    ensures pointer <= |ds| && SemanticReady(ds, Counting(pointer, equalities, None, Amount(0, 0), Amount(0, 0)))
  {
  }

  lemma SemanticEquality(ds: Script, s: Counting)
    requires SemanticReady(ds, s) && s.pointer < |ds| && ds[s.pointer].op == Equal
    ensures SemanticReady(ds,
      Counting(s.pointer + 1, s.equalities + [s.pointer], Some(ds[s.pointer].text), s.after, Amount(0, 0)))
  {
    ScanSettles(TrivialJudge(), ds, s.pointer, s.equalities, s.last);
    ScanPush(TrivialJudge(), ds, s.pointer, s.equalities, s.last);
  }

  lemma SemanticEdit(ds: Script, s: Counting)
    requires SemanticReady(ds, s) && s.pointer < |ds| && ds[s.pointer].op != Equal
    ensures var t := s.(pointer := s.pointer + 1, after := Counted(s.after, ds[s.pointer]));
      SemanticScan(ds, t) && (!Trivial(t.last, t.before, t.after) ==> SemanticReady(ds, t))
  {
    ScanEdit(TrivialJudge(), ds, s.pointer, s.equalities, s.last);
    AmountSnoc(RunBefore(ds, s.pointer), ds[s.pointer]);
  }

  lemma SemanticEnd(ds: Script, s: Counting)
    requires SemanticReady(ds, s) && s.pointer == |ds|
    ensures Settled(TrivialJudge(), ds, |ds|)
  {
    ScanSettles(TrivialJudge(), ds, |ds|, s.equalities, s.last);
  }

  /** One iteration: an equality is stacked; an edit is counted and may make the waiting equality trivial. */
  method SemanticStep(diffs: DiffList, s: Counting) returns (t: Counting, dropped: bool)
    requires SemanticReady(diffs.items, s) && 0 <= s.pointer < |diffs.items|
    modifies diffs
    ensures SemanticReady(diffs.items, t) && 0 <= t.pointer <= |diffs.items|
    ensures SameTexts(old(diffs.items), diffs.items)
    ensures dropped ==> EqualCount(diffs.items) < EqualCount(old(diffs.items))
    ensures dropped ==> DropsOne(TrivialJudge(), old(diffs.items), diffs.items)
    ensures dropped ==> !Settled(TrivialJudge(), old(diffs.items), |old(diffs.items)|)
    ensures !dropped ==> diffs.items == old(diffs.items) && t.pointer == s.pointer + 1
  {
    hide SemanticReady, SemanticScan, Scan, Settled, TrivialJudge, RunBefore, DropsOne, Split;
    var d := diffs.items[s.pointer];
    dropped := false;
    if d.op == Equal {
      SemanticEquality(diffs.items, s);
      t := Counting(s.pointer + 1, s.equalities + [s.pointer], Some(d.text), s.after, Amount(0, 0));
    } else {
      SemanticEdit(diffs.items, s);
      t := s.(after := Counted(s.after, d));
      if Trivial(t.last, t.before, t.after) {
        TrivialSeen(diffs.items, t.(pointer := s.pointer + 1));
        var rest, back := DropAndRetreat(TrivialJudge(), diffs, s.pointer + 1, t.equalities, t.last.value);
        SemanticResume(diffs.items, back + 1, rest);
        t := Counting(back, rest, None, Amount(0, 0), Amount(0, 0));
        dropped := true;
      }
      t := t.(pointer := t.pointer + 1);
    }
  }

  /** Eliminate every equality that is no longer than the edits on both sides of it. */
  method DropTrivialEqualities(diffs: DiffList) returns (changes: bool)
    modifies diffs
    ensures SameTexts(old(diffs.items), diffs.items)
    ensures DropsTo(TrivialJudge(), old(diffs.items), diffs.items)
    ensures Settled(TrivialJudge(), diffs.items, |diffs.items|)
    ensures changes <==> !Settled(TrivialJudge(), old(diffs.items), |old(diffs.items)|)
    ensures !changes ==> diffs.items == old(diffs.items)
  {
    hide SemanticReady, Settled, TrivialJudge, Scan, RunBefore, DropsOne, DropsTo;
    changes := false;
    var s := Counting(0, [], None, Amount(0, 0), Amount(0, 0));
    ScanStart(TrivialJudge(), diffs.items);
    SemanticResume(diffs.items, 0, []);
    DropsNothing(TrivialJudge(), diffs.items);
    while s.pointer < |diffs.items|
      invariant DropsTo(TrivialJudge(), old(diffs.items), diffs.items)
      invariant SemanticReady(diffs.items, s) && 0 <= s.pointer <= |diffs.items|
      invariant SameTexts(old(diffs.items), diffs.items)
      invariant changes ==> !Settled(TrivialJudge(), old(diffs.items), |old(diffs.items)|)
      invariant !changes ==> diffs.items == old(diffs.items)
      decreases EqualCount(diffs.items), |diffs.items| - s.pointer
    {
      var dropped;
      ghost var before := diffs.items;
      s, dropped := SemanticStep(diffs, s);
      DropsMore(TrivialJudge(), old(diffs.items), before, diffs.items);
      changes := changes || dropped;
    }
    SemanticEnd(diffs.items, s);
  }

  /** Once the edits seen so far make an equality trivial, the whole run after it does. */
  lemma TrivialSeen(ds: Script, s: Counting)
    requires SemanticScan(ds, s) && Trivial(s.last, s.before, s.after)
    ensures s.last.Some? && Scan(TrivialJudge(), ds, s.pointer, s.equalities, s.last)
    ensures !Settled(TrivialJudge(), ds, |ds|)
    ensures s.equalities != [] && s.equalities[|s.equalities| - 1] < |ds|
    ensures DropsOne(TrivialJudge(), ds, Split(ds, s.equalities[|s.equalities| - 1]))
  {
    var top := s.equalities[|s.equalities| - 1];
    var rest := RunExtends(ds, top, s.pointer);
    AmountGrows(RunBefore(ds, s.pointer), rest);
    assert UnwantedAt(TrivialJudge(), ds, top);
  }

  lemma {:induction false} AmountGrows(a: Script, b: Script)
    ensures AmountOf(a).insertions <= AmountOf(a + b).insertions
    ensures AmountOf(a).deletions <= AmountOf(a + b).deletions
  {
    if b == [] {
      assert a + b == a;
    } else {
      assert (a + b)[..|a + b| - 1] == a + b[..|b| - 1];
      AmountGrows(a, b[..|b| - 1]);
    }
  }

  // ------------------------------------------------------------ cleanupEfficiency

  /** Whether there is an insertion, a deletion in a run. */
  datatype Sides = Sides(ins: bool, del: bool) {
    function Count(): nat {
      (if ins then 1 else 0) + (if del then 1 else 0)
    }
  }

  function SidesOf(run: Script): Sides {
    if run == [] then Sides(false, false) else
    var d, rest := run[|run| - 1], SidesOf(run[..|run| - 1]);
    match d.op
    case Insert => rest.(ins := true)
    case Delete => rest.(del := true)
    case Equal => rest
  }

  predicate Inefficient(editCost: int, last: Option<Text>, pre: Sides, post: Sides) {
    && last.Some? && last.value != []
    && (|| (pre == Sides(true, true) && post == Sides(true, true))
        || (2 * |last.value| < editCost && pre.Count() + post.Count() == 3))
  }

  /** A short equality among so many edits that keeping it costs more than editing it away. */
  ghost function InefficientJudge(editCost: int): Judge {
    (t, before, after) => |t| < editCost && Inefficient(editCost, Some(t), SidesOf(before), SidesOf(after))
  }

  lemma {:induction false} SidesAreOps(run: Script)
    ensures SidesOf(run) == Sides(HasOp(run, Insert), HasOp(run, Delete))
  {
    if run != [] {
      var n := |run| - 1;
      SidesAreOps(run[..n]);
      forall op ensures HasOp(run, op) <==> HasOp(run[..n], op) || run[n].op == op {
        if HasOp(run[..n], op) {
          var i :| 0 <= i < n && run[..n][i].op == op;
          assert run[i].op == op;
        }
        if i :| 0 <= i < |run| && run[i].op == op {
          assert i < n ==> run[..n][i].op == op;
        }
      }
    }
  }

  /**
   What is dropped: an equality shorter than the edit cost with both kinds of edit on both
   sides, or shorter than half of it when only one of the four is missing.
   */
  lemma InefficientMeaning(editCost: int, ds: Script, e: nat)
    requires e < |ds| && ds[e].op == Equal
    ensures var t, before, after := ds[e].text, RunBefore(ds, e), RunAfter(ds, e);
      var ins1, del1, ins2, del2 :=
        HasOp(before, Insert), HasOp(before, Delete), HasOp(after, Insert), HasOp(after, Delete);
      UnwantedAt(InefficientJudge(editCost), ds, e) <==>
        && 0 < |t| < editCost
        && (|| (ins1 && del1 && ins2 && del2)
            || (2 * |t| < editCost
                && ((!ins1 && del1 && ins2 && del2) || (ins1 && !del1 && ins2 && del2)
                    || (ins1 && del1 && !ins2 && del2) || (ins1 && del1 && ins2 && !del2))))
  {
    SidesAreOps(RunBefore(ds, e));
    SidesAreOps(RunAfter(ds, e));
  }

  lemma {:induction false} SidesConcat(a: Script, b: Script)
    ensures SidesOf(a + b) == Sides(SidesOf(a).ins || SidesOf(b).ins, SidesOf(a).del || SidesOf(b).del)
  {
    if b == [] {
      assert a + b == a;
    } else {
      assert (a + b)[..|a + b| - 1] == a + b[..|b| - 1];
      SidesConcat(a, b[..|b| - 1]);
    }
  }

  /** The variables of the scan: which edits lie before the waiting equality, and after it so far. */
  datatype Flagging = Flagging(pointer: int, equalities: seq<nat>, last: Option<Text>, pre: Sides, post: Sides)

  ghost predicate EfficiencyScan(editCost: int, ds: Script, s: Flagging) {
    && 0 <= s.pointer <= |ds| && Scan(InefficientJudge(editCost), ds, s.pointer, s.equalities, s.last)
    && s.post == SidesOf(RunBefore(ds, s.pointer))
    && (s.last.Some? ==> |s.last.value| < editCost && s.pre == SidesOf(RunBefore(ds, s.equalities[|s.equalities| - 1])))
  }

  /** The state in which every loop iteration begins. */
  ghost predicate EfficiencyReady(editCost: int, ds: Script, s: Flagging) {
    EfficiencyScan(editCost, ds, s) && !Inefficient(editCost, s.last, s.pre, s.post)
  }

  lemma EfficiencyResume(editCost: int, ds: Script, pointer: nat, equalities: seq<nat>, pre: Sides)
    requires Scan(InefficientJudge(editCost), ds, pointer, equalities, None) && RunBefore(ds, pointer) == []
    ensures pointer <= |ds|
      && EfficiencyReady(editCost, ds, Flagging(pointer, equalities, None, pre, Sides(false, false)))
  {
  }

  predicate Candidate(editCost: int, text: Text, post: Sides) {
    |text| < editCost && (post.ins || post.del)
  }

  /** What an equality under the pointer does to the variables. */
  function AtEquality(editCost: int, s: Flagging, text: Text): Flagging
    requires 0 <= s.pointer
  {
    if Candidate(editCost, text, s.post) then
      Flagging(s.pointer + 1, s.equalities + [s.pointer], Some(text), s.post, Sides(false, false))
    else
      Flagging(s.pointer + 1, [], None, s.pre, Sides(false, false))
  }

  lemma EfficiencyEquality(editCost: int, ds: Script, s: Flagging)
    requires EfficiencyReady(editCost, ds, s) && s.pointer < |ds| && ds[s.pointer].op == Equal
    ensures EfficiencyReady(editCost, ds, AtEquality(editCost, s, ds[s.pointer].text))
  {
    var p := InefficientJudge(editCost);
    ScanSettles(p, ds, s.pointer, s.equalities, s.last);
    ScanPush(p, ds, s.pointer, s.equalities, s.last);
    if !Candidate(editCost, ds[s.pointer].text, s.post) {
      NeverCandidate(editCost, ds, s);
    }
  }

  /** An equality that is not a candidate can never become one. */
  lemma NeverCandidate(editCost: int, ds: Script, s: Flagging)
    requires EfficiencyReady(editCost, ds, s) && s.pointer < |ds| && ds[s.pointer].op == Equal
    requires Settled(InefficientJudge(editCost), ds, s.pointer) && !Candidate(editCost, ds[s.pointer].text, s.post)
    ensures Settled(InefficientJudge(editCost), ds, s.pointer + 1)
  {
    assert !UnwantedAt(InefficientJudge(editCost), ds, s.pointer);
  }

  lemma EfficiencyEdit(editCost: int, ds: Script, s: Flagging)
    requires EfficiencyReady(editCost, ds, s) && s.pointer < |ds| && ds[s.pointer].op != Equal
    ensures var t := s.(pointer := s.pointer + 1, post := Flagged(s.post, ds[s.pointer]));
      EfficiencyScan(editCost, ds, t)
        && (!Inefficient(editCost, t.last, t.pre, t.post) ==> EfficiencyReady(editCost, ds, t))
  {
    EfficiencyScanEdit(editCost, ds, s);
    hide EfficiencyScan, Inefficient, Flagged;
  }

  lemma EfficiencyScanEdit(editCost: int, ds: Script, s: Flagging)
    requires EfficiencyScan(editCost, ds, s) && s.pointer < |ds| && ds[s.pointer].op != Equal
    ensures EfficiencyScan(editCost, ds, s.(pointer := s.pointer + 1, post := Flagged(s.post, ds[s.pointer])))
  {
    hide Scan, InefficientJudge, RunBefore, SidesOf, Flagged;
    ScanEdit(InefficientJudge(editCost), ds, s.pointer, s.equalities, s.last);
    ScanTop(InefficientJudge(editCost), ds, s.pointer, s.equalities, s.last);
    SidesSnoc(RunBefore(ds, s.pointer), ds[s.pointer]);
  }

  lemma ScanTop(p: Judge, ds: Script, pointer: nat, equalities: seq<nat>, last: Option<Text>)
    requires Scan(p, ds, pointer, equalities, last)
    ensures last.Some? ==> equalities != [] && equalities[|equalities| - 1] < pointer <= |ds|
  {
  }

  lemma SidesSnoc(run: Script, d: Diff)
    requires d.op != Equal
    ensures SidesOf(run + [d]) == Flagged(SidesOf(run), d)
  {
    assert (run + [d])[..|run|] == run;
  }

  function Flagged(post: Sides, d: Diff): Sides {
    if d.op == Delete then post.(del := true) else post.(ins := true)
  }

  lemma EfficiencyEnd(editCost: int, ds: Script, s: Flagging)
    requires EfficiencyReady(editCost, ds, s) && s.pointer == |ds|
    ensures Settled(InefficientJudge(editCost), ds, |ds|)
  {
    ScanSettles(InefficientJudge(editCost), ds, |ds|, s.equalities, s.last);
  }

  /** Once the edits seen so far make an equality inefficient, the whole run after it does. */
  lemma InefficientSeen(editCost: int, ds: Script, s: Flagging)
    requires EfficiencyScan(editCost, ds, s) && Inefficient(editCost, s.last, s.pre, s.post)
    ensures s.last.Some? && Scan(InefficientJudge(editCost), ds, s.pointer, s.equalities, s.last)
    ensures !Settled(InefficientJudge(editCost), ds, |ds|)
    ensures s.equalities != [] && s.equalities[|s.equalities| - 1] < |ds|
    ensures DropsOne(InefficientJudge(editCost), ds, Split(ds, s.equalities[|s.equalities| - 1]))
  {
    var top := s.equalities[|s.equalities| - 1];
    var rest := RunExtends(ds, top, s.pointer);
    SidesConcat(RunBefore(ds, s.pointer), rest);
    InefficientGrows(editCost, s.last, s.pre, s.post, SidesOf(RunAfter(ds, top)));
    assert UnwantedAt(InefficientJudge(editCost), ds, top);
  }

  lemma InefficientGrows(editCost: int, last: Option<Text>, pre: Sides, post: Sides, more: Sides)
    requires Inefficient(editCost, last, pre, post) && (post.ins ==> more.ins) && (post.del ==> more.del)
    ensures Inefficient(editCost, last, pre, more)
  {
  }

  /**
   When the run before the dropped equality holds both kinds of edit, the equality before
   that run cannot become inefficient: its run after already held both kinds.
   */
  lemma SplitInPlace(editCost: int, ds: Script, e: nat)
    requires e < |ds| && ds[e].op == Equal && Settled(InefficientJudge(editCost), ds, e)
    requires SidesOf(RunBefore(ds, e)) == Sides(true, true)
    ensures Settled(InefficientJudge(editCost), Split(ds, e), e)
  {
    var p, ds', b := InefficientJudge(editCost), Split(ds, e), RunStart(ds, e);
    forall k: nat | k < e ensures !UnwantedAt(p, ds', k) {
      assert !UnwantedAt(p, ds, k);
      if ds'[k].op == Equal {
        SplitBefore(ds, e, k);
        if k + 1 < b {
          SplitFarRun(ds, e, k);
        } else {
          SplitNearRun(ds, e, k);
        }
      }
    }
  }

  lemma SplitFarRun(ds: Script, e: nat, k: nat)
    requires e < |ds| && k + 1 < RunStart(ds, e)
    ensures RunAfter(Split(ds, e), k) == RunAfter(ds, k)
  {
    RunEndUnique(Split(ds, e), k + 1, RunEnd(ds, k + 1));
  }

  lemma SplitNearRun(ds: Script, e: nat, k: nat)
    requires k < e < |ds| && ds[k].op == Equal && ds[e].op == Equal && RunStart(ds, e) <= k + 1
    ensures RunAfter(ds, k) == RunBefore(ds, e)
    ensures var a, b := SidesOf(RunBefore(ds, e)), SidesOf(RunAfter(Split(ds, e), k));
      (a.ins ==> b.ins) && (a.del ==> b.del)
  {
    var ds' := Split(ds, e);
    RunEndUnique(ds, k + 1, e);
    RunStartUnique(ds, k + 1, e);
    SplitBefore(ds, e, e);
    RunStartUnique(ds', k + 1, e);
    var rest := RunExtends(ds', k, e);
    SidesConcat(RunBefore(ds, e), rest);
  }

  /** The dropped equality leaves a deletion and an insertion in the run under the pointer. */
  lemma EfficiencyGoesOn(editCost: int, ds: Script, e: nat, pointer: nat)
    requires e + 1 < pointer <= |ds| && ds[e].op == Equal && RunStart(ds, pointer) == e + 1
    requires Settled(InefficientJudge(editCost), Split(ds, e), e)
    ensures EfficiencyReady(editCost, Split(ds, e), Flagging(pointer, [], None, Sides(true, true), Sides(true, true)))
  {
    var ds' := Split(ds, e);
    SplitRun(ds, e, pointer);
    forall k: nat | k < pointer ensures !UnwantedAt(InefficientJudge(editCost), ds', k) {
      if k < e {
        assert !UnwantedAt(InefficientJudge(editCost), ds', k);
      }
    }
  }

  lemma SplitRun(ds: Script, e: nat, pointer: nat)
    requires e + 1 < pointer <= |ds| && ds[e].op == Equal && RunStart(ds, pointer) == e + 1
    ensures var ds' := Split(ds, e);
      && SidesOf(RunBefore(ds', pointer)) == Sides(true, true)
      && forall k | e <= k < pointer :: ds'[k].op != Equal
  {
    var ds', b := Split(ds, e), RunStart(ds, e);
    SplitEntries(ds, e);
    RunStartUnique(ds', b, pointer);
    assert RunBefore(ds', pointer) == ds'[b..pointer];
    hide RunStart, RunBefore, Split;
    BothSides(ds', b, e, pointer);
  }

  /** A stretch with a deletion and an insertion next to each other has both sides. */
  lemma BothSides(ds: Script, b: nat, e: nat, pointer: nat)
    requires b <= e && e + 1 < pointer <= |ds| && ds[e].op == Delete && ds[e + 1].op == Insert
    ensures SidesOf(ds[b..pointer]) == Sides(true, true)
  {
    var pre, x, y, post := ds[b..e], ds[e], ds[e + 1], ds[e + 2..pointer];
    assert ds[b..pointer] == pre + [x, y] + post;
    assert [x, y][..1] == [x] && [x][..0] == [];
    assert SidesOf([x, y]) == Sides(true, true);
    hide SidesOf;
    SidesConcat(pre + [x, y], post);
    SidesConcat(pre, [x, y]);
  }

  lemma SplitEntries(ds: Script, e: nat)
    requires e < |ds|
    ensures var ds' := Split(ds, e);
      && ds'[e].op == Delete && ds'[e + 1].op == Insert
      && (forall k | 0 <= k < e :: ds'[k] == ds[k])
      && (forall k | e + 1 < k < |ds'| :: ds'[k] == ds[k - 1])
  {
  }

  /** One iteration. */
  method EfficiencyStep(editCost: int, diffs: DiffList, s: Flagging) returns (t: Flagging, dropped: bool)
    requires EfficiencyReady(editCost, diffs.items, s) && 0 <= s.pointer < |diffs.items|
    modifies diffs
    ensures EfficiencyReady(editCost, diffs.items, t) && 0 <= t.pointer <= |diffs.items|
    ensures SameTexts(old(diffs.items), diffs.items)
    ensures dropped ==> EqualCount(diffs.items) < EqualCount(old(diffs.items))
    ensures dropped ==> DropsOne(InefficientJudge(editCost), old(diffs.items), diffs.items)
    ensures dropped ==> !Settled(InefficientJudge(editCost), old(diffs.items), |old(diffs.items)|)
    ensures !dropped ==> diffs.items == old(diffs.items) && t.pointer == s.pointer + 1
  {
    hide EfficiencyReady, EfficiencyScan, Scan, Settled, InefficientJudge, RunBefore, DropsOne, Split;
    var d := diffs.items[s.pointer];
    dropped := false;
    if d.op == Equal {
      EfficiencyEquality(editCost, diffs.items, s);
      t := AtEquality(editCost, s, d.text);
    } else {
      EfficiencyEdit(editCost, diffs.items, s);
      t := s.(post := Flagged(s.post, d));
      if Inefficient(editCost, t.last, t.pre, t.post) {
        InefficientSeen(editCost, diffs.items, t.(pointer := s.pointer + 1));
        if t.pre.ins && t.pre.del {
          DropAndStay(editCost, diffs, t.(pointer := s.pointer + 1));
          t := Flagging(s.pointer, [], None, t.pre, Sides(true, true));
        } else {
          var rest, back := DropAndRetreat(InefficientJudge(editCost), diffs, s.pointer + 1, t.equalities,
            t.last.value);
          EfficiencyResume(editCost, diffs.items, back + 1, rest, t.pre);
          t := Flagging(back, rest, None, t.pre, Sides(false, false));
        }
        dropped := true;
      }
      t := t.(pointer := t.pointer + 1);
    }
  }

  /** Drop the topmost equality; the edit under the pointer is looked at once more. */
  method DropAndStay(editCost: int, diffs: DiffList, t: Flagging)
    requires EfficiencyScan(editCost, diffs.items, t) && t.last.Some? && t.pre == Sides(true, true)
    requires 0 < t.pointer && diffs.items[t.pointer - 1].op != Equal
    modifies diffs
    ensures t.pointer <= |diffs.items|
    ensures EfficiencyReady(editCost, diffs.items, Flagging(t.pointer, [], None, t.pre, Sides(true, true)))
    ensures SameTexts(old(diffs.items), diffs.items)
    ensures EqualCount(diffs.items) == EqualCount(old(diffs.items)) - 1
    ensures t.equalities != [] && t.equalities[|t.equalities| - 1] < |old(diffs.items)|
    ensures diffs.items == Split(old(diffs.items), t.equalities[|t.equalities| - 1])
  {
    DropInPlace(editCost, diffs.items, t);
    DropEquality(diffs, t.equalities[|t.equalities| - 1], t.last.value);
  }

  lemma DropInPlace(editCost: int, ds: Script, t: Flagging)
    requires EfficiencyScan(editCost, ds, t) && t.last.Some? && t.pre == Sides(true, true)
    requires 0 < t.pointer && ds[t.pointer - 1].op != Equal
    ensures t.equalities != []
    ensures var e := t.equalities[|t.equalities| - 1];
      && e < t.pointer && ds[e] == Diff(Equal, t.last.value)
      && EfficiencyReady(editCost, Split(ds, e), Flagging(t.pointer, [], None, t.pre, Sides(true, true)))
  {
    var e := t.equalities[|t.equalities| - 1];
    SplitInPlace(editCost, ds, e);
    EfficiencyGoesOn(editCost, ds, e, t.pointer);
  }

  /** Eliminate every equality that is cheaper to edit away. */
  method DropInefficientEqualities(editCost: int, diffs: DiffList) returns (changes: bool)
    modifies diffs
    ensures SameTexts(old(diffs.items), diffs.items)
    ensures DropsTo(InefficientJudge(editCost), old(diffs.items), diffs.items)
    ensures Settled(InefficientJudge(editCost), diffs.items, |diffs.items|)
    ensures changes <==> !Settled(InefficientJudge(editCost), old(diffs.items), |old(diffs.items)|)
    ensures !changes ==> diffs.items == old(diffs.items)
  {
    hide EfficiencyReady, Settled, InefficientJudge, Scan, RunBefore, DropsOne, DropsTo;
    changes := false;
    var s := Flagging(0, [], None, Sides(false, false), Sides(false, false));
    ScanStart(InefficientJudge(editCost), diffs.items);
    EfficiencyResume(editCost, diffs.items, 0, [], s.pre);
    DropsNothing(InefficientJudge(editCost), diffs.items);
    while s.pointer < |diffs.items|
      invariant DropsTo(InefficientJudge(editCost), old(diffs.items), diffs.items)
      invariant EfficiencyReady(editCost, diffs.items, s) && 0 <= s.pointer <= |diffs.items|
      invariant SameTexts(old(diffs.items), diffs.items)
      invariant changes ==> !Settled(InefficientJudge(editCost), old(diffs.items), |old(diffs.items)|)
      invariant !changes ==> diffs.items == old(diffs.items)
      decreases EqualCount(diffs.items), |diffs.items| - s.pointer
    {
      var dropped;
      ghost var before := diffs.items;
      s, dropped := EfficiencyStep(editCost, diffs, s);
      DropsMore(InefficientJudge(editCost), old(diffs.items), before, diffs.items);
      changes := changes || dropped;
    }
    EfficiencyEnd(editCost, diffs.items, s);
  }
}
