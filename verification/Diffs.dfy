/**
 Diffs: lists of (operation, text) entries. A diff denotes a pair of texts, its source
 (equalities and deletions) and its target (equalities and insertions).
 */
module Diffs {
  import opened Texts

  datatype Op = Delete | Insert | Equal

  datatype Diff = Diff(op: Op, text: Text)

  type Script = seq<Diff>

  /** The list object that the clean-up passes rewrite in place. */
  class DiffList {
    var items: Script

    constructor (ds: Script)
      ensures items == ds
    {
      items := ds;
    }
  }

  // ------------------------------------------------------------ meaning

  /** The texts of all entries whose operation is not `skip`, concatenated. */
  function Project(ds: Script, skip: Op): Text {
    if ds == [] then [] else (if ds[0].op != skip then ds[0].text else []) + Project(ds[1..], skip)
  }

  /** The source text. */
  function Source(ds: Script): Text {
    Project(ds, Insert)
  }

  /** The target text. */
  function Target(ds: Script): Text {
    Project(ds, Delete)
  }

  ghost predicate Denotes(ds: Script, source: Text, target: Text) {
    Source(ds) == source && Target(ds) == target
  }

  ghost predicate SameTexts(a: Script, b: Script) {
    Source(a) == Source(b) && Target(a) == Target(b)
  }

  ghost predicate HasOp(ds: Script, op: Op) {
    exists i :: 0 <= i < |ds| && ds[i].op == op
  }

  lemma {:induction false} ProjectConcat(a: Script, b: Script, skip: Op)
    ensures Project(a + b, skip) == Project(a, skip) + Project(b, skip)
  {
    if a == [] {
      assert a + b == b;
    } else {
      assert (a + b)[0] == a[0] && (a + b)[1..] == a[1..] + b;
      ProjectConcat(a[1..], b, skip);
    }
  }

  lemma TextsConcat(a: Script, b: Script)
    ensures Source(a + b) == Source(a) + Source(b)
    ensures Target(a + b) == Target(a) + Target(b)
  {
    ProjectConcat(a, b, Insert);
    ProjectConcat(a, b, Delete);
  }

  lemma TextsConcat3(a: Script, b: Script, c: Script)
    ensures Source(a + b + c) == Source(a) + Source(b) + Source(c)
    ensures Target(a + b + c) == Target(a) + Target(b) + Target(c)
  {
    TextsConcat(a + b, c);
    TextsConcat(a, b);
  }

  lemma TextsOne(d: Diff)
    ensures Source([d]) == (if d.op == Insert then [] else d.text)
    ensures Target([d]) == (if d.op == Delete then [] else d.text)
  {
    assert [d][1..] == [] && d.text + [] == d.text;
    assert Project([d][1..], Insert) == [] && Project([d][1..], Delete) == [];
  }

  lemma TextsNone()
    ensures Source([]) == [] && Target([]) == []
  {
  }

  /** Replacing a stretch by one with the same texts keeps the texts of the whole. */
  lemma SpliceSame(pre: Script, mid: Script, mid': Script, post: Script)
    requires SameTexts(mid, mid')
    ensures SameTexts(pre + mid + post, pre + mid' + post)
  {
    TextsConcat3(pre, mid, post);
    TextsConcat3(pre, mid', post);
  }

  lemma TextsTwo(d: Diff, e: Diff)
    ensures Source([d, e]) == Source([d]) + Source([e])
    ensures Target([d, e]) == Target([d]) + Target([e])
  {
    assert [d, e] == [d] + [e];
    TextsConcat([d], [e]);
  }

  lemma TextsThree(d: Diff, e: Diff, f: Diff)
    ensures Source([d, e, f]) == Source([d]) + Source([e]) + Source([f])
    ensures Target([d, e, f]) == Target([d]) + Target([e]) + Target([f])
  {
    assert [d, e, f] == [d] + [e] + [f];
    TextsConcat3([d], [e], [f]);
  }

  // ------------------------------------------------------------ sizes

  /** Total number of characters in deletions and insertions. */
  function EditChars(ds: Script): nat {
    if ds == [] then 0 else (if ds[0].op == Equal then 0 else |ds[0].text|) + EditChars(ds[1..])
  }

  /** Number of equality entries. */
  function EqualCount(ds: Script): nat {
    if ds == [] then 0 else (if ds[0].op == Equal then 1 else 0) + EqualCount(ds[1..])
  }

  lemma {:induction false} SizesConcat(a: Script, b: Script)
    ensures EditChars(a + b) == EditChars(a) + EditChars(b)
    ensures EqualCount(a + b) == EqualCount(a) + EqualCount(b)
  {
    if a == [] {
      assert a + b == b;
    } else {
      assert (a + b)[0] == a[0] && (a + b)[1..] == a[1..] + b;
      SizesConcat(a[1..], b);
    }
  }

  lemma SizesConcat3(a: Script, b: Script, c: Script)
    ensures EditChars(a + b + c) == EditChars(a) + EditChars(b) + EditChars(c)
    ensures EqualCount(a + b + c) == EqualCount(a) + EqualCount(b) + EqualCount(c)
  {
    SizesConcat(a + b, c);
    SizesConcat(a, b);
  }

  lemma SizesOne(d: Diff)
    ensures EditChars([d]) == (if d.op == Equal then 0 else |d.text|)
    ensures EqualCount([d]) == (if d.op == Equal then 1 else 0)
  {
    assert [d][1..] == [];
  }

  lemma SizesTwo(d: Diff, e: Diff)
    ensures EditChars([d, e]) == EditChars([d]) + EditChars([e])
    ensures EqualCount([d, e]) == EqualCount([d]) + EqualCount([e])
  {
    assert [d, e] == [d] + [e];
    SizesConcat([d], [e]);
  }

  lemma SizesThree(d: Diff, e: Diff, f: Diff)
    ensures EditChars([d, e, f]) == EditChars([d]) + EditChars([e]) + EditChars([f])
    ensures EqualCount([d, e, f]) == EqualCount([d]) + EqualCount([e]) + EqualCount([f])
  {
    assert [d, e, f] == [d] + [e] + [f];
    SizesConcat3([d], [e], [f]);
  }

  /** A diff's edits are no longer than its two texts together. */
  lemma {:induction false} EditCharsBound(ds: Script)
    ensures EditChars(ds) <= |Source(ds)| + |Target(ds)|
  {
    if ds != [] {
      EditCharsBound(ds[1..]);
    }
  }

  // ------------------------------------------------------------ runs of edits

  /** Where the run of edits that ends before index i begins. */
  function RunStart(ds: Script, i: nat): (s: nat)
    requires i <= |ds|
    ensures s <= i && (s == 0 || ds[s - 1].op == Equal)
    ensures forall j | s <= j < i :: ds[j].op != Equal
  {
    if i == 0 || ds[i - 1].op == Equal then i else RunStart(ds, i - 1)
  }

  lemma RunStartUnique(ds: Script, s: nat, i: nat)
    requires s <= i <= |ds| && (s == 0 || ds[s - 1].op == Equal)
    requires forall j | s <= j < i :: ds[j].op != Equal
    ensures RunStart(ds, i) == s
  {
    var r := RunStart(ds, i);
  }

  /** The empty equality that some passes append so that every run is followed by one. */
  const DUMMY := Diff(Equal, [])

  // ------------------------------------------------------------ reading the texts back

  /** `diff_text1` */
  method Text1(diffs: Script) returns (text: Text)
    ensures text == Source(diffs)
  {
    text := [];
    for i := 0 to |diffs|
      invariant text == Source(diffs[..i])
    {
      ProjectSnoc(diffs, i);
      if diffs[i].op != Insert {
        text := text + diffs[i].text;
      }
    }
    assert diffs[..|diffs|] == diffs;
  }

  /** `diff_text2` */
  method Text2(diffs: Script) returns (text: Text)
    ensures text == Target(diffs)
  {
    text := [];
    for i := 0 to |diffs|
      invariant text == Target(diffs[..i])
    {
      ProjectSnoc(diffs, i);
      if diffs[i].op != Delete {
        text := text + diffs[i].text;
      }
    }
    assert diffs[..|diffs|] == diffs;
  }

  lemma ProjectSnoc(ds: Script, i: nat)
    requires i < |ds|
    ensures Source(ds[..i + 1]) == Source(ds[..i]) + Source([ds[i]])
    ensures Target(ds[..i + 1]) == Target(ds[..i]) + Target([ds[i]])
    ensures Source([ds[i]]) == (if ds[i].op == Insert then [] else ds[i].text)
    ensures Target([ds[i]]) == (if ds[i].op == Delete then [] else ds[i].text)
  {
    assert ds[..i + 1] == ds[..i] + [ds[i]];
    TextsConcat(ds[..i], [ds[i]]);
    TextsOne(ds[i]);
  }
}
