/**
 `diff_levenshtein` against the edit distance of the two texts: no diff scores below it,
 and some diff scores exactly it.
 */
module Levenshtein {
  import opened Texts
  import opened Diffs

  /** Insertions, deletions and substitutions needed to turn a into b. */
  function Distance(a: Text, b: Text): nat
    decreases |a| + |b|
  {
    if a == [] then |b|
    else if b == [] then |a|
    else Min(Min(1 + Distance(a[1..], b), 1 + Distance(a, b[1..])),
             (if a[0] == b[0] then 0 else 1) + Distance(a[1..], b[1..]))
  }

  /** The score of a diff when `ins` and `del` characters of edits are already pending. */
  function Score(ds: Script, ins: nat, del: nat): nat {
    if ds == [] then Max(ins, del) else
    match ds[0].op
    case Insert => Score(ds[1..], ins + |ds[0].text|, del)
    case Delete => Score(ds[1..], ins, del + |ds[0].text|)
    case Equal => Max(ins, del) + Score(ds[1..], 0, 0)
  }

  /** `diff_levenshtein` */
  method DiffLevenshtein(diffs: Script) returns (levenshtein: nat)
    ensures levenshtein == Score(diffs, 0, 0)
    ensures levenshtein >= Distance(Source(diffs), Target(diffs))
    ensures levenshtein >= |Source(diffs)| - |Target(diffs)|
    ensures levenshtein >= |Target(diffs)| - |Source(diffs)|
  {
    levenshtein := 0;
    var insertions, deletions := 0, 0;
    for i := 0 to |diffs|
      invariant 0 <= insertions && 0 <= deletions
      invariant Score(diffs, 0, 0) == levenshtein + Score(diffs[i..], insertions, deletions)
    {
      assert diffs[i..][0] == diffs[i] && diffs[i..][1..] == diffs[i + 1..];
      match diffs[i].op {
        case Insert => insertions := insertions + |diffs[i].text|;
        case Delete => deletions := deletions + |diffs[i].text|;
        case Equal =>
          levenshtein := levenshtein + Max(insertions, deletions);
          insertions, deletions := 0, 0;
      }
    }
    levenshtein := levenshtein + Max(insertions, deletions);
    ScoreIsEnough(diffs);
    AtLeastLengths(Source(diffs), Target(diffs));
  }

  // ------------------------------------------------------------ edit distance

  lemma {:induction false} AtLeastLengths(a: Text, b: Text)
    ensures Distance(a, b) >= |a| - |b| && Distance(a, b) >= |b| - |a|
    decreases |a| + |b|
  {
    if a != [] && b != [] {
      AtLeastLengths(a[1..], b);
      AtLeastLengths(a, b[1..]);
      AtLeastLengths(a[1..], b[1..]);
    }
  }

  lemma {:induction false} AtMostLonger(a: Text, b: Text)
    ensures Distance(a, b) <= Max(|a|, |b|)
    decreases |a| + |b|
  {
    if a != [] && b != [] {
      AtMostLonger(a[1..], b[1..]);
    }
  }

  lemma {:induction false} CommonPrefixIsFree(t: Text, a: Text, b: Text)
    ensures Distance(t + a, t + b) <= Distance(a, b)
  {
    if t == [] {
      assert t + a == a && t + b == b;
    } else {
      assert (t + a)[1..] == t[1..] + a && (t + b)[1..] == t[1..] + b;
      CommonPrefixIsFree(t[1..], a, b);
    }
  }

  /** Aligning two pieces separately costs at least as much as aligning the whole. */
  lemma {:induction false} Subadditive(a: Text, b: Text, c: Text, d: Text)
    ensures Distance(a + c, b + d) <= Distance(a, b) + Distance(c, d)
    decreases |a| + |b|
  {
    if a == [] && b == [] {
      assert a + c == c && b + d == d;
    } else if a == [] {
      assert a + c == c && (b + d)[1..] == b[1..] + d;
      Subadditive(a, b[1..], c, d);
      InsertOne(c, b + d);
    } else if b == [] {
      assert b + d == d && (a + c)[1..] == a[1..] + c;
      Subadditive(a[1..], b, c, d);
      DeleteOne(a + c, d);
    } else {
      assert (a + c)[1..] == a[1..] + c && (b + d)[1..] == b[1..] + d;
      Subadditive(a[1..], b, c, d);
      Subadditive(a, b[1..], c, d);
      Subadditive(a[1..], b[1..], c, d);
    }
  }

  lemma InsertOne(a: Text, b: Text)
    requires b != []
    ensures Distance(a, b) <= 1 + Distance(a, b[1..])
  {
    if a == [] {
    }
  }

  lemma DeleteOne(a: Text, b: Text)
    requires a != []
    ensures Distance(a, b) <= 1 + Distance(a[1..], b)
  {
  }

  // ------------------------------------------------------------ no diff scores below the distance

  /** With texts x and y pending as insertion and deletion. */
  lemma {:induction false} ScoreCovers(ds: Script, x: Text, y: Text)
    ensures Score(ds, |x|, |y|) >= Distance(y + Source(ds), x + Target(ds))
  {
    hide Distance;
    if ds == [] {
      assert y + Source(ds) == y && x + Target(ds) == x;
      AtMostLonger(y, x);
    } else {
      var d, s, t := ds[0], Source(ds[1..]), Target(ds[1..]);
      match d.op {
        case Insert =>
          ScoreCovers(ds[1..], x + d.text, y);
          assert Source(ds) == [] + s && [] + s == s;
          assert x + Target(ds) == x + d.text + t;
        case Delete =>
          ScoreCovers(ds[1..], x, y + d.text);
          assert Target(ds) == [] + t && [] + t == t;
          assert y + Source(ds) == y + d.text + s;
        case Equal =>
          ScoreCovers(ds[1..], [], []);
          assert [] + s == s && [] + t == t;
          AcrossEquality(x, y, d.text, s, t);
      }
    }
  }

  lemma AcrossEquality(x: Text, y: Text, e: Text, s: Text, t: Text)
    ensures Distance(y + (e + s), x + (e + t)) <= Max(|x|, |y|) + Distance(s, t)
  {
    CommonPrefixIsFree(e, s, t);
    Subadditive(y, x, e + s, e + t);
    AtMostLonger(y, x);
  }

  lemma ScoreIsEnough(ds: Script)
    ensures Score(ds, 0, 0) >= Distance(Source(ds), Target(ds))
  {
    ScoreCovers(ds, [], []);
    assert [] + Source(ds) == Source(ds) && [] + Target(ds) == Target(ds);
  }

  // ------------------------------------------------------------ some diff scores it exactly

  lemma {:induction false} PendingOne(ds: Script, ins: nat, del: nat)
    ensures Score(ds, ins + 1, del) <= 1 + Score(ds, ins, del)
    ensures Score(ds, ins, del + 1) <= 1 + Score(ds, ins, del)
    ensures Score(ds, ins + 1, del + 1) <= 1 + Score(ds, ins, del)
  {
    if ds != [] {
      match ds[0].op {
        case Insert => PendingOne(ds[1..], ins + |ds[0].text|, del);
        case Delete => PendingOne(ds[1..], ins, del + |ds[0].text|);
        case Equal =>
      }
    }
  }

  lemma Prepend(d: Diff, rest: Script, source: Text, target: Text)
    requires Denotes(rest, source, target)
    ensures ([d] + rest)[0] == d && ([d] + rest)[1..] == rest
    ensures Denotes([d] + rest, if d.op == Insert then source else d.text + source,
                    if d.op == Delete then target else d.text + target)
  {
    assert [] + source == source && [] + target == target;
  }

  /** The edit distance is attained: it is the least score of any diff of the two texts. */
  lemma {:induction false} DistanceIsAttained(a: Text, b: Text) returns (ds: Script)
    ensures Denotes(ds, a, b) && Score(ds, 0, 0) == Distance(a, b)
    decreases |a| + |b|
  {
    if a == [] {
      ds := [Diff(Insert, b)];
      TextsOne(ds[0]);
    } else if b == [] {
      ds := [Diff(Delete, a)];
      TextsOne(ds[0]);
    } else if Distance(a, b) == 1 + Distance(a[1..], b) {
      var rest := DistanceIsAttained(a[1..], b);
      ds := EditFirst(Diff(Delete, [a[0]]), rest, a[1..], b);
      assert [a[0]] + a[1..] == a;
    } else if Distance(a, b) == 1 + Distance(a, b[1..]) {
      var rest := DistanceIsAttained(a, b[1..]);
      ds := EditFirst(Diff(Insert, [b[0]]), rest, a, b[1..]);
      assert [b[0]] + b[1..] == b;
    } else {
      ds := Substituted(a, b);
    }
    hide Source, Target, Denotes;
    assert Denotes(ds, a, b) ==> Score(ds, 0, 0) >= Distance(a, b) by {
      ScoreOfDenoting(ds, a, b);
    }
  }

  lemma ScoreOfDenoting(ds: Script, a: Text, b: Text)
    ensures Denotes(ds, a, b) ==> Score(ds, 0, 0) >= Distance(a, b)
  {
    ScoreIsEnough(ds);
  }

  lemma EditFirst(d: Diff, rest: Script, a: Text, b: Text) returns (ds: Script)
    requires d.op != Equal && |d.text| == 1 && Denotes(rest, a, b)
    ensures Denotes(ds, if d.op == Insert then a else d.text + a, if d.op == Delete then b else d.text + b)
    ensures Score(ds, 0, 0) <= 1 + Score(rest, 0, 0)
  {
    ds := [d] + rest;
    Prepend(d, rest, a, b);
    PendingOne(rest, 0, 0);
  }

  lemma {:induction false} Substituted(a: Text, b: Text) returns (ds: Script)
    requires a != [] && b != []
    ensures Denotes(ds, a, b)
    ensures Score(ds, 0, 0) <= (if a[0] == b[0] then 0 else 1) + Distance(a[1..], b[1..])
    decreases |a| + |b|, 0
  {
    var rest := DistanceIsAttained(a[1..], b[1..]);
    assert [a[0]] + a[1..] == a && [b[0]] + b[1..] == b;
    if a[0] == b[0] {
      ds := [Diff(Equal, [a[0]])] + rest;
      Prepend(Diff(Equal, [a[0]]), rest, a[1..], b[1..]);
    } else {
      var inserted := [Diff(Insert, [b[0]])] + rest;
      Prepend(Diff(Insert, [b[0]]), rest, a[1..], b[1..]);
      ds := [Diff(Delete, [a[0]])] + inserted;
      Prepend(Diff(Delete, [a[0]]), inserted, a[1..], b);
      PendingOne(rest, 0, 0);
    }
  }
}
