/**
 The search for stretches of frames in which a text stays on screen long enough, over the
 frames' hits and misses in order.
 */
module ContinuousRuns {
  import opened Texts

  /** A frame of the list: whether the text is missing in it, and how similar the text found was. */
  datatype Look = Look(missed: bool, similarity: real)

  /** A reported stretch, by the positions of its first and last frame. */
  datatype Stretch = Stretch(first: nat, last: nat, average: real, highest: real, lowest: real)

  function Sum(looks: seq<Look>): real {
    if looks == [] then 0.0 else Sum(looks[..|looks| - 1]) + looks[|looks| - 1].similarity
  }

  /** The largest similarity among the hits, or 0. */
  function Highest(looks: seq<Look>): real {
    if looks == [] then 0.0
    else
      var rest, last := Highest(looks[..|looks| - 1]), looks[|looks| - 1];
      if last.missed then rest else Larger(rest, last.similarity)
  }

  function Lowest(looks: seq<Look>): real {
    if looks == [] then 0.0
    else
      var rest, last := Lowest(looks[..|looks| - 1]), looks[|looks| - 1];
      if last.missed then rest else Smaller(rest, last.similarity)
  }

  /**
   No hit is more similar than the highest, which is a hit's similarity, or 0 where no hit
   is more similar than that.
   */
  lemma {:induction false} HighestIsMost(looks: seq<Look>)
    ensures Highest(looks) >= 0.0
    ensures forall i :: 0 <= i < |looks| && !looks[i].missed ==> looks[i].similarity <= Highest(looks)
    ensures Highest(looks) == 0.0
         || exists i :: 0 <= i < |looks| && !looks[i].missed && looks[i].similarity == Highest(looks)
  {
    if looks != [] {
      var n := |looks| - 1;
      var front := looks[..n];
      assert forall i | 0 <= i < n :: front[i] == looks[i];
      HighestIsMost(front);
      if i :| 0 <= i < n && !front[i].missed && front[i].similarity == Highest(front) {
        assert !looks[i].missed && looks[i].similarity == Highest(front);
      }
      assert !looks[n].missed || looks[n].missed;
    }
  }

  /** The sum of the similarities, whatever part of it is taken first. */
  lemma {:induction false} SumSplits(looks: seq<Look>, i: nat)
    requires i <= |looks|
    ensures Sum(looks) == Sum(looks[..i]) + Sum(looks[i..])
  {
    if i == |looks| {
      assert looks[..i] == looks && looks[i..] == [];
    } else {
      var n := |looks| - 1;
      SumSplits(looks[..n], i);
      assert looks[..n][..i] == looks[..i] && looks[..n][i..] == looks[i..][..n - i];
      assert looks[i..][|looks[i..]| - 1] == looks[n];
    }
  }

  /** Hits from a to b, and a miss or an end of the list on either side. */
  ghost predicate IsRun(looks: seq<Look>, a: int, b: int) {
    && 0 <= a <= b < |looks| && (forall k :: a <= k <= b ==> !looks[k].missed)
    && (a == 0 || looks[a - 1].missed) && (b == |looks| - 1 || looks[b + 1].missed)
  }

  /** The stretch's figures: the average is its own, the extremes are those of everything up to its end. */
  predicate Described(looks: seq<Look>, s: Stretch) {
    && s.first <= s.last < |looks|
    && s.average == Sum(looks[s.first..s.last + 1]) / (s.last + 1 - s.first) as real
    && s.highest == Highest(looks[..s.last + 1]) && s.lowest == Lowest(looks[..s.last + 1])
  }

  /** A miss with no hit just before it. */
  ghost predicate EmptyRun(looks: seq<Look>, i: int) {
    0 <= i < |looks| && looks[i].missed && (i == 0 || looks[i - 1].missed)
  }

  /** A run whose end the loop has seen when it stands before the i-th frame. */
  ghost predicate Finished(looks: seq<Look>, a: nat, b: nat, i: nat) {
    IsRun(looks, a, b) && (b + 1 < i || (b < i && i == |looks|))
  }

  ghost predicate Listed(found: seq<Stretch>, a: nat, b: nat) {
    exists k :: 0 <= k < |found| && found[k].first == a && found[k].last == b
  }

  /** Exactly the finished runs of at least `need` hits, in order. */
  ghost predicate Reported(looks: seq<Look>, need: int, i: nat, found: seq<Stretch>) {
    && (forall k :: 0 <= k < |found| ==>
          && Finished(looks, found[k].first, found[k].last, i)
          && found[k].last + 1 - found[k].first >= need && Described(looks, found[k]))
    && (forall k :: 0 <= k < |found| - 1 ==> found[k].last < found[k + 1].first)
    && (forall a: nat, b: nat :: Finished(looks, a, b, i) && b + 1 - a >= need ==> Listed(found, a, b))
  }

  /** The hits from `from` up to i are the run the loop is in. */
  ghost predicate Running(looks: seq<Look>, from: nat, i: nat) {
    && from <= i <= |looks| && (forall k :: from <= k < i ==> !looks[k].missed)
    && (from == 0 || looks[from - 1].missed)
  }

  /** The end of that run after the i-th frame, exclusive. */
  function EndAfter(looks: seq<Look>, i: nat): nat
    requires i < |looks|
  {
    if looks[i].missed then i else i + 1
  }

  predicate Closes(looks: seq<Look>, i: nat)
    requires i < |looks|
  {
    looks[i].missed || i == |looks| - 1
  }

  /** The i-th frame finishes the running run, if it closes it, and no other. */
  lemma FinishedNext(looks: seq<Look>, from: nat, i: nat, a: nat, b: nat)
    requires i < |looks| && Running(looks, from, i)
    ensures Finished(looks, a, b, i + 1) <==>
      Finished(looks, a, b, i)
      || (Closes(looks, i) && from <= b && a == from && b + 1 == EndAfter(looks, i))
  {
  }

  lemma FinishedBefore(looks: seq<Look>, from: nat, i: nat, a: nat, b: nat)
    requires i < |looks| && Running(looks, from, i) && Finished(looks, a, b, i)
    ensures b < from
  {
  }

  /** The list stays right over the i-th frame, when the run it closes is added if it is long enough. */
  lemma ReportNext(looks: seq<Look>, need: int, from: nat, i: nat, found: seq<Stretch>, found': seq<Stretch>)
    requires i < |looks| && Running(looks, from, i) && Reported(looks, need, i, found)
    requires var end := EndAfter(looks, i);
      if Closes(looks, i) && end > from && end - from >= need
      then found' != [] && found'[..|found'| - 1] == found && Described(looks, found'[|found|])
           && found'[|found|].first == from && found'[|found|].last == end - 1
      else found' == found
    ensures Reported(looks, need, i + 1, found')
  {
    var n := |found|;
    hide Finished, Described, Running, Closes, EndAfter;
    assert forall k | 0 <= k < n :: found'[k] == found[k];
    forall k | 0 <= k < |found'| ensures Finished(looks, found'[k].first, found'[k].last, i + 1) {
      FinishedNext(looks, from, i, found'[k].first, found'[k].last);
    }
    if n > 0 {
      FinishedBefore(looks, from, i, found[n - 1].first, found[n - 1].last);
    }
    forall a: nat, b: nat | Finished(looks, a, b, i + 1) && b + 1 - a >= need ensures Listed(found', a, b) {
      FinishedNext(looks, from, i, a, b);
      if Finished(looks, a, b, i) {
        var k :| 0 <= k < n && found[k].first == a && found[k].last == b;
        assert found'[k].first == a;
      } else {
        assert found'[n].first == a;
      }
    }
  }

  lemma SumSnoc(looks: seq<Look>, a: nat, i: nat)
    requires a <= i < |looks|
    ensures Sum(looks[a..i + 1]) == Sum(looks[a..i]) + looks[i].similarity
  {
    assert looks[a..i + 1][..i - a] == looks[a..i];
  }

  /** The loop's sums over the running run and over everything so far. */
  ghost predicate Summed(looks: seq<Look>, from: nat, i: nat, sum: real, highest: real, lowest: real) {
    from <= i <= |looks| && sum == Sum(looks[from..i]) && highest == Highest(looks[..i]) && lowest == Lowest(looks[..i])
  }

  lemma SummedNext(looks: seq<Look>, from: nat, i: nat, sum: real, highest: real, lowest: real)
    requires i < |looks| && Summed(looks, from, i, sum, highest, lowest)
    ensures looks[i].missed ==> Highest(looks[..i + 1]) == highest && Lowest(looks[..i + 1]) == lowest
    ensures !looks[i].missed ==> Summed(looks, from, i + 1, sum + looks[i].similarity,
                                        Larger(highest, looks[i].similarity), Smaller(lowest, looks[i].similarity))
  {
    SumSnoc(looks, from, i);
    assert looks[..i + 1][..i] == looks[..i];
  }

  lemma SummedAnew(looks: seq<Look>, i: nat, highest: real, lowest: real)
    requires i <= |looks|
    ensures i == 0 && highest == lowest == 0.0 ==> Summed(looks, 0, 0, 0.0, highest, lowest)
    ensures Summed(looks, i, i, 0.0, highest, lowest) <==>
      highest == Highest(looks[..i]) && lowest == Lowest(looks[..i])
  {
    assert looks[i..i] == [] && (i == 0 ==> looks[..i] == []);
  }

  /**
   The loop of `run_one`: exactly the runs of at least `need` hits are reported, in order.
   It raises IndexError, and `None` is returned, exactly when `need` is not positive and a
   miss has no hit just before it.
   */
  method FindRuns(looks: seq<Look>, need: int) returns (r: Option<seq<Stretch>>)
    ensures r.None? <==> need <= 0 && exists i :: EmptyRun(looks, i)
    ensures r.Some? ==> Reported(looks, need, |looks|, r.value)
  {
    var found: seq<Stretch> := [];
    var from: nat, count, sum, highest, lowest := 0, 0, 0.0, 0.0, 0.0;
    hide Sum, Highest, Lowest, IsRun;
    SummedAnew(looks, 0, 0.0, 0.0);
    for i := 0 to |looks|
      invariant i < |looks| ==>
        from + count == i && Running(looks, from, i) && Summed(looks, from, i, sum, highest, lowest)
      invariant need <= 0 ==> forall k :: 0 <= k < i ==> !EmptyRun(looks, k)
      invariant Reported(looks, need, i, found)
    {
      ghost var before := found;
      SummedNext(looks, from, i, sum, highest, lowest);
      if !looks[i].missed {
        count, sum := count + 1, sum + looks[i].similarity;
        highest, lowest := Larger(highest, looks[i].similarity), Smaller(lowest, looks[i].similarity);
      }
      if looks[i].missed || i == |looks| - 1 {
        if count >= need {
          if count == 0 {
            assert EmptyRun(looks, i);
            return None;
          }
          var s := Stretch(from, from + count - 1, sum / count as real, highest, lowest);
          hide Reported;
          found := found + [s];
          assert Described(looks, s);
        }
        ReportNext(looks, need, from, i, before, found);
        from, count, sum := i + 1, 0, 0.0;
        SummedAnew(looks, i + 1, highest, lowest);
      } else {
        ReportNext(looks, need, from, i, before, found);
      }
    }
    r := Some(found);
  }

  /**
   Similarities are never negative, so the reported lowest one is always 0: the extremes
   are not reset between runs.
   */
  lemma {:induction false} LowestIsZero(looks: seq<Look>)
    requires forall i :: 0 <= i < |looks| ==> looks[i].similarity >= 0.0
    ensures Lowest(looks) == 0.0
  {
    if looks != [] {
      assert forall i | 0 <= i < |looks| - 1 :: looks[..|looks| - 1][i] == looks[i];
      LowestIsZero(looks[..|looks| - 1]);
    }
  }

  /** No frame required and the text missing in the first one: the IndexError. */
  method MissFirst() returns (r: Option<seq<Stretch>>)
    ensures r.None?
  {
    var looks := [Look(true, 0.0)];
    r := FindRuns(looks, 0);
    assert EmptyRun(looks, 0);
  }

  /** The smallest similarity among the hits. */
  ghost predicate IsLeast(looks: seq<Look>, x: real) {
    && (exists i :: 0 <= i < |looks| && !looks[i].missed && looks[i].similarity == x)
    && forall i :: 0 <= i < |looks| && !looks[i].missed ==> looks[i].similarity >= x
  }

  /** So it is the smallest similarity of a hit only where a hit has none at all. */
  lemma LowestIsLeastIff(looks: seq<Look>)
    requires forall i :: 0 <= i < |looks| ==> looks[i].similarity >= 0.0
    ensures IsLeast(looks, Lowest(looks)) <==>
      exists i :: 0 <= i < |looks| && !looks[i].missed && looks[i].similarity == 0.0
  {
    LowestIsZero(looks);
  }

  /** One hit of similarity 0.8. */
  lemma LowestMissed()
    ensures Lowest([Look(false, 0.8)]) == 0.0 && IsLeast([Look(false, 0.8)], 0.8)
  {
    var looks := [Look(false, 0.8)];
    assert looks[0].similarity == 0.8;
    LowestIsZero(looks);
  }
}
