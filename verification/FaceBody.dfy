/**
 Putting faces and bodies together: all pairs whose overlap reaches the threshold, best
 first, each taken when its face and its body are both still free.
 */
module FaceBody {
  import opened Texts
  import opened Boxes
  import opened Sorting

  /** A pair of a face and a body, by position in their lists. */
  datatype Candidate = Candidate(ioa: real, iou: real, face: nat, body: nat)

  datatype Human = Human(face: Option<nat>, body: Option<nat>)

  const THRESHOLD := 0.8

  predicate AllLegal(boxes: seq<Box>) {
    forall i :: 0 <= i < |boxes| ==> Legal(boxes[i])
  }

  /** The candidates of one face with the first n bodies. */
  function Row(faces: seq<Box>, bodies: seq<Box>, f: nat, n: nat): seq<Candidate>
    requires AllLegal(faces) && AllLegal(bodies) && f < |faces| && n <= |bodies|
  {
    if n == 0 then []
    else
      var score := Ioa(faces[f], bodies[n - 1]);
      Row(faces, bodies, f, n - 1)
      + if score >= THRESHOLD then [Candidate(score, Iou(faces[f], bodies[n - 1]), f, n - 1)] else []
  }

  /** The candidates of the first n faces. */
  function Rows(faces: seq<Box>, bodies: seq<Box>, n: nat): seq<Candidate>
    requires AllLegal(faces) && AllLegal(bodies) && n <= |faces|
  {
    if n == 0 then [] else Rows(faces, bodies, n - 1) + Row(faces, bodies, n - 1, |bodies|)
  }

  /** `c` pairs a face and a body that overlap enough, with their scores. */
  predicate IsCandidate(faces: seq<Box>, bodies: seq<Box>, c: Candidate)
    requires AllLegal(faces) && AllLegal(bodies)
  {
    && c.face < |faces| && c.body < |bodies| && c.ioa >= THRESHOLD
    && c.ioa == Ioa(faces[c.face], bodies[c.body]) && c.iou == Iou(faces[c.face], bodies[c.body])
  }

  lemma {:induction false} RowMeaning(faces: seq<Box>, bodies: seq<Box>, f: nat, n: nat, c: Candidate)
    requires AllLegal(faces) && AllLegal(bodies) && f < |faces| && n <= |bodies|
    ensures c in Row(faces, bodies, f, n) <==> IsCandidate(faces, bodies, c) && c.face == f && c.body < n
  {
    hide Ioa, Iou;
    if n > 0 {
      RowMeaning(faces, bodies, f, n - 1, c);
    }
  }

  lemma {:induction false} RowsMeaning(faces: seq<Box>, bodies: seq<Box>, n: nat, c: Candidate)
    requires AllLegal(faces) && AllLegal(bodies) && n <= |faces|
    ensures c in Rows(faces, bodies, n) <==> IsCandidate(faces, bodies, c) && c.face < n
  {
    hide Ioa, Iou, Row;
    if n > 0 {
      RowsMeaning(faces, bodies, n - 1, c);
      RowMeaning(faces, bodies, n - 1, |bodies|, c);
      var before, row := Rows(faces, bodies, n - 1), Row(faces, bodies, n - 1, |bodies|);
      assert c in before + row <==> c in before || c in row;
    }
  }

  /** A face and a body are a candidate exactly when at least four fifths of the face's pixels lie in the body. */
  lemma CandidateIff(faces: seq<Box>, bodies: seq<Box>, f: nat, b: nat)
    requires AllLegal(faces) && AllLegal(bodies) && f < |faces| && b < |bodies|
    ensures (exists c :: c in Rows(faces, bodies, |faces|) && c.face == f && c.body == b) <==>
      5 * |Pixels(faces[f]) * Pixels(bodies[b])| >= 4 * |Pixels(faces[f])|
  {
    hide Ioa, Iou, Rows, Pixels, Area;
    RatiosCount(faces[f], bodies[b]);
    AreaCounts(faces[f]);
    var x, n, k := Ioa(faces[f], bodies[b]), |Pixels(faces[f])|, |Pixels(faces[f]) * Pixels(bodies[b])|;
    FourFifths(x, n, k);
    if x >= THRESHOLD {
      RowsMeaning(faces, bodies, |faces|, Candidate(x, Iou(faces[f], bodies[b]), f, b));
    }
    forall c | c in Rows(faces, bodies, |faces|) && c.face == f && c.body == b ensures x >= THRESHOLD {
      RowsMeaning(faces, bodies, |faces|, c);
    }
  }

  lemma FourFifths(x: real, n: nat, k: nat)
    requires n >= 1 && x * n as real == k as real
    ensures x >= THRESHOLD <==> 5 * k >= 4 * n
  {
    assert (5.0 * x - 4.0) * n as real == (5 * k - 4 * n) as real;
    assert x >= THRESHOLD ==> (5.0 * x - 4.0) * n as real >= 0.0;
    assert x < THRESHOLD ==> (5.0 * x - 4.0) * n as real < 0.0;
  }

  // ------------------------------------------------------------ the greedy choice

  /** Higher IoA first, then higher IoU. */
  predicate AtLeast(a: Candidate, b: Candidate) {
    a.ioa > b.ioa || (a.ioa == b.ioa && a.iou >= b.iou)
  }

  function BestFirst(): (Candidate, Candidate) -> bool {
    (a: Candidate, b: Candidate) => AtLeast(a, b)
  }

  predicate Clash(a: Candidate, b: Candidate) {
    a.face == b.face || a.body == b.body
  }

  predicate Free(chosen: seq<Candidate>, c: Candidate) {
    forall i :: 0 <= i < |chosen| ==> !Clash(chosen[i], c)
  }

  function Choose(cs: seq<Candidate>): seq<Candidate> {
    if cs == [] then []
    else
      var chosen, c := Choose(cs[..|cs| - 1]), cs[|cs| - 1];
      if Free(chosen, c) then chosen + [c] else chosen
  }

  /** What `_human_localization` pairs up. */
  function Chosen(faces: seq<Box>, bodies: seq<Box>): seq<Candidate>
    requires AllLegal(faces) && AllLegal(bodies)
  {
    Choose(StableSort(Rows(faces, bodies, |faces|), BestFirst()))
  }

  /** No face and no body twice. */
  predicate Matching(m: seq<Candidate>) {
    forall i, j :: 0 <= i < j < |m| ==> m[i].face != m[j].face && m[i].body != m[j].body
  }

  /** `c`, or a pair of a higher IoA, or the same and at least its IoU, that takes c's face or body, has been chosen. */
  ghost predicate Settled(chosen: seq<Candidate>, c: Candidate) {
    exists i :: 0 <= i < |chosen| && SettledBy(chosen[i], c)
  }

  predicate SettledBy(d: Candidate, c: Candidate) {
    && (d.face == c.face || d.body == c.body)
    && (d.ioa > c.ioa || (d.ioa == c.ioa && d.iou >= c.iou))
  }

  lemma {:induction false} ChooseMeaning(cs: seq<Candidate>)
    requires SortedBy(cs, BestFirst())
    ensures Matching(Choose(cs))
    ensures forall d :: d in Choose(cs) ==> d in cs
    ensures forall c :: c in cs ==> Settled(Choose(cs), c)
  {
    if cs != [] {
      var front, last := cs[..|cs| - 1], cs[|cs| - 1];
      ChooseMeaning(front);
      var before, after := Choose(front), Choose(cs);
      assert before <= after;
      forall c | c in cs ensures Settled(after, c) {
        if c in front {
          var i :| 0 <= i < |before| && SettledBy(before[i], c);
          assert SettledBy(after[i], c);
        } else if Free(before, last) {
          assert SettledBy(after[|before|], c);
        } else {
          var i :| 0 <= i < |before| && Clash(before[i], last);
          assert before[i] in front;
          var k :| 0 <= k < |front| && front[k] == before[i];
          assert BestFirst()(cs[k], cs[|cs| - 1]);
          assert SettledBy(after[i], c);
        }
      }
    }
  }

  /** The pairs are candidates, one-to-one, and every candidate left out clashes with one at least as good. */
  lemma ChosenMeaning(faces: seq<Box>, bodies: seq<Box>)
    requires AllLegal(faces) && AllLegal(bodies)
    ensures var m := Chosen(faces, bodies);
      && Matching(m) && (forall d :: d in m ==> IsCandidate(faces, bodies, d))
      && (forall c :: IsCandidate(faces, bodies, c) ==> Settled(m, c))
  {
    var cs := Rows(faces, bodies, |faces|);
    var sorted := StableSort(cs, BestFirst());
    StableSortSorted(cs, BestFirst());
    ChooseMeaning(sorted);
    forall c ensures c in sorted <==> IsCandidate(faces, bodies, c) {
      SameElement(sorted, cs, c);
      RowsMeaning(faces, bodies, |faces|, c);
    }
  }

  // ------------------------------------------------------------ at least half of any matching

  function Total(m: seq<Candidate>): real {
    if m == [] then 0.0 else Total(m[..|m| - 1]) + m[|m| - 1].ioa
  }

  function Drop(m: seq<Candidate>, i: nat): seq<Candidate>
    requires i < |m|
  {
    m[..i] + m[i + 1..]
  }

  lemma {:induction false} DropTotal(m: seq<Candidate>, i: nat)
    requires i < |m|
    ensures Total(m) == Total(Drop(m, i)) + m[i].ioa
  {
    var n := |m| - 1;
    if i == n {
      assert Drop(m, i) == m[..n];
    } else {
      DropTotal(m[..n], i);
      assert Drop(m, i)[..n - 1] == Drop(m[..n], i);
    }
  }

  /** Take out of `m` one pair that shares d's face and is no better than d, if there is one. */
  lemma ChargeFace(m: seq<Candidate>, d: Candidate) returns (r: seq<Candidate>)
    requires Matching(m) && d.ioa >= 0.0
    ensures Matching(r) && (forall c :: c in r ==> c in m) && Total(m) <= Total(r) + d.ioa
    ensures forall c :: c in r ==> !(c.face == d.face && AtLeast(d, c))
  {
    if i: nat :| i < |m| && m[i].face == d.face && AtLeast(d, m[i]) {
      r := Drop(m, i);
      DropTotal(m, i);
      assert forall k | 0 <= k < |r| :: r[k] == if k < i then m[k] else m[k + 1];
    } else {
      r := m;
    }
  }

  /** The same for d's body. */
  lemma ChargeBody(m: seq<Candidate>, d: Candidate) returns (r: seq<Candidate>)
    requires Matching(m) && d.ioa >= 0.0
    ensures Matching(r) && (forall c :: c in r ==> c in m) && Total(m) <= Total(r) + d.ioa
    ensures forall c :: c in r ==> !(c.body == d.body && AtLeast(d, c))
  {
    if i: nat :| i < |m| && m[i].body == d.body && AtLeast(d, m[i]) {
      r := Drop(m, i);
      DropTotal(m, i);
      assert forall k | 0 <= k < |r| :: r[k] == if k < i then m[k] else m[k + 1];
    } else {
      r := m;
    }
  }

  lemma HasElement(m: seq<Candidate>)
    requires m != []
    ensures exists c :: c in m
  {
    assert m[0] in m;
  }

  /** A matching all of whose pairs are settled by `chosen` scores at most twice as much. */
  lemma {:induction false} TwiceCovers(m: seq<Candidate>, chosen: seq<Candidate>)
    requires Matching(m) && (forall c :: c in m ==> Settled(chosen, c))
    requires forall d :: d in chosen ==> d.ioa >= 0.0
    ensures Total(m) <= 2.0 * Total(chosen)
    decreases |chosen|
  {
    if chosen == [] {
      if m != [] {
        HasElement(m);
      }
    } else {
      var front, d := chosen[..|chosen| - 1], chosen[|chosen| - 1];
      var m1 := ChargeFace(m, d);
      var m2 := ChargeBody(m1, d);
      forall c | c in m2 ensures Settled(front, c) {
        assert c in m1 && c in m;
        var i :| 0 <= i < |chosen| && SettledBy(chosen[i], c);
        assert i < |front| && front[i] == chosen[i];
      }
      TwiceCovers(m2, front);
    }
  }

  /** The greedy pairing's total overlap is at least half that of any pairing of candidates. */
  lemma HalfOptimal(faces: seq<Box>, bodies: seq<Box>, m: seq<Candidate>)
    requires AllLegal(faces) && AllLegal(bodies)
    requires Matching(m) && forall c :: c in m ==> IsCandidate(faces, bodies, c)
    ensures Total(m) <= 2.0 * Total(Chosen(faces, bodies))
  {
    ChosenMeaning(faces, bodies);
    TwiceCovers(m, Chosen(faces, bodies));
  }

  // ------------------------------------------------------------ the method

  /** The body chosen for a face, `face_to_body.get`. */
  function Partner(chosen: seq<Candidate>, f: nat): Option<nat> {
    if chosen == [] then None
    else if chosen[|chosen| - 1].face == f then Some(chosen[|chosen| - 1].body)
    else Partner(chosen[..|chosen| - 1], f)
  }

  predicate Taken(chosen: seq<Candidate>, b: nat) {
    exists i :: 0 <= i < |chosen| && chosen[i].body == b
  }

  lemma {:induction false} PartnerMeaning(chosen: seq<Candidate>, f: nat, b: nat)
    requires Matching(chosen)
    ensures Partner(chosen, f) == Some(b) <==>
      exists i :: 0 <= i < |chosen| && chosen[i].face == f && chosen[i].body == b
  {
    if chosen != [] {
      var front := chosen[..|chosen| - 1];
      assert forall i | 0 <= i < |front| :: front[i] == chosen[i];
      PartnerMeaning(front, f, b);
    }
  }

  /** The candidates, in the order of the comprehension. */
  method Candidates(faces: seq<Box>, bodies: seq<Box>) returns (cs: seq<Candidate>)
    requires AllLegal(faces) && AllLegal(bodies)
    ensures cs == Rows(faces, bodies, |faces|)
  {
    cs := [];
    for f := 0 to |faces|
      invariant cs == Rows(faces, bodies, f)
    {
      for b := 0 to |bodies|
        invariant cs == Rows(faces, bodies, f) + Row(faces, bodies, f, b)
      {
        var score := Ioa(faces[f], bodies[b]);
        if score >= THRESHOLD {
          cs := cs + [Candidate(score, Iou(faces[f], bodies[b]), f, b)];
        }
      }
    }
  }

  /** The greedy loop with its two sets and its dictionary. */
  method Assign(cs: seq<Candidate>) returns (faceToBody: map<nat, nat>, assignedBodies: set<nat>)
    ensures forall f :: f in faceToBody <==> Partner(Choose(cs), f).Some?
    ensures forall f :: f in faceToBody ==> Partner(Choose(cs), f) == Some(faceToBody[f])
    ensures forall b: nat :: b in assignedBodies <==> Taken(Choose(cs), b)
  {
    var assignedFaces: set<nat> := {};
    faceToBody, assignedBodies := map[], {};
    for i := 0 to |cs|
      invariant forall f :: f in assignedFaces <==> f in faceToBody
      invariant Agrees(Choose(cs[..i]), faceToBody, assignedBodies)
    {
      assert cs[..i + 1][..i] == cs[..i];
      ghost var before := Choose(cs[..i]);
      FreeIff(before, cs[i], faceToBody, assignedBodies);
      if cs[i].face !in assignedFaces && cs[i].body !in assignedBodies {
        AgreesMore(before, cs[i], faceToBody, assignedBodies);
        faceToBody := faceToBody[cs[i].face := cs[i].body];
        assignedFaces := assignedFaces + {cs[i].face};
        assignedBodies := assignedBodies + {cs[i].body};
      }
    }
    assert cs[..|cs|] == cs;
  }

  ghost predicate Agrees(chosen: seq<Candidate>, faceToBody: map<nat, nat>, bodies: set<nat>) {
    && (forall f :: f in faceToBody <==> Partner(chosen, f).Some?)
    && (forall f :: f in faceToBody ==> Partner(chosen, f) == Some(faceToBody[f]))
    && (forall b: nat :: b in bodies <==> Taken(chosen, b))
  }

  lemma {:induction false} PartnerSome(chosen: seq<Candidate>, f: nat)
    ensures Partner(chosen, f).Some? <==> exists i :: 0 <= i < |chosen| && chosen[i].face == f
  {
    if chosen != [] {
      var front := chosen[..|chosen| - 1];
      assert forall i | 0 <= i < |front| :: front[i] == chosen[i];
      PartnerSome(front, f);
    }
  }

  lemma FreeIff(chosen: seq<Candidate>, c: Candidate, faceToBody: map<nat, nat>, bodies: set<nat>)
    requires Agrees(chosen, faceToBody, bodies)
    ensures Free(chosen, c) <==> c.face !in faceToBody && c.body !in bodies
  {
    PartnerSome(chosen, c.face);
  }

  lemma AgreesMore(chosen: seq<Candidate>, c: Candidate, faceToBody: map<nat, nat>, bodies: set<nat>)
    requires Agrees(chosen, faceToBody, bodies)
    ensures Agrees(chosen + [c], faceToBody[c.face := c.body], bodies + {c.body})
  {
    var more := chosen + [c];
    assert more[..|chosen|] == chosen;
    forall b: nat ensures Taken(more, b) <==> Taken(chosen, b) || b == c.body {
      if i :| 0 <= i < |chosen| && chosen[i].body == b {
        assert more[i].body == b;
      }
      assert more[|chosen|].body == c.body;
    }
  }

  /** The faces, each with its body if it got one. */
  function WithFaces(chosen: seq<Candidate>, n: nat): seq<Human> {
    seq(n, f requires 0 <= f < n => Human(Some(f), Partner(chosen, f)))
  }

  /** The bodies among the first n that no face got. */
  function Alone(chosen: seq<Candidate>, n: nat): seq<Human> {
    if n == 0 then [] else Alone(chosen, n - 1) + if Taken(chosen, n - 1) then [] else [Human(None, Some(n - 1))]
  }

  /** Every face with the body it got, then the bodies left over. */
  method Assemble(sorted: seq<Candidate>, faces: nat, bodies: nat) returns (humans: seq<Human>)
    ensures humans == WithFaces(Choose(sorted), faces) + Alone(Choose(sorted), bodies)
  {
    ghost var chosen := Choose(sorted);
    var faceToBody, assignedBodies := Assign(sorted);
    hide Choose, Partner, Taken;
    humans := [];
    for f := 0 to faces
      invariant humans == WithFaces(chosen, f)
    {
      humans := humans + [Human(Some(f), if f in faceToBody then Some(faceToBody[f]) else None)];
    }
    for b := 0 to bodies
      invariant humans == WithFaces(chosen, faces) + Alone(chosen, b)
    {
      if b !in assignedBodies {
        humans := humans + [Human(None, Some(b))];
      }
    }
  }

  /** `_human_localization`; `None` is the ValueError for a box that is no box. */
  method HumanLocalization(faces: seq<Box>, bodies: seq<Box>) returns (r: Option<seq<Human>>)
    ensures r.None? <==> faces != [] && bodies != [] && !(AllLegal(faces) && AllLegal(bodies))
    ensures r.Some? && faces != [] && bodies != [] ==>
      r.value == WithFaces(Chosen(faces, bodies), |faces|) + Alone(Chosen(faces, bodies), |bodies|)
    ensures faces == [] || bodies == [] ==> r == Some(WithFaces([], |faces|) + Alone([], |bodies|))
  {
    var cs: seq<Candidate> := [];
    if faces != [] && bodies != [] {
      if !(AllLegal(faces) && AllLegal(bodies)) {
        return None;
      }
      cs := Candidates(faces, bodies);
    }
    var humans := Assemble(StableSort(cs, BestFirst()), |faces|, |bodies|);
    return Some(humans);
  }

  // ------------------------------------------------------------ everybody once

  /** How many of these humans have body b. */
  function Holders(humans: seq<Human>, b: nat): nat {
    if humans == [] then 0
    else Holders(humans[..|humans| - 1], b) + if humans[|humans| - 1].body == Some(b) then 1 else 0
  }

  lemma HoldersAppend(x: seq<Human>, y: seq<Human>, b: nat)
    ensures Holders(x + y, b) == Holders(x, b) + Holders(y, b)
  {
    if y == [] {
      assert x + y == x;
    } else {
      HoldersAppend(x, y[..|y| - 1], b);
      assert (x + y)[..|x + y| - 1] == x + y[..|y| - 1];
    }
  }

  lemma {:induction false} AloneHolds(chosen: seq<Candidate>, n: nat, b: nat)
    ensures Holders(Alone(chosen, n), b) == if b < n && !Taken(chosen, b) then 1 else 0
  {
    if n > 0 {
      AloneHolds(chosen, n - 1, b);
      var last := if Taken(chosen, n - 1) then [] else [Human(None, Some(n - 1))];
      HoldersAppend(Alone(chosen, n - 1), last, b);
      assert |last| == 1 ==> last[..0] == [];
    }
  }

  /** A taken body is held by one face, whichever the chosen pair's is. */
  lemma {:induction false} FacesHold(chosen: seq<Candidate>, n: nat, b: nat)
    requires Matching(chosen)
    ensures Holders(WithFaces(chosen, n), b)
         == if exists i :: 0 <= i < |chosen| && chosen[i].body == b && chosen[i].face < n then 1 else 0
  {
    if n > 0 {
      FacesHold(chosen, n - 1, b);
      assert WithFaces(chosen, n)[..n - 1] == WithFaces(chosen, n - 1);
      PartnerMeaning(chosen, n - 1, b);
    }
  }

  /** Every body is in exactly one of the returned humans. */
  lemma EveryBodyOnce(faces: seq<Box>, bodies: seq<Box>, b: nat)
    requires AllLegal(faces) && AllLegal(bodies) && b < |bodies|
    ensures Holders(WithFaces(Chosen(faces, bodies), |faces|) + Alone(Chosen(faces, bodies), |bodies|), b) == 1
  {
    var chosen := Chosen(faces, bodies);
    ChosenMeaning(faces, bodies);
    hide Chosen, Settled;
    HoldersAppend(WithFaces(chosen, |faces|), Alone(chosen, |bodies|), b);
    AloneHolds(chosen, |bodies|, b);
    FacesHold(chosen, |faces|, b);
    hide Matching, Alone, WithFaces, Holders;
    if Taken(chosen, b) {
      var i :| 0 <= i < |chosen| && chosen[i].body == b;
      assert chosen[i] in chosen;
    }
  }

  /** The i-th face is in the i-th of the returned humans and in no other. */
  lemma EveryFaceOnce(chosen: seq<Candidate>, faces: nat, bodies: nat, i: nat, f: nat)
    requires f < faces && i < |WithFaces(chosen, faces) + Alone(chosen, bodies)|
    ensures (WithFaces(chosen, faces) + Alone(chosen, bodies))[i].face == Some(f) <==> i == f
  {
    AloneFaceless(chosen, bodies);
  }

  lemma {:induction false} AloneFaceless(chosen: seq<Candidate>, n: nat)
    ensures forall i :: 0 <= i < |Alone(chosen, n)| ==> Alone(chosen, n)[i].face.None?
  {
    if n > 0 {
      AloneFaceless(chosen, n - 1);
    }
  }
}
