/**
 Naming the tracked people: every participant in turn gets the most similar tracking
 sequence that is still free, and the sequences left over keep their own names.
 */
module Identities {
  import opened Texts
  import opened Sorting

  type Id = int

  datatype Match = Match(track: Id, similarity: real)

  /** A participant and the tracking sequences similar enough to it. */
  datatype Participant = Participant(id: Id, matches: seq<Match>)

  function MostSimilar(): (Match, Match) -> bool {
    (a: Match, b: Match) => a.similarity >= b.similarity
  }

  /** The first match whose sequence is not occupied. */
  function FirstFree(matches: seq<Match>, occupied: set<Id>): Option<Match> {
    if matches == [] then None
    else if matches[0].track !in occupied then Some(matches[0])
    else FirstFree(matches[1..], occupied)
  }

  /** A match that is free, and at least as similar as every other free one. */
  ghost predicate IsBest(matches: seq<Match>, occupied: set<Id>, best: Match) {
    && best in matches && best.track !in occupied
    && forall m :: m in matches && m.track !in occupied ==> m.similarity <= best.similarity
  }

  /** In a list sorted by similarity the first free match is the best free one. */
  lemma {:induction false} FirstFreeBest(matches: seq<Match>, occupied: set<Id>)
    requires SortedBy(matches, MostSimilar())
    ensures var r := FirstFree(matches, occupied);
      && (r.None? <==> forall m :: m in matches ==> m.track in occupied)
      && (r.Some? ==> IsBest(matches, occupied, r.value))
  {
    if matches != [] {
      var rest := matches[1..];
      assert forall i, j | 0 <= i < j < |rest| :: rest[i] == matches[i + 1] && rest[j] == matches[j + 1];
      FirstFreeBest(rest, occupied);
      assert forall i | 0 < i < |matches| :: MostSimilar()(matches[0], matches[i]);
    }
  }

  /** The sequences the first n participants got. */
  function Occupied(ps: seq<Participant>, n: nat): set<Id>
    requires n <= |ps|
    decreases n, 0
  {
    if n == 0 then {}
    else
      var m := Given(ps, n - 1);
      Occupied(ps, n - 1) + if m.Some? then {m.value.track} else {}
  }

  /** What the n-th participant gets, after those before it. */
  function Given(ps: seq<Participant>, n: nat): Option<Match>
    requires n < |ps|
    decreases n, 1
  {
    FirstFree(StableSort(ps[n].matches, MostSimilar()), Occupied(ps, n))
  }

  /** The best match that no earlier participant got; none exactly when the earlier ones got them all. */
  lemma GivenMeaning(ps: seq<Participant>, n: nat)
    requires n < |ps|
    ensures var r, taken := Given(ps, n), Occupied(ps, n);
      && (r.None? <==> forall m :: m in ps[n].matches ==> m.track in taken)
      && (r.Some? ==> IsBest(ps[n].matches, taken, r.value))
  {
    var sorted := StableSort(ps[n].matches, MostSimilar());
    StableSortSorted(ps[n].matches, MostSimilar());
    FirstFreeBest(sorted, Occupied(ps, n));
    forall m ensures m in sorted <==> m in ps[n].matches {
      SameElement(sorted, ps[n].matches, m);
    }
  }

  lemma OccupiedStep(ps: seq<Participant>, n: nat)
    requires n < |ps|
    ensures Occupied(ps, n + 1) == Occupied(ps, n) + if Given(ps, n).Some? then {Given(ps, n).value.track} else {}
  {
    hide Given;
  }

  lemma {:induction false} OccupiedIff(ps: seq<Participant>, n: nat, t: Id)
    requires n <= |ps|
    ensures t in Occupied(ps, n) <==> exists i: nat :: i < n && Got(ps, i, t)
  {
    hide Given;
    if n > 0 {
      OccupiedStep(ps, n - 1);
      OccupiedIff(ps, n - 1, t);
      assert Got(ps, n - 1, t) ==> t in Occupied(ps, n);
    }
  }

  /** A sequence is occupied exactly when one participant got it, and no two get the same. */
  lemma OccupiedOnce(ps: seq<Participant>, t: Id)
    ensures t in Occupied(ps, |ps|) <==> exists i: nat :: i < |ps| && Got(ps, i, t)
    ensures forall i: nat, j: nat :: i < j < |ps| && Got(ps, i, t) ==> !Got(ps, j, t)
  {
    OccupiedIff(ps, |ps|, t);
    forall i: nat, j: nat | i < j < |ps| && Got(ps, i, t) ensures !Got(ps, j, t) {
      OccupiedIff(ps, j, t);
      GivenMeaning(ps, j);
    }
  }

  predicate Got(ps: seq<Participant>, i: nat, t: Id) {
    i < |ps| && Given(ps, i).Some? && Given(ps, i).value.track == t
  }

  /** No two participants have one id. */
  predicate DistinctIds(ps: seq<Participant>) {
    forall i, j :: 0 <= i < j < |ps| ==> ps[i].id != ps[j].id
  }

  /** The tracking sequences no participant got. */
  predicate IsFree(ps: seq<Participant>, tracks: seq<Id>, t: Id) {
    t in tracks && t !in Occupied(ps, |ps|)
  }

  /** Free sequences under their own ids, and the participants' choices under theirs unless that overwrites them. */
  ghost predicate IsMapper(ps: seq<Participant>, tracks: seq<Id>, mapper: map<Id, Option<Match>>) {
    && (forall k :: k in mapper <==> (exists i :: 0 <= i < |ps| && ps[i].id == k) || IsFree(ps, tracks, k))
    && (forall t :: IsFree(ps, tracks, t) ==> mapper[t] == Some(Match(t, 1.0)))
    && (forall i :: 0 <= i < |ps| && !IsFree(ps, tracks, ps[i].id) ==> mapper[ps[i].id] == Given(ps, i))
  }

  /** The inner loop: the first match, best first, whose sequence is not occupied. */
  method FindFree(matches: seq<Match>, occupied: set<Id>) returns (matched: Option<Match>)
    ensures matched == FirstFree(matches, occupied)
  {
    for k := 0 to |matches|
      invariant FirstFree(matches, occupied) == FirstFree(matches[k..], occupied)
    {
      assert matches[k..][1..] == matches[k + 1..];
      if matches[k].track !in occupied {
        return Some(matches[k]);
      }
    }
    return None;
  }

  lemma GivenIs(ps: seq<Participant>, n: nat)
    requires n < |ps|
    ensures Given(ps, n) == FirstFree(StableSort(ps[n].matches, MostSimilar()), Occupied(ps, n))
  {
  }

  /** The first n participants' entries. */
  ghost predicate Mapped(ps: seq<Participant>, n: nat, mapper: map<Id, Option<Match>>)
    requires n <= |ps|
  {
    && (forall k :: k in mapper <==> exists i :: 0 <= i < n && ps[i].id == k)
    && (forall i :: 0 <= i < n ==> mapper[ps[i].id] == Given(ps, i))
  }

  lemma MappedNext(ps: seq<Participant>, n: nat, mapper: map<Id, Option<Match>>)
    requires n < |ps| && DistinctIds(ps) && Mapped(ps, n, mapper)
    ensures Mapped(ps, n + 1, mapper[ps[n].id := Given(ps, n)])
  {
    hide Given;
  }

  /** The loop over the participants. */
  method MatchParticipants(ps: seq<Participant>) returns (mapper: map<Id, Option<Match>>, occupied: set<Id>)
    requires DistinctIds(ps)
    ensures occupied == Occupied(ps, |ps|) && Mapped(ps, |ps|, mapper)
  {
    mapper, occupied := map[], {};
    hide Given, StableSort, FirstFree;
    for n := 0 to |ps|
      invariant occupied == Occupied(ps, n) && Mapped(ps, n, mapper)
    {
      hide Occupied, Mapped;
      GivenIs(ps, n);
      OccupiedStep(ps, n);
      MappedNext(ps, n, mapper);
      var matched := FindFree(StableSort(ps[n].matches, MostSimilar()), occupied);
      if matched.Some? {
        occupied := occupied + {matched.value.track};
      }
      mapper := mapper[ps[n].id := matched];
    }
  }

  /** `_get_identity_mapper`, after the relation has been filled in. */
  method GetIdentityMapper(ps: seq<Participant>, tracks: seq<Id>) returns (mapper: map<Id, Option<Match>>)
    requires DistinctIds(ps)
    ensures IsMapper(ps, tracks, mapper)
  {
    var named, occupied := MatchParticipants(ps);
    mapper := named;
    hide Occupied, Given, Mapped, IsMapper;
    for n := 0 to |tracks|
      invariant Added(named, tracks[..n], occupied, mapper)
    {
      assert tracks[..n + 1] == tracks[..n] + [tracks[n]];
      hide Added;
      AddedNext(named, tracks[..n], occupied, mapper, tracks[n]);
      if tracks[n] !in occupied {
        mapper := mapper[tracks[n] := Some(Match(tracks[n], 1.0))];
      }
    }
    assert tracks[..|tracks|] == tracks;
    AddedAll(ps, tracks, named, mapper);
  }

  lemma AddedAll(ps: seq<Participant>, tracks: seq<Id>, named: map<Id, Option<Match>>, mapper: map<Id, Option<Match>>)
    requires Mapped(ps, |ps|, named) && Added(named, tracks, Occupied(ps, |ps|), mapper)
    ensures IsMapper(ps, tracks, mapper)
  {
    hide Occupied, Given;
  }

  /** The mapper with the free ones among these sequences under their own ids. */
  ghost predicate Added(named: map<Id, Option<Match>>, tracks: seq<Id>, occupied: set<Id>,
                        mapper: map<Id, Option<Match>>) {
    && (forall k :: k in mapper <==> k in named || (k in tracks && k !in occupied))
    && (forall k :: k in mapper ==>
          mapper[k] == if k in tracks && k !in occupied then Some(Match(k, 1.0)) else named[k])
  }

  lemma AddedNext(named: map<Id, Option<Match>>, tracks: seq<Id>, occupied: set<Id>, mapper: map<Id, Option<Match>>,
                  t: Id)
    requires Added(named, tracks, occupied, mapper)
    ensures t !in occupied ==> Added(named, tracks + [t], occupied, mapper[t := Some(Match(t, 1.0))])
    ensures t in occupied ==> Added(named, tracks + [t], occupied, mapper)
  {
    assert forall k :: k in tracks + [t] <==> k in tracks || k == t;
  }

  /** The name a tracking sequence ends up under, among the keys of the mapper. */
  ghost predicate Names(mapper: map<Id, Option<Match>>, k: Id, t: Id) {
    k in mapper && mapper[k].Some? && mapper[k].value.track == t
  }

  /** The participant's choice stands: its id is not that of a free tracking sequence. */
  ghost predicate Stands(ps: seq<Participant>, tracks: seq<Id>, i: nat, t: Id) {
    Got(ps, i, t) && !IsFree(ps, tracks, ps[i].id)
  }

  lemma NamedBy(ps: seq<Participant>, tracks: seq<Id>, mapper: map<Id, Option<Match>>, k: Id, t: Id)
    requires DistinctIds(ps) && IsMapper(ps, tracks, mapper)
    ensures Names(mapper, k, t) <==>
      (k == t && IsFree(ps, tracks, t)) || exists i: nat :: Stands(ps, tracks, i, t) && ps[i].id == k
  {
    OccupiedOnce(ps, t);
    if Names(mapper, k, t) && !IsFree(ps, tracks, k) {
      var i :| 0 <= i < |ps| && ps[i].id == k;
      assert Stands(ps, tracks, i, t);
    }
  }

  /**
   Every tracking sequence has at most one name. It has one exactly when no participant got
   it, or the one that did does not have the id of a sequence nobody got.
   */
  lemma NamedOnce(ps: seq<Participant>, tracks: seq<Id>, mapper: map<Id, Option<Match>>, t: Id)
    requires DistinctIds(ps) && IsMapper(ps, tracks, mapper) && t in tracks
    ensures forall k, l :: Names(mapper, k, t) && Names(mapper, l, t) ==> k == l
    ensures (exists k :: Names(mapper, k, t)) <==> IsFree(ps, tracks, t) || exists i: nat :: Stands(ps, tracks, i, t)
  {
    OccupiedOnce(ps, t);
    forall k, l | Names(mapper, k, t) && Names(mapper, l, t) ensures k == l {
      NamedBy(ps, tracks, mapper, k, t);
      NamedBy(ps, tracks, mapper, l, t);
    }
    if k :| Names(mapper, k, t) {
      NamedBy(ps, tracks, mapper, k, t);
    }
    if IsFree(ps, tracks, t) {
      NamedBy(ps, tracks, mapper, t, t);
    }
    if i: nat :| Stands(ps, tracks, i, t) {
      NamedBy(ps, tracks, mapper, ps[i].id, t);
    }
  }

  // ------------------------------------------------------------ what the ids alone decide

  /** The participants have these ids and match these tracking sequences only. */
  ghost predicate Relates(ps: seq<Participant>, ids: seq<Id>, tracks: seq<Id>) {
    && |ps| == |ids| && (forall i :: 0 <= i < |ps| ==> ps[i].id == ids[i])
    && (forall i, m :: 0 <= i < |ps| && m in ps[i].matches ==> m.track in tracks)
  }

  /** Whatever the mapper, every tracking sequence has a name in it. */
  ghost predicate AllNamed(ps: seq<Participant>, tracks: seq<Id>) {
    forall mapper, t :: IsMapper(ps, tracks, mapper) && t in tracks ==> exists k :: Names(mapper, k, t)
  }

  /** No participant has the id of a tracking sequence, unless that is the only one. */
  predicate NoClash(ids: seq<Id>, tracks: seq<Id>) {
    forall i, t :: 0 <= i < |ids| && ids[i] in tracks && t in tracks ==> t == ids[i]
  }

  lemma NoClashNames(ps: seq<Participant>, ids: seq<Id>, tracks: seq<Id>, mapper: map<Id, Option<Match>>, t: Id)
    requires DistinctIds(ps) && Relates(ps, ids, tracks) && NoClash(ids, tracks)
    requires IsMapper(ps, tracks, mapper) && t in tracks
    ensures exists k :: Names(mapper, k, t)
  {
    hide Given, IsMapper, Names;
    NamedOnce(ps, tracks, mapper, t);
    OccupiedOnce(ps, t);
    if !IsFree(ps, tracks, t) {
      var i: nat :| i < |ps| && Got(ps, i, t);
      assert ids[i] == ps[i].id;
      assert Stands(ps, tracks, i, t);
    }
  }

  /** The n-th participant matches sequence t, the others nothing. */
  function OneMatch(ids: seq<Id>, n: nat, t: Id): (ps: seq<Participant>)
    ensures |ps| == |ids|
    ensures forall i :: 0 <= i < |ps| ==> ps[i] == Participant(ids[i], if i == n then [Match(t, 1.0)] else [])
  {
    seq(|ids|, i requires 0 <= i < |ids| => Participant(ids[i], if i == n then [Match(t, 1.0)] else []))
  }

  lemma OneMatchGiven(ids: seq<Id>, n: nat, t: Id, i: nat)
    requires n < |ids| && i < |ids|
    ensures var ps := OneMatch(ids, n, t);
      Occupied(ps, i) == (if i <= n then {} else {t}) && Given(ps, i) == if i == n then Some(Match(t, 1.0)) else None
  {
    var ps := OneMatch(ids, n, t);
    if i > 0 {
      OneMatchGiven(ids, n, t, i - 1);
      OccupiedStep(ps, i - 1);
    }
    GivenMeaning(ps, i);
  }

  lemma OneMatchOccupied(ids: seq<Id>, n: nat, t: Id)
    requires n < |ids|
    ensures var ps := OneMatch(ids, n, t); Occupied(ps, |ps|) == {t}
  {
    OneMatchGiven(ids, n, t, |ids| - 1);
    OccupiedStep(OneMatch(ids, n, t), |ids| - 1);
  }

  /** The clash: the participant's sequence loses its name to the free sequence with the participant's id. */
  lemma ClashLosesName(ids: seq<Id>, tracks: seq<Id>, n: nat, t: Id, mapper: map<Id, Option<Match>>)
    requires n < |ids| && (forall i, j :: 0 <= i < j < |ids| ==> ids[i] != ids[j])
    requires ids[n] in tracks && t in tracks && t != ids[n] && IsMapper(OneMatch(ids, n, t), tracks, mapper)
    ensures forall k :: !Names(mapper, k, t)
  {
    hide Given, IsMapper, Names, Occupied;
    var ps := OneMatch(ids, n, t);
    OneMatchOccupied(ids, n, t);
    NamedOnce(ps, tracks, mapper, t);
    forall i: nat ensures !Stands(ps, tracks, i, t) {
      if i < |ids| {
        OneMatchGiven(ids, n, t, i);
      }
    }
  }

  /** There is a mapper for every relation: the free sequences' entries over the participants'. */
  lemma MapperExists(ps: seq<Participant>, tracks: seq<Id>) returns (mapper: map<Id, Option<Match>>)
    requires DistinctIds(ps)
    ensures IsMapper(ps, tracks, mapper)
  {
    var named := MappedExists(ps, |ps|);
    var taken := Occupied(ps, |ps|);
    mapper := map k | k in named.Keys + (set t | t in tracks && t !in taken) ::
      if k in tracks && k !in taken then Some(Match(k, 1.0)) else named[k];
    hide Given, Occupied;
  }

  lemma {:induction false} MappedExists(ps: seq<Participant>, n: nat) returns (mapper: map<Id, Option<Match>>)
    requires DistinctIds(ps) && n <= |ps|
    ensures Mapped(ps, n, mapper)
  {
    mapper := map[];
    if n > 0 {
      var before := MappedExists(ps, n - 1);
      MappedNext(ps, n - 1, before);
      mapper := before[ps[n - 1].id := Given(ps, n - 1)];
    }
  }

  /**
   For given participants and tracking sequences, every sequence is named whoever it is
   matched with exactly when no participant has the id of a sequence, or that sequence is
   the only one.
   */
  lemma AlwaysNamedIff(ids: seq<Id>, tracks: seq<Id>)
    requires forall i, j :: 0 <= i < j < |ids| ==> ids[i] != ids[j]
    ensures (forall ps :: Relates(ps, ids, tracks) ==> AllNamed(ps, tracks)) <==> NoClash(ids, tracks)
  {
    if NoClash(ids, tracks) {
      forall ps | Relates(ps, ids, tracks) ensures AllNamed(ps, tracks) {
        forall mapper, t | IsMapper(ps, tracks, mapper) && t in tracks ensures exists k :: Names(mapper, k, t) {
          NoClashNames(ps, ids, tracks, mapper, t);
        }
      }
    } else {
      var n, t :| 0 <= n < |ids| && ids[n] in tracks && t in tracks && t != ids[n];
      var ps := OneMatch(ids, n, t);
      var mapper := MapperExists(ps, tracks);
      ClashLosesName(ids, tracks, n, t, mapper);
      assert Relates(ps, ids, tracks) && !AllNamed(ps, tracks);
    }
  }

  /** One participant with the id of a sequence, matched with another one: that one ends up without a name. */
  lemma NameLost(mapper: map<Id, Option<Match>>)
    requires IsMapper([Participant(2, [Match(1, 0.9)])], [1, 2], mapper)
    ensures forall k :: !Names(mapper, k, 1)
  {
    var ps := [Participant(2, [Match(1, 0.9)])];
    GivenMeaning(ps, 0);
    OccupiedStep(ps, 0);
    hide Given, IsMapper, Names, Occupied;
    NamedOnce(ps, [1, 2], mapper, 1);
    OccupiedOnce(ps, 2);
  }
}
