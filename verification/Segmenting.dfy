/**
 How a stream of frames, each with or without a matching text, is cut into time patches: a
 patch opens at a match and closes when too many misses follow the last one.
 */
module Segmenting {
  import opened Texts
  import opened Intervals

  /** A frame as the segmenter sees it. */
  datatype Seen = Seen(time: real, matches: bool)

  /** Not tracking, or tracking since `start` with `ttl` left. */
  datatype Track = Off | On(start: real, ttl: real)

  datatype Progress = Progress(track: Track, out: seq<Interval>)

  /** `_generate`: one frame; a patch is emitted when nothing is left of the ttl. */
  function Next(track: Track, tolerance: real, f: Seen): (Track, Option<Interval>) {
    match track
    case Off => (if f.matches then On(f.time, tolerance) else Off, None)
    case On(start, ttl) =>
      var left := if f.matches then tolerance else ttl - 1.0;
      if left <= 0.0 then (Off, Some(Interval(start, f.time))) else (On(start, left), None)
  }

  function Advance(p: Progress, tolerance: real, f: Seen): Progress {
    var (track, patch) := Next(p.track, tolerance, f);
    Progress(track, p.out + if patch.Some? then [patch.value] else [])
  }

  function Tracked(frames: seq<Seen>, tolerance: real): Progress {
    if frames == [] then Progress(Off, [])
    else Advance(Tracked(frames[..|frames| - 1], tolerance), tolerance, frames[|frames| - 1])
  }

  /** Everything emitted, with what `over()` adds after the last frame. */
  function Patches(frames: seq<Seen>, tolerance: real): seq<Interval> {
    var p := Tracked(frames, tolerance);
    p.out + if p.track.On? && frames != [] then [Interval(p.track.start, frames[|frames| - 1].time)] else []
  }

  lemma TrackSnoc(frames: seq<Seen>, n: nat, tolerance: real)
    requires n < |frames|
    ensures Tracked(frames[..n + 1], tolerance) == Advance(Tracked(frames[..n], tolerance), tolerance, frames[n])
  {
    assert frames[..n + 1][..n] == frames[..n];
  }

  ghost predicate Increasing(frames: seq<Seen>) {
    forall i, j :: 0 <= i < j < |frames| ==> frames[i].time < frames[j].time
  }

  // ------------------------------------------------------------ order

  ghost predicate Apart(out: seq<Interval>) {
    && (forall k :: 0 <= k < |out| ==> out[k].start <= out[k].end)
    && (forall k, m :: 0 <= k < m < |out| ==> out[k].end < out[m].start)
  }

  /** What holds after any beginning of the stream. */
  ghost predicate Sound(p: Progress, now: real) {
    && Apart(p.out) && (forall k :: 0 <= k < |p.out| ==> p.out[k].end <= now)
    && (p.track.On? ==>
          && p.track.ttl > 0.0 && p.track.start <= now
          && forall k :: 0 <= k < |p.out| ==> p.out[k].end < p.track.start)
  }

  lemma AdvanceSound(p: Progress, tolerance: real, now: real, f: Seen)
    requires tolerance > 0.0 && Sound(p, now) && (now < f.time || (p.out == [] && p.track.Off?))
    ensures Sound(Advance(p, tolerance, f), f.time)
  {
  }

  lemma {:induction false} TrackSound(frames: seq<Seen>, n: nat, tolerance: real)
    requires tolerance > 0.0 && Increasing(frames) && 0 < n <= |frames|
    ensures Sound(Tracked(frames[..n], tolerance), frames[n - 1].time)
  {
    TrackSnoc(frames, n - 1, tolerance);
    if n > 1 {
      TrackSound(frames, n - 1, tolerance);
      AdvanceSound(Tracked(frames[..n - 1], tolerance), tolerance, frames[n - 2].time, frames[n - 1]);
    } else {
      assert frames[..0] == [];
      AdvanceSound(Progress(Off, []), tolerance, frames[0].time, frames[0]);
    }
  }

  /** The patches come in order and share no instant. */
  lemma PatchesApart(frames: seq<Seen>, tolerance: real)
    requires tolerance > 0.0 && Increasing(frames)
    ensures Apart(Patches(frames, tolerance))
  {
    if frames != [] {
      assert frames[..|frames|] == frames;
      TrackSound(frames, |frames|, tolerance);
    }
  }

  // ------------------------------------------------------------ where a match goes

  /** The patch a matching frame falls in, counted in order of emission. */
  function Home(frames: seq<Seen>, tolerance: real, i: nat): nat
    requires i < |frames|
  {
    |Tracked(frames[..i + 1], tolerance).out|
  }

  /** Where the instant of a match is found after n frames: in its patch, or in the one still open. */
  ghost predicate Placed(p: Progress, home: nat, time: real) {
    if home < |p.out| then p.out[home].start <= time <= p.out[home].end
    else home == |p.out| && p.track.On? && p.track.start <= time
  }

  lemma {:induction false} HomePlaced(frames: seq<Seen>, tolerance: real, i: nat, n: nat)
    requires tolerance > 0.0 && Increasing(frames) && i < n <= |frames| && frames[i].matches
    ensures Placed(Tracked(frames[..n], tolerance), Home(frames, tolerance, i), frames[i].time)
  {
    TrackSnoc(frames, n - 1, tolerance);
    var before := Tracked(frames[..n - 1], tolerance);
    if i == n - 1 {
      if n > 1 {
        TrackSound(frames, n - 1, tolerance);
        assert frames[n - 2].time < frames[i].time;
      }
    } else {
      HomePlaced(frames, tolerance, i, n - 1);
      assert frames[i].time < frames[n - 1].time;
    }
  }

  /** Every matching frame lies in exactly one patch. */
  lemma MatchInOnePatch(frames: seq<Seen>, tolerance: real, i: nat)
    requires tolerance > 0.0 && Increasing(frames) && i < |frames| && frames[i].matches
    ensures var out, k := Patches(frames, tolerance), Home(frames, tolerance, i);
      && k < |out| && out[k].start <= frames[i].time <= out[k].end
      && forall m :: 0 <= m < |out| && out[m].start <= frames[i].time <= out[m].end ==> m == k
  {
    assert frames[..|frames|] == frames;
    HomePlaced(frames, tolerance, i, |frames|);
    PatchesApart(frames, tolerance);
    var last := |frames| - 1;
    assert i == last || frames[i].time < frames[last].time;
  }

  // ------------------------------------------------------------ when two matches share a patch

  /** No frame from `from` up to `to` matches. */
  ghost predicate Misses(frames: seq<Seen>, from: int, to: int) {
    forall k :: from <= k < to && 0 <= k < |frames| ==> !frames[k].matches
  }

  /** The state some misses after a match. */
  lemma {:induction false} AfterMisses(frames: seq<Seen>, tolerance: real, i: nat, n: nat)
    requires tolerance > 0.0 && i < n <= |frames| && frames[i].matches && Misses(frames, i + 1, n)
    ensures var p, q := Tracked(frames[..i + 1], tolerance), Tracked(frames[..n], tolerance);
      var missed := (n - 1 - i) as real;
      && p.track.On?
      && (missed < tolerance ==> q == Progress(On(p.track.start, tolerance - missed), p.out))
      && (missed >= tolerance ==> q.track.Off? && |q.out| == |p.out| + 1)
  {
    TrackSnoc(frames, n - 1, tolerance);
    if n - 1 > i {
      AfterMisses(frames, tolerance, i, n - 1);
      assert !frames[n - 1].matches;
      assert (n - 1 - i) as real == (n - 2 - i) as real + 1.0;
    } else {
      TrackStart(frames[..i], tolerance, frames[i]);
    }
  }

  /** A match always leaves the tracker on, with the full tolerance. */
  lemma TrackStart(before: seq<Seen>, tolerance: real, f: Seen)
    requires tolerance > 0.0 && f.matches
    ensures var p := Advance(Tracked(before, tolerance), tolerance, f); p.track.On? && p.track.ttl == tolerance
    ensures Advance(Tracked(before, tolerance), tolerance, f).out == Tracked(before, tolerance).out
  {
  }

  /** The least integer that is at least x. */
  function Ceil(x: real): int {
    if x.Floor as real == x then x.Floor else x.Floor + 1
  }

  lemma BelowCeil(n: int, x: real)
    ensures n < Ceil(x) <==> n as real < x
  {
  }

  /**
   Two matching frames with only misses between them are in one patch exactly when there
   are fewer than ceil(tolerance) misses; otherwise they are in neighbouring ones.
   */
  lemma SharePatch(frames: seq<Seen>, tolerance: real, i: nat, j: nat)
    requires tolerance > 0.0 && i < j < |frames|
    requires frames[i].matches && frames[j].matches && Misses(frames, i + 1, j)
    ensures var misses := j - i - 1;
      Home(frames, tolerance, j) == Home(frames, tolerance, i) + if misses < Ceil(tolerance) then 0 else 1
  {
    AfterMisses(frames, tolerance, i, j);
    TrackSnoc(frames, j, tolerance);
    TrackStart(frames[..j], tolerance, frames[j]);
    BelowCeil(j - i - 1, tolerance);
  }

  /** Without tolerance the rule fails: of three matches in a row the first two share a patch and the third does not. */
  lemma NoTolerance(a: real, b: real, c: real, tolerance: real)
    requires tolerance <= 0.0
    ensures Patches([Seen(a, true), Seen(b, true), Seen(c, true)], tolerance) == [Interval(a, b), Interval(c, c)]
    ensures !(0 < Ceil(tolerance))
  {
    var f := [Seen(a, true), Seen(b, true), Seen(c, true)];
    assert f[..0] == [] && f[..3] == f;
    TrackSnoc(f, 0, tolerance);
    TrackSnoc(f, 1, tolerance);
    TrackSnoc(f, 2, tolerance);
  }
}
