/**
 The OCR info manager of one type of text: it keeps the best detection and the best
 recognitions since the current track began, and emits a result when the track is lost.
 */
module OcrTracking {
  import opened Texts
  import opened Intervals
  import S = Segmenting
  import Boxes

  datatype Frame = Frame(id: int, timestamp: real)

  /** `area` is the block's text area, `outline` stands for its polygon. */
  datatype TextBlock = TextBlock(text: Text, area: real, outline: seq<real>)

  /** `bbox` is empty when the OCR service gave none. */
  datatype OcrInfo = OcrInfo(kind: int, bbox: seq<real>, blocks: seq<TextBlock>, confidence: real)

  datatype Field = Field(text: Text, threshold: real)

  /** What is looked for under one tracking id; a key field that is no field is skipped. */
  datatype Expected = Expected(id: int, fields: seq<Field>, keyFields: seq<nat>)

  /** The best recognition of a field so far. */
  datatype Recognized = Recognized(text: Text, similarity: real, bestFrame: Option<Frame>, bbox: seq<real>)

  const NOTHING_YET := Recognized([], 0.0, None, [])

  /** The id is that of the expected contents, or none for a mere detection. */
  datatype Result = Result(patch: Interval, id: Option<int>, frame: Frame, bbox: seq<real>, confidence: real)

  // ------------------------------------------------------------ boxes and areas

  /** `calc_box_area` raises ValueError on anything else. */
  predicate IsBox(b: seq<real>) {
    |b| == 4 && b[2] >= 0.0 && b[3] >= 0.0 && b[0] <= b[2] && b[1] <= b[3]
  }

  function BoxArea(b: seq<real>): (r: real)
    requires IsBox(b)
    ensures r >= 1.0
  {
    var w, h := b[2] - b[0], b[3] - b[1];
    assert w * h >= 0.0;
    assert (w + 1.0) * (h + 1.0) == w * h + w + h + 1.0;
    (w + 1.0) * (h + 1.0)
  }

  /** On whole coordinates these are the legal boxes, and the area is the number of pixels. */
  lemma BoxesAgree(b: Boxes.Box)
    ensures var r := [b.x1 as real, b.y1 as real, b.x2 as real, b.y2 as real];
      && (IsBox(r) <==> Boxes.Legal(b))
      && (IsBox(r) ==> BoxArea(r) == |Boxes.Pixels(b)| as real)
  {
    if Boxes.Legal(b) {
      Boxes.AreaCounts(b);
    }
  }

  /** The first largest block, if it is large enough, and otherwise no outline. */
  method LargestBlock(blocks: seq<TextBlock>) returns (outline: seq<real>, area: real)
    ensures IsLargest(blocks, outline, area)
  {
    outline, area := [], LEAST_AREA;
    for i := 0 to |blocks|
      invariant IsLargest(blocks[..i], outline, area)
    {
      ghost var o, a := outline, area;
      if blocks[i].area != 0.0 && blocks[i].area > area {
        outline, area := blocks[i].outline, blocks[i].area;
      }
      LargestNext(blocks, i, o, a);
    }
    assert blocks[..|blocks|] == blocks;
  }

  lemma LargestNext(blocks: seq<TextBlock>, n: nat, outline: seq<real>, area: real)
    requires n < |blocks| && IsLargest(blocks[..n], outline, area)
    ensures blocks[n].area > area ==> IsLargest(blocks[..n + 1], blocks[n].outline, blocks[n].area)
    ensures blocks[n].area <= area ==> IsLargest(blocks[..n + 1], outline, area)
  {
    var front, more := blocks[..n], blocks[..n + 1];
    assert more == front + [blocks[n]];
    if blocks[n].area > area {
      assert IsFirstLargest(more, n, blocks[n].outline, blocks[n].area);
    } else if area != LEAST_AREA {
      var i :| IsFirstLargest(front, i, outline, area);
      assert IsFirstLargest(more, i, outline, area);
    }
  }

  /** The least area that counts; blocks without text have none. */
  const LEAST_AREA := 0.1

  /** The outline and the area of an info without a box: those of its first largest block, if that is large enough. */
  ghost predicate IsLargest(blocks: seq<TextBlock>, outline: seq<real>, area: real) {
    && area >= 0.1 && (forall i :: 0 <= i < |blocks| ==> blocks[i].area <= area)
    && (if area == 0.1 then outline == []
        else exists i :: IsFirstLargest(blocks, i, outline, area))
  }

  ghost predicate IsFirstLargest(blocks: seq<TextBlock>, i: int, outline: seq<real>, area: real) {
    && 0 <= i < |blocks| && blocks[i].area == area && blocks[i].outline == outline
    && forall k :: 0 <= k < i ==> blocks[k].area < area
  }

  /** Where an info is and how large: by its own box, or by its blocks. */
  ghost predicate Measures(info: OcrInfo, outline: seq<real>, area: real) {
    if info.bbox != [] then IsBox(info.bbox) && outline == info.bbox && area == BoxArea(info.bbox)
    else IsLargest(info.blocks, outline, area)
  }

  lemma MeasuresUnique(info: OcrInfo, o1: seq<real>, a1: real, o2: seq<real>, a2: real)
    requires Measures(info, o1, a1) && Measures(info, o2, a2)
    ensures o1 == o2 && a1 == a2
  {
    if info.bbox == [] && !(a1 == a2 == LEAST_AREA) {
      if a1 != LEAST_AREA {
        var i :| IsFirstLargest(info.blocks, i, o1, a1);
      }
      if a2 != LEAST_AREA {
        var j :| IsFirstLargest(info.blocks, j, o2, a2);
      }
    }
  }

  /** No info up to n is larger. */
  ghost predicate NoneLarger(infos: seq<OcrInfo>, n: int, area: real) {
    forall i, o, a {:trigger Measures(infos[i], o, a)} |
      0 <= i < n && i < |infos| && Measures(infos[i], o, a) :: a <= area
  }

  /** The first of the largest infos up to n. */
  ghost predicate IsFirstInfo(infos: seq<OcrInfo>, i: int, outline: seq<real>, area: real, confidence: real) {
    && 0 <= i < |infos| && Measures(infos[i], outline, area) && infos[i].confidence == confidence
    && forall k, o, a {:trigger Measures(infos[k], o, a)} | 0 <= k < i && Measures(infos[k], o, a) :: a < area
  }

  /** `_get_bbox`; an area is always positive, and None is the ValueError. */
  method GetBbox(info: OcrInfo) returns (r: Option<(seq<real>, real)>)
    ensures r.None? <==> info.bbox != [] && !IsBox(info.bbox)
    ensures r.Some? ==> r.value.1 > 0.0 && Measures(info, r.value.0, r.value.1)
  {
    if info.bbox != [] {
      if !IsBox(info.bbox) {
        return None;
      }
      return Some((info.bbox, BoxArea(info.bbox)));
    }
    var outline, area := LargestBlock(info.blocks);
    return Some((outline, area));
  }

  // ------------------------------------------------------------ what a track is reported as

  /** What is kept of a track: since when, its largest detection, and its best recognitions. */
  datatype Kept = Kept(start: Option<real>, largest: Largest, recognized: seq<seq<Recognized>>)

  datatype Largest = Largest(area: real, bbox: seq<real>, confidence: real, frame: Option<Frame>)

  /** The largest area so far is kept, with what belongs to the first info that large; an equal one changes nothing. */
  ghost predicate Measured(infos: seq<OcrInfo>, f: Frame, before: Largest, after: Largest) {
    && after.area >= before.area && NoneLarger(infos, |infos|, after.area)
    && (after.area == before.area ==> after == before)
    && (after.area > before.area ==>
          after.frame == Some(f) && exists i :: IsFirstInfo(infos, i, after.bbox, after.area, after.confidence))
  }

  /** The recognition of a key field is above its threshold, and above 0. */
  ghost predicate Qualifies(expected: seq<Expected>, found: seq<seq<Recognized>>, i: nat, j: nat) {
    && |found| == |expected| && i < |expected| && j < |found[i]| == |expected[i].fields| && j in expected[i].keyFields
    && found[i][j].similarity > expected[i].fields[j].threshold && found[i][j].similarity > 0.0
  }

  ghost predicate SomeQualifies(expected: seq<Expected>, found: seq<seq<Recognized>>) {
    exists i: nat, j: nat :: Qualifies(expected, found, i, j)
  }

  /** The first recognition, in the order of the contents and of their key fields, that none exceeds. */
  ghost predicate IsFirstBest(expected: seq<Expected>, found: seq<seq<Recognized>>, i: nat, k: nat) {
    && i < |expected| && k < |expected[i].keyFields| && Qualifies(expected, found, i, expected[i].keyFields[k])
    && var most := found[i][expected[i].keyFields[k]].similarity;
    && (forall x: nat, y: nat :: Qualifies(expected, found, x, y) ==> found[x][y].similarity <= most)
    && (forall x: nat, y: nat :: x < i && Qualifies(expected, found, x, y) ==> found[x][y].similarity < most)
    && (forall y: nat :: y in expected[i].keyFields[..k] && Qualifies(expected, found, i, y) ==>
          found[i][y].similarity < most)
  }

  /** The result is that of this recognition. */
  ghost predicate Reports(expected: seq<Expected>, kept: Kept, i: nat, k: nat, f: Frame, r: Result)
    requires IsFirstBest(expected, kept.recognized, i, k)
  {
    var best := kept.recognized[i][expected[i].keyFields[k]];
    && best.bestFrame.Some? && kept.start.Some?
    && r == Result(Interval(kept.start.value, f.timestamp), Some(expected[i].id), best.bestFrame.value, best.bbox,
                   best.similarity)
  }

  ghost predicate Recognizes(expected: seq<Expected>, kept: Kept, f: Frame, r: Result) {
    exists i: nat, k: nat :: IsFirstBest(expected, kept.recognized, i, k) && Reports(expected, kept, i, k, f, r)
  }

  /** The result is that of the largest detection. */
  ghost predicate Detects(kept: Kept, f: Frame, r: Result) {
    && kept.start.Some? && kept.largest.frame.Some?
    && r == Result(Interval(kept.start.value, f.timestamp), None, kept.largest.frame.value, kept.largest.bbox,
                   kept.largest.confidence)
  }

  /** What a track that ends at this frame is reported as: a recognition if there is one, or else the detection. */
  ghost predicate IsResult(recognizing: bool, expected: seq<Expected>, kept: Kept, f: Frame, r: Result) {
    if recognizing && SomeQualifies(expected, kept.recognized) then Recognizes(expected, kept, f, r)
    else Detects(kept, f, r)
  }

  /** The scan of the key fields has found the first best of those it has seen. */
  ghost predicate BestSeen(expected: seq<Expected>, found: seq<seq<Recognized>>, i: nat, k: nat,
                           most: real, matched: Option<int>, bi: nat, bk: nat) {
    && i <= |expected| && (i < |expected| ==> k <= |expected[i].keyFields|)
    && (forall x: nat, y: nat :: x < i && Qualifies(expected, found, x, y) ==> found[x][y].similarity <= most)
    && (i < |expected| ==>
          forall y: nat :: y in expected[i].keyFields[..k] && Qualifies(expected, found, i, y) ==>
            found[i][y].similarity <= most)
    && if matched.None? then most == 0.0
       else
         && bi < |expected| && bk < |expected[bi].keyFields|
         && Qualifies(expected, found, bi, expected[bi].keyFields[bk])
         && matched == Some(expected[bi].id) && most == found[bi][expected[bi].keyFields[bk]].similarity
         && (forall x: nat, y: nat :: x < bi && Qualifies(expected, found, x, y) ==> found[x][y].similarity < most)
         && (forall y: nat :: y in expected[bi].keyFields[..bk] && Qualifies(expected, found, bi, y) ==>
               found[bi][y].similarity < most)
  }

  /** `got` are the infos at the positions `at`: those of an accepted type, in order. */
  ghost predicate Selected(infos: seq<OcrInfo>, accepts: int -> bool, got: seq<OcrInfo>, at: seq<nat>) {
    && |at| == |got| && (forall i, j :: 0 <= i < j < |at| ==> at[i] < at[j])
    && (forall i :: 0 <= i < |at| ==> at[i] < |infos| && got[i] == infos[at[i]])
    && (forall p: nat :: p < |infos| ==> (p in at <==> accepts(infos[p].kind)))
  }

  lemma SelectedNext(infos: seq<OcrInfo>, accepts: int -> bool, got: seq<OcrInfo>, at: seq<nat>)
    requires infos != [] && Selected(infos[..|infos| - 1], accepts, got, at)
    ensures var n: nat := |infos| - 1;
      if accepts(infos[n].kind) then Selected(infos, accepts, got + [infos[n]], at + [n])
      else Selected(infos, accepts, got, at)
  {
    var n: nat := |infos| - 1;
    var at' := at + if accepts(infos[n].kind) then [n] else [];
    forall p: nat | p < |infos| ensures p in at' <==> accepts(infos[p].kind) {
      if p < n {
        assert infos[..n][p] == infos[p];
      }
    }
  }

  class OcrManager {
    const tolerance: real
    const needDetection: bool
    const needRecognition: bool
    // which types `_check_ocr_type` passes, and the text similarity
    const accepts: int -> bool
    const similarity: (Text, Text) -> real
    const expected: seq<Expected>

    var frame: Option<Frame>
    var framesCount: int
    var ttl: real
    var startTime: Option<real>
    var maxArea: real
    var maxConfidence: real
    var maxBbox: seq<real>
    var storedFrame: Option<Frame>
    var recognized: seq<seq<Recognized>>

    /** One entry for every expected field, and a frame with every similarity above 0. */
    ghost predicate Recognizing()
      reads this
    {
      && |recognized| == |expected|
      && forall i :: 0 <= i < |expected| ==>
          && |recognized[i]| == |expected[i].fields|
          && forall j :: 0 <= j < |recognized[i]| ==>
               recognized[i][j].similarity > 0.0 ==> recognized[i][j].bestFrame.Some?
    }

    /** A running track has a start and a stored frame; without one nothing has been measured. */
    ghost predicate Valid()
      reads this
    {
      && Recognizing() && (needRecognition ==> needDetection)
      && framesCount >= 0 && (framesCount == 0 ==> ttl == tolerance)
      && (framesCount > 0 ==> startTime.Some? && storedFrame.Some? && frame.Some? && needDetection)
      && maxArea >= 0.0 && (storedFrame.None? ==> maxArea == 0.0)
    }

    ghost function Track(): S.Track
      reads this
    {
      if framesCount > 0 && startTime.Some? then S.On(startTime.value, ttl) else S.Off
    }

    ghost function Stored(): Kept
      reads this
    {
      Kept(startTime, MaxInfo(), recognized)
    }

    ghost function MaxInfo(): Largest
      reads this
    {
      Largest(maxArea, maxBbox, maxConfidence, storedFrame)
    }

    /** `__init__`; recognition needs detection. */
    constructor (fps: real, needDetection: bool, needRecognition: bool, accepts: int -> bool,
                 similarity: (Text, Text) -> real, expected: seq<Expected>)
      ensures Valid() && Track() == S.Off && tolerance == 2.0 * fps && this.accepts == accepts
      ensures this.needDetection == (needDetection || needRecognition) && frame.None?
    {
      this.tolerance := 2.0 * fps;
      this.needDetection, this.needRecognition := needDetection || needRecognition, needRecognition;
      this.accepts, this.similarity, this.expected := accepts, similarity, expected;
      frame, framesCount, ttl, startTime := None, 0, 2.0 * fps, None;
      maxArea, maxConfidence, maxBbox, storedFrame := 0.0, 0.0, [], None;
      recognized := Blank(expected);
    }

    static function Blank(expected: seq<Expected>): (r: seq<seq<Recognized>>)
      ensures |r| == |expected|
      ensures forall i :: 0 <= i < |r| ==> r[i] == seq(|expected[i].fields|, _ => NOTHING_YET)
    {
      if expected == [] then []
      else Blank(expected[..|expected| - 1]) + [seq(|expected[|expected| - 1].fields|, _ => NOTHING_YET)]
    }

    /** `_reinit` */
    method Reinit()
      requires Valid()
      modifies this
      ensures Valid() && framesCount == 0 && frame == None && storedFrame == None && recognized == Blank(expected)
    {
      frame, framesCount, ttl, startTime := None, 0, tolerance, None;
      maxArea, maxConfidence, maxBbox, storedFrame := 0.0, 0.0, [], None;
      recognized := Blank(expected);
    }

    /** The infos of an accepted type, in order; none without detection. */
    function Filtered(infos: seq<OcrInfo>): seq<OcrInfo> {
      if infos == [] || !needDetection then []
      else Filtered(infos[..|infos| - 1]) + if accepts(infos[|infos| - 1].kind) then [infos[|infos| - 1]] else []
    }

    lemma {:induction false} FilteredIs(infos: seq<OcrInfo>) returns (at: seq<nat>)
      ensures if needDetection then Selected(infos, accepts, Filtered(infos), at) else Filtered(infos) == []
    {
      at := [];
      if infos != [] && needDetection {
        var n: nat := |infos| - 1;
        var front := FilteredIs(infos[..n]);
        at := front + if accepts(infos[n].kind) then [n] else [];
        SelectedNext(infos, accepts, Filtered(infos[..n]), front);
      }
    }

    /** The loop of `do_detection` over the filtered infos: remember the largest; false is the ValueError. */
    method Measure(filtered: seq<OcrInfo>, f: Frame) returns (ok: bool)
      requires Valid()
      modifies this`maxArea, this`maxConfidence, this`maxBbox, this`storedFrame
      ensures Valid() && maxArea >= old(maxArea)
      ensures ok <==> forall i :: 0 <= i < |filtered| ==> filtered[i].bbox == [] || IsBox(filtered[i].bbox)
      ensures ok && filtered != [] ==> storedFrame.Some?
      ensures ok ==> Measured(filtered, f, old(MaxInfo()), MaxInfo())
      ensures filtered == [] ==> MaxInfo() == old(MaxInfo())
    {
      for i := 0 to |filtered|
        invariant Valid() && maxArea >= old(maxArea) && (i > 0 ==> storedFrame.Some?)
        invariant forall k :: 0 <= k < i ==> filtered[k].bbox == [] || IsBox(filtered[k].bbox)
        invariant NoneLarger(filtered, i, maxArea)
        invariant maxArea > old(maxArea) ==>
          storedFrame == Some(f) && exists k :: k < i && IsFirstInfo(filtered, k, maxBbox, maxArea, maxConfidence)
        invariant maxArea == old(maxArea) ==>
          storedFrame == old(storedFrame) && maxConfidence == old(maxConfidence) && maxBbox == old(maxBbox)
      {
        var measured := GetBbox(filtered[i]);
        if measured.None? {
          return false;
        }
        hide Measures;
        assert forall o, a | Measures(filtered[i], o, a) :: a == measured.value.1 by {
          forall o, a | Measures(filtered[i], o, a) ensures a == measured.value.1 {
            MeasuresUnique(filtered[i], o, a, measured.value.0, measured.value.1);
          }
        }
        if measured.value.1 > maxArea {
          maxBbox, maxArea := measured.value.0, measured.value.1;
          maxConfidence, storedFrame := filtered[i].confidence, Some(f);
          assert IsFirstInfo(filtered, i, maxBbox, maxArea, maxConfidence);
        }
      }
      ok := true;
    }

    /** `_recogition_text` on the j-th field of the i-th tracking id: keep the most similar block, and its frame. */
    method RecognizeField(i: nat, j: nat, info: OcrInfo, f: Frame)
      requires Valid() && i < |expected| && j < |expected[i].fields|
      modifies this`recognized
      ensures Valid() && Improved(old(recognized), recognized, f) && Heard(recognized, info, i, j)
      ensures forall x, y :: 0 <= x < |recognized| && 0 <= y < |recognized[x]| && (x != i || y != j) ==>
        recognized[x][y] == old(recognized[x][y])
    {
      var best := recognized[i][j];
      for k := 0 to |info.blocks|
        invariant best.similarity >= old(recognized[i][j].similarity)
        invariant best.similarity > 0.0 ==> best.bestFrame.Some?
        invariant forall m :: 0 <= m < k ==>
          similarity(expected[i].fields[j].text, info.blocks[m].text) <= best.similarity
        invariant best != old(recognized[i][j]) ==>
          best.similarity > old(recognized[i][j].similarity) && best.bestFrame == Some(f)
      {
        var score := similarity(expected[i].fields[j].text, info.blocks[k].text);
        if score > best.similarity {
          best := Recognized(info.blocks[k].text, score, Some(f), info.bbox);
        }
      }
      recognized := recognized[i := recognized[i][j := best]];
    }

    /** No block of the info is more similar to the field than what is kept. */
    ghost predicate Heard(kept: seq<seq<Recognized>>, info: OcrInfo, i: nat, j: nat) {
      && |kept| == |expected| && i < |expected| && |kept[i]| == |expected[i].fields| && j < |kept[i]|
      && forall k :: 0 <= k < |info.blocks| ==>
          similarity(expected[i].fields[j].text, info.blocks[k].text) <= kept[i][j].similarity
    }

    ghost predicate HeardByAll(kept: seq<seq<Recognized>>, info: OcrInfo) {
      forall i: nat, j: nat :: i < |expected| && j < |expected[i].fields| ==> Heard(kept, info, i, j)
    }

    /** The entry is as before, or has a higher similarity and this frame. */
    static ghost predicate Better(before: Recognized, after: Recognized, f: Frame) {
      after == before || (after.similarity > before.similarity && after.bestFrame == Some(f))
    }

    static ghost predicate Improved(before: seq<seq<Recognized>>, after: seq<seq<Recognized>>, f: Frame) {
      && |before| == |after| && (forall i :: 0 <= i < |before| ==> |before[i]| == |after[i]|)
      && forall i, j :: 0 <= i < |before| && 0 <= j < |before[i]| ==> Better(before[i][j], after[i][j], f)
    }

    static lemma ImprovedTrans(a: seq<seq<Recognized>>, b: seq<seq<Recognized>>, c: seq<seq<Recognized>>, f: Frame)
      requires Improved(a, b, f) && Improved(b, c, f)
      ensures Improved(a, c, f)
    {
      forall i, j | 0 <= i < |a| && 0 <= j < |a[i]| ensures Better(a[i][j], c[i][j], f) {
        assert Better(a[i][j], b[i][j], f) && Better(b[i][j], c[i][j], f);
      }
    }

    lemma HeardKept(before: seq<seq<Recognized>>, after: seq<seq<Recognized>>, f: Frame, info: OcrInfo, i: nat, j: nat)
      requires Improved(before, after, f) && Heard(before, info, i, j)
      ensures Heard(after, info, i, j)
    {
      assert Better(before[i][j], after[i][j], f);
    }

    lemma HeardByAllKept(before: seq<seq<Recognized>>, after: seq<seq<Recognized>>, f: Frame, info: OcrInfo)
      requires Improved(before, after, f) && HeardByAll(before, info)
      ensures HeardByAll(after, info)
    {
      forall i: nat, j: nat | i < |expected| && j < |expected[i].fields| ensures Heard(after, info, i, j) {
        HeardKept(before, after, f, info, i, j);
      }
    }

    /** One info, for the fields of one tracking id. */
    method RecognizeFields(i: nat, info: OcrInfo, f: Frame)
      requires Valid() && i < |expected|
      modifies this`recognized
      ensures Valid() && Improved(old(recognized), recognized, f)
      ensures forall j: nat :: j < |expected[i].fields| ==> Heard(recognized, info, i, j)
    {
      for j := 0 to |expected[i].fields|
        invariant Valid() && Improved(old(recognized), recognized, f)
        invariant forall y: nat :: y < j ==> Heard(recognized, info, i, y)
      {
        ghost var was := recognized;
        RecognizeField(i, j, info, f);
        ImprovedTrans(old(recognized), was, recognized, f);
        forall y: nat | y < j ensures Heard(recognized, info, i, y) {
          HeardKept(was, recognized, f, info, i, y);
        }
      }
    }

    /** One info, for every field of every tracking id. */
    method RecognizeInfo(info: OcrInfo, f: Frame)
      requires Valid()
      modifies this`recognized
      ensures Valid() && Improved(old(recognized), recognized, f) && HeardByAll(recognized, info)
    {
      for i := 0 to |expected|
        invariant Valid() && Improved(old(recognized), recognized, f)
        invariant forall x: nat, y: nat :: x < i && y < |expected[x].fields| ==> Heard(recognized, info, x, y)
      {
        ghost var was := recognized;
        RecognizeFields(i, info, f);
        ImprovedTrans(old(recognized), was, recognized, f);
        forall x: nat, y: nat | x < i && y < |expected[x].fields| ensures Heard(recognized, info, x, y) {
          HeardKept(was, recognized, f, info, x, y);
        }
      }
    }

    /** `do_recognition`: afterwards no block seen beats what is kept, and what is new comes from this frame. */
    method DoRecognition(infos: seq<OcrInfo>, f: Frame)
      requires Valid()
      modifies this`recognized
      ensures Valid()
      ensures !needRecognition || infos == [] ==> recognized == old(recognized)
      ensures needRecognition ==> Improved(old(recognized), recognized, f)
      ensures needRecognition ==> forall n :: 0 <= n < |infos| ==> HeardByAll(recognized, infos[n])
    {
      if !needRecognition {
        return;
      }
      for n := 0 to |infos|
        invariant Valid() && Improved(old(recognized), recognized, f) && (n == 0 ==> recognized == old(recognized))
        invariant forall m :: 0 <= m < n ==> HeardByAll(recognized, infos[m])
      {
        ghost var was := recognized;
        RecognizeInfo(infos[n], f);
        ImprovedTrans(old(recognized), was, recognized, f);
        forall m | 0 <= m < n ensures HeardByAll(recognized, infos[m]) {
          HeardByAllKept(was, recognized, f, infos[m]);
        }
      }
    }

    /** `_gen_recog_tracking_result`; the best frame is there whenever something matched. */
    method GenRecogTrackingResult(f: Frame) returns (r: Option<Result>)
      requires Valid() && framesCount > 0
      ensures r.None? <==> !SomeQualifies(expected, recognized)
      ensures r.Some? ==> Recognizes(expected, Stored(), f, r.value)
    {
      var most, matched, bestFrame, bbox := 0.0, None, None, [];
      ghost var bi: nat, bk: nat := 0, 0;
      for i := 0 to |expected|
        invariant BestSeen(expected, recognized, i, 0, most, matched, bi, bk)
        invariant matched.Some? ==>
          var best := recognized[bi][expected[bi].keyFields[bk]]; bestFrame == best.bestFrame && bbox == best.bbox
      {
        for k := 0 to |expected[i].keyFields|
          invariant BestSeen(expected, recognized, i, k, most, matched, bi, bk)
          invariant matched.Some? ==>
            var best := recognized[bi][expected[bi].keyFields[bk]]; bestFrame == best.bestFrame && bbox == best.bbox
        {
          var j := expected[i].keyFields[k];
          assert expected[i].keyFields[..k + 1] == expected[i].keyFields[..k] + [j];
          if j < |recognized[i]| {
            var score := recognized[i][j].similarity;
            if score > expected[i].fields[j].threshold && score > most {
              most, matched := score, Some(expected[i].id);
              bestFrame, bbox := recognized[i][j].bestFrame, recognized[i][j].bbox;
              bi, bk := i, k;
            }
          }
        }
        assert expected[i].keyFields[..|expected[i].keyFields|] == expected[i].keyFields;
      }
      if matched.None? {
        return None;
      }
      assert IsFirstBest(expected, recognized, bi, bk);
      assert bestFrame.Some?;
      r := Some(Result(Interval(startTime.value, f.timestamp), matched, bestFrame.value, bbox, most));
      assert Reports(expected, Stored(), bi, bk, f, r.value);
    }

    /** `_gen_detect_tracking_result`; the stored frame is there whenever a track is running. */
    method GenDetectTrackingResult(f: Frame) returns (r: Option<Result>)
      requires Valid() && framesCount > 0
      ensures r == Some(Result(Interval(startTime.value, f.timestamp), None, storedFrame.value, maxBbox, maxConfidence))
    {
      if !needDetection {
        return None;
      }
      assert storedFrame.Some?;
      return Some(Result(Interval(startTime.value, f.timestamp), None, storedFrame.value, maxBbox, maxConfidence));
    }

    /** `_gen_tracking_result`: a recognition if there is one, or else the detection; never nothing. */
    method GenTrackingResult(f: Frame) returns (r: Option<Result>)
      requires Valid() && framesCount > 0
      ensures r.Some? && IsResult(needRecognition, expected, Stored(), f, r.value)
        && r.value.patch == Interval(startTime.value, f.timestamp)
    {
      r := None;
      if needRecognition {
        r := GenRecogTrackingResult(f);
      }
      if r.None? && needDetection {
        r := GenDetectTrackingResult(f);
      }
    }

    /** `_generate` */
    method Generate(filtered: seq<OcrInfo>, f: Frame) returns (r: Option<Result>)
      requires Valid() && frame == Some(f)
      requires filtered != [] ==> storedFrame.Some? && needDetection
      modifies this
      ensures Valid() && (framesCount > 0 ==> frame == Some(f))
      ensures (Track(), Patch(r)) == S.Next(old(Track()), tolerance, S.Seen(f.timestamp, filtered != []))
      ensures r.None? ==> recognized == old(recognized) && MaxInfo() == old(MaxInfo())
      ensures r.Some? ==> IsResult(needRecognition, expected, old(Stored()), f, r.value)
      ensures r.Some? ==> recognized == Blank(expected) && storedFrame == None && maxArea == 0.0
    {
      r := None;
      if framesCount > 0 {
        if filtered != [] {
          framesCount, ttl := framesCount + 1, tolerance;
        } else {
          ttl := ttl - 1.0;
        }
        if ttl <= 0.0 {
          r := GenTrackingResult(f);
          Reinit();
        }
      } else if filtered != [] {
        startTime, framesCount := Some(f.timestamp), framesCount + 1;
      }
    }

    static function Patch(r: Option<Result>): Option<Interval> {
      if r.Some? then Some(r.value.patch) else None
    }

    /** Whether no box among the accepted infos makes `calc_box_area` raise. */
    ghost predicate Measurable(infos: seq<OcrInfo>) {
      forall i :: 0 <= i < |Filtered(infos)| ==> Filtered(infos)[i].bbox == [] || IsBox(Filtered(infos)[i].bbox)
    }

    /** `process`; not ok is the ValueError, after which the track is as before. */
    method Process(infos: seq<OcrInfo>, f: Frame) returns (ok: bool, r: Option<Result>)
      requires Valid()
      modifies this
      ensures Valid() && (framesCount > 0 ==> frame == Some(f))
      ensures ok <==> Measurable(infos)
      ensures ok ==> (Track(), Patch(r)) == S.Next(old(Track()), tolerance, S.Seen(f.timestamp, Filtered(infos) != []))
      ensures ok && r.None? ==> Measured(Filtered(infos), f, old(MaxInfo()), MaxInfo())
      ensures ok && r.Some? && Filtered(infos) == [] ==>
        IsResult(needRecognition, expected, old(Stored()), f, r.value)
      ensures ok && r.Some? ==> recognized == Blank(expected) && storedFrame == None && maxArea == 0.0
      ensures ok && needRecognition && r.None? ==>
        forall n :: 0 <= n < |Filtered(infos)| ==> HeardByAll(recognized, Filtered(infos)[n])
      ensures !ok ==> Track() == old(Track()) && r.None?
    {
      frame, r := Some(f), None;
      hide Measured, IsResult, HeardByAll, Improved, NoneLarger, S.Next, Filtered;
      var filtered := Filtered(infos);
      ok := Measure(filtered, f);
      if ok {
        DoRecognition(filtered, f);
        r := Generate(filtered, f);
      }
    }

    /** `over` */
    method Over() returns (r: Option<Result>)
      requires Valid()
      ensures Patch(r) == if Track().On? then Some(Interval(startTime.value, frame.value.timestamp)) else None
      ensures r.Some? ==> IsResult(needRecognition, expected, Stored(), frame.value, r.value)
    {
      r := None;
      if framesCount > 0 && frame.Some? {
        r := GenTrackingResult(frame.value);
      }
    }
  }

  // ------------------------------------------------------------ a whole video

  type Shot = (Frame, seq<OcrInfo>)

  /** What the segmenter sees of the frames. */
  function SeenBy(m: OcrManager, shots: seq<Shot>): seq<S.Seen> {
    if shots == [] then []
    else
      var last := shots[|shots| - 1];
      SeenBy(m, shots[..|shots| - 1]) + [S.Seen(last.0.timestamp, m.Filtered(last.1) != [])]
  }

  function PatchesOf(rs: seq<Result>): seq<Interval> {
    if rs == [] then [] else PatchesOf(rs[..|rs| - 1]) + [rs[|rs| - 1].patch]
  }

  lemma {:induction false} SeenAt(m: OcrManager, shots: seq<Shot>, n: nat)
    requires n <= |shots|
    ensures |SeenBy(m, shots)| == |shots| && SeenBy(m, shots[..n]) == SeenBy(m, shots)[..n]
    ensures n < |shots| ==> SeenBy(m, shots)[n] == S.Seen(shots[n].0.timestamp, m.Filtered(shots[n].1) != [])
  {
    if shots != [] {
      var k := |shots| - 1;
      SeenAt(m, shots[..k], if n < k then n else k);
      if n <= k {
        assert shots[..k][..n] == shots[..n];
      } else {
        assert shots[..n] == shots;
      }
    }
  }

  /** One frame of a module's loop: append what `process` returns, if anything. */
  method TrackFrame(m: OcrManager, shot: Shot, results: seq<Result>) returns (ok: bool, results': seq<Result>)
    requires m.Valid()
    modifies m
    ensures m.Valid() && (m.Track().On? ==> m.frame == Some(shot.0))
    ensures ok <==> m.Measurable(shot.1)
    ensures var seen := S.Seen(shot.0.timestamp, m.Filtered(shot.1) != []);
      ok ==>
        S.Progress(m.Track(), PatchesOf(results'))
        == S.Advance(S.Progress(old(m.Track()), PatchesOf(results)), m.tolerance, seen)
  {
    results' := results;
    var r;
    ok, r := m.Process(shot.1, shot.0);
    if ok && r.Some? {
      results' := results + [r.value];
      assert results'[..|results|] == results;
    }
  }

  /** A module's loop over the frames; a ValueError ends it. */
  method TrackFrames(m: OcrManager, shots: seq<Shot>) returns (ok: bool, results: seq<Result>)
    requires m.Valid() && m.Track() == S.Off
    modifies m
    ensures m.Valid() && |SeenBy(m, shots)| == |shots|
    ensures ok <==> forall i :: 0 <= i < |shots| ==> m.Measurable(shots[i].1)
    ensures ok ==> S.Tracked(SeenBy(m, shots), m.tolerance) == S.Progress(m.Track(), PatchesOf(results))
    ensures ok && m.Track().On? ==> shots != [] && m.frame == Some(shots[|shots| - 1].0)
  {
    results := [];
    ghost var seen := SeenBy(m, shots);
    SeenAt(m, shots, 0);
    hide S.Advance;
    for i := 0 to |shots|
      invariant m.Valid() && (m.Track().On? ==> i > 0 && m.frame == Some(shots[i - 1].0))
      invariant forall k :: 0 <= k < i ==> m.Measurable(shots[k].1)
      invariant S.Tracked(seen[..i], m.tolerance) == S.Progress(m.Track(), PatchesOf(results))
    {
      SeenAt(m, shots, i);
      S.TrackSnoc(seen, i, m.tolerance);
      hide PatchesOf, SeenBy, S.Tracked;
      ok, results := TrackFrame(m, shots[i], results);
      if !ok {
        return;
      }
    }
    assert seen[..|shots|] == seen;
    ok := true;
  }

  /** The whole video: the loop, and what `over` returns after it. */
  method TrackAll(m: OcrManager, shots: seq<Shot>) returns (ok: bool, results: seq<Result>)
    requires m.Valid() && m.Track() == S.Off
    modifies m
    ensures ok <==> forall i :: 0 <= i < |shots| ==> m.Measurable(shots[i].1)
    ensures ok ==> PatchesOf(results) == S.Patches(SeenBy(m, shots), m.tolerance)
  {
    ok, results := TrackFrames(m, shots);
    if ok {
      if shots != [] {
        SeenAt(m, shots, |shots| - 1);
      }
      var r := m.Over();
      if r.Some? {
        results := results + [r.value];
      }
    }
  }
}
