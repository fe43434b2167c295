/** Pixel boxes and the overlap ratios between them. A box includes its corner pixels. */
module Boxes {
  import opened Texts

  datatype Box = Box(x1: int, y1: int, x2: int, y2: int)

  /** `check_box` raises ValueError on any other box. */
  predicate Legal(b: Box) {
    b.x2 >= 0 && b.y2 >= 0 && b.x1 <= b.x2 && b.y1 <= b.y2
  }

  /** The pixels of the box. */
  ghost predicate Contains(b: Box, x: int, y: int) {
    b.x1 <= x <= b.x2 && b.y1 <= y <= b.y2
  }

  /** A box is legal exactly when it has a pixel that no coordinate puts outside the image at the top or the left. */
  lemma LegalIff(b: Box)
    ensures Legal(b) <==> exists x, y :: 0 <= x && 0 <= y && Contains(b, x, y)
  {
    if Legal(b) {
      assert Contains(b, b.x2, b.y2);
    }
  }

  function Area(b: Box): (r: int)
    requires Legal(b)
    ensures r >= 1
  {
    (b.x2 - b.x1 + 1) * (b.y2 - b.y1 + 1)
  }

  /** `calc_intersection` of legal boxes: exactly the common pixels, as a legal box again. */
  function Intersection(a: Box, b: Box): (r: Option<Box>)
    requires Legal(a) && Legal(b)
    ensures r.None? ==> forall x, y :: !(Contains(a, x, y) && Contains(b, x, y))
    ensures r.Some? ==>
      Legal(r.value) && forall x, y :: Contains(r.value, x, y) <==> Contains(a, x, y) && Contains(b, x, y)
  {
    var c := Box(Max(a.x1, b.x1), Max(a.y1, b.y1), Min(a.x2, b.x2), Min(a.y2, b.y2));
    if c.x1 <= c.x2 && c.y1 <= c.y2 then Some(c)
    else
      assert forall x, y | Contains(a, x, y) && Contains(b, x, y) :: Contains(c, x, y);
      None
  }

  lemma ProductMonotone(a: int, b: int, c: int, d: int)
    requires 0 <= a <= c && 0 <= b <= d
    ensures a * b <= c * d
  {
    assert c * d - a * b == (c - a) * d + a * (d - b);
    assert (c - a) * d >= 0 && a * (d - b) >= 0;
  }

  lemma IntersectionSmaller(a: Box, b: Box)
    requires Legal(a) && Legal(b) && Intersection(a, b).Some?
    ensures Area(Intersection(a, b).value) <= Area(a) && Area(Intersection(a, b).value) <= Area(b)
  {
    var c := Intersection(a, b).value;
    ProductMonotone(c.x2 - c.x1 + 1, c.y2 - c.y1 + 1, a.x2 - a.x1 + 1, a.y2 - a.y1 + 1);
    ProductMonotone(c.x2 - c.x1 + 1, c.y2 - c.y1 + 1, b.x2 - b.x1 + 1, b.y2 - b.y1 + 1);
  }

  /** `calc_ioa`: the intersection over box a. */
  function Ioa(a: Box, b: Box): real
    requires Legal(a) && Legal(b)
  {
    var c := Intersection(a, b);
    if c.None? then 0.0 else Area(c.value) as real / Area(a) as real
  }

  /** `calc_iou`: the intersection over the union. */
  function Iou(a: Box, b: Box): real
    requires Legal(a) && Legal(b)
  {
    var c := Intersection(a, b);
    if c.None? then 0.0
    else
      IntersectionSmaller(a, b);
      Area(c.value) as real / (Area(a) + Area(b) - Area(c.value)) as real
  }

  lemma FractionBounds(i: int, a: int, u: int)
    requires 1 <= i <= a <= u
    ensures 0.0 < i as real / u as real <= i as real / a as real <= 1.0
  {
    var p, q := i as real / a as real, i as real / u as real;
    assert p * a as real == i as real && q * u as real == i as real;
    assert q > 0.0 by {
      assert q <= 0.0 ==> q * u as real <= 0.0;
    }
    assert (1.0 - p) * a as real >= 0.0;
    assert p <= 1.0 by {
      assert p > 1.0 ==> (p - 1.0) * a as real > 0.0;
    }
    assert (p - q) * a as real == i as real - q * a as real;
    assert q * (u as real - a as real) >= 0.0;
    assert p >= q by {
      assert p < q ==> (q - p) * a as real > 0.0;
    }
  }

  /** Both ratios are shares, the union's never the larger, and both are positive exactly when the boxes meet. */
  lemma RatiosBounded(a: Box, b: Box)
    requires Legal(a) && Legal(b)
    ensures 0.0 <= Iou(a, b) <= Ioa(a, b) <= 1.0
    ensures Iou(a, b) > 0.0 <==> Intersection(a, b).Some?
  {
    if Intersection(a, b).Some? {
      var i := Area(Intersection(a, b).value);
      IntersectionSmaller(a, b);
      FractionBounds(i, Area(a), Area(a) + Area(b) - i);
    }
  }

  // ------------------------------------------------------------ counting pixels

  ghost function Pixels(b: Box): set<(int, int)> {
    set x, y | b.x1 <= x <= b.x2 && b.y1 <= y <= b.y2 :: (x, y)
  }

  ghost function Column(x: int, y1: int, y2: int): set<(int, int)> {
    set y | y1 <= y <= y2 :: (x, y)
  }

  lemma {:induction false} ColumnCount(x: int, y1: int, y2: int)
    requires y1 <= y2 + 1
    ensures |Column(x, y1, y2)| == y2 + 1 - y1
    decreases y2 + 1 - y1
  {
    if y1 == y2 + 1 {
      assert Column(x, y1, y2) == {};
    } else {
      ColumnCount(x, y1, y2 - 1);
      assert Column(x, y1, y2) == Column(x, y1, y2 - 1) + {(x, y2)};
    }
  }

  lemma {:induction false} ColumnsCount(b: Box)
    requires b.x1 <= b.x2 + 1 && b.y1 <= b.y2
    ensures |Pixels(b)| == (b.x2 + 1 - b.x1) * (b.y2 + 1 - b.y1)
    decreases b.x2 + 1 - b.x1
  {
    if b.x1 == b.x2 + 1 {
      assert Pixels(b) == {};
    } else {
      var rest := b.(x2 := b.x2 - 1);
      ColumnsCount(rest);
      ColumnCount(b.x2, b.y1, b.y2);
      var h := b.y2 + 1 - b.y1;
      assert (b.x2 + 1 - b.x1) * h == (rest.x2 + 1 - b.x1) * h + h;
      assert Pixels(b) == Pixels(rest) + Column(b.x2, b.y1, b.y2);
      assert Pixels(rest) !! Column(b.x2, b.y1, b.y2);
    }
  }

  /** `calc_box_area` is the number of the box's pixels. */
  lemma AreaCounts(b: Box)
    requires Legal(b)
    ensures Area(b) == |Pixels(b)|
  {
    ColumnsCount(b);
  }

  /** The intersection's pixels are those that both boxes have. */
  lemma IntersectionPixels(a: Box, b: Box)
    requires Legal(a) && Legal(b)
    ensures var c := Intersection(a, b);
      Pixels(a) * Pixels(b) == if c.Some? then Pixels(c.value) else {}
  {
    forall p | p in Pixels(a) * Pixels(b) ensures Contains(a, p.0, p.1) && Contains(b, p.0, p.1) {
    }
    var c := Intersection(a, b);
    if c.Some? {
      forall x, y ensures (x, y) in Pixels(c.value) <==> (x, y) in Pixels(a) * Pixels(b) {
        assert Contains(c.value, x, y) <==> Contains(a, x, y) && Contains(b, x, y);
      }
    }
  }

  /** IoA is the share of a's pixels that lie in b; IoU that of the pixels of either that lie in both. */
  lemma RatiosCount(a: Box, b: Box)
    requires Legal(a) && Legal(b)
    ensures Ioa(a, b) * |Pixels(a)| as real == |Pixels(a) * Pixels(b)| as real
    ensures Iou(a, b) * |Pixels(a) + Pixels(b)| as real == |Pixels(a) * Pixels(b)| as real
  {
    AreaCounts(a);
    AreaCounts(b);
    IntersectionPixels(a, b);
    var c := Intersection(a, b);
    if c.Some? {
      AreaCounts(c.value);
      IntersectionSmaller(a, b);
    }
    hide Pixels, Area;
    assert |Pixels(a) + Pixels(b)| == |Pixels(a)| + |Pixels(b)| - |Pixels(a) * Pixels(b)|;
  }

  /** The overlap is whole exactly when every pixel of a lies in b. */
  lemma IoaWholeIff(a: Box, b: Box)
    requires Legal(a) && Legal(b)
    ensures Ioa(a, b) == 1.0 <==> forall x, y :: Contains(a, x, y) ==> Contains(b, x, y)
  {
    hide Ioa, Area, Intersection;
    RatiosCount(a, b);
    AreaCounts(a);
    var p, q := Pixels(a), Pixels(b);
    WholeIff(Ioa(a, b), |p|, |p * q|);
    if |p * q| == |p| {
      SubsetSame(p * q, p);
      forall x, y | Contains(a, x, y) ensures Contains(b, x, y) {
        assert (x, y) in p;
      }
    }
    if forall x, y :: Contains(a, x, y) ==> Contains(b, x, y) {
      assert p * q == p by {
        forall r | r in p ensures r in q {
          assert Contains(a, r.0, r.1);
        }
      }
    }
  }

  lemma WholeIff(x: real, n: int, k: int)
    requires n >= 1 && x * n as real == k as real
    ensures x == 1.0 <==> k == n
  {
    var y := n as real;
    assert (x - 1.0) * y == k as real - y;
    assert x > 1.0 ==> (x - 1.0) * y > 0.0;
    assert x < 1.0 ==> (1.0 - x) * y > 0.0;
  }

  lemma SubsetSame<T>(s: set<T>, t: set<T>)
    requires s <= t && |s| == |t|
    ensures s == t
  {
    if x :| x in t && x !in s {
      assert s <= t - {x};
      SubsetSize(s, t - {x});
    }
  }

  lemma {:induction false} SubsetSize<T>(s: set<T>, t: set<T>)
    requires s <= t
    ensures |s| <= |t|
  {
    assert t == s + (t - s);
  }
}
