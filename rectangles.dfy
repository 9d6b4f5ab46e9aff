/**
 * Integer axis-aligned rectangles of the table extraction demo: width, height
 * and area as absolute differences, intersection with a (0, 0, 0, 0) sentinel
 * for "no overlap", the "major overlap" test that assigns words to table
 * cells, and a strict point-containment test.
 */
module Rectangles {

  /** A rectangle stored as left x, top y, right x, bottom y, in image
      coordinates (y grows downward). Nothing is enforced on construction:
      inverted and degenerate rectangles are legal values. */
  datatype Rect = Rect(xl: int, yt: int, xr: int, yb: int)

  /** What `Intersection` returns when its arguments do not overlap. */
  const NoOverlap: Rect := Rect(0, 0, 0, 0)

  /** Left strictly before right and top strictly above bottom. */
  predicate WellFormed(r: Rect) {
    r.xl < r.xr && r.yt < r.yb
  }

  /** Rectangle `a` lies inside the bounds of rectangle `b` (edges may touch). */
  predicate Within(a: Rect, b: Rect) {
    b.xl <= a.xl && a.xr <= b.xr && b.yt <= a.yt && a.yb <= b.yb
  }

  function Min(a: int, b: int): int { if a <= b then a else b }

  function Max(a: int, b: int): int { if a >= b then a else b }

  /** Horizontal extent, whatever the order of the two x coordinates. */
  function Width(r: Rect): (w: nat)
    ensures w == 0 <==> r.xl == r.xr
    ensures r.xl <= r.xr ==> w == r.xr - r.xl
    ensures r.xr <= r.xl ==> w == r.xl - r.xr
  {
    if r.xr >= r.xl then r.xr - r.xl else r.xl - r.xr
  }

  /** Vertical extent, whatever the order of the two y coordinates. */
  function Height(r: Rect): (h: nat)
    ensures h == 0 <==> r.yt == r.yb
    ensures r.yt <= r.yb ==> h == r.yb - r.yt
    ensures r.yb <= r.yt ==> h == r.yt - r.yb
  {
    if r.yt >= r.yb then r.yt - r.yb else r.yb - r.yt
  }

  /** Never negative; zero exactly when the rectangle is flat in one direction. */
  function Area(r: Rect): (a: nat)
    ensures a == 0 <==> (r.xl == r.xr || r.yt == r.yb)
  {
    Width(r) * Height(r)
  }

  /** The overlap of `a` and `b`, or the `NoOverlap` sentinel when the overlap
      is empty in either direction. */
  function Intersection(a: Rect, b: Rect): (r: Rect)
    ensures r == NoOverlap || (WellFormed(r) && Within(r, a) && Within(r, b))
    ensures WellFormed(r) <==> r != NoOverlap
    ensures r != NoOverlap ==> WellFormed(a) && WellFormed(b)
  {
    var xr := Min(a.xr, b.xr);
    var xl := Max(a.xl, b.xl);
    var yt := Max(a.yt, b.yt);
    var yb := Min(a.yb, b.yb);
    if xr > xl && yt < yb then Rect(xl, yt, xr, yb) else NoOverlap
  }

  /** More than half of the smaller of the two areas is covered by their
      intersection. The threshold is the exact rational one half. A major
      overlap needs an intersection of positive area, so a degenerate or
      inverted rectangle majorly overlaps nothing. */
  predicate MajorOverlap(a: Rect, b: Rect): (m: bool)
    ensures m ==> Area(Intersection(a, b)) > 0
    ensures m ==> WellFormed(a) && WellFormed(b)
  {
    2 * Area(Intersection(a, b)) > Min(Area(a), Area(b))
  }

  /** The point (x, y) lies strictly inside `r`; points on an edge do not, and
      a rectangle that is not well-formed contains no point. */
  predicate Contains(r: Rect, x: int, y: int): (c: bool)
    ensures c ==> WellFormed(r)
  {
    x > r.xl && x < r.xr && y > r.yt && y < r.yb
  }

  // ---------------------------------------------------------------------
  // Width, height and area

  /** Swapping the two x coordinates and the two y coordinates (an inverted
      rectangle) changes neither width, height nor area. */
  lemma InvertedSameDimensions(r: Rect)
    ensures Width(Rect(r.xr, r.yb, r.xl, r.yt)) == Width(r)
    ensures Height(Rect(r.xr, r.yb, r.xl, r.yt)) == Height(r)
    ensures Area(Rect(r.xr, r.yb, r.xl, r.yt)) == Area(r)
  {
  }

  /** Products of non-negative factors grow with the factors. */
  lemma MulMonotone(x: nat, y: nat, hx: nat, hy: nat)
    requires x <= hx && y <= hy
    ensures x * y <= hx * hy
  {
    calc {
      x * y;
    <= { assert (hx - x) * y >= 0; }
      hx * y;
    <= { assert hx * (hy - y) >= 0; }
      hx * hy;
    }
  }

  /** A well-formed rectangle lying inside another has no larger area. */
  lemma WithinAreaBound(c: Rect, a: Rect)
    requires WellFormed(c) && Within(c, a)
    ensures Area(c) <= Area(a)
  {
    MulMonotone(Width(c), Height(c), Width(a), Height(a));
  }

  // ---------------------------------------------------------------------
  // Intersection

  /** Intersection is symmetric field for field, for all inputs. */
  lemma IntersectionCommutes(a: Rect, b: Rect)
    ensures Intersection(a, b) == Intersection(b, a)
  {
  }

  /** Intersecting a rectangle with itself gives it back exactly when it is
      well-formed, and the sentinel otherwise. */
  lemma IntersectionSelf(a: Rect)
    ensures Intersection(a, a) == if WellFormed(a) then a else NoOverlap
  {
  }

  /** Cells of nested intersections do not depend on the grouping. */
  lemma IntersectionAssociates(a: Rect, b: Rect, c: Rect)
    ensures Intersection(Intersection(a, b), c) == Intersection(a, Intersection(b, c))
  {
  }

  /** The intersection is the largest well-formed rectangle inside both
      arguments: any well-formed rectangle inside both lies inside it, so the
      sentinel comes back exactly when no such rectangle exists. */
  lemma IntersectionIsLargest(a: Rect, b: Rect, c: Rect)
    requires WellFormed(c) && Within(c, a) && Within(c, b)
    ensures Intersection(a, b) != NoOverlap
    ensures Within(c, Intersection(a, b))
  {
  }

  /** The intersection never has more area than either argument. */
  lemma IntersectionAreaBound(a: Rect, b: Rect)
    ensures Area(Intersection(a, b)) <= Area(a)
    ensures Area(Intersection(a, b)) <= Area(b)
  {
    var r := Intersection(a, b);
    if r != NoOverlap {
      WithinAreaBound(r, a);
      WithinAreaBound(r, b);
    }
  }

  /** A point is strictly inside the intersection exactly when it is strictly
      inside both arguments. */
  lemma ContainsIntersection(a: Rect, b: Rect, x: int, y: int)
    ensures Contains(Intersection(a, b), x, y) <==> Contains(a, x, y) && Contains(b, x, y)
  {
  }

  // ---------------------------------------------------------------------
  // Containment

  /** Points on any of the four edges are outside. */
  lemma ContainsIsStrict(r: Rect, x: int, y: int)
    ensures !Contains(r, r.xl, y) && !Contains(r, r.xr, y)
    ensures !Contains(r, x, r.yt) && !Contains(r, x, r.yb)
  {
  }

  // ---------------------------------------------------------------------
  // Major overlap

  /** The test does not depend on the order of its arguments. */
  lemma MajorOverlapSymmetric(a: Rect, b: Rect)
    ensures MajorOverlap(a, b) <==> MajorOverlap(b, a)
  {
    IntersectionCommutes(a, b);
  }

  /** Rectangles that are apart or merely share an edge or a corner never
      majorly overlap. */
  lemma TouchingIsNotMajor(a: Rect, b: Rect)
    requires a.xr <= b.xl || b.xr <= a.xl || a.yb <= b.yt || b.yb <= a.yt
    ensures !MajorOverlap(a, b)
  {
  }

  /** A well-formed rectangle inside another always majorly overlaps it, in
      both argument orders: a word box inside a cell is always picked. */
  lemma InsideIsMajor(a: Rect, b: Rect)
    requires WellFormed(b) && Within(b, a)
    ensures MajorOverlap(a, b) && MajorOverlap(b, a)
  {
    assert Intersection(a, b) == b;
    WithinAreaBound(b, a);
    MajorOverlapSymmetric(a, b);
  }

  /** (0,0,10,10) and (5,5,15,15) share a 5 by 5 square: 25 is not more than
      half of 100. */
  lemma QuarterIsNotMajor()
    ensures Intersection(Rect(0, 0, 10, 10), Rect(5, 5, 15, 15)) == Rect(5, 5, 10, 10)
    ensures !MajorOverlap(Rect(0, 0, 10, 10), Rect(5, 5, 15, 15))
  {
  }

  /** (1,1,9,9) lies inside (0,0,10,10): the intersection is all of it, and 64
      is more than half of 64. */
  lemma InnerSquareIsMajor()
    ensures Intersection(Rect(0, 0, 10, 10), Rect(1, 1, 9, 9)) == Rect(1, 1, 9, 9)
    ensures MajorOverlap(Rect(0, 0, 10, 10), Rect(1, 1, 9, 9))
  {
  }
}
