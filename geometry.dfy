/** The overlap measure of the duplicate-circle filter: every circle is
    approximated by its axis-aligned bounding square for the intersection,
    while its reference area is the disk area PI * r * r. */
module Geometry {

  /** A detected circle: integer centre (x, y) and integer radius r. */
  datatype Circle = Circle(x: int, y: int, r: int)

  /** 3.141592653589793, the shortest decimal form of numpy's pi; the
      double itself differs from it by about 1.2e-16. */
  const PI: real := 3.141592653589793

  /** The largest value the overlap ratio can take: two identical circles
      share their whole bounding square, 4 r^2, against a union of
      2 PI r^2 - 4 r^2. */
  const MaxIou: real := 4.0 / (2.0 * PI - 4.0)

  function Min(a: int, b: int): int { if a <= b then a else b }
  function Max(a: int, b: int): int { if a <= b then b else a }

  /** Length of the overlap of [lo1, hi1] and [lo2, hi2], clamped at 0. */
  function Overlap(lo1: int, hi1: int, lo2: int, hi2: int): (w: int)
    ensures w >= 0
    ensures w <= Max(0, hi1 - lo1) && w <= Max(0, hi2 - lo2)
    ensures w > 0 <==> lo1 < hi1 && lo2 < hi2 && lo1 < hi2 && lo2 < hi1
  {
    Max(0, Min(hi1, hi2) - Max(lo1, lo2))
  }

  /** Overlap does not depend on which interval comes first. */
  lemma OverlapSymmetric(lo1: int, hi1: int, lo2: int, hi2: int)
    ensures Overlap(lo1, hi1, lo2, hi2) == Overlap(lo2, hi2, lo1, hi1)
  {
  }

  /** An interval nested in another overlaps it over its whole length. */
  lemma OverlapNested(lo1: int, hi1: int, lo2: int, hi2: int)
    requires lo1 <= lo2 <= hi2 <= hi1
    ensures Overlap(lo1, hi1, lo2, hi2) == hi2 - lo2
  {
  }

  /** Side lengths of the intersection of the two bounding squares ("w" and
      "h" of the filter): never negative and never longer than either
      square's side 2 r. */
  function Width(a: Circle, b: Circle): (w: int)
    ensures 0 <= w && w <= Max(0, 2 * a.r) && w <= Max(0, 2 * b.r)
  {
    Overlap(a.x - a.r, a.x + a.r, b.x - b.r, b.x + b.r)
  }

  function Height(a: Circle, b: Circle): (h: int)
    ensures 0 <= h && h <= Max(0, 2 * a.r) && h <= Max(0, 2 * b.r)
  {
    Overlap(a.y - a.r, a.y + a.r, b.y - b.r, b.y + b.r)
  }

  lemma MulBound(w: int, h: int, m: int)
    requires 0 <= w <= m && 0 <= h <= m
    ensures 0 <= w * h <= m * m
  {
    calc {
      w * h;
    <= { assert w * (m - h) >= 0; }
      w * m;
    <= { assert (m - w) * m >= 0; }
      m * m;
    }
  }

  /** A product of two non-negative side lengths is positive exactly when
      both are. */
  lemma MulPositive(w: int, h: int)
    requires 0 <= w && 0 <= h
    ensures 0 <= w * h && (w * h > 0 <==> w > 0 && h > 0)
  {
    if w > 0 && h > 0 {
      MulBound(1, 1, Min(w, h));
      assert w * h >= Min(w, h) * Min(w, h) by {
        assert w * h - w * Min(w, h) == w * (h - Min(w, h));
        assert w * Min(w, h) - Min(w, h) * Min(w, h) == (w - Min(w, h)) * Min(w, h);
      }
    }
  }

  /** Intersection area of the bounding squares of a and b (the "inter_area"
      of the filter): never negative, zero when either radius is not
      positive, and at most the smaller square's area 4 * min(r)^2. */
  function InterArea(a: Circle, b: Circle): (area: int)
    ensures area >= 0
    ensures a.r <= 0 || b.r <= 0 ==> area == 0
    ensures a.r > 0 && b.r > 0 ==> area <= 4 * (Min(a.r, b.r) * Min(a.r, b.r))
    ensures area > 0 <==> Width(a, b) > 0 && Height(a, b) > 0
  {
    var w, h := Width(a, b), Height(a, b);
    var m := Min(a.r, b.r);
    MulPositive(w, h);
    if m > 0 then
      MulBound(w, h, 2 * m);
      assert (2 * m) * (2 * m) == 4 * (m * m);
      w * h
    else
      w * h
  }

  /** The intersection area is the same from either circle's side. */
  lemma InterAreaSymmetric(a: Circle, b: Circle)
    ensures InterArea(a, b) == InterArea(b, a)
  {
    OverlapSymmetric(a.x - a.r, a.x + a.r, b.x - b.r, b.x + b.r);
    OverlapSymmetric(a.y - a.r, a.y + a.r, b.y - b.r, b.y + b.r);
  }

  /** A circle's square intersected with itself is the whole square. */
  lemma InterAreaSelf(c: Circle)
    requires c.r > 0
    ensures InterArea(c, c) == 4 * c.r * c.r
  {
    OverlapNested(c.x - c.r, c.x + c.r, c.x - c.r, c.x + c.r);
    OverlapNested(c.y - c.r, c.y + c.r, c.y - c.r, c.y + c.r);
  }

  /** Reference area of a circle: the disk area PI * r^2. */
  function Area(c: Circle): (a: real)
    ensures a >= 0.0
    ensures a == 0.0 <==> c.r == 0
  {
    PI * (c.r * c.r) as real
  }

  /** "union_area": both disk areas minus the square intersection, so never
      more than the two disk areas together. */
  function UnionArea(a: Circle, b: Circle): (u: real)
    ensures u <= Area(a) + Area(b)
  {
    Area(a) + Area(b) - InterArea(a, b) as real
  }

  /** The square intersection is at most twice the sum of the squared radii
      (each square is 4 r^2, the disk only PI r^2). */
  lemma InterAreaAtMostSquares(a: Circle, b: Circle)
    ensures InterArea(a, b) <= 2 * (a.r * a.r + b.r * b.r)
  {
    var m := Min(a.r, b.r);
    if a.r > 0 && b.r > 0 {
      MulBound(m, m, a.r);
      MulBound(m, m, b.r);
      var mm, sa, sb := m * m, a.r * a.r, b.r * b.r;
      assert InterArea(a, b) <= 4 * mm;
      assert 4 * mm <= 2 * sa + 2 * sb;
    } else {
      assert a.r * a.r >= 0 && b.r * b.r >= 0;
    }
  }

  /** The union is never negative and vanishes only when both radii are 0,
      so the division in the overlap ratio is defined for every other pair;
      for positive radii it is at least (2 PI - 4) * min(r)^2. */
  lemma UnionAreaPositive(a: Circle, b: Circle)
    ensures UnionArea(a, b) >= 0.0
    ensures UnionArea(a, b) == 0.0 <==> a.r == 0 && b.r == 0
    ensures a.r > 0 && b.r > 0 ==>
              UnionArea(a, b) >= (2.0 * PI - 4.0) * (Min(a.r, b.r) * Min(a.r, b.r)) as real
  {
    var m := Min(a.r, b.r);
    SquareFacts(a, b);
    UnionBounds(InterArea(a, b), a.r * a.r, b.r * b.r, m * m, UnionArea(a, b), a.r > 0 && b.r > 0);
  }

  /** The integer facts UnionAreaPositive rests on: squared radii, the
      intersection bounded by them, and min(r)^2 below both. */
  lemma SquareFacts(a: Circle, b: Circle)
    ensures var sa, sb := a.r * a.r, b.r * b.r;
            0 <= sa && 0 <= sb && (sa == 0 <==> a.r == 0) && (sb == 0 <==> b.r == 0) &&
            InterArea(a, b) <= 2 * (sa + sb)
    ensures a.r > 0 && b.r > 0 ==>
              var m2 := Min(a.r, b.r) * Min(a.r, b.r);
              0 <= m2 && InterArea(a, b) <= 4 * m2 && m2 <= a.r * a.r && m2 <= b.r * b.r
  {
    var m := Min(a.r, b.r);
    InterAreaAtMostSquares(a, b);
    SquareZero(a.r);
    SquareZero(b.r);
    if a.r > 0 && b.r > 0 {
      MulBound(m, m, a.r);
      MulBound(m, m, b.r);
    }
  }

  /** A square is never negative and is 0 only for 0. */
  lemma SquareZero(n: int)
    ensures n * n >= 0 && (n * n == 0 <==> n == 0)
  {
    if n != 0 {
      MulPositive(if n < 0 then -n else n, if n < 0 then -n else n);
    }
  }

  /** The arithmetic behind UnionAreaPositive, on reals: sa and sb stand
      for the squared radii, i for the intersection, m2 for min(r)^2. */
  lemma UnionBounds(i: int, sa: int, sb: int, m2: int, u: real, both: bool)
    requires 0 <= sa && 0 <= sb && 0 <= i <= 2 * (sa + sb)
    requires u == PI * sa as real + PI * sb as real - i as real
    requires both ==> 0 <= m2 && i <= 4 * m2 && m2 <= sa && m2 <= sb
    ensures u >= 0.0 && (u == 0.0 <==> sa == 0 && sb == 0)
    ensures both ==> u >= (2.0 * PI - 4.0) * m2 as real
  {
    assert u >= (PI - 2.0) * (sa + sb) as real;
  }

  /** The square intersection is at most MaxIou times the union. */
  lemma InterAtMostMaxIouUnion(a: Circle, b: Circle)
    ensures InterArea(a, b) as real <= MaxIou * UnionArea(a, b)
  {
    InterAreaAtMostSquares(a, b);
    MaxIouBound(InterArea(a, b) as real, (a.r * a.r) as real, (b.r * b.r) as real, UnionArea(a, b));
  }

  /** For 0 <= i <= 2 (sa + sb) and u = PI sa + PI sb - i: i <= MaxIou * u. */
  lemma MaxIouBound(i: real, sa: real, sb: real, u: real)
    requires 0.0 <= i <= 2.0 * (sa + sb) && u == PI * sa + PI * sb - i
    ensures i <= MaxIou * u
  {
    var k := 2.0 * PI - 4.0;
    assert MaxIou * u - i == 2.0 * PI * (2.0 * (sa + sb) - i) / k;
  }

  /** "iou": the square intersection divided by the disk union. */
  function Iou(a: Circle, b: Circle): (v: real)
    requires UnionArea(a, b) > 0.0
    ensures 0.0 <= v <= MaxIou
  {
    InterAtMostMaxIouUnion(a, b);
    RatioBound(InterArea(a, b) as real, UnionArea(a, b), MaxIou);
    InterArea(a, b) as real / UnionArea(a, b)
  }

  /** Dividing by a positive denominator keeps a bound on the quotient. */
  lemma RatioBound(i: real, u: real, k: real)
    requires u > 0.0 && 0.0 <= i <= k * u
    ensures 0.0 <= i / u <= k
  {
    assert i / u * u == i;
  }

  /** The overlap test of the filter: "iou > overlapThresh". When both radii
      are 0 the ratio is 0 / 0, which is not a number, and the comparison is
      false, so such a pair never suppresses. At a threshold of 0 or more
      only circles whose squares share area suppress. */
  predicate Suppresses(cur: Circle, other: Circle, t: real)
    ensures Suppresses(cur, other, t) ==> cur.r != 0 || other.r != 0
    ensures Suppresses(cur, other, t) && t >= 0.0 ==> InterArea(cur, other) > 0
  {
    UnionArea(cur, other) > 0.0 && Iou(cur, other) > t
  }

  /** The overlap test, written without the division. It holds for every
      pair: for two zero radii both sides are false. */
  lemma SuppressesWithoutDivision(a: Circle, b: Circle, t: real)
    ensures Suppresses(a, b, t) <==> InterArea(a, b) as real > t * UnionArea(a, b)
  {
    UnionAreaPositive(a, b);
    RatioAbove(InterArea(a, b) as real, UnionArea(a, b), t);
  }

  /** With a non-negative denominator that is 0 only under a 0 numerator,
      a defined quotient above t is a numerator above t times the
      denominator. */
  lemma RatioAbove(i: real, u: real, t: real)
    requires u >= 0.0 && (u == 0.0 ==> i == 0.0)
    ensures (u > 0.0 && i / u > t) <==> i > t * u
  {
    if u > 0.0 {
      var q := i / u;
      assert q * u == i;
      if q > t {
        assert (q - t) * u > 0.0;
      } else {
        assert (t - q) * u >= 0.0;
      }
    }
  }

  /** Whether a pair suppresses does not depend on which circle is current. */
  lemma SuppressesSymmetric(a: Circle, b: Circle, t: real)
    ensures Suppresses(a, b, t) <==> Suppresses(b, a, t)
  {
    InterAreaSymmetric(a, b);
  }

  /** Threshold 0: a pair suppresses exactly when the squares share area
      (two zero radii share none). */
  lemma SuppressesAtZero(a: Circle, b: Circle)
    ensures Suppresses(a, b, 0.0) <==> InterArea(a, b) > 0
  {
    UnionAreaPositive(a, b);
  }

  /** The ratio is not bounded by 1: a circle and itself reach MaxIou, which
      exceeds 1, so even threshold 1.0 lets coincident circles suppress. */
  lemma IouOfIdentical(c: Circle)
    requires c.r > 0
    ensures UnionArea(c, c) > 0.0
    ensures Iou(c, c) == MaxIou && MaxIou > 1.0
  {
    InterAreaSelf(c);
    UnionAreaPositive(c, c);
    var s := (c.r * c.r) as real;
    assert (c.r as real) * (c.r as real) == s;
    assert UnionArea(c, c) == (2.0 * PI - 4.0) * s;
    assert InterArea(c, c) as real == 4.0 * s;
    assert 4.0 * s / ((2.0 * PI - 4.0) * s) == MaxIou;
  }
}
