/**
 * The integer instantiation of the helpers in neat_math.hpp.  Integers are
 * unbounded here; the comparisons and arithmetic are the source's own.
 */
module NeatMath {

  function Min(a: int, b: int): int { if a <= b then a else b }
  function Max(a: int, b: int): int { if a <= b then b else a }

  /** `abs`: negates negative values. */
  function Abs(v: int): (r: int)
    ensures r >= 0 && (r == v || r == -v)
  {
    if v < 0 then -v else v
  }

  /** `sign`: 0 for 0, otherwise `v / abs(v)`.  The division is exact, so
      truncating and Euclidean division agree on it. */
  function Sign(v: int): (r: int)
    ensures r == -1 || r == 0 || r == 1
    ensures r * Abs(v) == v
    ensures r > 0 <==> v > 0
    ensures r < 0 <==> v < 0
  {
    if v == 0 then 0
    else
      assert v < 0 ==> v / Abs(v) == -1 by {
        if v < 0 { assert -1 * Abs(v) == v; }
      }
      v / Abs(v)
  }

  /** `clamp`: when the bounds are given in the wrong order it calls itself
      with them swapped. */
  function Clamp(v: int, lo: int, hi: int): (r: int)
    ensures Min(lo, hi) <= r <= Max(lo, hi)
    ensures Min(lo, hi) <= v <= Max(lo, hi) ==> r == v
    ensures v < Min(lo, hi) ==> r == Min(lo, hi)
    ensures v > Max(lo, hi) ==> r == Max(lo, hi)
    decreases if hi < lo then 1 else 0
  {
    if hi < lo then Clamp(v, hi, lo)
    else if v < lo then lo
    else if v > hi then hi
    else v
  }

  /** Swapping the two bounds of `clamp` changes nothing. */
  lemma ClampSymmetric(v: int, lo: int, hi: int)
    ensures Clamp(v, lo, hi) == Clamp(v, hi, lo)
  {
  }

  /** `absdiff`: the distance between two values. */
  function AbsDiff(a: int, b: int): (r: int)
    ensures r == Abs(a - b)
  {
    if a > b then a - b else b - a
  }

  /** `absdiff` is symmetric and never negative. */
  lemma AbsDiffSymmetric(a: int, b: int)
    ensures AbsDiff(a, b) == AbsDiff(b, a) >= 0
  {
  }

  /** `approach`: moves `value` by `|max|` towards `target`, or lands on
      `target` when it is closer than that. */
  function Approach(value: int, target: int, max: int): (r: int)
    ensures AbsDiff(value, target) < Abs(max) ==> r == target
    ensures AbsDiff(value, target) >= Abs(max) ==>
              && AbsDiff(r, value) == Abs(max)
              && AbsDiff(r, target) == AbsDiff(value, target) - Abs(max)
  {
    var m := Abs(max);
    if AbsDiff(value, target) < m then target
    else if value < target then value + m
    else value - m
  }

  /** n!, the product 2 * 3 * ... * n. */
  function Fact(n: nat): (r: nat)
    ensures r >= 1
  {
    if n <= 1 then 1 else n * Fact(n - 1)
  }

  /** `factorial`: multiplies `result` by 2, 3, ..., n. */
  method Factorial(n: nat) returns (result: nat)
    ensures result == Fact(n)
  {
    result := 1;
    var i := 2;
    while i <= n
      invariant 2 <= i <= if n < 2 then 2 else n + 1
      invariant result == Fact(i - 1)
    {
      result := result * i;
      i := i + 1;
    }
  }

  /** The entries of Pascal's triangle, an independent definition of the
      binomial coefficient. */
  function Pascal(n: nat, k: nat): nat
    requires k <= n
  {
    if k == 0 || k == n then 1 else Pascal(n - 1, k - 1) + Pascal(n - 1, k)
  }

  /** The arithmetic of one step of Pascal's rule: with a * (A * (m * B)) == f
      and b * ((k * A) * B) == f, the sum a + b times (k * A) * (m * B) is
      (k + m) * f. */
  lemma PascalStep(a: int, b: int, k: int, m: int, x: int, y: int, f: int)
    requires a * (x * (m * y)) == f
    requires b * ((k * x) * y) == f
    ensures (a + b) * ((k * x) * (m * y)) == (k + m) * f
  {
    var p := (k * x) * (m * y);
    assert (a + b) * p == a * p + b * p;
    assert a * p == k * (a * (x * (m * y)));
    assert b * p == m * (b * ((k * x) * y));
  }

  /** n! = C(n, k) * k! * (n - k)!, for the triangle's C. */
  lemma {:induction false} PascalFactorials(n: nat, k: nat)
    requires k <= n
    ensures Pascal(n, k) * (Fact(k) * Fact(n - k)) == Fact(n)
  {
    if k == 0 || k == n {
    } else {
      PascalFactorials(n - 1, k - 1);
      PascalFactorials(n - 1, k);
      var x, y := Fact(k - 1), Fact(n - 1 - k);
      assert Fact(k) == k * x;
      assert Fact(n - k) == (n - k) * y;
      assert Fact(n) == n * Fact(n - 1);
      PascalStep(Pascal(n - 1, k - 1), Pascal(n - 1, k), k, n - k, x, y, Fact(n - 1));
    }
  }

  /** Dividing an exact multiple gives back the multiplier. */
  lemma DivExact(p: nat, d: nat)
    requires d > 0
    ensures (p * d) / d == p
  {
    var q, rem := (p * d) / d, (p * d) % d;
    assert (p - q) * d == rem;
    if p - q >= 1 {
      assert false;
    } else if p - q <= -1 {
      assert false;
    }
  }

  /** `binomial_coefficient`: n! / (k! * (n - k)!).  The division is exact
      and yields the entry of Pascal's triangle.  For k > n the source
      computes the factorial of a wrapped-around `size_t`, so k <= n is what
      its callers must supply. */
  function BinomialCoefficient(n: nat, k: nat): (r: nat)
    requires k <= n
    ensures r == Pascal(n, k)
    ensures r * (Fact(k) * Fact(n - k)) == Fact(n)
  {
    PascalFactorials(n, k);
    var d := Fact(k) * Fact(n - k);
    DivExact(Pascal(n, k), d);
    Fact(n) / d
  }

  function Pow(t: int, e: nat): int {
    if e == 0 then 1 else t * Pow(t, e - 1)
  }

  /** The polynomial with coefficients `cs`, highest degree first:
      cs[0] * t^(d) + ... + cs[d] with d = |cs| - 1. */
  function PolyValue(t: int, cs: seq<int>): int {
    if cs == [] then 0 else cs[0] * Pow(t, |cs| - 1) + PolyValue(t, cs[1..])
  }

  /** `polynomial`: walks the coefficients from the last one, adding
      `tcurr * coeff` and multiplying `tcurr` by `t`. */
  method Polynomial(t: int, coefficients: seq<int>) returns (result: int)
    ensures result == PolyValue(t, coefficients)
  {
    result := 0;
    var tcurr := 1;
    var n := |coefficients|;
    var i := n;
    while i > 0
      invariant 0 <= i <= n
      invariant tcurr == Pow(t, n - i)
      invariant result == PolyValue(t, coefficients[i..])
    {
      var coeff := coefficients[i - 1];
      assert coefficients[i - 1..][1..] == coefficients[i..];
      result := result + tcurr * coeff;
      tcurr := tcurr * t;
      i := i - 1;
    }
  }

  /** Horner's rule: appending a lowest-degree coefficient multiplies the
      polynomial by t and adds the coefficient. */
  lemma {:induction false} PolyHorner(t: int, cs: seq<int>, c: int)
    ensures PolyValue(t, cs + [c]) == t * PolyValue(t, cs) + c
  {
    if cs == [] {
      assert [c][1..] == [];
    } else {
      assert (cs + [c])[1..] == cs[1..] + [c];
      PolyHorner(t, cs[1..], c);
      var w, rest := Pow(t, |cs| - 1), PolyValue(t, cs[1..]);
      assert Pow(t, |cs|) == t * w;
      MulLeftComm(cs[0], t, w);
      assert PolyValue(t, cs + [c]) == t * (cs[0] * w) + (t * rest + c);
    }
  }

  /** a * (b * c) == b * (a * c) */
  lemma MulLeftComm(a: int, b: int, c: int)
    ensures a * (b * c) == b * (a * c)
  {
  }

  /** `within`: `value` lies in the closed interval, its ends in either order. */
  function Within(value: int, start: int, end: int): (r: bool)
    ensures r <==> Min(start, end) <= value <= Max(start, end)
    decreases if end < start then 1 else 0
  {
    if end < start then Within(value, end, start)
    else start <= value && value <= end
  }

  /** Swapping the ends of the interval does not change `within`. */
  lemma WithinSymmetric(value: int, start: int, end: int)
    ensures Within(value, start, end) == Within(value, end, start)
  {
  }

  /** `overlap`: two closed intervals, each with its ends in either order,
      share a point. */
  function Overlap(min0: int, max0: int, min1: int, max1: int): (r: bool)
    ensures r <==> Max(Min(min0, max0), Min(min1, max1)) <= Min(Max(min0, max0), Max(min1, max1))
    decreases (if max0 < min0 then 1 else 0) + (if max1 < min1 then 1 else 0)
  {
    if max0 < min0 then Overlap(max0, min0, min1, max1)
    else if max1 < min1 then Overlap(min0, max0, max1, min1)
    else !(max0 < min1 || max1 < min0)
  }

  /** `overlap` holds exactly when some value is `within` both intervals, and
      swapping the ends of either interval changes nothing. */
  lemma OverlapIffCommonPoint(min0: int, max0: int, min1: int, max1: int)
    ensures Overlap(min0, max0, min1, max1) ==>
              var x := Max(Min(min0, max0), Min(min1, max1));
              Within(x, min0, max0) && Within(x, min1, max1)
    ensures forall x :: Within(x, min0, max0) && Within(x, min1, max1) ==> Overlap(min0, max0, min1, max1)
    ensures Overlap(min0, max0, min1, max1) == Overlap(max0, min0, min1, max1) == Overlap(min0, max0, max1, min1)
  {
  }

  datatype Point = Point(x: int, y: int)
  datatype Circle = Circle(x: int, y: int, radius: int)
  datatype Rect = Rect(x: int, y: int, width: int, height: int)

  /** Exchanging the two axes of a point, a circle and a rectangle. */
  function TransposePoint(p: Point): Point { Point(p.y, p.x) }
  function TransposeCircle(c: Circle): Circle { Circle(c.y, c.x, c.radius) }
  function TransposeRect(r: Rect): Rect { Rect(r.y, r.x, r.height, r.width) }

  /** `length2`: the squared length of a point seen as a vector. */
  function Length2(p: Point): (r: int)
    ensures r >= 0
  {
    p.x * p.x + p.y * p.y
  }

  /** The squared length vanishes exactly at the origin. */
  lemma Length2ZeroAtOrigin(p: Point)
    ensures Length2(p) == 0 <==> p == Point(0, 0)
  {
    if p.x != 0 {
      assert p.x * p.x > 0;
    }
    if p.y != 0 {
      assert p.y * p.y > 0;
    }
  }

  /** `collide(point, rectangle)` as written: the upper bound for `p.y` is
      taken from `r.x` instead of `r.y`. */
  function CollidePointRectAsWritten(p: Point, r: Rect): (b: bool)
    ensures b <==> 0 < p.x - r.x < r.width && 0 < p.y - r.y < r.height + (r.x - r.y)
    ensures r.x == r.y ==> (b <==> CollidePointRect(p, r))
  {
    r.x < p.x && p.x < r.x + r.width && r.y < p.y && p.y < r.x + r.height
  }

  /** With the rectangle at (-10, 0), the point (-9, 1) lies strictly inside
      it, yet the code as written reports no collision; exchanging the axes
      of both shapes changes the answer. */
  lemma CollidePointRectAsWrittenMisses()
    ensures var p, r := Point(-9, 1), Rect(-10, 0, 2, 2);
            && CollidePointRect(p, r)
            && !CollidePointRectAsWritten(p, r)
            && CollidePointRectAsWritten(TransposePoint(p), TransposeRect(r))
  {
  }

  /** `collide(point, rectangle)` with the bound for `p.y` taken from `r.y`:
      the point lies strictly inside the rectangle. */
  function CollidePointRect(p: Point, r: Rect): (b: bool)
    ensures b <==> 0 < p.x - r.x < r.width && 0 < p.y - r.y < r.height
  {
    r.x < p.x && p.x < r.x + r.width && r.y < p.y && p.y < r.y + r.height
  }

  /** Corrected point/rectangle collision does not depend on which axis is
      which. */
  lemma CollidePointRectTranspose(p: Point, r: Rect)
    ensures CollidePointRect(p, r) == CollidePointRect(TransposePoint(p), TransposeRect(r))
  {
  }

  /** `collide(circle, circle)` as written: `dy` is computed from `a.y` and
      `a.y`, so it is always 0. */
  function CollideCirclesAsWritten(a: Circle, b: Circle): (hit: bool)
    ensures hit <==> CollideCircles(a, Circle(b.x, a.y, b.radius))
    ensures a.y == b.y ==> (hit <==> CollideCircles(a, b))
  {
    var dx := AbsDiff(a.x, b.x);
    var dy := AbsDiff(a.y, a.y);
    var rsum := a.radius + b.radius;
    dx * dx + dy * dy < rsum * rsum
  }

  /** Two unit circles 100 apart on the y axis are reported as colliding by
      the code as written, but not once the axes are exchanged. */
  lemma CollideCirclesAsWrittenIgnoresY()
    ensures var a, b := Circle(0, 0, 1), Circle(0, 100, 1);
            && CollideCirclesAsWritten(a, b)
            && !CollideCircles(a, b)
            && !CollideCirclesAsWritten(TransposeCircle(a), TransposeCircle(b))
  {
    var a, b := Circle(0, 0, 1), Circle(0, 100, 1);
    assert CollideCirclesAsWritten(a, b) by {
      assert AbsDiff(0, 0) == 0;
    }
    assert !CollideCircles(a, b) by {
      assert AbsDiff(0, 0) == 0 && AbsDiff(0, 100) == 100;
    }
    assert !CollideCirclesAsWritten(TransposeCircle(a), TransposeCircle(b)) by {
      assert AbsDiff(0, 100) == 100;
    }
  }

  /** `collide(circle, circle)` with `dy` taken from `a.y` and `b.y`: the
      squared distance of the centres is below the squared sum of the radii.
      The answer does not depend on the order of the circles or on which
      axis is which. */
  function CollideCircles(a: Circle, b: Circle): (r: bool)
    ensures r <==> Length2(Point(a.x - b.x, a.y - b.y)) < (a.radius + b.radius) * (a.radius + b.radius)
  {
    var dx := AbsDiff(a.x, b.x);
    var dy := AbsDiff(a.y, b.y);
    var rsum := a.radius + b.radius;
    assert dx * dx == (a.x - b.x) * (a.x - b.x);
    assert dy * dy == (a.y - b.y) * (a.y - b.y);
    dx * dx + dy * dy < rsum * rsum
  }

  /** Corrected circle/circle collision does not depend on the order of the
      circles or on which axis is which. */
  lemma CollideCirclesSymmetric(a: Circle, b: Circle)
    ensures CollideCircles(a, b) == CollideCircles(b, a)
    ensures CollideCircles(a, b) == CollideCircles(TransposeCircle(a), TransposeCircle(b))
  {
    assert (a.x - b.x) * (a.x - b.x) == (b.x - a.x) * (b.x - a.x);
    assert (a.y - b.y) * (a.y - b.y) == (b.y - a.y) * (b.y - a.y);
  }

  /** `collide(point, circle)`: the squared distance of the point from the
      centre is below the squared radius. */
  function CollidePointCircle(p: Point, c: Circle): (r: bool)
    ensures r <==> (p.x - c.x) * (p.x - c.x) + (p.y - c.y) * (p.y - c.y) < c.radius * c.radius
  {
    var dx := AbsDiff(p.x, c.x);
    var dy := AbsDiff(p.y, c.y);
    assert dx * dx == (p.x - c.x) * (p.x - c.x);
    assert dy * dy == (p.y - c.y) * (p.y - c.y);
    Length2(Point(dx, dy)) < c.radius * c.radius
  }

  /** The point/circle test is the corrected circle/circle test with the
      point taken as a circle of radius 0. */
  lemma PointCircleIsCircleCircle(p: Point, c: Circle)
    ensures CollidePointCircle(p, c) == CollideCircles(Circle(p.x, p.y, 0), c)
  {
  }

  /** `collide(rectangle, rectangle)`: for rectangles of positive size, the
      open rectangles intersect on both axes. */
  function CollideRects(a: Rect, b: Rect): (r: bool)
    ensures a.width > 0 && a.height > 0 && b.width > 0 && b.height > 0 ==>
              (r <==> Max(a.x, b.x) < Min(a.x + a.width, b.x + b.width)
                      && Max(a.y, b.y) < Min(a.y + a.height, b.y + b.height))
  {
    a.x < b.x + b.width && a.y < b.y + b.height && a.x + a.width > b.x && a.y + a.height > b.y
  }

  /** Rectangle collision does not depend on the order of the rectangles or
      on which axis is which. */
  lemma CollideRectsSymmetric(a: Rect, b: Rect)
    ensures CollideRects(a, b) == CollideRects(b, a)
    ensures CollideRects(a, b) == CollideRects(TransposeRect(a), TransposeRect(b))
  {
  }

  /** The repository's own assertions on `abs`, `approach` and the
      point/rectangle `collide` over integers; the point/rectangle cases
      pass the code as written and the corrected test alike. */
  lemma MathAssertions()
    ensures Abs(500) == 500 && Abs(-500) == 500
    ensures Approach(50, 100, 25) == 75 && Approach(100, 60, 20) == 80
    ensures CollidePointRectAsWritten(Point(1, 1), Rect(0, 0, 2, 2))
    ensures CollidePointRect(Point(1, 1), Rect(0, 0, 2, 2))
    ensures !CollidePointRectAsWritten(Point(3, 1), Rect(0, 0, 2, 2))
    ensures !CollidePointRect(Point(3, 1), Rect(0, 0, 2, 2))
  {
  }
}
