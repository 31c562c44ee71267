/** Integer plane geometry used by the triangle-splitting sketch: points,
    midpoints, the floor-divided normal and the perpendicular line that
    carries each triangle's peak. */
module Geometry {

  /** A point of the integer plane; also used as a 2-D vector. */
  datatype Point = Point(x: int, y: int)

  /** A directed segment from `a` to `b`. */
  datatype Line = Line(a: Point, b: Point)

  /** Two base points and the peak erected over them. */
  datatype Triangle = Triangle(baseB: Point, baseC: Point, peakA: Point)

  /** The origin, i.e. the zero vector. */
  const Origin := Point(0, 0)

  function Add(p: Point, v: Point): Point {
    Point(p.x + v.x, p.y + v.y)
  }

  function Sub(p: Point, q: Point): Point {
    Point(p.x - q.x, p.y - q.y)
  }

  function Scale(k: int, v: Point): Point {
    Point(k * v.x, k * v.y)
  }

  function Dot(u: Point, v: Point): int {
    u.x * v.x + u.y * v.y
  }

  /** The squared Euclidean length of a vector. */
  function SqNorm(v: Point): int {
    Dot(v, v)
  }

  function Abs(n: int): nat {
    if n < 0 then -n else n
  }

  /** `v` lies (inclusively) between `lo` and `hi`, in either order. */
  predicate Between(lo: int, v: int, hi: int) {
    (lo <= v <= hi) || (hi <= v <= lo)
  }

  /** Componentwise floor of the average of two points. */
  function Midpoint(a: Point, b: Point): (m: Point)
    ensures 2 * m.x <= a.x + b.x <= 2 * m.x + 1
    ensures 2 * m.y <= a.y + b.y <= 2 * m.y + 1
  {
    Point((a.x + b.x) / 2, (a.y + b.y) / 2)
  }

  lemma MidpointSymmetric(a: Point, b: Point)
    ensures Midpoint(a, b) == Midpoint(b, a)
  {
  }

  lemma MidpointBetween(a: Point, b: Point)
    ensures Between(a.x, Midpoint(a, b).x, b.x)
    ensures Between(a.y, Midpoint(a, b).y, b.y)
    ensures Midpoint(a, a) == a
  {
  }

  /** The direction of the segment from `a` to `b` rotated a quarter turn:
      (dx, dy) becomes (dy, -dx). */
  function Ortho(a: Point, b: Point): Point
  {
    Point(b.y - a.y, a.x - b.x)
  }

  /** The orthogonal vector is perpendicular to the segment, as long as it,
      and vanishes only for a degenerate segment. */
  lemma OrthoRotates(a: Point, b: Point)
    ensures Dot(Ortho(a, b), Sub(b, a)) == 0
    ensures SqNorm(Ortho(a, b)) == SqNorm(Sub(b, a))
    ensures Ortho(a, b) == Origin <==> a == b
  {
    var o, d := Ortho(a, b), Sub(b, a);
    assert o.x * d.x == d.y * d.x;
    assert o.y * d.y == -(d.x * d.y);
  }

  /** One component of the normal: `c` floor-divided by the Euclidean norm
      of the vector whose other component is `other`. Since `c * c` is at
      most the squared norm, the quotient lies in [-1, 1]: below zero its
      floor is -1, and above zero it reaches 1 only when `c` is the whole
      norm, i.e. when the other component is zero. */
  function NormalComponent(c: int, other: int): (k: int)
    ensures -1 <= k <= 1
    ensures k < 0 <==> c < 0
    ensures k > 0 ==> c > 0
  {
    if c < 0 then -1
    else if c > 0 && other == 0 then 1
    else 0
  }

  /** The orthogonal vector floor-divided, component by component, by its
      Euclidean norm. Each component is -1, 0 or 1, so this is not a unit
      vector in general. For `a == b` the model yields the zero vector. */
  function Normal(a: Point, b: Point): (v: Point)
    ensures -1 <= v.x <= 1 && -1 <= v.y <= 1
  {
    var o := Ortho(a, b);
    Point(NormalComponent(o.x, o.y), NormalComponent(o.y, o.x))
  }

  /** The segment from the midpoint of `a`-`b` to that midpoint moved by
      `length` times the normal. Its end point is the peak: it moves at
      most |length| along each axis, and for a non-negative length it
      never falls on the far side of the orthogonal direction. */
  function PerpendicularLine(a: Point, b: Point, length: int): (l: Line)
    ensures l.a == Midpoint(a, b)
    ensures Abs(l.b.x - l.a.x) <= Abs(length) && Abs(l.b.y - l.a.y) <= Abs(length)
    ensures length >= 0 ==> Dot(Sub(l.b, l.a), Ortho(a, b)) >= 0
  {
    var m, v := Midpoint(a, b), Normal(a, b);
    UnitFactor(length, v.x);
    UnitFactor(length, v.y);
    NormalSameSide(a, b);
    DotScale(length, v, Ortho(a, b));
    ProductSignInt(length, Dot(v, Ortho(a, b)));
    Line(m, Add(m, Scale(length, v)))
  }

  // ---------------------------------------------------------------------
  // The normal as floor division by the real Euclidean norm

  lemma ProductSign(x: real, p: real)
    requires 0.0 < p
    ensures x < 0.0 ==> x * p < 0.0
    ensures x <= 0.0 ==> x * p <= 0.0
  {
  }

  lemma SquareStrictlyMonotone(u: real, v: real)
    requires 0.0 <= u < v
    ensures u * u < v * v
  {
    ProductSign(u - v, u + v);
    assert (u - v) * (u + v) == u * u - v * v;
  }

  lemma FloorOfQuotient(c: real, norm: real, k: int)
    requires 0.0 < norm
    requires (k as real) * norm <= c < ((k + 1) as real) * norm
    ensures (c / norm).Floor == k
  {
    var q := c / norm;
    var kr := k as real;
    assert q * norm == c;
    assert (q - kr) * norm == c - kr * norm;
    assert (kr + 1.0 - q) * norm == (kr + 1.0) * norm - c;
    ProductSign(q - kr, norm);
    ProductSign(kr + 1.0 - q, norm);
    assert kr <= q < kr + 1.0;
  }

  /** `norm` is the positive square root of `n`, and `c * c <= n` puts `c`
      within [-norm, norm]. */
  lemma WithinNorm(c: int, n: int, norm: real)
    requires 0 < n && c * c <= n
    requires 0.0 < norm && norm * norm == n as real
    ensures -norm <= c as real <= norm
    ensures c as real == norm <==> c > 0 && c * c == n
  {
    var cr := c as real;
    assert cr * cr == (c * c) as real;
    var m := if c < 0 then -cr else cr;
    assert m * m == cr * cr;
    if norm < m {
      SquareStrictlyMonotone(norm, m);
    }
    if m < norm {
      SquareStrictlyMonotone(m, norm);
    }
  }

  /** A positive component is the whole norm exactly when its square is
      the whole squared norm: the rule of `NormalComponent` stated with
      squares. */
  lemma NormalComponentBySquares(c: int, other: int)
    ensures NormalComponent(c, other)
         == if c < 0 then -1 else if c > 0 && c * c == c * c + other * other then 1 else 0
  {
    SquarePositive(other);
  }

  /** `NormalComponent(c, other)` is floor(c / norm), where `norm` is the
      positive square root of `c * c + other * other`. */
  lemma NormalComponentIsFloor(c: int, other: int, norm: real)
    requires c != 0 || other != 0
    requires 0.0 < norm && norm * norm == (c * c + other * other) as real
    ensures (c as real / norm).Floor == NormalComponent(c, other)
  {
    var n := c * c + other * other;
    SquarePositive(c);
    SquarePositive(other);
    assert 0 < n && c * c <= n;
    WithinNorm(c, n, norm);
    var k := NormalComponent(c, other);
    assert (k as real) * norm <= c as real < ((k + 1) as real) * norm;
    FloorOfQuotient(c as real, norm, k);
  }

  /** For a proper segment, both components of `Normal(a, b)` are the floor
      of the orthogonal vector's components divided by its Euclidean norm
      (any positive real whose square is the squared length). */
  lemma NormalIsFloorDivision(a: Point, b: Point, norm: real)
    requires a != b
    requires 0.0 < norm && norm * norm == SqNorm(Ortho(a, b)) as real
    ensures (Ortho(a, b).x as real / norm).Floor == Normal(a, b).x
    ensures (Ortho(a, b).y as real / norm).Floor == Normal(a, b).y
  {
    var o := Ortho(a, b);
    assert o.x != 0 || o.y != 0;
    assert SqNorm(o) == o.x * o.x + o.y * o.y == o.y * o.y + o.x * o.x;
    NormalComponentIsFloor(o.x, o.y, norm);
    NormalComponentIsFloor(o.y, o.x, norm);
  }

  // ---------------------------------------------------------------------
  // What the floor-divided normal does and does not promise

  lemma SquarePositive(x: int)
    ensures x * x >= 0
    ensures x != 0 ==> x * x > 0
  {
  }

  /** The normal vanishes exactly for a degenerate segment or for one whose
      orthogonal vector has two positive components (x decreasing while y
      increases); the peak then coincides with the midpoint. */
  lemma NormalZeroIff(a: Point, b: Point)
    ensures Normal(a, b) == Origin <==> a == b || (b.y > a.y && a.x > b.x)
  {
  }

  /** The normal never points against the orthogonal vector, and points
      strictly to its side unless it vanishes: every peak protrudes to the
      same side of its directed base. */
  lemma NormalSameSide(a: Point, b: Point)
    ensures Dot(Normal(a, b), Ortho(a, b)) >= 0
    ensures Dot(Normal(a, b), Ortho(a, b)) > 0 <==> Normal(a, b) != Origin
  {
    var v, o := Normal(a, b), Ortho(a, b);
    assert v.x * o.x >= 0 && v.y * o.y >= 0;
    assert v.x != 0 ==> v.x * o.x > 0;
    assert v.y != 0 ==> v.y * o.y > 0;
  }

  /** For an axis-aligned segment the normal is an exact unit vector
      perpendicular to the segment, and reversing the segment negates it. */
  lemma NormalAxisAligned(a: Point, b: Point)
    requires a != b && (a.x == b.x || a.y == b.y)
    ensures SqNorm(Normal(a, b)) == 1
    ensures Dot(Normal(a, b), Sub(b, a)) == 0
    ensures Normal(b, a) == Scale(-1, Normal(a, b))
  {
    var v, d := Normal(a, b), Sub(b, a);
    if a.x == b.x {
      assert v.y == 0 && d.x == 0 && (v.x == 1 || v.x == -1);
      assert Normal(b, a) == Point(-v.x, 0);
    } else {
      assert v.x == 0 && d.y == 0 && (v.y == 1 || v.y == -1);
      assert Normal(b, a) == Point(0, -v.y);
    }
    UnitAxisVector(v, d);
  }

  /** A vector of length one along one axis is a unit vector, and it is
      perpendicular to any vector with no component on that axis. */
  lemma UnitAxisVector(v: Point, d: Point)
    requires (v.y == 0 && d.x == 0 && (v.x == 1 || v.x == -1))
          || (v.x == 0 && d.y == 0 && (v.y == 1 || v.y == -1))
    ensures SqNorm(v) == 1 && Dot(v, d) == 0
  {
    if v == Point(1, 0) || v == Point(-1, 0) {
      assert d.x == 0;
    } else {
      assert v == Point(0, 1) || v == Point(0, -1);
      assert d.y == 0;
    }
  }

  /** The axis-aligned base (0,0)-(10,0) for contrast, then diagonal
      segments: over (0,0)-(3,4) the normal is neither
      perpendicular to the base nor antisymmetric; over (0,0)-(5,-5) it has
      squared length 2, and over (3,0)-(0,4) it is zero. */
  lemma NormalDiagonalExample()
    ensures Normal(Point(0, 0), Point(10, 0)) == Point(0, -1)
    ensures Normal(Point(0, 0), Point(3, 4)) == Point(0, -1)
    ensures Normal(Point(3, 4), Point(0, 0)) == Point(-1, 0)
    ensures Normal(Point(0, 0), Point(5, -5)) == Point(-1, -1)
    ensures SqNorm(Normal(Point(0, 0), Point(5, -5))) == 2
    ensures Normal(Point(3, 0), Point(0, 4)) == Origin
  {
    assert Ortho(Point(0, 0), Point(5, -5)) == Point(-5, -5);
    assert Ortho(Point(0, 0), Point(3, 4)) == Point(4, -3);
    assert Ortho(Point(3, 4), Point(0, 0)) == Point(-4, 3);
    assert Ortho(Point(3, 0), Point(0, 4)) == Point(4, 3);
  }

  // ---------------------------------------------------------------------
  // Where the peak lands

  /** With a non-vanishing normal, the peak lies strictly on the
      orthogonal side of the base for a positive length, and strictly on
      the far side for a negative one. */
  lemma PeakSide(a: Point, b: Point, length: int)
    ensures var l := PerpendicularLine(a, b, length);
            length > 0 && Normal(a, b) != Origin ==> Dot(Sub(l.b, l.a), Ortho(a, b)) > 0
    ensures var l := PerpendicularLine(a, b, length);
            length < 0 && Normal(a, b) != Origin ==> Dot(Sub(l.b, l.a), Ortho(a, b)) < 0
  {
    var l := PerpendicularLine(a, b, length);
    var v, o := Normal(a, b), Ortho(a, b);
    assert Sub(l.b, l.a) == Scale(length, v);
    NormalSameSide(a, b);
    DotScale(length, v, o);
    ProductSignInt(length, Dot(v, o));
  }

  lemma DotScale(k: int, v: Point, w: Point)
    ensures Dot(Scale(k, v), w) == k * Dot(v, w)
  {
    assert (k * v.x) * w.x + (k * v.y) * w.y == k * (v.x * w.x + v.y * w.y);
  }

  lemma ProductSignInt(x: int, y: int)
    ensures x >= 0 && y >= 0 ==> x * y >= 0
    ensures x > 0 && y > 0 ==> x * y > 0
    ensures x < 0 && y > 0 ==> x * y < 0
  {
  }

  lemma UnitFactor(k: int, u: int)
    requires -1 <= u <= 1
    ensures Abs(k * u) <= Abs(k)
  {
    if u == 1 {
    } else if u == -1 {
      assert k * u == -k;
    } else {
      assert k * u == 0;
    }
  }

  /** Scaling a unit vector perpendicular to `d` by `k` keeps it
      perpendicular and gives it squared length `k * k`. */
  lemma ScaledUnitVector(k: int, v: Point, d: Point)
    requires SqNorm(v) == 1 && Dot(v, d) == 0
    ensures Dot(Scale(k, v), d) == 0
    ensures SqNorm(Scale(k, v)) == k * k
  {
    var s := Scale(k, v);
    DotScale(k, v, d);
    DotScale(k, v, s);
    assert Dot(v, s) == Dot(s, v);
    DotScale(k, v, v);
  }

  /** Over an axis-aligned base the peak lies on the perpendicular to the
      base through the floored midpoint, at distance exactly |length| from
      it. When the coordinate sum is odd that perpendicular is half a unit
      off the true bisector. */
  lemma PeakPerpendicularAxisAligned(a: Point, b: Point, length: int)
    requires a != b && (a.x == b.x || a.y == b.y)
    ensures var l := PerpendicularLine(a, b, length);
            Dot(Sub(l.b, l.a), Sub(b, a)) == 0 && SqNorm(Sub(l.b, l.a)) == length * length
  {
    var l := PerpendicularLine(a, b, length);
    assert Sub(l.b, l.a) == Scale(length, Normal(a, b));
    NormalAxisAligned(a, b);
    ScaledUnitVector(length, Normal(a, b), Sub(b, a));
  }

  /** Over a diagonal base the displacement need not be perpendicular. */
  lemma PeakDiagonalExample()
    ensures PerpendicularLine(Point(0, 0), Point(3, 4), 5) == Line(Point(1, 2), Point(1, -3))
    ensures Dot(Sub(Point(1, -3), Point(1, 2)), Sub(Point(3, 4), Point(0, 0))) == -20
  {
    NormalDiagonalExample();
    assert Midpoint(Point(0, 0), Point(3, 4)) == Point(1, 2);
    assert Scale(5, Point(0, -1)) == Point(0, -5);
  }
}
