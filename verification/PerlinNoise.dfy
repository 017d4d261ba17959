/**
 `PerlinNoise2D::sample` over exact reals. The `cos`/`sin` gradient of a lattice point is any unit
 vector chosen by the point; what the generator adds is that the choice depends on a key only.
 */
module PerlinNoise {

  datatype Vec = Vec(x: real, y: real) {
    function Dot(o: Vec): real
    {
      x * o.x + y * o.y
    }
  }

  type Gradients = (int, int) -> Vec

  predicate Unit(g: Vec)
  {
    g.x * g.x + g.y * g.y == 1.0
  }

  ghost predicate AllUnit(grad: Gradients)
  {
    forall i, j :: Unit(grad(i, j))
  }

  function Lerp(a: real, b: real, t: real): real
  {
    a + t * (b - a)
  }

  function Fade(t: real): real
  {
    t * t * t * (t * (t * 6.0 - 15.0) + 10.0)
  }

  /** The interpolant of the cell with lower-left corner `(i, j)` at local coordinates `(u, v)`. */
  function CellValue(grad: Gradients, i: int, j: int, u: real, v: real): real
  {
    var dot00 := Vec(u, v).Dot(grad(i, j));
    var dot10 := Vec(u - 1.0, v).Dot(grad(i + 1, j));
    var dot01 := Vec(u, v - 1.0).Dot(grad(i, j + 1));
    var dot11 := Vec(u - 1.0, v - 1.0).Dot(grad(i + 1, j + 1));
    var fu, fv := Fade(u), Fade(v);
    Lerp(Lerp(dot00, dot10, fu), Lerp(dot01, dot11, fu), fv)
  }

  function Sample(grad: Gradients, x: real, y: real): real
  {
    var i, j := x.Floor, y.Floor;
    CellValue(grad, i, j, x - i as real, y - j as real)
  }

  lemma Product(a: real, b: real)
    requires a >= 0.0 && b >= 0.0
    ensures a * b >= 0.0
  {
  }

  lemma SquareNonNegative(a: real)
    ensures a * a >= 0.0
  {
  }

  // ---------- The fade curve ----------

  lemma FadeSymmetric(t: real)
    ensures Fade(1.0 - t) == 1.0 - Fade(t)
  {
    var q := t * t;
    var c := q * t;
    assert (1.0 - t) * (1.0 - t) * (1.0 - t) == 1.0 - 3.0 * t + 3.0 * q - c;
    var s := (1.0 - t) * ((1.0 - t) * 6.0 - 15.0) + 10.0;
    assert s == 6.0 * q + 3.0 * t + 1.0;
  }

  lemma FadeInRange(t: real)
    requires 0.0 <= t <= 1.0
    ensures 0.0 <= Fade(t) <= 1.0
  {
    FadeNonNegative(t);
    FadeNonNegative(1.0 - t);
    FadeSymmetric(t);
  }

  lemma FadeNonNegative(t: real)
    requires t >= 0.0
    ensures Fade(t) >= 0.0
  {
    var p := t * (t * 6.0 - 15.0) + 10.0;
    SquareNonNegative(t - 1.25);
    assert p == 6.0 * ((t - 1.25) * (t - 1.25)) + 0.625;
    Product(t, t);
    Product(t * t, t);
    Product(t * t * t, p);
  }

  /** On the first half of the cell the curve stays below the diagonal. */
  lemma FadeBelowDiagonal(u: real)
    requires 0.0 <= u <= 0.5
    ensures Fade(u) <= u
  {
    var q := u * u;
    var a, b := (1.0 - u) * (1.0 - 2.0 * u), 1.0 + 3.0 * u - 3.0 * q;
    assert a == 1.0 - 3.0 * u + 2.0 * q;
    Product(u, 1.0 - u);
    Product(1.0 - u, 1.0 - 2.0 * u);
    Product(a, b);
    Product(u, a * b);
    assert u - Fade(u) == u * (a * b);
  }

  /**
   The increment of the curve from `a` to `a + d`, with `c` what is left above, as a polynomial with
   non-negative coefficients.
   */
  function FadeIncrement(a: real, c: real, d: real): real
  {
    var sq, pr := a * a + c * c, a * c;
    d * (30.0 * (pr * pr) + d * (30.0 * (pr * (a + c)) + d * (10.0 * sq + 20.0 * pr + d * (5.0 * (a + c) + d))))
  }

  lemma ProductPlus(a: real, b: real, c: real)
    requires a >= 0.0 && b >= 0.0 && c >= 0.0
    ensures a + b * c >= 0.0
  {
    Product(b, c);
  }

  lemma Horner(p0: real, p1: real, p2: real, p3: real, d: real)
    requires p0 >= 0.0 && p1 >= 0.0 && p2 >= 0.0 && p3 >= 0.0 && d >= 0.0
    ensures d * (p0 + d * (p1 + d * (p2 + d * p3))) >= 0.0
  {
    ProductPlus(p2, d, p3);
    ProductPlus(p1, d, p2 + d * p3);
    ProductPlus(p0, d, p1 + d * (p2 + d * p3));
    Product(d, p0 + d * (p1 + d * (p2 + d * p3)));
  }

  lemma FadeIncrementNonNegative(a: real, c: real, d: real)
    requires a >= 0.0 && c >= 0.0 && d >= 0.0
    ensures FadeIncrement(a, c, d) >= 0.0
  {
    var sq, pr := a * a + c * c, a * c;
    SquareNonNegative(a);
    SquareNonNegative(c);
    Product(a, c);
    SquareNonNegative(pr);
    Product(pr, a + c);
    Horner(30.0 * (pr * pr), 30.0 * (pr * (a + c)), 10.0 * sq + 20.0 * pr, 5.0 * (a + c) + d, d);
  }

  lemma FadeIncrementExact(a: real, d: real)
    ensures Fade(a + d) - Fade(a) == FadeIncrement(a, 1.0 - a - d, d)
  {
  }

  lemma FadeMonotone(s: real, t: real)
    requires 0.0 <= s <= t <= 1.0
    ensures Fade(s) <= Fade(t)
  {
    FadeIncrementNonNegative(s, 1.0 - t, t - s);
    FadeIncrementExact(s, t - s);
  }

  /** A polynomial of degree 5, with its first and second derivatives. */
  function Quintic(a: seq<real>, t: real): real
    requires |a| == 6
  {
    a[0] + t * (a[1] + t * (a[2] + t * (a[3] + t * (a[4] + t * a[5]))))
  }

  function Slope(a: seq<real>, t: real): real
    requires |a| == 6
  {
    a[1] + t * (2.0 * a[2] + t * (3.0 * a[3] + t * (4.0 * a[4] + t * (5.0 * a[5]))))
  }

  function Bend(a: seq<real>, t: real): real
    requires |a| == 6
  {
    2.0 * a[2] + t * (6.0 * a[3] + t * (12.0 * a[4] + t * (20.0 * a[5])))
  }

  /**
   What the curve is for: of all polynomials of degree 5 it is the one that leads from 0 to 1 and has
   neither slope nor bend at either end.
   */
  lemma FadeIsTheSmoothQuintic(a: seq<real>)
    requires |a| == 6
    ensures && Quintic(a, 0.0) == 0.0 && Slope(a, 0.0) == 0.0 && Bend(a, 0.0) == 0.0
            && Quintic(a, 1.0) == 1.0 && Slope(a, 1.0) == 0.0 && Bend(a, 1.0) == 0.0
            <==> a == [0.0, 0.0, 0.0, 10.0, -15.0, 6.0]
    ensures forall t :: Fade(t) == Quintic([0.0, 0.0, 0.0, 10.0, -15.0, 6.0], t)
  {
    forall t
      ensures Fade(t) == Quintic([0.0, 0.0, 0.0, 10.0, -15.0, 6.0], t)
    {
      assert Fade(t) == t * t * t * (10.0 + t * (-15.0 + t * 6.0));
    }
  }

  /** How flat the curve is at a lattice line: it rises with the cube of the distance. */
  lemma FadeIsCubic(t: real)
    requires 0.0 <= t <= 1.0
    ensures 10.0 * t * t * t - 15.0 * t * t * t * t <= Fade(t) <= 10.0 * t * t * t
  {
    var c := t * t * t;
    Product(t, t);
    Product(t * t, t);
    Product(c, t);
    Product(c * t, t);
    Product(c * t, 15.0 - 6.0 * t);
    assert Fade(t) == 10.0 * c - 15.0 * (c * t) + 6.0 * (c * t * t);
    assert Fade(t) == 10.0 * c - (c * t) * (15.0 - 6.0 * t);
  }

  // ---------- Near a lattice point ----------

  function Abs(x: real): real
  {
    if x < 0.0 then -x else x
  }

  lemma UnitDot(d: Vec, g: Vec)
    requires Unit(g) && -1.0 <= d.x <= 1.0 && -1.0 <= d.y <= 1.0
    ensures -2.0 <= d.Dot(g) <= 2.0
  {
    CauchySchwarz(d, g);
    SquareAtMostOne(d.x);
    SquareAtMostOne(d.y);
    var z := d.Dot(g);
    if z > 2.0 {
      Product(z - 2.0, z + 2.0);
    }
    if z < -2.0 {
      Product(-z - 2.0, 2.0 - z);
    }
  }

  lemma SquareAtMostOne(x: real)
    requires -1.0 <= x <= 1.0
    ensures x * x <= 1.0
  {
    Product(1.0 - x, 1.0 + x);
  }

  lemma LerpNear(a: real, b: real, t: real)
    requires 0.0 <= t <= 1.0 && -2.0 <= a <= 2.0 && -2.0 <= b <= 2.0
    ensures -4.0 * t <= Lerp(a, b, t) - a <= 4.0 * t
    ensures -2.0 <= Lerp(a, b, t) <= 2.0
  {
    Product(t, 4.0 - (b - a));
    Product(t, 4.0 + (b - a));
    LerpMonotone(-2.0, -2.0, a, b, t);
    LerpMonotone(a, b, 2.0, 2.0, t);
  }

  /** The corner that both weights favour decides, up to the weights of the others. */
  lemma CornerDecides(a: real, b: real, c: real, d: real, s: real, t: real)
    requires 0.0 <= s <= 1.0 && 0.0 <= t <= 1.0
    requires -2.0 <= a <= 2.0 && -2.0 <= b <= 2.0 && -2.0 <= c <= 2.0 && -2.0 <= d <= 2.0
    ensures Abs(Lerp(Lerp(a, b, s), Lerp(c, d, s), t) - a) <= 4.0 * (s + t)
  {
    LerpNear(a, b, s);
    LerpNear(c, d, s);
    LerpNear(Lerp(a, b, s), Lerp(c, d, s), t);
  }

  lemma LerpSwap(a: real, b: real, t: real)
    ensures Lerp(a, b, 1.0 - t) == Lerp(b, a, t)
  {
  }

  /** Offsets of at most `r` from a corner along both axes give it all but `80 r^3` of the weight. */
  lemma CornerWeights(u: real, v: real, r: real)
    requires 0.0 <= u <= r <= 1.0 && 0.0 <= v <= r
    ensures 0.0 <= Fade(u) <= 1.0 && 0.0 <= Fade(v) <= 1.0
    ensures 4.0 * (Fade(u) + Fade(v)) <= 80.0 * (r * r * r)
  {
    FadeInRange(u);
    FadeInRange(v);
    FadeIsCubic(u);
    FadeIsCubic(v);
    CubeMonotone(u, r);
    CubeMonotone(v, r);
  }

  lemma CubeMonotone(u: real, r: real)
    requires 0.0 <= u <= r
    ensures u * u * u <= r * r * r
  {
    Product(r - u, u);
    Product(r - u, r);
    Product(u * u, r - u);
    Product(r * r - u * u, r);
  }

  // ---------- The bound ----------

  lemma LerpSquare(a: real, b: real, t: real)
    requires 0.0 <= t <= 1.0
    ensures Lerp(a, b, t) * Lerp(a, b, t) <= Lerp(a * a, b * b, t)
  {
    var m := a - b;
    assert Lerp(a * a, b * b, t) - Lerp(a, b, t) * Lerp(a, b, t) == t * (1.0 - t) * (m * m);
    SquareNonNegative(m);
    Product(t, 1.0 - t);
    Product(t * (1.0 - t), m * m);
  }

  lemma LerpMonotone(a: real, b: real, a': real, b': real, t: real)
    requires 0.0 <= t <= 1.0 && a <= a' && b <= b'
    ensures Lerp(a, b, t) <= Lerp(a', b', t)
  {
    Product(1.0 - t, a' - a);
    Product(t, b' - b);
    assert Lerp(a', b', t) - Lerp(a, b, t) == (1.0 - t) * (a' - a) + t * (b' - b);
  }

  /** Jensen's inequality for one interpolation. */
  lemma LerpSquareBound(a: real, b: real, a': real, b': real, t: real)
    requires 0.0 <= t <= 1.0 && a * a <= a' && b * b <= b'
    ensures Lerp(a, b, t) * Lerp(a, b, t) <= Lerp(a', b', t)
  {
    LerpSquare(a, b, t);
    LerpMonotone(a * a, b * b, a', b', t);
  }

  lemma CauchySchwarz(d: Vec, g: Vec)
    requires Unit(g)
    ensures d.Dot(g) * d.Dot(g) <= d.Dot(d)
  {
    var x := d.x * g.y - d.y * g.x;
    assert d.Dot(d) * (g.x * g.x + g.y * g.y) == d.Dot(g) * d.Dot(g) + x * x;
    assert x * x >= 0.0;
  }

  /** Squared distance to the two nearest lattice lines, weighted by the fade. */
  function Spread(u: real): real
  {
    Lerp(u * u, (1.0 - u) * (1.0 - u), Fade(u))
  }

  lemma SpreadLowHalf(u: real)
    requires 0.0 <= u <= 0.5
    ensures Spread(u) <= 0.25
  {
    FadeBelowDiagonal(u);
    var f, k := Fade(u), 1.0 - 2.0 * u;
    assert (1.0 - u) * (1.0 - u) - u * u == k;
    assert f * k <= u * k;
    assert u * u + u * k == 0.25 - (0.5 - u) * (0.5 - u);
    assert (0.5 - u) * (0.5 - u) >= 0.0;
  }

  lemma SpreadBound(u: real)
    requires 0.0 <= u <= 1.0
    ensures Spread(u) <= 0.25
  {
    if u <= 0.5 {
      SpreadLowHalf(u);
    } else {
      SpreadLowHalf(1.0 - u);
      FadeSymmetric(u);
      var a, b, f := u * u, (1.0 - u) * (1.0 - u), Fade(u);
      assert Lerp(b, a, 1.0 - f) == Lerp(a, b, f);
    }
  }

  /** Interpolating the squared corner distances separates into the two axes. */
  lemma DistancesSeparate(p: real, p': real, q: real, q': real, s: real, t: real)
    ensures Lerp(Lerp(p + q, p' + q, s), Lerp(p + q', p' + q', s), t) == Lerp(p, p', s) + Lerp(q, q', t)
  {
    assert Lerp(p + q, p' + q, s) == Lerp(p, p', s) + q;
    assert Lerp(p + q', p' + q', s) == Lerp(p, p', s) + q';
  }

  lemma CellBound(grad: Gradients, i: int, j: int, u: real, v: real)
    requires AllUnit(grad) && 0.0 <= u <= 1.0 && 0.0 <= v <= 1.0
    ensures CellValue(grad, i, j, u, v) * CellValue(grad, i, j, u, v) <= 0.5
  {
    var d00, d10, d01, d11 := Vec(u, v), Vec(u - 1.0, v), Vec(u, v - 1.0), Vec(u - 1.0, v - 1.0);
    var g00, g10, g01, g11 := grad(i, j), grad(i + 1, j), grad(i, j + 1), grad(i + 1, j + 1);
    CauchySchwarz(d00, g00);
    CauchySchwarz(d10, g10);
    CauchySchwarz(d01, g01);
    CauchySchwarz(d11, g11);
    FadeInRange(u);
    FadeInRange(v);
    BilinearOfDots(d00.Dot(g00), d10.Dot(g10), d01.Dot(g01), d11.Dot(g11),
                   d00.Dot(d00), d10.Dot(d10), d01.Dot(d01), d11.Dot(d11), Fade(u), Fade(v));
    CornerDistances(u, v, Fade(u), Fade(v));
    SpreadBound(u);
    SpreadBound(v);
  }

  lemma BilinearOfDots(a: real, b: real, c: real, d: real, a': real, b': real, c': real, d': real, s: real, t: real)
    requires 0.0 <= s <= 1.0 && 0.0 <= t <= 1.0
    requires a * a <= a' && b * b <= b' && c * c <= c' && d * d <= d'
    ensures var z := Lerp(Lerp(a, b, s), Lerp(c, d, s), t);
            z * z <= Lerp(Lerp(a', b', s), Lerp(c', d', s), t)
  {
    LerpSquareBound(a, b, a', b', s);
    LerpSquareBound(c, d, c', d', s);
    LerpSquareBound(Lerp(a, b, s), Lerp(c, d, s), Lerp(a', b', s), Lerp(c', d', s), t);
  }

  lemma CornerDistances(u: real, v: real, s: real, t: real)
    ensures var d00, d10, d01, d11 := Vec(u, v), Vec(u - 1.0, v), Vec(u, v - 1.0), Vec(u - 1.0, v - 1.0);
            Lerp(Lerp(d00.Dot(d00), d10.Dot(d10), s), Lerp(d01.Dot(d01), d11.Dot(d11), s), t)
            == Lerp(u * u, (1.0 - u) * (1.0 - u), s) + Lerp(v * v, (1.0 - v) * (1.0 - v), t)
  {
    var p, p', q, q' := u * u, (1.0 - u) * (1.0 - u), v * v, (1.0 - v) * (1.0 - v);
    assert Vec(u, v).Dot(Vec(u, v)) == p + q;
    assert Vec(u - 1.0, v).Dot(Vec(u - 1.0, v)) == p' + q;
    assert Vec(u, v - 1.0).Dot(Vec(u, v - 1.0)) == p + q';
    assert Vec(u - 1.0, v - 1.0).Dot(Vec(u - 1.0, v - 1.0)) == p' + q';
    DistancesSeparate(p, p', q, q', s, t);
  }

  /** At every point and for every choice of unit gradients: sample squared is at most one half. */
  lemma SampleBound(grad: Gradients, x: real, y: real)
    requires AllUnit(grad)
    ensures Sample(grad, x, y) * Sample(grad, x, y) <= 0.5
    ensures -1.0 <= Sample(grad, x, y) <= 1.0
  {
    var i, j := x.Floor, y.Floor;
    CellBound(grad, i, j, x - i as real, y - j as real);
    WithinOne(Sample(grad, x, y));
  }

  lemma WithinOne(z: real)
    requires z * z <= 0.5
    ensures -1.0 <= z <= 1.0
  {
    if z > 1.0 {
      Product(z - 1.0, z);
    }
    if z < -1.0 {
      Product(-1.0 - z, -z);
    }
  }

  /** Gradients pointing at the centre of one cell from its four corners. */
  function Inward(r: real): Gradients
  {
    (i, j) => Vec(if i <= 0 then r else -r, if j <= 0 then r else -r)
  }

  /** The bound cannot be improved. */
  lemma BoundIsAttained(r: real)
    requires r * r == 0.5
    ensures AllUnit(Inward(r))
    ensures Sample(Inward(r), 0.5, 0.5) * Sample(Inward(r), 0.5, 0.5) == 0.5
  {
    InwardUnit(r);
    SampleAtCentre(Inward(r));
    InwardCentre(r);
  }

  lemma InwardUnit(r: real)
    requires r * r == 0.5
    ensures AllUnit(Inward(r))
  {
    assert (-r) * (-r) == r * r;
  }

  lemma SampleAtCentre(grad: Gradients)
    ensures Sample(grad, 0.5, 0.5) == CellValue(grad, 0, 0, 0.5, 0.5)
  {
    assert 0.5.Floor == 0;
  }

  lemma InwardCentre(r: real)
    ensures CellValue(Inward(r), 0, 0, 0.5, 0.5) == r
  {
    var g, f := Inward(r), Fade(0.5);
    assert Vec(0.5, 0.5).Dot(g(0, 0)) == r && Vec(-0.5, 0.5).Dot(g(1, 0)) == r;
    assert Vec(0.5, -0.5).Dot(g(0, 1)) == r && Vec(-0.5, -0.5).Dot(g(1, 1)) == r;
    LerpSame(r, f);
  }

  lemma LerpSame(a: real, t: real)
    ensures Lerp(a, a, t) == a
  {
  }

  // ---------- Seams ----------

  lemma LerpEnds(a: real, b: real)
    ensures Lerp(a, b, Fade(0.0)) == a && Lerp(a, b, Fade(1.0)) == b
  {
    assert Fade(0.0) == 0.0 && Fade(1.0) == 1.0;
  }

  /** Horizontally neighbouring cells agree on their shared vertical edge. */
  lemma VerticalSeam(grad: Gradients, i: int, j: int, v: real)
    ensures CellValue(grad, i, j, 1.0, v) == CellValue(grad, i + 1, j, 0.0, v)
  {
    var a, b := Vec(1.0, v).Dot(grad(i, j)), Vec(0.0, v).Dot(grad(i + 1, j));
    var c, d := Vec(1.0, v - 1.0).Dot(grad(i, j + 1)), Vec(0.0, v - 1.0).Dot(grad(i + 1, j + 1));
    LerpEnds(a, b);
    LerpEnds(c, d);
    LerpEnds(b, Vec(0.0 - 1.0, v).Dot(grad(i + 2, j)));
    LerpEnds(d, Vec(0.0 - 1.0, v - 1.0).Dot(grad(i + 2, j + 1)));
  }

  /** Vertically neighbouring cells agree on their shared horizontal edge. */
  lemma HorizontalSeam(grad: Gradients, i: int, j: int, u: real)
    ensures CellValue(grad, i, j, u, 1.0) == CellValue(grad, i, j + 1, u, 0.0)
  {
    var f := Fade(u);
    var lo := Lerp(Vec(u, 1.0).Dot(grad(i, j)), Vec(u - 1.0, 1.0).Dot(grad(i + 1, j)), f);
    var mid := Lerp(Vec(u, 0.0).Dot(grad(i, j + 1)), Vec(u - 1.0, 0.0).Dot(grad(i + 1, j + 1)), f);
    var hi := Lerp(Vec(u, 0.0 - 1.0).Dot(grad(i, j + 2)), Vec(u - 1.0, 0.0 - 1.0).Dot(grad(i + 1, j + 2)), f);
    LerpEnds(lo, mid);
    LerpEnds(mid, hi);
  }

  /**
   No seams: at every point of a closed cell, edges and corners included, `sample` is the value of
   that cell's interpolant, so all cells meeting at a point agree there.
   */
  lemma SampleOnClosedCell(grad: Gradients, i: int, j: int, x: real, y: real)
    requires i as real <= x <= (i + 1) as real && j as real <= y <= (j + 1) as real
    ensures Sample(grad, x, y) == CellValue(grad, i, j, x - i as real, y - j as real)
  {
    assert x.Floor == if x < (i + 1) as real then i else i + 1;
    assert y.Floor == if y < (j + 1) as real then j else j + 1;
    if x == (i + 1) as real {
      VerticalSeam(grad, i, y.Floor, y - y.Floor as real);
    }
    if y == (j + 1) as real {
      HorizontalSeam(grad, i, j, x - i as real);
    }
  }

  lemma ZeroOnLattice(grad: Gradients, i: int, j: int)
    ensures Sample(grad, i as real, j as real) == 0.0
  {
    assert (i as real).Floor == i && (j as real).Floor == j;
    var g := grad(i, j);
    assert Vec(0.0, 0.0).Dot(g) == 0.0;
    var b := Vec(0.0 - 1.0, 0.0).Dot(grad(i + 1, j));
    var hi := Lerp(Vec(0.0, 0.0 - 1.0).Dot(grad(i, j + 1)),
                   Vec(0.0 - 1.0, 0.0 - 1.0).Dot(grad(i + 1, j + 1)), Fade(0.0));
    LerpEnds(0.0, b);
    LerpEnds(0.0, hi);
  }

  // ---------- Near a lattice point, on the noise ----------

  predicate Within(x: real, i: int, r: real)
  {
    Abs(x - i as real) <= r
  }

  /** The corner `(i, j)` of any of the four cells around it, at distance `(u, v)` into that cell. */
  lemma CornerOfCell(grad: Gradients, i: int, j: int, left: bool, below: bool, u: real, v: real, r: real)
    requires AllUnit(grad) && 0.0 <= u <= r <= 1.0 && 0.0 <= v <= r
    ensures var dx, dy := if left then -u else u, if below then -v else v;
            var ci, cj := if left then i - 1 else i, if below then j - 1 else j;
            var cu, cv := if left then 1.0 - u else u, if below then 1.0 - v else v;
            Abs(CellValue(grad, ci, cj, cu, cv) - Vec(dx, dy).Dot(grad(i, j))) <= 80.0 * (r * r * r)
  {
    var ci, cj := if left then i - 1 else i, if below then j - 1 else j;
    var cu, cv := if left then 1.0 - u else u, if below then 1.0 - v else v;
    var a, b := Vec(cu, cv).Dot(grad(ci, cj)), Vec(cu - 1.0, cv).Dot(grad(ci + 1, cj));
    var c, d := Vec(cu, cv - 1.0).Dot(grad(ci, cj + 1)), Vec(cu - 1.0, cv - 1.0).Dot(grad(ci + 1, cj + 1));
    CornerWeights(u, v, r);
    FadeSymmetric(u);
    FadeSymmetric(v);
    UnitDot(Vec(cu, cv), grad(ci, cj));
    UnitDot(Vec(cu - 1.0, cv), grad(ci + 1, cj));
    UnitDot(Vec(cu, cv - 1.0), grad(ci, cj + 1));
    UnitDot(Vec(cu - 1.0, cv - 1.0), grad(ci + 1, cj + 1));
    FourCorners(a, b, c, d, left, below, Fade(u), Fade(v));
  }

  lemma FourCorners(a: real, b: real, c: real, d: real, left: bool, below: bool, s: real, t: real)
    requires 0.0 <= s <= 1.0 && 0.0 <= t <= 1.0
    requires -2.0 <= a <= 2.0 && -2.0 <= b <= 2.0 && -2.0 <= c <= 2.0 && -2.0 <= d <= 2.0
    ensures var s', t' := if left then 1.0 - s else s, if below then 1.0 - t else t;
            var corner := if below then (if left then d else c) else (if left then b else a);
            Abs(Lerp(Lerp(a, b, s'), Lerp(c, d, s'), t') - corner) <= 4.0 * (s + t)
  {
    var (p, q) := if left then (Lerp(b, a, s), Lerp(d, c, s)) else (Lerp(a, b, s), Lerp(c, d, s));
    LerpSwap(a, b, s);
    LerpSwap(c, d, s);
    LerpSwap(p, q, t);
    if left {
      if below {
        CornerDecides(d, c, b, a, s, t);
      } else {
        CornerDecides(b, a, d, c, s, t);
      }
    } else if below {
      CornerDecides(c, d, a, b, s, t);
    } else {
      CornerDecides(a, b, c, d, s, t);
    }
  }

  /**
   Near a lattice point the noise is that point's own gradient: within `r` of it along both axes, on
   whichever side, `sample` differs from the offset times the gradient by at most `80 r^3`.
   */
  lemma SampleNearLattice(grad: Gradients, i: int, j: int, x: real, y: real, r: real)
    requires AllUnit(grad) && r <= 1.0 && Within(x, i, r) && Within(y, j, r)
    ensures Abs(Sample(grad, x, y) - Vec(x - i as real, y - j as real).Dot(grad(i, j))) <= 80.0 * (r * r * r)
  {
    var left, below := x < i as real, y < j as real;
    CornerOfCell(grad, i, j, left, below, Abs(x - i as real), Abs(y - j as real), r);
    SampleOnClosedCell(grad, if left then i - 1 else i, if below then j - 1 else j, x, y);
  }

  // ---------- The coordinate key ----------

  /** What `Random2DCoordinateGenerator` feeds to the seeded hash. */
  function Key(x: int, y: int): int
  {
    x * 7 - y * 13
  }

  /** Gradients chosen through the generator: a function of the key alone. */
  function Keyed(direction: int -> Vec): Gradients
  {
    (i, j) => direction(Key(i, j))
  }

  /** The key is additive, these are the keys of the two axes, and gradients are looked up by it. */
  lemma KeyLinear(direction: int -> Vec, x: int, y: int, x': int, y': int)
    ensures Key(x + x', y + y') == Key(x, y) + Key(x', y')
    ensures Key(1, 0) == 7 && Key(0, 1) == -13
    ensures Keyed(direction)(x, y) == direction(7 * x - 13 * y)
  {
  }

  /** Two points share a key exactly when they differ by a multiple of (13, 7). */
  lemma KeyCollision(x: int, y: int, x': int, y': int)
    ensures Key(x, y) == Key(x', y') <==> exists k: int :: x' == x + 13 * k && y' == y + 7 * k
  {
    if Key(x, y) == Key(x', y') {
      var k := 2 * (y' - y) - (x' - x);
      assert x' == x + 13 * k && y' == y + 7 * k;
    }
  }

  lemma KeyShift(i: int, j: int, k: int)
    ensures Key(i + 13 * k, j + 7 * k) == Key(i, j)
  {
  }

  /** So the noise repeats: it has period (13, 7), for every choice of directions. */
  lemma SampleRepeats(direction: int -> Vec, x: real, y: real, k: int)
    ensures Sample(Keyed(direction), x + (13 * k) as real, y + (7 * k) as real)
         == Sample(Keyed(direction), x, y)
  {
    var i, j := x.Floor, y.Floor;
    var x', y' := x + (13 * k) as real, y + (7 * k) as real;
    assert x'.Floor == i + 13 * k && y'.Floor == j + 7 * k;
    assert x' - x'.Floor as real == x - i as real;
    assert y' - y'.Floor as real == y - j as real;
    KeyShift(i, j, k);
    KeyShift(i + 1, j, k);
    KeyShift(i, j + 1, k);
    KeyShift(i + 1, j + 1, k);
  }
}
