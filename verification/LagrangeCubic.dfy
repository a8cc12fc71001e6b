/** The cubic tone curve through four control points, over exact reals. */
module LagrangeCubic {
  import opened ToneTable

  datatype Knot = Knot(x: real, y: real)

  type Knots = s: seq<Knot> | |s| == 4 witness [Knot(0.0, 0.0), Knot(1.0, 0.0), Knot(2.0, 0.0), Knot(3.0, 0.0)]

  predicate DistinctX(ps: Knots) {
    forall i, j :: 0 <= i < j < 4 ==> ps[i].x != ps[j].x
  }

  /** What one pass of the inner loop does to the running fraction. */
  function Scaled(f: real, t: real, a: real, b: real): real
    requires a != b
  {
    f * (t - b) / (a - b)
  }

  /** The j-th fraction after its first k factors. */
  function Fraction(ps: Knots, j: nat, t: real, k: nat): real
    requires DistinctX(ps) && j < 4 && k <= 4
  {
    if k == 0 then ps[j].y
    else if k - 1 == j then Fraction(ps, j, t, k - 1)
    else Scaled(Fraction(ps, j, t, k - 1), t, ps[j].x, ps[k - 1].x)
  }

  function Sum(ps: Knots, t: real, n: nat): real
    requires DistinctX(ps) && n <= 4
  {
    if n == 0 then 0.0 else Sum(ps, t, n - 1) + Fraction(ps, n - 1, t, 4)
  }

  function Lagrange(ps: Knots, t: real): real
    requires DistinctX(ps)
  {
    Sum(ps, t, 4)
  }

  /** The double loop for one table entry. */
  method Interpolate(ps: Knots, t: real) returns (result: real)
    requires DistinctX(ps)
    ensures result == Lagrange(ps, t)
  {
    result := 0.0;
    for j := 0 to 4
      invariant result == Sum(ps, t, j)
    {
      var fraction := ps[j].y;
      for k := 0 to 4
        invariant fraction == Fraction(ps, j, t, k)
      {
        if k != j {
          fraction := Scaled(fraction, t, ps[j].x, ps[k].x);
        }
      }
      result := result + fraction;
    }
  }

  method CubicCurve(colorMap: array<int>, ps: Knots)
    requires colorMap.Length == 256 && DistinctX(ps)
    modifies colorMap
    ensures forall i :: 0 <= i < 256 ==> colorMap[i] == Truncated(Lagrange(ps, i as real / 255.0) * 255.0)
    ensures forall p: Cubic, i :: Through(p, ps) && 0 <= i < 256 ==>
              DropsFraction(255.0 * p.At(i as real / 255.0), colorMap[i])
  {
    for i := 0 to 256
      invariant forall k :: 0 <= k < i ==> colorMap[k] == Truncated(Lagrange(ps, k as real / 255.0) * 255.0)
    {
      var result := Interpolate(ps, i as real / 255.0);
      colorMap[i] := Truncated(result * 255.0);
    }
    forall p: Cubic, i | Through(p, ps) && 0 <= i < 256
      ensures DropsFraction(255.0 * p.At(i as real / 255.0), colorMap[i])
    {
      TableFollowsCubic(ps, p, colorMap[..], i);
    }
  }

  // ----- polynomials, in Horner form

  datatype Linear = Linear(c0: real, c1: real) {
    function At(s: real): real { c0 + s * c1 }
  }

  datatype Quadratic = Quadratic(c0: real, rest: Linear) {
    function At(s: real): real { c0 + s * rest.At(s) }
  }

  /** c0 + c1 s + c2 s^2 + c3 s^3 */
  datatype Cubic = Cubic(c0: real, rest: Quadratic) {
    function At(s: real): real { c0 + s * rest.At(s) }
  }

  predicate Through(p: Cubic, ps: Knots) {
    forall i :: 0 <= i < 4 ==> p.At(ps[i].x) == ps[i].y
  }

  /** One factor: 1 at t == a, 0 at t == b. */
  function U(t: real, a: real, b: real): real
    requires a != b
  {
    (t - b) / (a - b)
  }

  lemma UFacts(t: real, a: real, b: real)
    requires a != b
    ensures U(t, a, b) + U(t, b, a) == 1.0
    ensures (a - b) * U(t, a, b) == t - b
  {
    var u, v := U(t, a, b), U(t, b, a);
    assert u * (a - b) == t - b && v * (b - a) == t - a;
    assert (u + v) * (a - b) == a - b;
    CancelFactor(u + v, 1.0, a - b);
  }

  lemma CancelFactor(x: real, y: real, d: real)
    requires d != 0.0 && x * d == y * d
    ensures x == y
  {
    assert x == x * d / d;
  }

  /** The step behind Neville's scheme. */
  lemma Neville(t: real, a: real, b: real, c: real)
    requires a != b && b != c && a != c
    ensures U(t, b, a) * U(t, b, c) == U(t, c, a) * U(t, b, c) + U(t, a, c) * U(t, b, a)
  {
    var p, q, r := U(t, b, a), U(t, b, c), U(t, a, c);
    UFacts(t, b, a);
    UFacts(t, b, c);
    UFacts(t, a, c);
    // p*q - (1 - r)*q - r*p vanishes once multiplied by the three differences
    var x := p * q - (1.0 - r) * q - r * p;
    var d, e, f := b - a, b - c, a - c;
    ClearDenominators(p, q, r, d, e, f);
    var n := (t - a) * (t - c) * f - (f - (t - c)) * (t - c) * d - (t - c) * (t - a) * e;
    assert x * (d * e * f) == n;
    assert n == 0.0;
    assert d * e != 0.0 && d * e * f != 0.0;
    CancelFactor(x, 0.0, d * e * f);
  }

  lemma ClearDenominators(p: real, q: real, r: real, d: real, e: real, f: real)
    ensures (p * q - (1.0 - r) * q - r * p) * (d * e * f)
            == (d * p) * (e * q) * f - (f - f * r) * (e * q) * d - (f * r) * (d * p) * e
  {
  }

  function Weights3(t: real, a: real, b: real, c: real): real
    requires a != b && b != c && a != c
  {
    Basis3(t, a, b, c) + Basis3(t, b, a, c) + Basis3(t, c, a, b)
  }

  function Weights4(t: real, a: real, b: real, c: real, d: real): real
    requires a != b && a != c && a != d && b != c && b != d && c != d
  {
    Basis(t, a, b, c, d) + Basis(t, b, a, c, d) + Basis(t, c, a, b, d) + Basis(t, d, a, b, c)
  }

  lemma Weights3IsOne(t: real, a: real, b: real, c: real)
    requires a != b && b != c && a != c
    ensures Weights3(t, a, b, c) == 1.0
  {
    var ab, ba, ac, ca, bc, cb := U(t, a, b), U(t, b, a), U(t, a, c), U(t, c, a), U(t, b, c), U(t, c, b);
    UFacts(t, a, b);
    UFacts(t, b, c);
    UFacts(t, a, c);
    Neville(t, a, b, c);
    // ba*bc == ca*bc + ac*ba, so the sum is ac*(ab + ba) + ca*(bc + cb)
    assert ab * ac + ba * bc + ca * cb == ac * (ab + ba) + ca * (bc + cb);
  }

  lemma Weights4IsOne(t: real, a: real, b: real, c: real, d: real)
    requires a != b && a != c && a != d && b != c && b != d && c != d
    ensures Weights4(t, a, b, c, d) == 1.0
  {
    var ab, ac, ad := U(t, a, b), U(t, a, c), U(t, a, d);
    var ba, bc, bd := U(t, b, a), U(t, b, c), U(t, b, d);
    var ca, cb, cd := U(t, c, a), U(t, c, b), U(t, c, d);
    var da, db, dc := U(t, d, a), U(t, d, b), U(t, d, c);
    Neville(t, a, b, d);
    Neville(t, a, c, d);
    Weights3IsOne(t, a, b, c);
    Weights3IsOne(t, b, c, d);
    UFacts(t, a, d);
    WeightsRegroup(ab, ac, ad, ba, bc, bd, ca, cb, cd, da, db, dc);
  }

  /** Four weights are the two triples, weighted by the outer pair. */
  lemma WeightsRegroup(ab: real, ac: real, ad: real, ba: real, bc: real, bd: real,
                       ca: real, cb: real, cd: real, da: real, db: real, dc: real)
    requires ba * bd == da * bd + ad * ba && ca * cd == da * cd + ad * ca
    ensures ab * ac * ad + ba * bc * bd + ca * cb * cd + da * db * dc
            == ad * (ab * ac + ba * bc + ca * cb) + da * (bc * bd + cb * cd + db * dc)
  {
    assert ba * bc * bd == bc * (ba * bd) == bc * (da * bd) + bc * (ad * ba);
    assert ca * cb * cd == cb * (ca * cd) == cb * (da * cd) + cb * (ad * ca);
  }

  // ----- the loop's value in terms of the factors

  lemma Scaled3(y: real, t: real, a: real, b: real, c: real, d: real)
    requires a != b && a != c && a != d
    ensures Scaled(Scaled(Scaled(y, t, a, b), t, a, c), t, a, d) == y * Basis(t, a, b, c, d)
  {
    var f1 := Scaled(y, t, a, b);
    var f2 := Scaled(f1, t, a, c);
    ScaledOnce(y, t, a, b);
    ScaledOnce(f1, t, a, c);
    ScaledOnce(f2, t, a, d);
    Nested(y, U(t, a, b), U(t, a, c), U(t, a, d), f1, f2, Scaled(f2, t, a, d));
  }

  lemma ScaledOnce(f: real, t: real, a: real, b: real)
    requires a != b
    ensures Scaled(f, t, a, b) == f * U(t, a, b)
  {
  }

  lemma Nested(y: real, u: real, v: real, w: real, f1: real, f2: real, f3: real)
    requires f1 == y * u && f2 == f1 * v && f3 == f2 * w
    ensures f3 == y * (u * v * w)
  {
    assert f2 == y * (u * v);
    assert f3 == (y * (u * v)) * w;
  }

  /** Factors of the four basis polynomials. */
  function Basis(t: real, a: real, b: real, c: real, d: real): real
    requires a != b && a != c && a != d
  {
    U(t, a, b) * U(t, a, c) * U(t, a, d)
  }

  function Weighted(t: real, a: Knot, b: Knot, c: Knot, d: Knot): real
    requires DistinctX([a, b, c, d])
  {
    DistinctFour(a, b, c, d);
    a.y * Basis(t, a.x, b.x, c.x, d.x) + b.y * Basis(t, b.x, a.x, c.x, d.x)
    + c.y * Basis(t, c.x, a.x, b.x, d.x) + d.y * Basis(t, d.x, a.x, b.x, c.x)
  }

  lemma DistinctFour(a: Knot, b: Knot, c: Knot, d: Knot)
    requires DistinctX([a, b, c, d])
    ensures a.x != b.x && a.x != c.x && a.x != d.x && b.x != c.x && b.x != d.x && c.x != d.x
  {
    var ps := [a, b, c, d];
    assert ps[0].x != ps[1].x && ps[0].x != ps[2].x && ps[0].x != ps[3].x;
    assert ps[1].x != ps[2].x && ps[1].x != ps[3].x && ps[2].x != ps[3].x;
  }

  /** The inner loop, unrolled: fraction j skips its own factor. */
  lemma FractionUnrolled(a: Knot, b: Knot, c: Knot, d: Knot, t: real)
    requires DistinctX([a, b, c, d])
    ensures a.x != b.x && a.x != c.x && a.x != d.x && b.x != c.x && b.x != d.x && c.x != d.x
    ensures var ps := [a, b, c, d];
            && Fraction(ps, 0, t, 4) == Scaled(Scaled(Scaled(a.y, t, a.x, b.x), t, a.x, c.x), t, a.x, d.x)
            && Fraction(ps, 1, t, 4) == Scaled(Scaled(Scaled(b.y, t, b.x, a.x), t, b.x, c.x), t, b.x, d.x)
            && Fraction(ps, 2, t, 4) == Scaled(Scaled(Scaled(c.y, t, c.x, a.x), t, c.x, b.x), t, c.x, d.x)
            && Fraction(ps, 3, t, 4) == Scaled(Scaled(Scaled(d.y, t, d.x, a.x), t, d.x, b.x), t, d.x, c.x)
  {
    var ps := [a, b, c, d];
    DistinctFour(a, b, c, d);
    forall j | 0 <= j < 4
      ensures Fraction(ps, j, t, 1) == if j == 0 then ps[0].y else Scaled(ps[j].y, t, ps[j].x, a.x)
      ensures Fraction(ps, j, t, 2) ==
              if j == 1 then Fraction(ps, j, t, 1) else Scaled(Fraction(ps, j, t, 1), t, ps[j].x, b.x)
      ensures Fraction(ps, j, t, 3) ==
              if j == 2 then Fraction(ps, j, t, 2) else Scaled(Fraction(ps, j, t, 2), t, ps[j].x, c.x)
    {
      assert Fraction(ps, j, t, 0) == ps[j].y;
    }
  }

  /** The double loop computes the weighted sum of the basis polynomials. */
  lemma LagrangeIsWeighted(a: Knot, b: Knot, c: Knot, d: Knot, t: real)
    requires DistinctX([a, b, c, d])
    ensures Lagrange([a, b, c, d], t) == Weighted(t, a, b, c, d)
  {
    var ps := [a, b, c, d];
    FractionUnrolled(a, b, c, d, t);
    Scaled3(a.y, t, a.x, b.x, c.x, d.x);
    Scaled3(b.y, t, b.x, a.x, c.x, d.x);
    Scaled3(c.y, t, c.x, a.x, b.x, d.x);
    Scaled3(d.y, t, d.x, a.x, b.x, c.x);
    assert Sum(ps, t, 1) == 0.0 + Fraction(ps, 0, t, 4);
    assert Sum(ps, t, 2) == Sum(ps, t, 1) + Fraction(ps, 1, t, 4);
    assert Sum(ps, t, 3) == Sum(ps, t, 2) + Fraction(ps, 2, t, 4);
  }

  // ----- interpolation at two and three nodes, and the step between them

  function Weighted2(t: real, a: Knot, b: Knot): real
    requires a.x != b.x
  {
    a.y * U(t, a.x, b.x) + b.y * U(t, b.x, a.x)
  }

  function Weighted3(t: real, a: Knot, b: Knot, c: Knot): real
    requires a.x != b.x && a.x != c.x && b.x != c.x
  {
    a.y * Basis3(t, a.x, b.x, c.x) + b.y * Basis3(t, b.x, a.x, c.x) + c.y * Basis3(t, c.x, a.x, b.x)
  }

  function Basis3(t: real, a: real, b: real, c: real): real
    requires a != b && a != c
  {
    U(t, a, b) * U(t, a, c)
  }

  lemma Substitute(m: real, x: real, y: real)
    requires x == y
    ensures m * x == m * y
  {
  }

  lemma Chain(x: real, y: real, m: real, w: real, z: real, r: real)
    requires x == y + m * w && w == z && r == y + m * z
    ensures x == r
  {
  }

  /** y w, when y is n + k g and k w is m v. */
  lemma PeelTerm(y: real, n: real, k: real, g: real, w: real, m: real, v: real)
    requires y == n + k * g && k * w == m * v
    ensures y * w == n * w + m * (g * v)
  {
    Substitute(w, y, n + k * g);
    assert w * (n + k * g) == n * w + g * (k * w);
    Substitute(g, k * w, m * v);
    assert g * (m * v) == m * (g * v);
  }

  /** The factor that vanishes at b cancels against the distance to b. */
  lemma PullOut(t: real, a: real, b: real, x: real, k: real, m: real)
    requires a != b && k == a - b && m == t - b
    ensures k * (U(t, a, b) * x) == m * x
  {
    UFacts(t, a, b);
    Substitute(x, k * U(t, a, b), m);
    Regroup3(k, U(t, a, b), x);
  }

  lemma Regroup3(u: real, v: real, w: real)
    ensures u * v * w == u * (v * w)
  {
  }

  /** Adds up the node terms: the weights of n sum to one, the rest is m times s. */
  lemma SumUp(n: real, m: real, wa: real, wb: real, wc: real, wd: real, x: real, y: real, z: real, s: real,
              pb: real, pc: real, pd: real)
    requires wa + wb + wc + wd == 1.0 && s == x + y + z
    requires pb == n * wb + m * x && pc == n * wc + m * y && pd == n * wd + m * z
    ensures n * wa + pb + pc + pd == n + m * s
  {
    assert n * wa + n * wb + n * wc + n * wd == n * (wa + wb + wc + wd);
    assert m * x + m * y + m * z == m * (x + y + z);
  }

  /** The node terms added up: the value n at a, plus (t - a) times the interpolation of g at b, c, d. */
  lemma PeelNodes(t: real, a: real, b: real, c: real, d: real, n: real, yb: real, yc: real, yd: real,
                  gb: real, gc: real, gd: real, m: real, kb: real, kc: real, kd: real, s: real)
    requires a != b && a != c && a != d && b != c && b != d && c != d
    requires m == t - a && kb == b - a && kc == c - a && kd == d - a
    requires yb == n + kb * gb && yc == n + kc * gc && yd == n + kd * gd
    requires s == gb * Basis3(t, b, c, d) + gc * Basis3(t, c, b, d) + gd * Basis3(t, d, b, c)
    ensures n * Basis(t, a, b, c, d) + yb * Basis(t, b, a, c, d) + yc * Basis(t, c, a, b, d) + yd * Basis(t, d, a, b, c)
            == n + m * s
  {
    Weights4IsOne(t, a, b, c, d);
    var wa, wb, wc, wd := Basis(t, a, b, c, d), Basis(t, b, a, c, d), Basis(t, c, a, b, d), Basis(t, d, a, b, c);
    var x, y, z := gb * Basis3(t, b, c, d), gc * Basis3(t, c, b, d), gd * Basis3(t, d, b, c);
    var pb := PeelNode(t, a, b, c, d, yb, n, gb, m, kb, x, wb);
    var pc := PeelNode(t, a, c, b, d, yc, n, gc, m, kc, y, wc);
    var pd := PeelNode(t, a, d, b, c, yd, n, gd, m, kd, z, wd);
    SumUp(n, m, wa, wb, wc, wd, x, y, z, s, pb, pc, pd);
  }

  /** If the values at b, c, d exceed the value at a by (x - a) times g, interpolating them is interpolating g at
      b, c, d, times (t - a), plus the value at a. The distances are passed by name. */
  lemma Peel4(t: real, a: Knot, b: Knot, c: Knot, d: Knot, gb: real, gc: real, gd: real,
              m: real, kb: real, kc: real, kd: real)
    requires DistinctX([a, b, c, d]) && m == t - a.x && kb == b.x - a.x && kc == c.x - a.x && kd == d.x - a.x
    requires b.y == a.y + kb * gb && c.y == a.y + kc * gc && d.y == a.y + kd * gd
    ensures b.x != c.x && b.x != d.x && c.x != d.x
    ensures Weighted(t, a, b, c, d) == a.y + m * Weighted3(t, Knot(b.x, gb), Knot(c.x, gc), Knot(d.x, gd))
  {
    DistinctFour(a, b, c, d);
    PeelNodes(t, a.x, b.x, c.x, d.x, a.y, b.y, c.y, d.y, gb, gc, gd, m, kb, kc, kd,
              Weighted3(t, Knot(b.x, gb), Knot(c.x, gc), Knot(d.x, gd)));
  }

  lemma PeelNode(t: real, a: real, x: real, u: real, v: real, y: real, n: real, g: real, m: real, k: real, z: real,
                 w: real)
    returns (p: real)
    requires x != a && x != u && x != v && m == t - a && k == x - a && y == n + k * g && z == g * Basis3(t, x, u, v)
    requires w == Basis(t, x, a, u, v)
    ensures p == y * Basis(t, x, a, u, v) && p == n * w + m * z
  {
    p := y * w;
    Regroup3(U(t, x, a), U(t, x, u), U(t, x, v));
    PullOut(t, x, a, Basis3(t, x, u, v), k, m);
    PeelTerm(y, n, k, g, w, m, Basis3(t, x, u, v));
  }

  lemma PeelNode3(t: real, a: real, x: real, u: real, y: real, n: real, g: real, m: real, k: real, z: real)
    requires x != a && x != u && m == t - a && k == x - a && y == n + k * g && z == g * U(t, x, u)
    ensures y * Basis3(t, x, a, u) == n * Basis3(t, x, a, u) + m * z
  {
    PullOut(t, x, a, U(t, x, u), k, m);
    PeelTerm(y, n, k, g, Basis3(t, x, a, u), m, U(t, x, u));
  }

  lemma Peel3(t: real, a: Knot, b: Knot, c: Knot, gb: real, gc: real, m: real, kb: real, kc: real)
    requires a.x != b.x && a.x != c.x && b.x != c.x && m == t - a.x && kb == b.x - a.x && kc == c.x - a.x
    requires b.y == a.y + kb * gb && c.y == a.y + kc * gc
    ensures Weighted3(t, a, b, c) == a.y + m * Weighted2(t, Knot(b.x, gb), Knot(c.x, gc))
  {
    Weights3IsOne(t, a.x, b.x, c.x);
    var x, y := gb * U(t, b.x, c.x), gc * U(t, c.x, b.x);
    PeelNode3(t, a.x, b.x, c.x, b.y, a.y, gb, m, kb, x);
    PeelNode3(t, a.x, c.x, b.x, c.y, a.y, gc, m, kc, y);
    var wa, wb, wc := Basis3(t, a.x, b.x, c.x), Basis3(t, b.x, a.x, c.x), Basis3(t, c.x, a.x, b.x);
    SumUp(a.y, m, wa, wb, wc, 0.0, x, y, 0.0, Weighted2(t, Knot(b.x, gb), Knot(c.x, gc)), b.y * wb, c.y * wc, 0.0);
  }

  lemma Peel2(t: real, a: Knot, b: Knot, g: real, m: real, k: real)
    requires a.x != b.x && m == t - a.x && k == b.x - a.x && b.y == a.y + k * g
    ensures Weighted2(t, a, b) == a.y + m * g
  {
    UFacts(t, a.x, b.x);
    UFacts(t, b.x, a.x);
    var wa, wb := U(t, a.x, b.x), U(t, b.x, a.x);
    PeelTerm(b.y, a.y, k, g, wb, m, 1.0);
    SumUp(a.y, m, wa, wb, 0.0, 0.0, g, 0.0, 0.0, g, b.y * wb, 0.0, 0.0);
  }

  // ----- dividing a polynomial by (s - a)

  function DivideQuadratic(q: Quadratic, a: real): Linear {
    Linear(q.rest.c0 + a * q.rest.c1, q.rest.c1)
  }

  function DivideCubic(p: Cubic, a: real): Quadratic {
    Quadratic(p.rest.At(a), DivideQuadratic(p.rest, a))
  }

  lemma LinearRemainder(l: Linear, a: real, s: real, m: real)
    requires m == s - a
    ensures l.At(s) == l.At(a) + m * l.c1
  {
  }

  /** If x differs from y by (s - a) q, then s x differs from a y by (s - a) (y + s q). */
  lemma ShiftProduct(s: real, a: real, m: real, x: real, y: real, q: real)
    requires m == s - a && x == y + m * q
    ensures s * x == a * y + m * (y + s * q)
  {
    Substitute(s, x, y + m * q);
    assert s * (y + m * q) == s * y + m * (s * q);
    Substitute(y, s, a + m);
    assert y * (a + m) == a * y + m * y;
    assert m * (y + s * q) == m * y + m * (s * q);
  }

  lemma QuadraticRemainder(q: Quadratic, a: real, s: real, m: real)
    requires m == s - a
    ensures q.At(s) == q.At(a) + m * DivideQuadratic(q, a).At(s)
  {
    LinearRemainder(q.rest, a, s, m);
    var x, y, c := q.rest.At(s), q.rest.At(a), q.rest.c1;
    ShiftProduct(s, a, m, x, y, c);
    Substitute(m, DivideQuadratic(q, a).At(s), y + s * c);
  }

  lemma CubicRemainder(p: Cubic, a: real, s: real, m: real)
    requires m == s - a
    ensures p.At(s) == p.At(a) + m * DivideCubic(p, a).At(s)
  {
    QuadraticRemainder(p.rest, a, s, m);
    var x, y, q := p.rest.At(s), p.rest.At(a), DivideQuadratic(p.rest, a).At(s);
    ShiftProduct(s, a, m, x, y, q);
    Substitute(m, DivideCubic(p, a).At(s), y + s * q);
  }

  // ----- main results

  /** Uniqueness: every cubic through the four control points has the value the double loop computes, at every
      argument. */
  lemma LoopEqualsEveryCubic(a: Knot, b: Knot, c: Knot, d: Knot, p: Cubic, t: real)
    requires DistinctX([a, b, c, d]) && Through(p, [a, b, c, d])
    ensures Lagrange([a, b, c, d], t) == p.At(t)
  {
    ThroughEach(p, a, b, c, d);
    DistinctFour(a, b, c, d);
    LagrangeIsWeighted(a, b, c, d, t);
    var q := DivideCubic(p, a.x);
    var m, kb, kc, kd := t - a.x, b.x - a.x, c.x - a.x, d.x - a.x;
    var gb := RemainderValue(p, a.x, b.x, kb);
    var gc := RemainderValue(p, a.x, c.x, kc);
    var gd := RemainderValue(p, a.x, d.x, kd);
    var gt := RemainderValue(p, a.x, t, m);
    Peel4(t, a, b, c, d, gb, gc, gd, m, kb, kc, kd);
    QuadraticReproduced(t, q, b.x, c.x, d.x);
    Chain(Weighted(t, a, b, c, d), a.y, m, Weighted3(t, Knot(b.x, gb), Knot(c.x, gc), Knot(d.x, gd)), gt, p.At(t));
  }

  lemma RemainderValue(p: Cubic, a: real, s: real, m: real) returns (g: real)
    requires m == s - a
    ensures g == DivideCubic(p, a).At(s) && p.At(s) == p.At(a) + m * g
  {
    g := DivideCubic(p, a).At(s);
    CubicRemainder(p, a, s, m);
  }

  lemma ThroughEach(p: Cubic, a: Knot, b: Knot, c: Knot, d: Knot)
    requires Through(p, [a, b, c, d])
    ensures p.At(a.x) == a.y && p.At(b.x) == b.y && p.At(c.x) == c.y && p.At(d.x) == d.y
  {
    var ps := [a, b, c, d];
    assert p.At(ps[0].x) == ps[0].y && p.At(ps[1].x) == ps[1].y && p.At(ps[2].x) == ps[2].y && p.At(ps[3].x) == ps[3].y;
  }

  lemma QuadraticReproduced(t: real, q: Quadratic, b: real, c: real, d: real)
    requires b != c && b != d && c != d
    ensures Weighted3(t, Knot(b, q.At(b)), Knot(c, q.At(c)), Knot(d, q.At(d))) == q.At(t)
  {
    var l := DivideQuadratic(q, b);
    var m, kc, kd := t - b, c - b, d - b;
    QuadraticRemainder(q, b, c, kc);
    QuadraticRemainder(q, b, d, kd);
    QuadraticRemainder(q, b, t, m);
    Peel3(t, Knot(b, q.At(b)), Knot(c, q.At(c)), Knot(d, q.At(d)), l.At(c), l.At(d), m, kc, kd);
    LinearReproduced(t, l, c, d);
    Chain(Weighted3(t, Knot(b, q.At(b)), Knot(c, q.At(c)), Knot(d, q.At(d))), q.At(b), m,
          Weighted2(t, Knot(c, l.At(c)), Knot(d, l.At(d))), l.At(t), q.At(t));
  }

  lemma LinearReproduced(t: real, l: Linear, c: real, d: real)
    requires c != d
    ensures Weighted2(t, Knot(c, l.At(c)), Knot(d, l.At(d))) == l.At(t)
  {
    var m, k := t - c, d - c;
    LinearRemainder(l, c, d, k);
    LinearRemainder(l, c, t, m);
    Peel2(t, Knot(c, l.At(c)), Knot(d, l.At(d)), l.c1, m, k);
  }

  // ----- existence, by divided differences

  lemma Slope(y: real, n: real, k: real) returns (g: real)
    requires k != 0.0
    ensures y == n + k * g
  {
    g := (y - n) / k;
    assert g * k == y - n;
  }

  lemma LinearExists(c: Knot, d: Knot) returns (l: Linear)
    requires c.x != d.x
    ensures l.At(c.x) == c.y && l.At(d.x) == d.y
  {
    var k := d.x - c.x;
    var g := Slope(d.y, c.y, k);
    l := Linear(c.y - c.x * g, g);
    LinearRemainder(l, c.x, d.x, k);
  }

  /** Every line is the quotient by (s - b) of a quadratic with any given value at b. */
  lemma QuadraticFromQuotient(l: Linear, b: Knot) returns (q: Quadratic)
    ensures DivideQuadratic(q, b.x) == l && q.At(b.x) == b.y
  {
    var r := Linear(l.c0 - b.x * l.c1, l.c1);
    q := Quadratic(b.y - b.x * r.At(b.x), r);
  }

  lemma QuadraticExists(b: Knot, c: Knot, d: Knot) returns (q: Quadratic)
    requires b.x != c.x && b.x != d.x && c.x != d.x
    ensures q.At(b.x) == b.y && q.At(c.x) == c.y && q.At(d.x) == d.y
  {
    var kc, kd := c.x - b.x, d.x - b.x;
    var gc := Slope(c.y, b.y, kc);
    var gd := Slope(d.y, b.y, kd);
    var l := LinearExists(Knot(c.x, gc), Knot(d.x, gd));
    q := QuadraticFromQuotient(l, b);
    QuadraticRemainder(q, b.x, c.x, kc);
    QuadraticRemainder(q, b.x, d.x, kd);
  }

  lemma CubicFromQuotient(q: Quadratic, a: Knot) returns (p: Cubic)
    ensures DivideCubic(p, a.x) == q && p.At(a.x) == a.y
  {
    var r := QuadraticFromQuotient(q.rest, Knot(a.x, q.c0));
    p := Cubic(a.y - a.x * r.At(a.x), r);
  }

  /** Existence: some cubic passes through any four points with distinct x. */
  lemma CubicExists(a: Knot, b: Knot, c: Knot, d: Knot) returns (p: Cubic)
    requires DistinctX([a, b, c, d])
    ensures Through(p, [a, b, c, d])
  {
    DistinctFour(a, b, c, d);
    var kb, kc, kd := b.x - a.x, c.x - a.x, d.x - a.x;
    var gb := Slope(b.y, a.y, kb);
    var gc := Slope(c.y, a.y, kc);
    var gd := Slope(d.y, a.y, kd);
    var q := QuadraticExists(Knot(b.x, gb), Knot(c.x, gc), Knot(d.x, gd));
    p := CubicFromQuotient(q, a);
    HitsNode(p, a, b, kb, gb, q);
    HitsNode(p, a, c, kc, gc, q);
    HitsNode(p, a, d, kd, gd, q);
    ThroughFour(p, a, b, c, d);
  }

  lemma HitsNode(p: Cubic, a: Knot, b: Knot, k: real, g: real, q: Quadratic)
    requires DivideCubic(p, a.x) == q && p.At(a.x) == a.y && q.At(b.x) == g && k == b.x - a.x && b.y == a.y + k * g
    ensures p.At(b.x) == b.y
  {
    CubicRemainder(p, a.x, b.x, k);
    Chain(p.At(b.x), a.y, k, q.At(b.x), g, b.y);
  }

  lemma ThroughFour(p: Cubic, a: Knot, b: Knot, c: Knot, d: Knot)
    requires p.At(a.x) == a.y && p.At(b.x) == b.y && p.At(c.x) == c.y && p.At(d.x) == d.y
    ensures Through(p, [a, b, c, d])
  {
  }

  /** The curve passes through its control points. */
  lemma CurveHitsKnots(ps: Knots, i: nat)
    requires DistinctX(ps) && i < 4
    ensures Lagrange(ps, ps[i].x) == ps[i].y
  {
    assert ps == [ps[0], ps[1], ps[2], ps[3]];
    var p := CubicExists(ps[0], ps[1], ps[2], ps[3]);
    LoopEqualsEveryCubic(ps[0], ps[1], ps[2], ps[3], p, ps[i].x);
  }

  /** The curve depends on the set of control points only, not on their order. */
  lemma OrderDoesNotMatter(ps: Knots, qs: Knots, t: real)
    requires DistinctX(ps) && DistinctX(qs) && forall q :: q in qs ==> q in ps
    ensures Lagrange(ps, t) == Lagrange(qs, t)
  {
    assert ps == [ps[0], ps[1], ps[2], ps[3]] && qs == [qs[0], qs[1], qs[2], qs[3]];
    var p := CubicExists(ps[0], ps[1], ps[2], ps[3]);
    forall i | 0 <= i < 4 ensures p.At(qs[i].x) == qs[i].y {
      assert qs[i] in qs;
    }
    LoopEqualsEveryCubic(ps[0], ps[1], ps[2], ps[3], p, t);
    LoopEqualsEveryCubic(qs[0], qs[1], qs[2], qs[3], p, t);
  }

  /** Entry i of the tone table is 255 times the value at i/255 of the cubic through the control points, its fraction
      dropped. */
  lemma TableFollowsCubic(ps: Knots, p: Cubic, table: seq<int>, i: nat)
    requires DistinctX(ps) && Through(p, ps) && i < |table| == 256
    requires table[i] == Truncated(Lagrange(ps, i as real / 255.0) * 255.0)
    ensures DropsFraction(255.0 * p.At(i as real / 255.0), table[i])
  {
    assert ps == [ps[0], ps[1], ps[2], ps[3]];
    LoopEqualsEveryCubic(ps[0], ps[1], ps[2], ps[3], p, i as real / 255.0);
    TruncatedDropsFraction(Lagrange(ps, i as real / 255.0) * 255.0);
  }
}
