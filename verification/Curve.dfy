/** Jacobian doubling and addition on y^2 = x^3 - 3x + b over integers modulo m: the formulas
    of src/crypto/p256_internal.h, and that they stay on the curve. */
module Curve {
  import opened Arithmetic

  datatype Point = Infinity | Jacobian(x: int, y: int, z: int)

  function Add(a: int, b: int, m: int): int
    requires m > 0
  {
    (a + b) % m
  }

  function Sub(a: int, b: int, m: int): int
    requires m > 0
  {
    (a - b) % m
  }

  function Mul(a: int, b: int, m: int): int
    requires m > 0
  {
    (a * b) % m
  }

  /** dbl-2001-b. */
  function Double(p: Point, m: int): Point
    requires m > 0
  {
    if p.Infinity? || p.y == 0 then Infinity else
      var delta := Mul(p.z, p.z, m);
      var gamma := Mul(p.y, p.y, m);
      var beta := Mul(p.x, gamma, m);
      var base := Mul(Sub(p.x, delta, m), Add(p.x, delta, m), m);
      var alpha := Add(Add(base, base, m), base, m);
      var twoBeta := Add(beta, beta, m);
      var fourBeta := Add(twoBeta, twoBeta, m);
      var x3 := Sub(Mul(alpha, alpha, m), Add(fourBeta, fourBeta, m), m);
      var yz := Add(p.y, p.z, m);
      var z3 := Sub(Sub(Mul(yz, yz, m), gamma, m), delta, m);
      var gamma2 := Mul(gamma, gamma, m);
      var twoGamma2 := Add(gamma2, gamma2, m);
      var fourGamma2 := Add(twoGamma2, twoGamma2, m);
      var y3 := Sub(Mul(alpha, Sub(fourBeta, x3, m), m), Add(fourGamma2, fourGamma2, m), m);
      Jacobian(x3, y3, z3)
  }

  /** add-1998-cmo. */
  function Sum(p: Point, q: Point, m: int): Point
    requires m > 0
  {
    if p.Infinity? then q
    else if q.Infinity? then p
    else
      var z1z1 := Mul(p.z, p.z, m);
      var z2z2 := Mul(q.z, q.z, m);
      var u1 := Mul(p.x, z2z2, m);
      var u2 := Mul(q.x, z1z1, m);
      var s1 := Mul(p.y, Mul(z2z2, q.z, m), m);
      var s2 := Mul(q.y, Mul(z1z1, p.z, m), m);
      var h := Sub(u2, u1, m);
      var r := Sub(s2, s1, m);
      if h == 0 then
        if r == 0 then Double(p, m) else Infinity
      else
        Chord(u1, s1, h, r, Mul(Mul(p.z, q.z, m), h, m), m)
  }

  function Chord(u1: int, s1: int, h: int, r: int, z3: int, m: int): Point
    requires m > 0
  {
    var h2 := Mul(h, h, m);
    var h3 := Mul(h2, h, m);
    var u1h2 := Mul(u1, h2, m);
    var x3 := Sub(Sub(Mul(r, r, m), h3, m), Add(u1h2, u1h2, m), m);
    var y3 := Sub(Mul(r, Sub(u1h2, x3, m), m), Mul(s1, h3, m), m);
    Jacobian(x3, y3, z3)
  }

  // ----- the curve

  function Rhs(x: int, a: int, c: int): int {
    x * x * x + a * x + c
  }

  function P4(z: int): int {
    z * z * (z * z)
  }

  function P6(z: int): int {
    z * z * (z * z) * (z * z)
  }

  /** Y^2 = X^3 - 3 X Z^4 + b Z^6 modulo m. */
  ghost predicate OnEquation(x: int, y: int, z: int, b: int, m: int)
    requires m > 0
  {
    Cong(y * y, Rhs(x, -3 * P4(z), b * P6(z)), m)
  }

  ghost predicate OnCurve(p: Point, b: int, m: int)
    requires m > 0
  {
    p.Infinity? ||
    (0 <= p.x < m && 0 <= p.y < m && 0 <= p.z < m && p.z != 0 && OnEquation(p.x, p.y, p.z, b, m))
  }

  /** What a line of slope l through (u, n) meets next: an identity over the integers, with
      t = x3 - u and y3 = -(l * t) - n. */
  lemma LineIdentity(l: int, u: int, n: int, a: int, c: int, t: int, y: int)
    requires y == -(l * t) - n
    ensures y * y - Rhs(u + t, a, c)
         == n * n - Rhs(u, a, c) + t * (2 * (l * n) - (3 * (u * u) + a) + (l * l - 3 * u - t) * t)
  {
    assert y * y == l * l * (t * t) + 2 * (t * (l * n)) + n * n by {
      SquareOfSum(l * t, n);
      MulNeg(l * t + n, l * t + n);
      MulNeg(l * t + n, y);
      ProductSwaps(l, t, n);
    }
    assert Rhs(u + t, a, c) == Rhs(u, a, c) + 3 * (u * u) * t + 3 * u * (t * t) + t * t * t + a * t by {
      CubeOfSum(u, t);
      MulDistrib(a, u, t);
    }
    LineTail(t, l * n, u * u, a, l * l, u);
  }

  lemma SquareOfSum(a: int, b: int)
    ensures (a + b) * (a + b) == a * a + 2 * (a * b) + b * b
  {
  }

  lemma ProductSwaps(l: int, t: int, n: int)
    ensures (l * t) * (l * t) == l * l * (t * t)
    ensures (l * t) * n == t * (l * n)
  {
    MulAssoc(l * t, l, t);
    MulSwap(l, t, l);
    MulAssoc(l * l, t, t);
  }

  lemma LineTail(t: int, ln: int, uu: int, a: int, ll: int, u: int)
    ensures t * (2 * ln - (3 * uu + a) + (ll - 3 * u - t) * t)
         == 2 * (t * ln) - 3 * uu * t - a * t + ll * (t * t) - 3 * u * (t * t) - t * t * t
  {
    var s := ll - 3 * u - t;
    MulDistrib(t, 2 * ln - (3 * uu + a), s * t);
    MulDistrib(t, 2 * ln, 3 * uu + a);
    MulDistrib(t, 3 * uu, a);
    Pull(t, s, t);
    MulDistribR(ll - 3 * u, t, t * t);
    MulDistribR(ll, 3 * u, t * t);
  }

  lemma CubeOfSum(u: int, t: int)
    ensures (u + t) * (u + t) * (u + t) == u * u * u + 3 * (u * u) * t + 3 * u * (t * t) + t * t * t
  {
    var s := (u + t) * (u + t);
    assert s == u * u + 2 * (u * t) + t * t;
    assert s * (u + t) == s * u + s * t;
    assert s * u == u * u * u + 2 * ((u * u) * t) + u * (t * t) by {
      assert 2 * (u * t) * u == 2 * ((u * u) * t);
    }
    assert s * t == (u * u) * t + 2 * (u * (t * t)) + t * t * t by {
      assert 2 * (u * t) * t == 2 * (u * (t * t));
    }
  }

  // ----- each field operation computes its operation modulo m

  lemma OpMul(a: int, a': int, b: int, b': int, m: int)
    requires m > 0 && Cong(a, a', m) && Cong(b, b', m)
    ensures Cong(Mul(a, b, m), a' * b', m)
  {
    CongMul(a, a', b, b', m);
    CongMod(a * b, m);
  }

  lemma OpAdd(a: int, a': int, b: int, b': int, m: int)
    requires m > 0 && Cong(a, a', m) && Cong(b, b', m)
    ensures Cong(Add(a, b, m), a' + b', m)
  {
    CongAdd(a, a', b, b', m);
    CongMod(a + b, m);
  }

  lemma OpSub(a: int, a': int, b: int, b': int, m: int)
    requires m > 0 && Cong(a, a', m) && Cong(b, b', m)
    ensures Cong(Sub(a, b, m), a' - b', m)
  {
    CongSub(a, a', b, b', m);
    CongMod(a - b, m);
  }

  lemma CongRhs(x: int, x': int, a: int, a': int, c: int, c': int, m: int)
    requires m > 0 && Cong(x, x', m) && Cong(a, a', m) && Cong(c, c', m)
    ensures Cong(Rhs(x, a, c), Rhs(x', a', c'), m)
  {
    hide Cong;
    CongMul(x, x', x, x', m);
    CongMul(x * x, x' * x', x, x', m);
    CongMul(a, a', x, x', m);
    CongAdd(x * x * x, x' * x' * x', a * x, a' * x', m);
    CongAdd(x * x * x + a * x, x' * x' * x' + a' * x', c, c', m);
  }

  lemma CongP(z: int, z': int, b: int, m: int)
    requires m > 0 && Cong(z, z', m)
    ensures Cong(-3 * P4(z), -3 * P4(z'), m)
    ensures Cong(b * P6(z), b * P6(z'), m)
  {
    hide Cong;
    CongMul(z, z', z, z', m);
    CongMul(z * z, z' * z', z * z, z' * z', m);
    CongMul(P4(z), P4(z'), z * z, z' * z', m);
    CongRefl(-3, m);
    CongRefl(b, m);
    CongMul(-3, -3, P4(z), P4(z'), m);
    CongMul(b, b, P6(z), P6(z'), m);
  }

  /** Being on the curve only depends on residues. */
  lemma EquationCong(x: int, x': int, y: int, y': int, z: int, z': int, b: int, m: int)
    requires m > 0 && Cong(x, x', m) && Cong(y, y', m) && Cong(z, z', m)
    requires OnEquation(x', y', z', b, m)
    ensures OnEquation(x, y, z, b, m)
  {
    CongMul(y, y', y, y', m);
    CongP(z, z', b, m);
    CongRhs(x, x', -3 * P4(z), -3 * P4(z'), b * P6(z), b * P6(z'), m);
  }

  lemma SquareMul(a: int, b: int)
    ensures (a * b) * (a * b) == (a * a) * (b * b)
  {
    Interchange(a, b, a, b);
  }

  lemma P4Mul(a: int, b: int)
    ensures P4(a * b) == P4(a) * P4(b)
    ensures P6(a * b) == P6(a) * P6(b)
  {
    SquareMul(a, b);
    SquareMul(a * a, b * b);
    Interchange(a * a * (a * a), b * b * (b * b), a * a, b * b);
  }

  /** For an affine point the equation is the comparison of two field elements, -3 being m - 3. */
  lemma AffineTest(x: int, y: int, b: int, m: int)
    requires m > 3
    ensures Mul(y, y, m) == Add(Add(Mul(Mul(x, x, m), x, m), Mul(m - 3, x, m), m), b, m) <==> OnEquation(x, y, 1, b, m)
  {
    hide Cong, Mul, Add;
    var r := Add(Add(Mul(Mul(x, x, m), x, m), Mul(m - 3, x, m), m), b, m);
    AffineRhs(x, b, m);
    SameResidue(y * y, r, Rhs(x, -3 * P4(1), b * P6(1)), m);
    OpRange(y, y, m);
    OpRange(Add(Mul(Mul(x, x, m), x, m), Mul(m - 3, x, m), m), b, m);
  }

  lemma OpRange(a: int, b: int, m: int)
    requires m > 0
    ensures Mul(a, b, m) == a * b % m && 0 <= Add(a, b, m) < m
  {
  }

  lemma SameResidue(a: int, r: int, c: int, m: int)
    requires m > 0 && Cong(r, c, m)
    ensures 0 <= r < m ==> (a % m == r <==> Cong(a, c, m))
  {
    if 0 <= r < m {
      SmallMod(r, m);
    }
  }

  lemma AffineRhs(x: int, b: int, m: int)
    requires m > 3
    ensures Cong(Add(Add(Mul(Mul(x, x, m), x, m), Mul(m - 3, x, m), m), b, m), Rhs(x, -3 * P4(1), b * P6(1)), m)
  {
    hide Cong, Mul, Add;
    CongRefl(x, m);
    CongRefl(b, m);
    CongFromMultiple(m - 3, -3, 1, m);
    OpMul(x, x, x, x, m);
    OpMul(Mul(x, x, m), x * x, x, x, m);
    OpMul(m - 3, -3, x, x, m);
    OpAdd(Mul(Mul(x, x, m), x, m), x * x * x, Mul(m - 3, x, m), -3 * x, m);
    OpAdd(Add(Mul(Mul(x, x, m), x, m), Mul(m - 3, x, m), m), x * x * x + -3 * x, b, b, m);
  }

  // ----- doubling

  function TangentM(x: int, z: int): int {
    3 * ((x - z * z) * (x + z * z))
  }

  function TangentS(x: int, y: int): int {
    4 * (x * (y * y))
  }

  function TangentN(y: int): int {
    8 * (y * y * (y * y))
  }

  lemma DoubleExact(x: int, y: int, z: int, m: int)
    requires m > 0 && y != 0
    ensures var d, n, s := Double(Jacobian(x, y, z), m), TangentM(x, z), TangentS(x, y);
            && d.Jacobian?
            && Cong(d.x, n * n - 2 * s, m)
            && Cong(d.y, n * (s - (n * n - 2 * s)) - TangentN(y), m)
            && Cong(d.z, 2 * (y * z), m)
  {
    hide Cong, Mul, Add, Sub;
    var zz, yy := z * z, y * y;
    CongRefl(x, m);
    CongRefl(y, m);
    CongRefl(z, m);
    var delta := Mul(z, z, m);
    OpMul(z, z, z, z, m);
    var gamma := Mul(y, y, m);
    OpMul(y, y, y, y, m);
    var beta := Mul(x, gamma, m);
    OpMul(x, x, gamma, yy, m);
    var minus, plus := Sub(x, delta, m), Add(x, delta, m);
    OpSub(x, x, delta, zz, m);
    OpAdd(x, x, delta, zz, m);
    var base, bb := Mul(minus, plus, m), (x - zz) * (x + zz);
    OpMul(minus, x - zz, plus, x + zz, m);
    OpAdd(base, bb, base, bb, m);
    OpAdd(Add(base, base, m), bb + bb, base, bb, m);
    var alpha, n := Add(Add(base, base, m), base, m), TangentM(x, z);
    assert bb + bb + bb == n;
    var two := Add(beta, beta, m);
    var xyy := x * yy;
    OpAdd(beta, xyy, beta, xyy, m);
    var four := Add(two, two, m);
    OpAdd(two, xyy + xyy, two, xyy + xyy, m);
    var s := TangentS(x, y);
    assert xyy + xyy + (xyy + xyy) == s;
    OpAdd(four, s, four, s, m);
    OpMul(alpha, n, alpha, n, m);
    var x3 := Sub(Mul(alpha, alpha, m), Add(four, four, m), m);
    OpSub(Mul(alpha, alpha, m), n * n, Add(four, four, m), s + s, m);
    assert n * n - (s + s) == n * n - 2 * s;
    OpSub(four, s, x3, n * n - 2 * s, m);
    OpMul(alpha, n, Sub(four, x3, m), s - (n * n - 2 * s), m);
    var g2, q := Mul(gamma, gamma, m), yy * yy;
    OpMul(gamma, yy, gamma, yy, m);
    OpAdd(g2, q, g2, q, m);
    var g22 := Add(g2, g2, m);
    OpAdd(g22, q + q, g22, q + q, m);
    var g24 := Add(g22, g22, m);
    OpAdd(g24, q + q + (q + q), g24, q + q + (q + q), m);
    assert q + q + (q + q) + (q + q + (q + q)) == TangentN(y);
    OpSub(Mul(alpha, Sub(four, x3, m), m), n * (s - (n * n - 2 * s)), Add(g24, g24, m), TangentN(y), m);
    var yz := Add(y, z, m);
    OpAdd(y, y, z, z, m);
    OpMul(yz, y + z, yz, y + z, m);
    OpSub(Mul(yz, yz, m), (y + z) * (y + z), gamma, yy, m);
    OpSub(Sub(Mul(yz, yz, m), gamma, m), (y + z) * (y + z) - yy, delta, zz, m);
    SquareOfSum(y, z);
  }

  /** (x k^2, y k^3, z k) names the same point as (x, y, z). */
  lemma ScaleEquation(x: int, y: int, z: int, k: int, b: int, m: int)
    requires m > 0 && OnEquation(x, y, z, b, m)
    ensures OnEquation(x * (k * k), y * (k * k * k), z * k, b, m)
  {
    var c, u := k * k, P6(k);
    P4Mul(z, k);
    var a, d := -3 * P4(z), b * P6(z);
    assert -3 * P4(z * k) == a * P4(k) by {
      MulAssoc(-3, P4(z), P4(k));
    }
    assert b * P6(z * k) == d * u by {
      MulAssoc(b, P6(z), P6(k));
    }
    ScaleRhs(x, a, d, c);
    SquareMul(y, c * k);
    SquareMul(c, k);
    CongRefl(u, m);
    CongMul(y * y, Rhs(x, a, d), u, u, m);
  }

  lemma ScaleRhs(x: int, a: int, d: int, c: int)
    ensures Rhs(x * c, a * (c * c), d * (c * c * c)) == Rhs(x, a, d) * (c * c * c)
  {
    var u := c * c * c;
    SquareMul(x, c);
    Interchange(x * x, c * c, x, c);
    Interchange(a, c * c, x, c);
    MulDistribR(x * x * x + a * x, d, u);
    MulDistribR(x * x * x, a * x, u);
  }

  /** (S, N) is (x, y, z) scaled by 2y, and M is the slope of the tangent there. */
  lemma TangentPoint(x: int, y: int, z: int, b: int, m: int)
    requires m > 0 && OnEquation(x, y, z, b, m)
    ensures OnEquation(TangentS(x, y), TangentN(y), 2 * (y * z), b, m)
    ensures 2 * (TangentM(x, z) * TangentN(y)) == 3 * (TangentS(x, y) * TangentS(x, y)) + -3 * P4(2 * (y * z))
  {
    var k, q := 2 * y, y * y;
    assert k * k == 4 * q;
    assert k * k * k == 8 * (q * y);
    assert x * (4 * q) == TangentS(x, y);
    assert y * (8 * (q * y)) == TangentN(y);
    assert z * k == 2 * (y * z);
    ScaleEquation(x, y, z, k, b, m);
    P4Mul(2, y * z);
    P4Mul(y, z);
    TangentSlope(x, q, z * z);
  }

  lemma TangentSlope(x: int, q: int, r: int)
    ensures var s := 4 * (x * q);
            2 * (3 * ((x - r) * (x + r)) * (8 * (q * q))) == 3 * (s * s) + -3 * (16 * (q * q * (r * r)))
  {
    assert (x - r) * (x + r) == x * x - r * r;
    MulDistribR(x * x, r * r, q * q);
    SquareMul(x, q);
  }

  lemma Interchange(a: int, b: int, c: int, d: int)
    ensures (a * b) * (c * d) == (a * c) * (b * d)
  {
    MulAssoc(a * b, c, d);
    MulSwap(a, b, c);
    MulAssoc(a * c, b, d);
  }

  /** Doubling stays on the curve. */
  lemma DoubleStays(x: int, y: int, z: int, b: int, m: int)
    requires m > 0 && y != 0 && OnEquation(x, y, z, b, m)
    ensures var d := Double(Jacobian(x, y, z), m);
            d.Jacobian? && OnEquation(d.x, d.y, d.z, b, m)
  {
    var d := Double(Jacobian(x, y, z), m);
    var l, s, n, w := TangentM(x, z), TangentS(x, y), TangentN(y), 2 * (y * z);
    var x3 := l * l - 2 * s;
    var y3 := l * (s - x3) - n;
    DoubleExact(x, y, z, m);
    TangentPoint(x, y, z, b, m);
    OnLine(l, s, n, -3 * P4(w), b * P6(w), 0, m);
    EquationCong(d.x, x3, d.y, y3, d.z, w, b, m);
  }

  /** The third point of a line of slope l through (u, n) is on the curve when the other point
      lies h away and the slope fits. */
  lemma OnLine(l: int, u: int, n: int, a: int, c: int, h: int, m: int)
    requires m > 0 && Cong(n * n, Rhs(u, a, c), m)
    requires Cong(2 * (l * n) + h * (l * l - 3 * u - h), 3 * (u * u) + a, m)
    ensures var x3 := l * l - h - 2 * u;
            var y3 := l * (u - x3) - n;
            Cong(y3 * y3, Rhs(x3, a, c), m)
  {
    var x3 := l * l - h - 2 * u;
    var y3 := l * (u - x3) - n;
    var t := x3 - u;
    assert l * (u - x3) == -(l * t) by {
      MulNeg(t, l);
    }
    LineIdentity(l, u, n, a, c, t, y3);
    assert l * l - 3 * u - t == h;
    var e := 2 * (l * n) - (3 * (u * u) + a) + h * t;
    CongSub(2 * (l * n) + h * t, 3 * (u * u) + a, 3 * (u * u) + a, 3 * (u * u) + a, m);
    CongMul(t, t, e, 0, m);
    CongAdd(n * n, Rhs(u, a, c), t * e, 0, m);
    CongSub(n * n + t * e, Rhs(u, a, c), Rhs(u, a, c), Rhs(u, a, c), m);
    CongAdd(n * n + t * e - Rhs(u, a, c), 0, Rhs(x3, a, c), Rhs(x3, a, c), m);
  }

  // ----- addition

  /** Two points over a common denominator: the chord's slope fits. */
  lemma ChordSlope(u1: int, s1: int, u2: int, s2: int, a: int, c: int, m: int)
    requires m > 0 && Cong(s1 * s1, Rhs(u1, a, c), m) && Cong(s2 * s2, Rhs(u2, a, c), m)
    ensures var h, r := u2 - u1, s2 - s1;
            var h2, h3 := h * h, h * h * h;
            Cong(2 * (r * (s1 * h3)) + h3 * (r * r - 3 * (u1 * h2) - h3), 3 * (u1 * h2 * (u1 * h2)) + a * P4(h), m)
  {
    var h, r := u2 - u1, s2 - s1;
    var h2, h3 := h * h, h * h * h;
    SquareOfSum(s1, r);
    CubeOfSum(u1, h);
    MulDistrib(a, u1, h);
    var g := 2 * (s1 * r) + r * r;
    var k := 3 * (u1 * u1) * h + 3 * u1 * h2 + h3 + a * h;
    assert s2 * s2 - s1 * s1 == g;
    assert Rhs(u2, a, c) - Rhs(u1, a, c) == k;
    CongSub(s2 * s2, Rhs(u2, a, c), s1 * s1, Rhs(u1, a, c), m);
    CongRefl(h3, m);
    CongMul(h3, h3, g, k, m);
    ChordLeft(u1 * h2, s1, r, h3);
    ChordRight(u1, h, a);
    CongRefl(3 * (u1 * h2) * h3 + h3 * h3, m);
    CongSub(h3 * g, h3 * k, 3 * (u1 * h2) * h3 + h3 * h3, 3 * (u1 * h2) * h3 + h3 * h3, m);
  }

  lemma ChordLeft(u: int, s1: int, r: int, h3: int)
    ensures 2 * (r * (s1 * h3)) + h3 * (r * r - 3 * u - h3)
         == h3 * (2 * (s1 * r) + r * r) - (3 * u * h3 + h3 * h3)
  {
    MulDistrib(h3, 2 * (s1 * r), r * r);
    MulDistrib(h3, r * r - 3 * u, h3);
    MulDistrib(h3, r * r, 3 * u);
    assert r * (s1 * h3) == h3 * (s1 * r);
  }

  lemma ChordRight(u1: int, h: int, a: int)
    ensures h * h * h * (3 * (u1 * u1) * h + 3 * u1 * (h * h) + h * h * h + a * h)
         == 3 * (u1 * (h * h) * (u1 * (h * h))) + a * P4(h)
            + (3 * (u1 * (h * h)) * (h * h * h) + h * h * h * (h * h * h))
  {
    var h2, h3 := h * h, h * h * h;
    MulAssoc(h2, h, h);
    SquareMul(u1, h2);
    ChordTerms(h3, h, h2, u1 * u1, u1, a, h2 * h2);
  }

  lemma ChordTerms(h3: int, h: int, h2: int, uu: int, u: int, a: int, h4: int)
    requires h3 * h == h4
    ensures h3 * (3 * uu * h + 3 * u * h2 + h3 + a * h)
         == 3 * (uu * h4) + a * h4 + (3 * (u * h2) * h3 + h3 * h3)
  {
    var e, f := 3 * uu * h, 3 * u * h2;
    MulDistrib(h3, e + f + h3, a * h);
    MulDistrib(h3, e + f, h3);
    MulDistrib(h3, e, f);
    Pull(h3, 3 * uu, h);
    Pull(h3, a, h);
    assert 3 * u * h2 == 3 * (u * h2);
    assert 3 * uu * h4 == 3 * (uu * h4);
  }

  lemma Pull(a: int, b: int, c: int)
    ensures a * (b * c) == b * (a * c)
  {
  }

  /** The chord formula is the line formula in the common denominator scaled by h. */
  lemma ChordStays(u1: int, s1: int, u2: int, s2: int, w: int, b: int, m: int)
    requires m > 0 && OnEquation(u1, s1, w, b, m) && OnEquation(u2, s2, w, b, m)
    ensures var h, r := u2 - u1, s2 - s1;
            var x3 := r * r - h * h * h - 2 * (u1 * (h * h));
            var y3 := r * (u1 * (h * h) - x3) - s1 * (h * h * h);
            OnEquation(x3, y3, w * h, b, m)
  {
    var h, r := u2 - u1, s2 - s1;
    ScaleEquation(u1, s1, w, h, b, m);
    ChordSlope(u1, s1, u2, s2, -3 * P4(w), b * P6(w), m);
    P4Mul(w, h);
    MulAssoc(-3, P4(w), P4(h));
    OnLine(r, u1 * (h * h), s1 * (h * h * h), -3 * P4(w * h), b * P6(w * h), h * h * h, m);
  }

  lemma ChordExact(u1: int, u1': int, s1: int, s1': int, h: int, h': int, r: int, r': int, z: int, m: int)
    requires m > 0 && Cong(u1, u1', m) && Cong(s1, s1', m) && Cong(h, h', m) && Cong(r, r', m)
    ensures var d := Chord(u1, s1, h, r, z, m);
            var x3 := r' * r' - h' * h' * h' - 2 * (u1' * (h' * h'));
            && d.Jacobian? && d.z == z
            && Cong(d.x, x3, m)
            && Cong(d.y, r' * (u1' * (h' * h') - x3) - s1' * (h' * h' * h'), m)
  {
    hide Cong, Mul, Add, Sub;
    var h2, h3 := Mul(h, h, m), Mul(Mul(h, h, m), h, m);
    OpMul(h, h', h, h', m);
    OpMul(h2, h' * h', h, h', m);
    var uh, uh' := Mul(u1, h2, m), u1' * (h' * h');
    OpMul(u1, u1', h2, h' * h', m);
    OpAdd(uh, uh', uh, uh', m);
    OpMul(r, r', r, r', m);
    OpSub(Mul(r, r, m), r' * r', h3, h' * h' * h', m);
    OpSub(Sub(Mul(r, r, m), h3, m), r' * r' - h' * h' * h', Add(uh, uh, m), uh' + uh', m);
    var x3, x3' := Sub(Sub(Mul(r, r, m), h3, m), Add(uh, uh, m), m), r' * r' - h' * h' * h' - 2 * uh';
    assert r' * r' - h' * h' * h' - (uh' + uh') == x3';
    OpSub(uh, uh', x3, x3', m);
    OpMul(r, r', Sub(uh, x3, m), uh' - x3', m);
    OpMul(s1, s1', h3, h' * h' * h', m);
    OpSub(Mul(r, Sub(uh, x3, m), m), r' * (uh' - x3'), Mul(s1, h3, m), s1' * (h' * h' * h'), m);
  }

  // ----- whole operations, with nonzero denominators

  /** The modulus is an odd prime, as a hypothesis: no zero divisors. */
  ghost predicate NoZeroDivisors(m: int) {
    m > 2 && forall a: int, b: int :: Mul(a, b, m) == 0 ==> a % m == 0 || b % m == 0
  }

  lemma NonzeroProduct(a: int, b: int, m: int)
    requires NoZeroDivisors(m) && a % m != 0 && b % m != 0
    ensures (a * b) % m != 0
  {
    assert Mul(a, b, m) == (a * b) % m;
  }

  lemma DoubleOnCurve(p: Point, b: int, m: int)
    requires NoZeroDivisors(m) && OnCurve(p, b, m)
    ensures OnCurve(Double(p, m), b, m)
  {
    if p.Jacobian? && p.y != 0 {
      var d := Double(p, m);
      DoubleStays(p.x, p.y, p.z, b, m);
      DoubleExact(p.x, p.y, p.z, m);
      SmallMod(2, m);
      SmallMod(p.y, m);
      SmallMod(p.z, m);
      NonzeroProduct(p.y, p.z, m);
      NonzeroProduct(2, p.y * p.z, m);
      DoubleRange(p, m);
      SmallMod(0, m);
    }
  }

  lemma DoubleRange(p: Point, m: int)
    requires m > 0
    ensures var d := Double(p, m); d.Jacobian? ==> 0 <= d.x < m && 0 <= d.y < m && 0 <= d.z < m
  {
  }

  /** The operands brought to the common denominator z1 * z2. */
  lemma CommonDenominator(p: Point, q: Point, b: int, m: int)
    requires m > 0 && p.Jacobian? && q.Jacobian?
    requires OnEquation(p.x, p.y, p.z, b, m) && OnEquation(q.x, q.y, q.z, b, m)
    ensures OnEquation(p.x * (q.z * q.z), p.y * (q.z * q.z * q.z), p.z * q.z, b, m)
    ensures OnEquation(q.x * (p.z * p.z), q.y * (p.z * p.z * p.z), p.z * q.z, b, m)
  {
    ScaleEquation(p.x, p.y, p.z, q.z, b, m);
    ScaleEquation(q.x, q.y, q.z, p.z, b, m);
    assert p.z * q.z == q.z * p.z;
  }

  lemma OperandsExact(x: int, y: int, z: int, m: int)
    requires m > 0
    ensures Cong(Mul(x, Mul(z, z, m), m), x * (z * z), m)
    ensures Cong(Mul(y, Mul(Mul(z, z, m), z, m), m), y * (z * z * z), m)
  {
    hide Cong, Mul;
    CongRefl(x, m);
    CongRefl(y, m);
    CongRefl(z, m);
    OpMul(z, z, z, z, m);
    OpMul(x, x, Mul(z, z, m), z * z, m);
    OpMul(Mul(z, z, m), z * z, z, z, m);
    OpMul(y, y, Mul(Mul(z, z, m), z, m), z * z * z, m);
  }

  lemma SumOnCurve(p: Point, q: Point, b: int, m: int)
    requires NoZeroDivisors(m) && OnCurve(p, b, m) && OnCurve(q, b, m)
    ensures OnCurve(Sum(p, q, m), b, m)
  {
    if p.Jacobian? && q.Jacobian? {
      var u1, u2 := Mul(p.x, Mul(q.z, q.z, m), m), Mul(q.x, Mul(p.z, p.z, m), m);
      var s1 := Mul(p.y, Mul(Mul(q.z, q.z, m), q.z, m), m);
      var s2 := Mul(q.y, Mul(Mul(p.z, p.z, m), p.z, m), m);
      var h, r := Sub(u2, u1, m), Sub(s2, s1, m);
      if h == 0 {
        DoubleOnCurve(p, b, m);
      } else {
        ChordOnCurve(p, q, b, m, u1, s1, u2, s2);
      }
    }
  }

  lemma ChordOnCurve(p: Point, q: Point, b: int, m: int, u1: int, s1: int, u2: int, s2: int)
    requires NoZeroDivisors(m) && OnCurve(p, b, m) && OnCurve(q, b, m) && p.Jacobian? && q.Jacobian?
    requires u1 == Mul(p.x, Mul(q.z, q.z, m), m) && u2 == Mul(q.x, Mul(p.z, p.z, m), m)
    requires s1 == Mul(p.y, Mul(Mul(q.z, q.z, m), q.z, m), m)
    requires s2 == Mul(q.y, Mul(Mul(p.z, p.z, m), p.z, m), m)
    requires Sub(u2, u1, m) != 0
    ensures OnCurve(Chord(u1, s1, Sub(u2, u1, m), Sub(s2, s1, m), Mul(Mul(p.z, q.z, m), Sub(u2, u1, m), m), m), b, m)
  {
    var h, r := Sub(u2, u1, m), Sub(s2, s1, m);
    var z3 := Mul(Mul(p.z, q.z, m), h, m);
    var d := Chord(u1, s1, h, r, z3, m);
    ChordEquation(p, q, b, m, u1, s1, u2, s2);
    SmallMod(p.z, m);
    SmallMod(q.z, m);
    SmallMod(h, m);
    NonzeroProduct(p.z, q.z, m);
    SmallMod(Mul(p.z, q.z, m), m);
    NonzeroProduct(Mul(p.z, q.z, m), h, m);
    ChordRange(u1, s1, h, r, z3, m);
  }

  lemma ChordRange(u1: int, s1: int, h: int, r: int, z3: int, m: int)
    requires m > 0
    ensures var d := Chord(u1, s1, h, r, z3, m); d.Jacobian? && d.z == z3 && 0 <= d.x < m && 0 <= d.y < m
  {
  }

  lemma ChordEquation(p: Point, q: Point, b: int, m: int, u1: int, s1: int, u2: int, s2: int)
    requires m > 0 && p.Jacobian? && q.Jacobian?
    requires OnEquation(p.x, p.y, p.z, b, m) && OnEquation(q.x, q.y, q.z, b, m)
    requires u1 == Mul(p.x, Mul(q.z, q.z, m), m) && u2 == Mul(q.x, Mul(p.z, p.z, m), m)
    requires s1 == Mul(p.y, Mul(Mul(q.z, q.z, m), q.z, m), m)
    requires s2 == Mul(q.y, Mul(Mul(p.z, p.z, m), p.z, m), m)
    ensures var h := Sub(u2, u1, m);
            var d := Chord(u1, s1, h, Sub(s2, s1, m), Mul(Mul(p.z, q.z, m), h, m), m);
            d.Jacobian? && OnEquation(d.x, d.y, d.z, b, m)
  {
    hide Cong, Mul, Sub, Chord, OnEquation;
    var h, r := Sub(u2, u1, m), Sub(s2, s1, m);
    var u1', s1' := p.x * (q.z * q.z), p.y * (q.z * q.z * q.z);
    var u2', s2' := q.x * (p.z * p.z), q.y * (p.z * p.z * p.z);
    OperandsExact(p.x, p.y, q.z, m);
    OperandsExact(q.x, q.y, p.z, m);
    OpSub(u2, u2', u1, u1', m);
    OpSub(s2, s2', s1, s1', m);
    CongRefl(p.z, m);
    CongRefl(q.z, m);
    OpMul(p.z, p.z, q.z, q.z, m);
    OpMul(Mul(p.z, q.z, m), p.z * q.z, h, u2' - u1', m);
    CommonDenominator(p, q, b, m);
    ChordStays(u1', s1', u2', s2', p.z * q.z, b, m);
    var z3 := Mul(Mul(p.z, q.z, m), h, m);
    ChordExact(u1, u1', s1, s1', h, u2' - u1', r, s2' - s1', z3, m);
    var d := Chord(u1, s1, h, r, z3, m);
    var h', r' := u2' - u1', s2' - s1';
    var x3 := r' * r' - h' * h' * h' - 2 * (u1' * (h' * h'));
    var y3 := r' * (u1' * (h' * h') - x3) - s1' * (h' * h' * h');
    EquationCong(d.x, x3, d.y, y3, d.z, p.z * q.z * h', b, m);
  }

  // ----- multiples

  /** 2^i times p by repeated doubling. */
  function Doublings(p: Point, i: nat, m: int): Point
    requires m > 0
  {
    if i == 0 then p else Double(Doublings(p, i - 1, m), m)
  }

  /** The sum of the doublings selected by the low i bits of k. */
  function Multiple(k: int, p: Point, i: nat, m: int): Point
    requires m > 0
  {
    if i == 0 then Infinity
    else if Bit(k, i - 1) == 1 then Sum(Multiple(k, p, i - 1, m), Doublings(p, i - 1, m), m)
    else Multiple(k, p, i - 1, m)
  }

  lemma {:induction false} MultipleOnCurve(k: int, p: Point, i: nat, b: int, m: int)
    requires NoZeroDivisors(m) && OnCurve(p, b, m)
    ensures OnCurve(Doublings(p, i, m), b, m) && OnCurve(Multiple(k, p, i, m), b, m)
  {
    hide Double, Sum, OnCurve;
    if i == 0 {
      InfinityOnCurve(b, m);
    } else {
      MultipleOnCurve(k, p, i - 1, b, m);
      DoubleOnCurve(Doublings(p, i - 1, m), b, m);
      SumOnCurve(Multiple(k, p, i - 1, m), Doublings(p, i - 1, m), b, m);
    }
  }

  lemma InfinityOnCurve(b: int, m: int)
    requires m > 0
    ensures OnCurve(Infinity, b, m)
  {
  }
}
