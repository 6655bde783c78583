/** The Jacobian formulas compute the chord-and-tangent law: what they do to the affine points that
    their operands stand for. Slopes appear cross-multiplied, so that nothing is divided. */
module CurveLaw {
  import opened Arithmetic
  import opened Curve

  /** p stands for the affine point (x, y): X = x Z^2 and Y = y Z^3. */
  ghost predicate StandsFor(p: Point, x: int, y: int, m: int)
    requires m > 0
  {
    p.Jacobian? && Cong(p.x, x * (p.z * p.z), m) && Cong(p.y, y * (p.z * p.z * p.z), m)
  }

  /** The third point of the line of slope l through (x1, y1) and a point over x2, mirrored. */
  function ThirdX(l: int, x1: int, x2: int): int {
    l * l - x1 - x2
  }

  function ThirdY(l: int, x1: int, y1: int, x3: int): int {
    l * (x1 - x3) - y1
  }

  /** A line over a common denominator t: both formulas end in this. */
  lemma LineStandsFor(d: Point, t: int, l: int, x1: int, y1: int, x2: int, m: int)
    requires m > 0 && d.Jacobian? && Cong(d.z, t, m)
    requires var x3 := ThirdX(l, x1, x2);
             Cong(d.x, x3 * (t * t), m) && Cong(d.y, ThirdY(l, x1, y1, x3) * (t * t * t), m)
    ensures StandsFor(d, ThirdX(l, x1, x2), ThirdY(l, x1, y1, ThirdX(l, x1, x2)), m)
  {
    hide Cong;
    var x3 := ThirdX(l, x1, x2);
    var y3 := ThirdY(l, x1, y1, x3);
    CongRefl(x3, m);
    CongRefl(y3, m);
    CongMul(d.z, t, d.z, t, m);
    CongMul(d.z * d.z, t * t, d.z, t, m);
    CongMul(x3, x3, d.z * d.z, t * t, m);
    CongMul(y3, y3, d.z * d.z * d.z, t * t * t, m);
    CongSym(x3 * (d.z * d.z), x3 * (t * t), m);
    CongSym(y3 * (d.z * d.z * d.z), y3 * (t * t * t), m);
    CongTrans(d.x, x3 * (t * t), x3 * (d.z * d.z), m);
    CongTrans(d.y, y3 * (t * t * t), y3 * (d.z * d.z * d.z), m);
  }

  lemma CongSym(a: int, b: int, m: int)
    requires m > 0 && Cong(a, b, m)
    ensures Cong(b, a, m)
  {
  }

  // ----- doubling

  /** The tangent's slope, times the new denominator t = 2 Y Z. */
  lemma TangentSlopeTimes(p: Point, x: int, y: int, l: int, m: int)
    requires m > 0 && StandsFor(p, x, y, m) && Cong(l * (2 * y), 3 * (x * x) - 3, m)
    ensures Cong(TangentM(p.x, p.z), l * (2 * (p.y * p.z)), m)
  {
    hide Cong;
    var z, zz := p.z, p.z * p.z;
    CongRefl(zz, m);
    CongRefl(zz * zz, m);
    CongRefl(z, m);
    CongRefl(2, m);
    CongRefl(3, m);
    CongRefl(l, m);
    CongSub(p.x, x * zz, zz, zz, m);
    CongAdd(p.x, x * zz, zz, zz, m);
    CongMul(p.x - zz, x * zz - zz, p.x + zz, x * zz + zz, m);
    CongMul(3, 3, (p.x - zz) * (p.x + zz), (x * zz - zz) * (x * zz + zz), m);
    TangentFactor(x, zz);
    CongSym(l * (2 * y), 3 * (x * x) - 3, m);
    CongMul(3 * (x * x) - 3, l * (2 * y), zz * zz, zz * zz, m);
    CongMul(p.y, y * (zz * z), z, z, m);
    CongMul(2, 2, p.y * z, y * (zz * z) * z, m);
    CongMul(l, l, 2 * (p.y * z), 2 * (y * (zz * z) * z), m);
    TangentRight(l, y, z, zz);
    CongSym(l * (2 * (p.y * z)), l * (2 * y) * (zz * zz), m);
    CongTrans(TangentM(p.x, z), l * (2 * y) * (zz * zz), l * (2 * (p.y * z)), m);
  }

  lemma TangentFactor(x: int, w: int)
    ensures 3 * ((x * w - w) * (x * w + w)) == (3 * (x * x) - 3) * (w * w)
  {
    SquareMul(x, w);
    assert (x * w - w) * (x * w + w) == x * w * (x * w) - w * w;
    MulDistribR(3 * (x * x), 3, w * w);
  }

  lemma TangentRight(l: int, y: int, z: int, w: int)
    requires w == z * z
    ensures l * (2 * (y * (w * z) * z)) == l * (2 * y) * (w * w)
  {
    MulAssoc(y, w * z, z);
    MulAssoc(w, z, z);
    MulAssoc(2, y, w * w);
    MulAssoc(l, 2 * y, w * w);
  }

  /** The other two terms over the same denominator. */
  lemma TangentTerms(p: Point, x: int, y: int, m: int)
    requires m > 0 && StandsFor(p, x, y, m)
    ensures var t := 2 * (p.y * p.z);
            Cong(TangentS(p.x, p.y), x * (t * t), m) && Cong(TangentN(p.y), y * (t * t * t), m)
  {
    hide Cong;
    var z, v := p.z, p.y;
    var t := 2 * (v * z);
    CongRefl(4 * (v * v), m);
    CongMul(p.x, x * (z * z), 4 * (v * v), 4 * (v * v), m);
    TermS(p.x, v);
    TermX(x, z, v);
    CongRefl(8 * (v * v * v), m);
    CongMul(p.y, y * (z * z * z), 8 * (v * v * v), 8 * (v * v * v), m);
    TermN(v);
    TermY(y, z, v);
  }

  lemma TermS(x: int, v: int)
    ensures x * (4 * (v * v)) == TangentS(x, v)
  {
    MulSwap(4, x, v * v);
  }

  lemma TermX(x: int, z: int, v: int)
    ensures x * (z * z) * (4 * (v * v)) == x * (2 * (v * z) * (2 * (v * z)))
  {
    SquareMul(v, z);
    MulAssoc(x, z * z, 4 * (v * v));
    assert 2 * (v * z) * (2 * (v * z)) == 4 * (v * z * (v * z));
    assert z * z * (4 * (v * v)) == 4 * (v * v * (z * z));
  }

  lemma TermN(v: int)
    ensures v * (8 * (v * v * v)) == TangentN(v)
  {
    var w := v * v;
    MulAssoc(v, w, v);
    assert v * w * v == w * w by {
      MulSwap(v, w, v);
    }
    assert v * (8 * (w * v)) == 8 * (v * (w * v));
  }

  lemma TermY(y: int, z: int, v: int)
    ensures y * (z * z * z) * (8 * (v * v * v)) == y * (2 * (v * z) * (2 * (v * z)) * (2 * (v * z)))
  {
    var c := v * z;
    CubeMul(v, z);
    MulAssoc(y, z * z * z, 8 * (v * v * v));
    assert 2 * c * (2 * c) * (2 * c) == 8 * (c * c * c) by {
      assert 2 * c * (2 * c) == 4 * (c * c);
      MulAssoc(4, c * c, 2 * c);
      MulAssoc(c * c, 2, c);
    }
    assert z * z * z * (8 * (v * v * v)) == 8 * (v * v * v * (z * z * z));
  }

  lemma CubeMul(v: int, z: int)
    ensures v * z * (v * z) * (v * z) == v * v * v * (z * z * z)
  {
    SquareMul(v, z);
    Interchange(v * v, z * z, v, z);
  }

  /** Twice (x, y), for y not 0: the tangent's third point. */
  lemma DoubleIsTangent(p: Point, x: int, y: int, l: int, m: int)
    requires m > 0 && StandsFor(p, x, y, m) && p.y != 0 && Cong(l * (2 * y), 3 * (x * x) - 3, m)
    ensures StandsFor(Double(p, m), ThirdX(l, x, x), ThirdY(l, x, y, ThirdX(l, x, x)), m)
    ensures NoZeroDivisors(m) && p.y % m != 0 && p.z % m != 0 ==> Double(p, m).z % m != 0
  {
    hide Cong, StandsFor, Double, NoZeroDivisors;
    IsFinite(p, x, y, m);
    var d, t := Double(p, m), 2 * (p.y * p.z);
    var n, s, x3 := TangentM(p.x, p.z), TangentS(p.x, p.y), ThirdX(l, x, x);
    DoubleExact(p.x, p.y, p.z, m);
    TangentSlopeTimes(p, x, y, l, m);
    TangentTerms(p, x, y, m);
    LineOver(n, s, TangentN(p.y), l, x, y, t, m);
    CongTrans(d.x, n * n - 2 * s, x3 * (t * t), m);
    CongTrans(d.y, n * (s - (n * n - 2 * s)) - TangentN(p.y), ThirdY(l, x, y, x3) * (t * t * t), m);
    LineStandsFor(d, t, l, x, y, x, m);
    IsFinite(d, x3, ThirdY(l, x, y, x3), m);
    if NoZeroDivisors(m) && p.y % m != 0 && p.z % m != 0 {
      Positive(m);
      SmallMod(2, m);
      NonzeroProduct(p.y, p.z, m);
      NonzeroProduct(2, p.y * p.z, m);
      SameResidue(d.z, t, m);
    }
  }

  lemma SameResidue(a: int, b: int, m: int)
    requires m > 0 && Cong(a, b, m)
    ensures a % m == b % m
  {
  }

  /** A reduced point doubles to infinity exactly when it is its own opposite. */
  lemma DoubleIsInfinity(p: Point, x: int, y: int, m: int)
    requires NoZeroDivisors(m) && StandsFor(p, x, y, m) && p.z % m != 0 && 0 <= p.y < m
    ensures Double(p, m) == Infinity <==> Cong(y, 0, m)
  {
    hide Cong, NoZeroDivisors, Mul, Add, Sub;
    Positive(m);
    NonzeroProduct(p.z, p.z, m);
    NonzeroProduct(p.z * p.z, p.z, m);
    DropFactor(y, p.z * p.z * p.z, m);
    CongUnique(p.y, y * (p.z * p.z * p.z), m);
    ResidueZero(y, m);
  }

  lemma ResidueZero(a: int, m: int)
    requires m > 0
    ensures Cong(a, 0, m) <==> a % m == 0
  {
    SmallMod(0, m);
  }

  lemma IsFinite(p: Point, x: int, y: int, m: int)
    requires m > 0 && StandsFor(p, x, y, m)
    ensures p.Jacobian? && p == Jacobian(p.x, p.y, p.z)
  {
  }

  lemma LineOver(n: int, s: int, c: int, l: int, x: int, y: int, t: int, m: int)
    requires m > 0 && Cong(n, l * t, m) && Cong(s, x * (t * t), m) && Cong(c, y * (t * t * t), m)
    ensures Cong(n * n - 2 * s, ThirdX(l, x, x) * (t * t), m)
    ensures Cong(n * (s - (n * n - 2 * s)) - c, ThirdY(l, x, y, ThirdX(l, x, x)) * (t * t * t), m)
  {
    hide Cong, ThirdX, ThirdY;
    var x3 := ThirdX(l, x, x);
    CongRefl(2, m);
    CongMul(n, l * t, n, l * t, m);
    CongMul(2, 2, s, x * (t * t), m);
    CongSub(n * n, l * t * (l * t), 2 * s, 2 * (x * (t * t)), m);
    DoubleX(l, x, t);
    CongSub(s, x * (t * t), n * n - 2 * s, x3 * (t * t), m);
    CongMul(n, l * t, s - (n * n - 2 * s), x * (t * t) - x3 * (t * t), m);
    CongSub(n * (s - (n * n - 2 * s)), l * t * (x * (t * t) - x3 * (t * t)), c, y * (t * t * t), m);
    LineY(l, x, y, x3, t);
  }

  lemma DoubleX(l: int, x: int, t: int)
    ensures l * t * (l * t) - 2 * (x * (t * t)) == ThirdX(l, x, x) * (t * t)
  {
    SquareMul(l, t);
    MulDistribR(l * l, x + x, t * t);
    MulDistribR(x, x, t * t);
  }

  lemma LineY(l: int, x: int, y: int, x3: int, t: int)
    ensures l * t * (x * (t * t) - x3 * (t * t)) - y * (t * t * t) == ThirdY(l, x, y, x3) * (t * t * t)
  {
    MulDistribR(x, x3, t * t);
    Interchange(l, t, x - x3, t * t);
    MulAssoc(t, t, t);
    MulDistribR(l * (x - x3), y, t * t * t);
  }

  // ----- addition

  /** One operand over the common denominator w = Z1 Z2. */
  lemma OverCommon(p: Point, x: int, y: int, k: int, m: int)
    requires m > 0 && StandsFor(p, x, y, m)
    ensures var w := p.z * k;
            && Cong(Mul(p.x, Mul(k, k, m), m), x * (w * w), m)
            && Cong(Mul(p.y, Mul(Mul(k, k, m), k, m), m), y * (w * w * w), m)
  {
    hide Cong, Mul;
    var z, w := p.z, p.z * k;
    OperandsExact(p.x, p.y, k, m);
    CongRefl(k * k, m);
    CongRefl(k * k * k, m);
    CongMul(p.x, x * (z * z), k * k, k * k, m);
    CongMul(p.y, y * (z * z * z), k * k * k, k * k * k, m);
    SquareMul(z, k);
    CubeMul(z, k);
    MulAssoc(x, z * z, k * k);
    MulAssoc(y, z * z * z, k * k * k);
    CongTrans(Mul(p.x, Mul(k, k, m), m), p.x * (k * k), x * (w * w), m);
    CongTrans(Mul(p.y, Mul(Mul(k, k, m), k, m), m), p.y * (k * k * k), y * (w * w * w), m);
  }

  /** The chord formula on operands over a common denominator w. */
  lemma ChordIsLine(u1: int, s1: int, h: int, r: int, z: int, w: int,
                    x1: int, y1: int, x2: int, y2: int, l: int, m: int)
    requires m > 0 && Cong(u1, x1 * (w * w), m) && Cong(s1, y1 * (w * w * w), m)
    requires Cong(h, (x2 - x1) * (w * w), m) && Cong(r, (y2 - y1) * (w * w * w), m)
    requires Cong(z, w * ((x2 - x1) * (w * w)), m) && Cong(l * (x2 - x1), y2 - y1, m)
    ensures StandsFor(Chord(u1, s1, h, r, z, m), ThirdX(l, x1, x2), ThirdY(l, x1, y1, ThirdX(l, x1, x2)), m)
  {
    hide Cong, StandsFor, Chord, ThirdX, ThirdY;
    var c := x2 - x1;
    var h', u', s' := c * (w * w), x1 * (w * w), y1 * (w * w * w);
    var t := w * h';
    var r', x3 := l * t, ThirdX(l, x1, x2);
    CongRefl(w * w * w, m);
    CongSym(l * c, y2 - y1, m);
    CongMul(y2 - y1, l * c, w * w * w, w * w * w, m);
    SlopeTimes(l, c, w);
    CongTrans(r, (y2 - y1) * (w * w * w), r', m);
    ChordExact(u1, u', s1, s', h, h', r, r', z, m);
    ChordX(l, x1, x2, w);
    ChordY(l, x1, y1, x2, w);
    LineStandsFor(Chord(u1, s1, h, r, z, m), t, l, x1, y1, x2, m);
  }

  lemma SlopeTimes(l: int, c: int, w: int)
    ensures l * c * (w * w * w) == l * (w * (c * (w * w)))
  {
    MulAssoc(l, c, w * w * w);
    MulAssoc(w * w, w, c);
    assert c * (w * w * w) == w * (c * (w * w)) by {
      MulAssoc(c, w * w, w);
    }
  }

  lemma ChordX(l: int, x1: int, x2: int, w: int)
    ensures var h := (x2 - x1) * (w * w);
            var t := w * h;
            l * t * (l * t) - h * h * h - 2 * (x1 * (w * w) * (h * h)) == ThirdX(l, x1, x2) * (t * t)
  {
    var h := (x2 - x1) * (w * w);
    var t := w * h;
    SquareMul(l, t);
    SquareMul(w, h);
    assert h * h * h == (x2 - x1) * (t * t) by {
      MulAssoc(x2 - x1, w * w, h * h);
      assert h * h * h == h * (h * h);
    }
    MulAssoc(x1, w * w, h * h);
    MulDistribR(l * l, x1, t * t);
    MulDistribR(l * l - x1, x2, t * t);
    MulDistribR(x2, x1, t * t);
  }

  lemma ChordY(l: int, x1: int, y1: int, x2: int, w: int)
    ensures var h := (x2 - x1) * (w * w);
            var t := w * h;
            var x3 := ThirdX(l, x1, x2);
            && l * t * (x1 * (w * w) * (h * h) - x3 * (t * t)) - y1 * (w * w * w) * (h * h * h)
               == ThirdY(l, x1, y1, x3) * (t * t * t)
  {
    hide ThirdX, ThirdY;
    var h := (x2 - x1) * (w * w);
    var t := w * h;
    SquareMul(w, h);
    CubeMul(w, h);
    MulAssoc(x1, w * w, h * h);
    MulAssoc(y1, w * w * w, h * h * h);
    LineY(l, x1, y1, ThirdX(l, x1, x2), t);
  }

  /** A factor that is not zero can be dropped from a comparison with zero. */
  lemma DropFactor(a: int, k: int, m: int)
    requires NoZeroDivisors(m) && k % m != 0
    ensures (a * k) % m == 0 <==> a % m == 0
  {
    if a % m != 0 {
      NonzeroProduct(a, k, m);
    } else {
      ZeroProduct(a, k, m);
    }
  }

  lemma ZeroProduct(a: int, k: int, m: int)
    requires m > 0 && a % m == 0
    ensures (a * k) % m == 0
  {
    MulSwap(m, a / m, k);
    DivModUnique(a * k, a / m * k, 0, m);
  }

  /** The four operands and the two tests of an addition. */
  ghost predicate Operands(p: Point, q: Point, m: int, u1: int, u2: int, s1: int, s2: int, h: int, r: int)
    requires m > 0
  {
    && p.Jacobian? && q.Jacobian?
    && u1 == Mul(p.x, Mul(q.z, q.z, m), m) && u2 == Mul(q.x, Mul(p.z, p.z, m), m)
    && s1 == Mul(p.y, Mul(Mul(q.z, q.z, m), q.z, m), m) && s2 == Mul(q.y, Mul(Mul(p.z, p.z, m), p.z, m), m)
    && h == Sub(u2, u1, m) && r == Sub(s2, s1, m)
  }

  lemma SumCases(p: Point, q: Point, m: int) returns (u1: int, u2: int, s1: int, s2: int, h: int, r: int)
    requires m > 0 && p.Jacobian? && q.Jacobian?
    ensures Operands(p, q, m, u1, u2, s1, s2, h, r)
    ensures Sum(p, q, m) == if h != 0 then Chord(u1, s1, h, r, Mul(Mul(p.z, q.z, m), h, m), m)
                            else if r == 0 then Double(p, m) else Infinity
  {
    hide Mul, Sub, Chord, Double;
    u1, u2 := Mul(p.x, Mul(q.z, q.z, m), m), Mul(q.x, Mul(p.z, p.z, m), m);
    s1 := Mul(p.y, Mul(Mul(q.z, q.z, m), q.z, m), m);
    s2 := Mul(q.y, Mul(Mul(p.z, p.z, m), p.z, m), m);
    h, r := Sub(u2, u1, m), Sub(s2, s1, m);
  }

  /** Over the common denominator w the tests are the differences of the coordinates. */
  lemma OperandsOver(p: Point, q: Point, x1: int, y1: int, x2: int, y2: int, w: int, m: int,
                     u1: int, u2: int, s1: int, s2: int, h: int, r: int)
    requires m > 0 && StandsFor(p, x1, y1, m) && StandsFor(q, x2, y2, m)
    requires Operands(p, q, m, u1, u2, s1, s2, h, r) && w == p.z * q.z
    ensures Cong(u1, x1 * (w * w), m) && Cong(s1, y1 * (w * w * w), m)
    ensures Cong(h, (x2 - x1) * (w * w), m) && Cong(r, (y2 - y1) * (w * w * w), m)
  {
    hide Cong, StandsFor, Mul, Sub;
    OverCommon(p, x1, y1, q.z, m);
    OverCommon(q, x2, y2, p.z, m);
    assert w == q.z * p.z;
    OpSub(u2, x2 * (w * w), u1, x1 * (w * w), m);
    OpSub(s2, y2 * (w * w * w), s1, y1 * (w * w * w), m);
    MulDistribR(x2, x1, w * w);
    MulDistribR(y2, y1, w * w * w);
  }

  lemma ChordDenominator(z1: int, z2: int, h: int, h': int, m: int)
    requires m > 0 && Cong(h, h', m)
    ensures Cong(Mul(Mul(z1, z2, m), h, m), z1 * z2 * h', m)
  {
    hide Cong, Mul;
    CongRefl(z1, m);
    CongRefl(z2, m);
    OpMul(z1, z1, z2, z2, m);
    OpMul(Mul(z1, z2, m), z1 * z2, h, h', m);
  }

  /** The sum of (x1, y1) and (x2, y2): over different x the chord's third point; over the same x,
      twice the point if the points are the same and infinity if they are opposite. */
  lemma SumIsChord(p: Point, q: Point, x1: int, y1: int, x2: int, y2: int, l: int, m: int)
    requires NoZeroDivisors(m) && StandsFor(p, x1, y1, m) && StandsFor(q, x2, y2, m)
    requires p.z % m != 0 && q.z % m != 0
    ensures !Cong(x1, x2, m) && Cong(l * (x2 - x1), y2 - y1, m) ==>
              && StandsFor(Sum(p, q, m), ThirdX(l, x1, x2), ThirdY(l, x1, y1, ThirdX(l, x1, x2)), m)
              && Sum(p, q, m).z % m != 0
    ensures Cong(x1, x2, m) && Cong(y1, y2, m) ==> Sum(p, q, m) == Double(p, m)
    ensures Cong(x1, x2, m) && !Cong(y1, y2, m) ==> Sum(p, q, m) == Infinity
  {
    hide Cong, StandsFor, Mul, Sub, Sum, Chord, Double, NoZeroDivisors, ThirdX, ThirdY;
    Positive(m);
    IsFinite(p, x1, y1, m);
    IsFinite(q, x2, y2, m);
    var u1, u2, s1, s2, h, r := SumCases(p, q, m);
    var w := p.z * q.z;
    OperandsOver(p, q, x1, y1, x2, y2, w, m, u1, u2, s1, s2, h, r);
    Tests(p.z, q.z, w, x1, y1, x2, y2, u1, u2, s1, s2, m);
    if !Cong(x1, x2, m) && Cong(l * (x2 - x1), y2 - y1, m) {
      ChordDenominator(p.z, q.z, h, (x2 - x1) * (w * w), m);
      ChordIsLine(u1, s1, h, r, Mul(Mul(p.z, q.z, m), h, m), w, x1, y1, x2, y2, l, m);
      ChordFinite(p.z, q.z, u1, u2, s1, r, m);
    }
  }

  /** A chord's denominator is not zero. */
  lemma ChordFinite(z1: int, z2: int, u1: int, u2: int, s1: int, r: int, m: int)
    requires NoZeroDivisors(m) && z1 % m != 0 && z2 % m != 0 && Sub(u2, u1, m) != 0
    ensures var z3 := Mul(Mul(z1, z2, m), Sub(u2, u1, m), m);
            Chord(u1, s1, Sub(u2, u1, m), r, z3, m).z == z3 && z3 % m != 0
  {
    hide NoZeroDivisors;
    Positive(m);
    NonzeroProduct(z1, z2, m);
    SmallMod(Mul(z1, z2, m), m);
    SmallMod(Sub(u2, u1, m), m);
    NonzeroProduct(Mul(z1, z2, m), Sub(u2, u1, m), m);
    SmallMod((Mul(z1, z2, m) * Sub(u2, u1, m)) % m, m);
  }

  /** The code's tests for equal coordinates are the tests on the affine ones. */
  lemma Tests(z1: int, z2: int, w: int, x1: int, y1: int, x2: int, y2: int, u1: int, u2: int, s1: int, s2: int, m: int)
    requires NoZeroDivisors(m) && z1 % m != 0 && z2 % m != 0 && w == z1 * z2
    requires Cong(Sub(u2, u1, m), (x2 - x1) * (w * w), m) && Cong(Sub(s2, s1, m), (y2 - y1) * (w * w * w), m)
    ensures Sub(u2, u1, m) == 0 <==> Cong(x1, x2, m)
    ensures Sub(s2, s1, m) == 0 <==> Cong(y1, y2, m)
  {
    hide Cong, Sub, NoZeroDivisors;
    Positive(m);
    NonzeroProduct(z1, z2, m);
    NonzeroProduct(w, w, m);
    NonzeroProduct(w * w, w, m);
    ZeroTest(u2, u1, x2, x1, w * w, m);
    ZeroTest(s2, s1, y2, y1, w * w * w, m);
  }

  lemma Positive(m: int)
    requires NoZeroDivisors(m)
    ensures m > 2
  {
  }

  lemma ZeroTest(a: int, b: int, x: int, y: int, k: int, m: int)
    requires NoZeroDivisors(m) && k % m != 0 && Cong(Sub(a, b, m), (x - y) * k, m)
    ensures Sub(a, b, m) == 0 <==> Cong(y, x, m)
  {
    DropFactor(x - y, k, m);
    DifferenceZero(x, y, m);
    SmallMod(Sub(a, b, m), m);
  }

  lemma DifferenceZero(x: int, y: int, m: int)
    requires m > 0
    ensures (x - y) % m == 0 <==> Cong(y, x, m)
  {
    hide Cong;
    CongRefl(y, m);
    if (x - y) % m == 0 {
      CongFromMultiple(x, y, (x - y) / m, m);
      CongSym(x, y, m);
    }
    if Cong(y, x, m) {
      CongSym(y, x, m);
      CongSub(x, y, y, y, m);
      ResidueZero(x - y, m);
    }
  }

  /** A finite point stands for one affine point only. */
  lemma StandsForOne(p: Point, x: int, y: int, x': int, y': int, m: int)
    requires NoZeroDivisors(m) && StandsFor(p, x, y, m) && StandsFor(p, x', y', m) && p.z % m != 0
    ensures Cong(x, x', m) && Cong(y, y', m)
  {
    hide Cong, NoZeroDivisors;
    Positive(m);
    var z2, z3 := p.z * p.z, p.z * p.z * p.z;
    NonzeroProduct(p.z, p.z, m);
    NonzeroProduct(z2, p.z, m);
    CancelFactor(p.x, x, x', z2, m);
    CancelFactor(p.y, y, y', z3, m);
  }

  lemma CancelFactor(c: int, a: int, b: int, k: int, m: int)
    requires NoZeroDivisors(m) && k % m != 0 && Cong(c, a * k, m) && Cong(c, b * k, m)
    ensures Cong(a, b, m)
  {
    hide Cong, NoZeroDivisors;
    Positive(m);
    CongSub(c, b * k, c, a * k, m);
    CongSym(c - c, b * k - a * k, m);
    MulDistribR(b, a, k);
    ResidueZero((b - a) * k, m);
    DropFactor(b - a, k, m);
    DifferenceZero(b, a, m);
  }
}
