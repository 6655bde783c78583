/** The x-only doubling and differential addition of a Montgomery ladder, against the
    chord-and-tangent law of b y^2 = x^3 + a x^2 + x modulo m. Every quotient appears
    cross-multiplied, so that nothing is divided. */
module Montgomery {
  import opened Arithmetic
  import C = Curve
  import L = CurveLaw

  datatype Shape = Shape(a: int, b: int, m: int)

  datatype Affine = Origin | At(x: int, y: int)

  /** The modulus is an odd prime, as a hypothesis, and the curve is not singular. */
  ghost predicate Smooth(c: Shape) {
    C.NoZeroDivisors(c.m) && c.b % c.m != 0 && (c.a * c.a - 4) % c.m != 0
  }

  function Cubic(x: int, a: int): int {
    x * (x * x + a * x + 1)
  }

  ghost predicate On(c: Shape, p: Affine)
    requires c.m > 0
  {
    p.At? ==> Cong(c.b * (p.y * p.y), Cubic(p.x, c.a), c.m)
  }

  ghost predicate Same(p: Affine, q: Affine, m: int)
    requires m > 0
  {
    p.Origin? == q.Origin? && (p.At? ==> Cong(p.x, q.x, m) && Cong(p.y, q.y, m))
  }

  /** r is the mirrored third point of the tangent at p: its slope is t / 2by. */
  ghost predicate Tangent(c: Shape, p: Affine, r: Affine)
    requires c.m > 0 && p.At? && r.At?
  {
    var t, d := 3 * (p.x * p.x) + 2 * (c.a * p.x) + 1, 4 * (c.b * (p.y * p.y));
    && Cong(r.x * d, t * t - (c.a + 2 * p.x) * d, c.m)
    && Cong((r.y + p.y) * (2 * (c.b * p.y)), t * (p.x - r.x), c.m)
  }

  /** r is the mirrored third point of the chord through p and q: its slope is e / d. */
  ghost predicate Chord(c: Shape, p: Affine, q: Affine, r: Affine)
    requires c.m > 0 && p.At? && q.At? && r.At?
  {
    var d, e := q.x - p.x, q.y - p.y;
    && Cong(r.x * (d * d), c.b * (e * e) - (c.a + p.x + q.x) * (d * d), c.m)
    && Cong((r.y + p.y) * d, e * (p.x - r.x), c.m)
  }

  /** p + q = r in the group of the curve. */
  ghost predicate Adds(c: Shape, p: Affine, q: Affine, r: Affine)
    requires c.m > 0
  {
    if p.Origin? then Same(q, r, c.m)
    else if q.Origin? then Same(p, r, c.m)
    else if !Cong(p.x, q.x, c.m) then r.At? && Chord(c, p, q, r)
    else if (p.y + q.y) % c.m == 0 then r.Origin?
    else r.At? && Tangent(c, p, r)
  }

  /** (X : Z) is the x-coordinate of p. */
  ghost predicate Stands(c: Shape, p: Affine, x: int, z: int)
    requires c.m > 0
  {
    match p
    case Origin => z % c.m == 0 && x % c.m != 0
    case At(px, _) => z % c.m != 0 && Cong(x, px * z, c.m)
  }

  // ----- the formulas

  function Square(a: int): int {
    a * a
  }

  function DoubleX(x: int, z: int): int {
    Square(x * x - z * z)
  }

  function DoubleZ(a: int, x: int, z: int): int {
    4 * (x * z * (x * x + a * (x * z) + z * z))
  }

  function SumX(x: int, z: int, x': int, z': int): int {
    4 * Square(x * x' - z * z')
  }

  /** u is the x-coordinate of the difference. */
  function SumZ(u: int, x: int, z: int, x': int, z': int): int {
    4 * (u * Square(x' * z - x * z'))
  }

  // ----- congruences of the formulas

  lemma CongSquare(a: int, b: int, m: int)
    requires m > 0 && Cong(a, b, m)
    ensures Cong(a * a, b * b, m) && Cong(Square(a), Square(b), m)
  {
    hide Cong;
    CongMul(a, b, a, b, m);
  }

  lemma CongScale(k: int, a: int, b: int, m: int)
    requires m > 0 && Cong(a, b, m)
    ensures Cong(k * a, k * b, m) && Cong(a * k, b * k, m)
  {
    hide Cong;
    CongRefl(k, m);
    CongMul(k, k, a, b, m);
    CongMul(a, b, k, k, m);
  }

  lemma DoubleCong(a: int, x: int, y: int, z: int, m: int)
    requires m > 0 && Cong(x, y, m)
    ensures Cong(DoubleX(x, z), DoubleX(y, z), m)
    ensures Cong(DoubleZ(a, x, z), DoubleZ(a, y, z), m)
  {
    hide Cong, Square;
    CongSquare(x, y, m);
    CongRefl(z * z, m);
    CongSub(x * x, y * y, z * z, z * z, m);
    CongSquare(x * x - z * z, y * y - z * z, m);
    CongScale(z, x, y, m);
    CongScale(a, x * z, y * z, m);
    CongAdd(x * x, y * y, a * (x * z), a * (y * z), m);
    CongAdd(x * x + a * (x * z), y * y + a * (y * z), z * z, z * z, m);
    CongMul(x * z, y * z, x * x + a * (x * z) + z * z, y * y + a * (y * z) + z * z, m);
    CongScale(4, x * z * (x * x + a * (x * z) + z * z), y * z * (y * y + a * (y * z) + z * z), m);
  }

  lemma SumCong(u: int, x: int, z: int, x': int, z': int, y: int, y': int, m: int)
    requires m > 0 && Cong(x, y, m) && Cong(x', y', m)
    ensures Cong(SumX(x, z, x', z'), SumX(y, z, y', z'), m)
    ensures Cong(SumZ(u, x, z, x', z'), SumZ(u, y, z, y', z'), m)
  {
    hide Cong, Square;
    CongMul(x, y, x', y', m);
    CongRefl(z * z', m);
    CongSub(x * x', y * y', z * z', z * z', m);
    CongSquare(x * x' - z * z', y * y' - z * z', m);
    CongScale(4, Square(x * x' - z * z'), Square(y * y' - z * z'), m);
    CongScale(z, x', y', m);
    CongScale(z', x, y, m);
    CongSub(x' * z, y' * z, x * z', y * z', m);
    CongSquare(x' * z - x * z', y' * z - y * z', m);
    CongScale(u, Square(x' * z - x * z'), Square(y' * z - y * z'), m);
    CongScale(4, u * Square(x' * z - x * z'), u * Square(y' * z - y * z'), m);
  }

  // ----- over affine coordinates: identities over the integers

  lemma SquareMul(a: int, b: int)
    ensures Square(a * b) == Square(a) * Square(b)
  {
  }

  lemma DoubleScaled(a: int, x: int, z: int)
    ensures DoubleX(x * z, z) == Square(z * z) * Square(x * x - 1)
    ensures DoubleZ(a, x * z, z) == Square(z * z) * (4 * Cubic(x, a))
  {
    hide Square;
    var w := z * z;
    ScaledSquares(x, z);
    SquareMul(w, x * x - 1);
    ScaledInner(a, x, z);
    ScaledProduct(x, w, x * x + a * x + 1);
  }

  lemma ScaledSquares(x: int, z: int)
    ensures x * z * (x * z) - z * z == z * z * (x * x - 1)
    ensures x * z * z == x * (z * z)
  {
  }

  lemma ScaledInner(a: int, x: int, z: int)
    ensures x * z * (x * z) + a * (x * z * z) + z * z == z * z * (x * x + a * x + 1)
  {
    ScaledSquares(x, z);
    MulAssoc(a, x, z * z);
    MulDistrib(z * z, x * x + a * x, 1);
    MulDistrib(z * z, x * x, a * x);
    MulDistrib(z * z, x * x, 1);
  }

  lemma ScaledProduct(x: int, w: int, g: int)
    ensures 4 * (x * w * (w * g)) == Square(w) * (4 * (x * g))
  {
  }

  /** 4 b y^2 times the x-coordinate of 2p. */
  lemma TangentIdentity(x: int, a: int)
    ensures var t, f := 3 * (x * x) + 2 * (a * x) + 1, Cubic(x, a);
            t * t - (a + 2 * x) * (4 * f) == Square(x * x - 1)
  {
  }

  lemma SumScaled(u: int, x: int, z: int, x': int, z': int)
    ensures SumX(x * z, z, x' * z', z') == Square(z * z') * (4 * Square(x * x' - 1))
    ensures SumZ(u, x * z, z, x' * z', z') == Square(z * z') * (4 * (u * Square(x' - x)))
  {
    hide Square;
    ScaledCross(x, z, x', z');
    SquareMul(z * z', x * x' - 1);
    SquareMul(z * z', x' - x);
    MoveOut(Square(z * z'), u, Square(x' - x));
  }

  lemma ScaledCross(x: int, z: int, x': int, z': int)
    ensures x * z * (x' * z') - z * z' == z * z' * (x * x' - 1)
    ensures x' * z' * z - x * z * z' == z * z' * (x' - x)
  {
    assert x * z * (x' * z') == z * z' * (x * x');
    MulDistrib(z * z', x * x', 1);
    MulSwap(x', z', z);
    MulDistrib(z * z', x', x);
    MulAssoc(x', z, z');
    MulAssoc(x, z, z');
  }

  lemma MoveOut(w: int, u: int, s: int)
    ensures 4 * (u * (w * s)) == w * (4 * (u * s))
  {
  }

  // ----- the product of the sum's and the difference's coordinates

  lemma SquareSum(a: int, b: int)
    ensures Square(a + b) == a * a + 2 * (a * b) + b * b
    ensures (a + b) * (a - b) == a * a - b * b
  {
  }

  /** f1 + f2 less what the chord formula subtracts, in the sum and the product of the x's. */
  lemma ChordSymmetric(x: int, x': int, a: int)
    ensures Cubic(x, a) + Cubic(x', a) - (a + x + x') * ((x' - x) * (x' - x))
         == (x + x') * (x * x' + 1) + 2 * (a * (x * x'))
  {
  }

  lemma CubicProduct(x: int, x': int, a: int)
    ensures var p, q := x * x', x + x';
            Cubic(x, a) * Cubic(x', a) == p * (p * p + q * q - 2 * p + 1 + a * (p * q + q) + a * a * p)
  {
    var p, q := x * x', x + x';
    var g, h := x * x + a * x + 1, x' * x' + a * x' + 1;
    Regroup(x, x', g, h);
    ProductOfSums(x * x + 1, x' * x' + 1, a, x, x');
    SymmetricFours(x, x');
    SymmetricThrees(x, x');
    assert g * h == p * p + q * q - 2 * p + 1 + a * (p * q + q) + a * a * p;
  }

  lemma Regroup(x: int, y: int, g: int, h: int)
    ensures (x * g) * (y * h) == (x * y) * (g * h)
  {
  }

  lemma ProductOfSums(s: int, t: int, a: int, x: int, y: int)
    ensures (s + a * x) * (t + a * y) == s * t + a * (x * t + y * s) + a * a * (x * y)
  {
  }

  lemma SymmetricFours(x: int, y: int)
    ensures (x * x + 1) * (y * y + 1) == x * y * (x * y) + (x + y) * (x + y) - 2 * (x * y) + 1
  {
  }

  lemma SymmetricThrees(x: int, y: int)
    ensures x * (y * y + 1) + y * (x * x + 1) == x * y * (x + y) + (x + y)
  {
  }

  lemma Discriminant(p: int, q: int, a: int)
    ensures var n := q * (p + 1) + 2 * (a * p);
            Square(n) - 4 * (p * (p * p + q * q - 2 * p + 1 + a * (p * q + q) + a * a * p))
            == Square(p - 1) * (q * q - 4 * p)
  {
    SquareSum(q * (p + 1), 2 * (a * p));
    SquareMul(q, p + 1);
    SquareMul(2, a * p);
    SquareMul(a, p);
    CrossTerm(a, p, q);
    Collect(a, p, p * p + q * q - 2 * p + 1, p * q + q);
    DiscriminantZero(p, q);
  }

  lemma CrossTerm(a: int, p: int, q: int)
    ensures q * (p + 1) * (2 * (a * p)) == 2 * (a * (p * (p * q + q)))
  {
  }

  lemma Collect(a: int, p: int, e: int, g: int)
    ensures p * (e + a * g + a * a * p) == p * e + a * (p * g) + a * a * (p * p)
  {
  }

  lemma DiscriminantZero(p: int, q: int)
    ensures q * q * ((p + 1) * (p + 1)) - 4 * (p * (p * p + q * q - 2 * p + 1)) == Square(p - 1) * (q * q - 4 * p)
  {
  }

  /** With f = b y^2 at both points, the two chord numerators multiply to a square. */
  lemma ChordProduct(x: int, x': int, a: int)
    ensures var n := Cubic(x, a) + Cubic(x', a) - (a + x + x') * ((x' - x) * (x' - x));
            Square(n) - 4 * (Cubic(x, a) * Cubic(x', a)) == Square(x * x' - 1) * Square(x' - x)
  {
    hide Cubic;
    ChordSymmetric(x, x', a);
    CubicProduct(x, x', a);
    Discriminant(x * x', x + x', a);
    assert (x + x') * (x + x') - 4 * (x * x') == Square(x' - x);
  }

  // ----- doubling

  /** z is a factor of the doubled point's Z. */
  lemma DoubleZFactor(a: int, x: int, z: int)
    ensures DoubleZ(a, x, z) == 4 * (x * (x * x + a * (x * z) + z * z)) * z
  {
    var g := x * x + a * (x * z) + z * z;
    MulSwap(x, z, g);
    MulAssoc(4, x * g, z);
  }

  lemma OriginDoubles(a: int, x: int, z: int, m: int)
    requires C.NoZeroDivisors(m) && z % m == 0 && x % m != 0
    ensures DoubleZ(a, x, z) % m == 0 && DoubleX(x, z) % m != 0
  {
    hide C.NoZeroDivisors, DoubleZ, Cong;
    L.Positive(m);
    DoubleZFactor(a, x, z);
    var k := 4 * (x * (x * x + a * (x * z) + z * z));
    L.ZeroProduct(z, k, m);
    L.ZeroProduct(z, z, m);
    L.ResidueZero(z * z, m);
    CongRefl(x * x, m);
    CongSub(x * x, x * x, z * z, 0, m);
    C.NonzeroProduct(x, x, m);
    L.SameResidue(x * x - z * z, x * x, m);
    C.NonzeroProduct(x * x - z * z, x * x - z * z, m);
  }

  /** On a smooth curve no point of order two has x = 1 or x = -1. */
  lemma NotBoth(c: Shape, x: int)
    requires Smooth(c) && (x * x - 1) % c.m == 0
    ensures Cubic(x, c.a) % c.m != 0
  {
    hide Cong, Cubic, C.NoZeroDivisors;
    var a, m, e, f := c.a, c.m, x * x - 1, Cubic(x, c.a);
    L.Positive(m);
    if f % m == 0 {
      CubicAtOne(x, a);
      L.ZeroProduct(e, x + a, m);
      L.ResidueZero(f, m);
      L.ResidueZero(e * (x + a), m);
      CongSub(f, 0, e * (x + a), 0, m);
      L.ResidueZero(2 * x + a, m);
      L.ZeroProduct(2 * x + a, a - 2 * x, m);
      L.ResidueZero((2 * x + a) * (a - 2 * x), m);
      L.ZeroProduct(e, 4, m);
      L.ResidueZero(e * 4, m);
      CongAdd((2 * x + a) * (a - 2 * x), 0, e * 4, 0, m);
      L.ResidueZero(a * a - 4, m);
      assert false;
    }
  }

  lemma CubicAtOne(x: int, a: int)
    ensures 2 * x + a == Cubic(x, a) - (x * x - 1) * (x + a)
    ensures a * a - 4 == (2 * x + a) * (a - 2 * x) + (x * x - 1) * 4
  {
  }

  /** 2p, if finite: its x-coordinate times four times the cubic is a square. */
  lemma TangentValue(c: Shape, p: Affine, r: Affine)
    requires c.m > 0 && p.At? && r.At? && On(c, p) && Tangent(c, p, r)
    ensures Cong(r.x * (4 * Cubic(p.x, c.a)), Square(p.x * p.x - 1), c.m)
  {
    hide Cong, Cubic, Square;
    var x, m, f := p.x, c.m, Cubic(p.x, c.a);
    var t, d, k := 3 * (x * x) + 2 * (c.a * x) + 1, 4 * (c.b * (p.y * p.y)), c.a + 2 * x;
    CongScale(4, c.b * (p.y * p.y), f, m);
    CongScale(r.x, d, 4 * f, m);
    CongScale(k, d, 4 * f, m);
    CongRefl(t * t, m);
    CongSub(t * t, t * t, k * d, k * (4 * f), m);
    TangentIdentity(x, c.a);
    L.CongSym(r.x * d, r.x * (4 * f), m);
    CongTrans(r.x * (4 * f), r.x * d, t * t - k * d, m);
    CongTrans(r.x * (4 * f), t * t - k * d, Square(x * x - 1), m);
  }

  lemma ProductZero(a: int, b: int, m: int)
    requires C.NoZeroDivisors(m)
    ensures (a * b) % m == 0 <==> a % m == 0 || b % m == 0
  {
    hide C.NoZeroDivisors;
    L.Positive(m);
    if a % m == 0 {
      L.ZeroProduct(a, b, m);
    } else if b % m == 0 {
      L.ZeroProduct(b, a, m);
    } else {
      C.NonzeroProduct(a, b, m);
    }
  }

  /** y is zero exactly where the cubic is. */
  lemma CubicZero(c: Shape, p: Affine)
    requires Smooth(c) && p.At? && On(c, p)
    ensures p.y % c.m == 0 <==> Cubic(p.x, c.a) % c.m == 0
  {
    hide Cong, Cubic, C.NoZeroDivisors;
    var y, m := p.y, c.m;
    L.Positive(m);
    L.SameResidue(c.b * (y * y), Cubic(p.x, c.a), m);
    ProductZero(y, y, m);
    ProductZero(c.b, y * y, m);
  }

  lemma FourTimes(f: int, m: int)
    requires C.NoZeroDivisors(m)
    ensures 2 % m != 0 && 4 % m != 0
    ensures (4 * f) % m == 0 <==> f % m == 0
  {
    hide C.NoZeroDivisors;
    L.Positive(m);
    SmallMod(2, m);
    C.NonzeroProduct(2, 2, m);
    L.DropFactor(f, 4, m);
  }

  lemma AtDoubles(c: Shape, p: Affine, q: Affine, x: int, z: int)
    requires Smooth(c) && p.At? && On(c, p) && Adds(c, p, p, q) && Stands(c, p, x, z)
    ensures Stands(c, q, DoubleX(x, z), DoubleZ(c.a, x, z))
  {
    hide Cong, Cubic, Square, C.NoZeroDivisors, DoubleX, DoubleZ, Tangent;
    var m, w, f := c.m, Square(z * z), Cubic(p.x, c.a);
    var e := Square(p.x * p.x - 1);
    L.Positive(m);
    DoubleCong(c.a, x, p.x * z, z, m);
    DoubleScaled(c.a, p.x, z);
    SquareNonzero(z, m);
    FourTimes(f, m);
    CubicZero(c, p);
    CongRefl(p.x, m);
    L.DropFactor(p.y, 2, m);
    L.SameResidue(DoubleX(x, z), w * e, m);
    L.SameResidue(DoubleZ(c.a, x, z), w * (4 * f), m);
    if q.Origin? {
      L.ZeroProduct(4 * f, w, m);
      if (p.x * p.x - 1) % m == 0 {
        NotBoth(c, p.x);
        assert false;
      }
      SquareIsZero(p.x * p.x - 1, m);
      C.NonzeroProduct(w, e, m);
    } else {
      C.NonzeroProduct(w, 4 * f, m);
      TangentValue(c, p, q);
      Quotient(q.x, DoubleX(x, z), DoubleZ(c.a, x, z), w, e, 4 * f, m);
    }
  }

  /** A quotient survives a common factor. */
  lemma Quotient(r: int, n: int, d: int, w: int, n': int, d': int, m: int)
    requires m > 0 && Cong(n, w * n', m) && Cong(d, w * d', m) && Cong(r * d', n', m)
    ensures Cong(n, r * d, m)
  {
    hide Cong;
    CongScale(r, d, w * d', m);
    CongScale(w, r * d', n', m);
    assert r * (w * d') == w * (r * d');
    L.CongSym(w * (r * d'), w * n', m);
    L.CongSym(r * d, r * (w * d'), m);
    CongTrans(n, w * n', w * (r * d'), m);
    CongTrans(n, r * (w * d'), r * d, m);
  }

  lemma SquareIsZero(a: int, m: int)
    requires C.NoZeroDivisors(m)
    ensures Square(a) % m == 0 <==> a % m == 0
  {
    hide C.NoZeroDivisors;
    L.Positive(m);
    if a % m == 0 {
      L.ZeroProduct(a, a, m);
    } else {
      C.NonzeroProduct(a, a, m);
    }
  }

  lemma SquareNonzero(z: int, m: int)
    requires C.NoZeroDivisors(m) && z % m != 0
    ensures Square(z * z) % m != 0
  {
    hide C.NoZeroDivisors, Square;
    C.NonzeroProduct(z, z, m);
    SquareIsZero(z * z, m);
  }

  /** The doubling formulas compute the x-coordinate of 2p, for every point p. */
  lemma DoubleStands(c: Shape, p: Affine, q: Affine, x: int, z: int)
    requires Smooth(c) && On(c, p) && Adds(c, p, p, q) && Stands(c, p, x, z)
    ensures Stands(c, q, DoubleX(x, z), DoubleZ(c.a, x, z))
  {
    hide DoubleX, DoubleZ, C.NoZeroDivisors, Cong;
    if p.Origin? {
      OriginDoubles(c.a, x, z, c.m);
    } else {
      AtDoubles(c, p, q, x, z);
    }
  }

  // ----- differential addition

  lemma SumSwap(u: int, x: int, z: int, x': int, z': int)
    ensures SumX(x', z', x, z) == SumX(x, z, x', z') && SumZ(u, x', z', x, z) == SumZ(u, x, z, x', z')
  {
    hide Square;
    SquareNegated(x' * z - x * z');
  }

  lemma SquareNegated(a: int)
    ensures Square(-a) == Square(a)
  {
  }

  /** The origin plus the point over u. */
  lemma OriginSums(u: int, x: int, z: int, x': int, z': int, m: int)
    requires C.NoZeroDivisors(m) && z % m == 0 && x % m != 0 && z' % m != 0 && u % m != 0
    requires Cong(x', u * z', m)
    ensures SumZ(u, x, z, x', z') % m != 0 && Cong(SumX(x, z, x', z'), u * SumZ(u, x, z, x', z'), m)
  {
    hide Cong, Square, C.NoZeroDivisors;
    L.Positive(m);
    var v, n, d := x * z', x * x' - z * z', x' * z - x * z';
    L.ZeroProduct(z, z', m);
    L.ZeroProduct(z, x', m);
    L.ResidueZero(z * z', m);
    L.ResidueZero(z * x', m);
    CongRefl(v, m);
    CongSub(x' * z, 0, v, v, m);
    CongSquare(d, -v, m);
    SquareNegated(v);
    CongScale(u, Square(d), Square(v), m);
    CongScale(4, u * Square(d), u * Square(v), m);
    CongScale(x, x', u * z', m);
    CongSub(x * x', x * (u * z'), z * z', 0, m);
    assert x * (u * z') == u * v;
    CongSquare(n, u * v, m);
    CongScale(4, Square(n), Square(u * v), m);
    SquareMul(u, v);
    CongScale(u, SumZ(u, x, z, x', z'), 4 * (u * Square(v)), m);
    TwiceOut(u, Square(v));
    L.CongSym(u * SumZ(u, x, z, x', z'), u * (4 * (u * Square(v))), m);
    CongTrans(SumX(x, z, x', z'), 4 * (Square(u) * Square(v)), u * SumZ(u, x, z, x', z'), m);
    C.NonzeroProduct(x, z', m);
    SquareIsZero(v, m);
    C.NonzeroProduct(u, Square(v), m);
    FourTimes(u * Square(v), m);
    L.SameResidue(SumZ(u, x, z, x', z'), 4 * (u * Square(v)), m);
  }

  lemma TwiceOut(u: int, s: int)
    ensures u * (4 * (u * s)) == 4 * (Square(u) * s)
  {
  }

  /** Two points with the same x are equal or opposite. */
  lemma EqualOrOpposite(c: Shape, p: Affine, q: Affine)
    requires Smooth(c) && p.At? && q.At? && On(c, p) && On(c, q) && Cong(p.x, q.x, c.m)
    ensures (p.y + q.y) % c.m == 0 || (p.y - q.y) % c.m == 0
  {
    hide Cong, Cubic, C.NoZeroDivisors;
    var m, y, y' := c.m, p.y, q.y;
    L.Positive(m);
    CubicCong(p.x, q.x, c.a, m);
    CongTrans(c.b * (y * y), Cubic(p.x, c.a), Cubic(q.x, c.a), m);
    L.CongSym(c.b * (y' * y'), Cubic(q.x, c.a), m);
    CongTrans(c.b * (y * y), Cubic(q.x, c.a), c.b * (y' * y'), m);
    L.DifferenceZero(c.b * (y' * y'), c.b * (y * y), m);
    SquareSum(y', y);
    MulDistrib(c.b, y' * y', y * y);
    if (y + y') % m != 0 && (y - y') % m != 0 {
      L.DropFactor(y - y', -1, m);
      NegatedOne(m);
      C.NonzeroProduct(y' + y, y' - y, m);
      C.NonzeroProduct(c.b, (y' + y) * (y' - y), m);
      assert false;
    }
  }

  lemma NegatedOne(m: int)
    requires m > 1
    ensures (-1) % m != 0
  {
    DivModUnique(-1, -1, m - 1, m);
  }

  lemma CubicCong(x: int, y: int, a: int, m: int)
    requires m > 0 && Cong(x, y, m)
    ensures Cong(Cubic(x, a), Cubic(y, a), m)
  {
    hide Cong;
    CongSquare(x, y, m);
    CongScale(a, x, y, m);
    CongAdd(x * x, y * y, a * x, a * y, m);
    CongRefl(1, m);
    CongAdd(x * x + a * x, y * y + a * y, 1, 1, m);
    CongMul(x, y, x * x + a * x + 1, y * y + a * y + 1, m);
  }

  /** o is the opposite of p. */
  ghost predicate Opposite(c: Shape, p: Affine, o: Affine)
    requires c.m > 0
  {
    p.Origin? == o.Origin? && (p.At? ==> Cong(p.x, o.x, c.m) && (p.y + o.y) % c.m == 0)
  }

  /** The numerators of p + q and q - p over the common denominator. */
  lemma ChordPair(c: Shape, p: Affine, q: Affine, s: int, u: int)
    requires Smooth(c) && p.At? && q.At? && On(c, p) && On(c, q) && !Cong(p.x, q.x, c.m)
    requires var d, k := q.x - p.x, (c.a + p.x + q.x) * ((q.x - p.x) * (q.x - p.x));
             && Cong(s * (d * d), c.b * ((q.y - p.y) * (q.y - p.y)) - k, c.m)
             && Cong(u * (d * d), c.b * ((q.y + p.y) * (q.y + p.y)) - k, c.m)
    ensures (q.x - p.x) % c.m != 0
    ensures Cong(s * (u * Square(q.x - p.x)), Square(p.x * q.x - 1), c.m)
  {
    hide Cong, Cubic, Square, C.NoZeroDivisors;
    var m, d := c.m, q.x - p.x;
    var k := (c.a + p.x + q.x) * (d * d);
    var f, f' := Cubic(p.x, c.a), Cubic(q.x, c.a);
    L.Positive(m);
    L.DifferenceZero(q.x, p.x, m);
    Numerators(c.b, p.y, q.y);
    PairProduct(s * (d * d), u * (d * d), c.b * (p.y * p.y), c.b * (q.y * q.y), 2 * (c.b * (p.y * q.y)), f, f', k, m);
    ChordProduct(p.x, q.x, c.a);
    SquareIs(d);
    MoveSquare(s, u, d * d);
    SquareIsZero(d, m);
    CancelRight(s * (u * Square(d)), Square(p.x * q.x - 1), Square(d), m);
  }

  lemma MoveSquare(s: int, u: int, d: int)
    ensures s * d * (u * d) == s * (u * d) * d
  {
  }

  /** (n - w)(n + w) with w^2 = 4 g g'. */
  lemma PairProduct(a: int, b: int, g: int, g': int, w: int, f: int, f': int, k: int, m: int)
    requires m > 0 && Cong(g, f, m) && Cong(g', f', m) && w * w == 4 * (g * g')
    requires Cong(a, g + g' - w - k, m) && Cong(b, g + g' + w - k, m)
    ensures Cong(a * b, Square(f + f' - k) - 4 * (f * f'), m)
  {
    hide Cong, Square;
    var n := f + f' - k;
    CongAdd(g, f, g', f', m);
    CongRefl(w, m);
    CongRefl(k, m);
    CongSub(g + g', f + f', k, k, m);
    CongSub(g + g' - k, n, w, w, m);
    CongAdd(g + g' - k, n, w, w, m);
    CongTrans(a, g + g' - w - k, n - w, m);
    CongTrans(b, g + g' + w - k, n + w, m);
    CongMul(a, n - w, b, n + w, m);
    Conjugates(n, w);
    CongMul(g, f, g', f', m);
    CongScale(4, g * g', f * f', m);
    CongRefl(Square(n), m);
    CongSub(Square(n), Square(n), w * w, 4 * (f * f'), m);
    CongTrans(a * b, Square(n) - w * w, Square(n) - 4 * (f * f'), m);
  }

  lemma Conjugates(n: int, w: int)
    ensures (n - w) * (n + w) == Square(n) - w * w
  {
  }

  lemma SquareIs(a: int)
    ensures Square(a) == a * a
  {
  }

  lemma CancelRight(a: int, b: int, k: int, m: int)
    requires C.NoZeroDivisors(m) && k % m != 0 && Cong(a * k, b * k, m)
    ensures Cong(a, b, m)
  {
    hide Cong, C.NoZeroDivisors;
    L.Positive(m);
    CongRefl(a * k, m);
    L.CancelFactor(a * k, a, b, k, m);
  }

  lemma Numerators(b: int, y: int, y': int)
    ensures b * ((y' - y) * (y' - y)) == b * (y * y) + b * (y' * y') - 2 * (b * (y * y'))
    ensures b * ((y' + y) * (y' + y)) == b * (y * y) + b * (y' * y') + 2 * (b * (y * y'))
    ensures 2 * (b * (y * y')) * (2 * (b * (y * y'))) == 4 * (b * (y * y) * (b * (y' * y')))
  {
    assert (y' - y) * (y' - y) == y * y + y' * y' - 2 * (y * y');
    assert (y' + y) * (y' + y) == y * y + y' * y' + 2 * (y * y');
    assert y * y' * (y * y') == y * y * (y' * y');
    Regroup(b, b, y * y', y * y');
    Regroup(b, b, y * y, y' * y');
  }

  /** q - p by the chord through q and the opposite of p. */
  lemma ChordDifference(c: Shape, p: Affine, q: Affine, o: Affine, d: Affine)
    requires c.m > 0 && p.At? && q.At? && o.At? && d.At? && Opposite(c, p, o) && Chord(c, q, o, d)
    ensures var e, t := q.x - p.x, q.y + p.y;
            Cong(d.x * (e * e), c.b * (t * t) - (c.a + p.x + q.x) * (e * e), c.m)
  {
    hide Cong;
    var m := c.m;
    var e, t, e', t' := q.x - p.x, q.y + p.y, o.x - q.x, o.y - q.y;
    L.CongSym(p.x, o.x, m);
    CongRefl(q.x, m);
    CongRefl(q.y, m);
    CongSub(q.x, q.x, o.x, p.x, m);
    CongSquare(q.x - o.x, e, m);
    SquareNegated(q.x - o.x);
    L.ResidueZero(p.y + o.y, m);
    CongRefl(p.y + q.y, m);
    CongSub(p.y + o.y, 0, p.y + q.y, p.y + q.y, m);
    CongSquare(t', -t, m);
    SquareNegated(t);
    assert e' * e' == (q.x - o.x) * (q.x - o.x);
    CongScale(d.x, e' * e', e * e, m);
    CongScale(c.b, t' * t', t * t, m);
    CongRefl(c.a + q.x, m);
    CongAdd(c.a + q.x, c.a + q.x, o.x, p.x, m);
    CongMul(c.a + q.x + o.x, c.a + q.x + p.x, e' * e', e * e, m);
    CongSub(c.b * (t' * t'), c.b * (t * t), (c.a + q.x + o.x) * (e' * e'), (c.a + q.x + p.x) * (e * e), m);
    L.CongSym(d.x * (e' * e'), d.x * (e * e), m);
    CongTrans(d.x * (e * e), d.x * (e' * e'), c.b * (t' * t') - (c.a + q.x + o.x) * (e' * e'), m);
    CongTrans(d.x * (e * e), c.b * (t' * t') - (c.a + q.x + o.x) * (e' * e'),
              c.b * (t * t) - (c.a + p.x + q.x) * (e * e), m);
  }

  /** Everything a differential addition is given: p + q = s, p + o = 0 and q + o = d over u. */
  ghost predicate Differential(c: Shape, p: Affine, q: Affine, o: Affine, s: Affine, d: Affine, u: int) {
    && Smooth(c) && On(c, p) && On(c, q) && Opposite(c, p, o)
    && Adds(c, p, q, s) && Adds(c, q, o, d) && d.At? && Cong(d.x, u, c.m) && u % c.m != 0
  }

  /** Both operands finite and over the same x: then q = -p, and q - p is the tangent's point. */
  lemma OppositeParts(c: Shape, p: Affine, q: Affine, o: Affine, s: Affine, d: Affine, u: int)
    requires Differential(c, p, q, o, s, d, u) && p.At? && q.At? && Cong(p.x, q.x, c.m)
    ensures s.Origin? && Tangent(c, q, d) && q.y % c.m != 0
  {
    hide Cong, Cubic, C.NoZeroDivisors, Tangent, Chord;
    var m := c.m;
    L.Positive(m);
    L.CongSym(p.x, q.x, m);
    CongTrans(q.x, p.x, o.x, m);
    EqualOrOpposite(c, p, q);
    SignCases(p.y, q.y, o.y, m);
  }

  lemma SignCases(y: int, y': int, o: int, m: int)
    requires m > 1 && (y + o) % m == 0 && (y' + o) % m != 0
    requires (y + y') % m == 0 || (y - y') % m == 0
    ensures (y + y') % m == 0 && y' % m != 0
  {
    if (y - y') % m == 0 {
      Cancels(y, o, y', m);
    }
    if y' % m == 0 {
      Cancels(y', y, 0, m);
      Cancels(y, o, 0, m);
      L.ZeroProduct(y', -1, m);
      Cancels(0, o, y', m);
    }
  }

  /** Then the sum's X is not zero, because 2q is not over 0. */
  lemma OppositeSums(c: Shape, p: Affine, q: Affine, d: Affine, u: int)
    requires Smooth(c) && p.At? && q.At? && On(c, q) && Cong(p.x, q.x, c.m)
    requires d.At? && Tangent(c, q, d) && q.y % c.m != 0 && Cong(d.x, u, c.m) && u % c.m != 0
    ensures (q.x - p.x) % c.m == 0 && Square(p.x * q.x - 1) % c.m != 0
  {
    hide Cong, Cubic, Square, C.NoZeroDivisors, Tangent;
    var m, f := c.m, Cubic(q.x, c.a);
    L.Positive(m);
    L.DifferenceZero(q.x, p.x, m);
    TangentValue(c, q, d);
    CongScale(4 * f, d.x, u, m);
    L.SameResidue(d.x * (4 * f), u * (4 * f), m);
    L.SameResidue(d.x * (4 * f), Square(q.x * q.x - 1), m);
    CubicZero(c, q);
    FourTimes(f, m);
    C.NonzeroProduct(u, 4 * f, m);
    CongScale(q.x, p.x, q.x, m);
    CongRefl(1, m);
    CongSub(p.x * q.x, q.x * q.x, 1, 1, m);
    CongSquare(p.x * q.x - 1, q.x * q.x - 1, m);
    L.SameResidue(Square(p.x * q.x - 1), Square(q.x * q.x - 1), m);
  }

  /** With a + b = 0 and a = e, also e + b = 0. */
  lemma Cancels(a: int, b: int, e: int, m: int)
    requires m > 0 && (a + b) % m == 0 && (a - e) % m == 0
    ensures (e + b) % m == 0
  {
    hide Cong;
    L.ResidueZero(a + b, m);
    L.ResidueZero(a - e, m);
    CongSub(a + b, 0, a - e, 0, m);
    L.ResidueZero(e + b, m);
  }

  /** The sum's coordinates over the common factor (z z')^2. */
  lemma SumOver(u: int, px: int, x: int, z: int, qx: int, x': int, z': int, m: int)
    requires C.NoZeroDivisors(m) && z % m != 0 && z' % m != 0 && Cong(x, px * z, m) && Cong(x', qx * z', m)
    ensures Square(z * z') % m != 0
    ensures Cong(SumX(x, z, x', z'), Square(z * z') * (4 * Square(px * qx - 1)), m)
    ensures Cong(SumZ(u, x, z, x', z'), Square(z * z') * (4 * (u * Square(qx - px))), m)
  {
    hide Cong, Square, C.NoZeroDivisors, SumX, SumZ;
    L.Positive(m);
    SumCong(u, x, z, x', z', px * z, qx * z', m);
    SumScaled(u, px, z, qx, z');
    C.NonzeroProduct(z, z', m);
    SquareIsZero(z * z', m);
  }

  lemma ZeroOver(sx: int, sz: int, w: int, n: int, v: int, u: int, m: int)
    requires C.NoZeroDivisors(m) && w % m != 0 && n % m != 0 && v % m == 0
    requires Cong(sx, w * (4 * n), m) && Cong(sz, w * (4 * (u * v)), m)
    ensures sz % m == 0 && sx % m != 0
  {
    hide Cong, C.NoZeroDivisors;
    L.Positive(m);
    FourTimes(n, m);
    ProductZero(w, 4 * n, m);
    L.SameResidue(sx, w * (4 * n), m);
    ProductZero(u, v, m);
    FourTimes(u * v, m);
    ProductZero(w, 4 * (u * v), m);
    L.SameResidue(sz, w * (4 * (u * v)), m);
  }

  lemma FiniteOver(s: int, sx: int, sz: int, w: int, n: int, v: int, u: int, m: int)
    requires C.NoZeroDivisors(m) && w % m != 0 && v % m != 0 && u % m != 0
    requires Cong(sx, w * (4 * n), m) && Cong(sz, w * (4 * (u * v)), m) && Cong(s * (u * v), n, m)
    ensures sz % m != 0 && Cong(sx, s * sz, m)
  {
    hide Cong, C.NoZeroDivisors;
    L.Positive(m);
    C.NonzeroProduct(u, v, m);
    FourTimes(u * v, m);
    C.NonzeroProduct(w, 4 * (u * v), m);
    L.SameResidue(sz, w * (4 * (u * v)), m);
    CongScale(4, s * (u * v), n, m);
    assert s * (4 * (u * v)) == 4 * (s * (u * v));
    Quotient(s, sx, sz, w, 4 * n, 4 * (u * v), m);
  }

  lemma SameX(c: Shape, p: Affine, q: Affine, o: Affine, s: Affine, d: Affine, u: int,
              x: int, z: int, x': int, z': int)
    requires Differential(c, p, q, o, s, d, u) && p.At? && q.At? && Cong(p.x, q.x, c.m)
    requires Stands(c, p, x, z) && Stands(c, q, x', z')
    ensures Stands(c, s, SumX(x, z, x', z'), SumZ(u, x, z, x', z'))
  {
    hide Cong, Square, C.NoZeroDivisors, Tangent, Chord, SumX, SumZ, Adds, On;
    SumOver(u, p.x, x, z, q.x, x', z', c.m);
    SquareIsZero(q.x - p.x, c.m);
    OppositeParts(c, p, q, o, s, d, u);
    OppositeSums(c, p, q, d, u);
    ZeroOver(SumX(x, z, x', z'), SumZ(u, x, z, x', z'), Square(z * z'), Square(p.x * q.x - 1),
             Square(q.x - p.x), u, c.m);
  }

  lemma DifferentX(c: Shape, p: Affine, q: Affine, o: Affine, s: Affine, d: Affine, u: int,
                   x: int, z: int, x': int, z': int)
    requires Differential(c, p, q, o, s, d, u) && p.At? && q.At? && !Cong(p.x, q.x, c.m)
    requires Stands(c, p, x, z) && Stands(c, q, x', z')
    ensures Stands(c, s, SumX(x, z, x', z'), SumZ(u, x, z, x', z'))
  {
    hide Cong, Square, C.NoZeroDivisors, Tangent, Chord, SumX, SumZ, Adds, On;
    SumOver(u, p.x, x, z, q.x, x', z', c.m);
    SquareIsZero(q.x - p.x, c.m);
    ChordsMeet(c, p, q, o, s, d, u);
    FiniteOver(s.x, SumX(x, z, x', z'), SumZ(u, x, z, x', z'), Square(z * z'), Square(p.x * q.x - 1),
               Square(q.x - p.x), u, c.m);
  }

  lemma ChordsMeet(c: Shape, p: Affine, q: Affine, o: Affine, s: Affine, d: Affine, u: int)
    requires Differential(c, p, q, o, s, d, u) && p.At? && q.At? && !Cong(p.x, q.x, c.m)
    ensures s.At? && (q.x - p.x) % c.m != 0
    ensures Cong(s.x * (u * Square(q.x - p.x)), Square(p.x * q.x - 1), c.m)
  {
    hide Cong, Cubic, Square, C.NoZeroDivisors, Tangent;
    var m, t := c.m, q.x - p.x;
    L.Positive(m);
    if Cong(q.x, o.x, m) {
      L.CongSym(q.x, o.x, m);
      CongTrans(p.x, o.x, q.x, m);
      assert false;
    }
    ChordDifference(c, p, q, o, d);
    CongScale(t * t, d.x, u, m);
    L.CongSym(d.x * (t * t), u * (t * t), m);
    CongTrans(u * (t * t), d.x * (t * t),
              c.b * ((q.y + p.y) * (q.y + p.y)) - (c.a + p.x + q.x) * (t * t), m);
    ChordPair(c, p, q, s.x, u);
  }

  /** One operand at the origin, the other over u. */
  lemma OneAtOrigin(c: Shape, p: Affine, q: Affine, o: Affine, s: Affine, d: Affine, u: int,
                    x: int, z: int, x': int, z': int)
    requires Differential(c, p, q, o, s, d, u) && (p.Origin? || q.Origin?)
    requires Stands(c, p, x, z) && Stands(c, q, x', z')
    ensures Stands(c, s, SumX(x, z, x', z'), SumZ(u, x, z, x', z'))
  {
    hide Cong, C.NoZeroDivisors, Tangent, Chord, SumX, SumZ;
    var m := c.m;
    L.Positive(m);
    if p.Origin? {
      CongTrans(q.x, d.x, u, m);
      OverU(u, q.x, s.x, x', z', m);
      OriginSums(u, x, z, x', z', m);
      Divides(u, s.x, SumX(x, z, x', z'), SumZ(u, x, z, x', z'), m);
    } else {
      CongTrans(p.x, o.x, d.x, m);
      CongTrans(p.x, d.x, u, m);
      OverU(u, p.x, s.x, x, z, m);
      OriginSums(u, x', z', x, z, m);
      SumSwap(u, x, z, x', z');
      Divides(u, s.x, SumX(x, z, x', z'), SumZ(u, x, z, x', z'), m);
    }
  }

  lemma OverU(u: int, px: int, sx: int, x: int, z: int, m: int)
    requires m > 0 && Cong(px, u, m) && Cong(px, sx, m) && Cong(x, px * z, m)
    ensures Cong(x, u * z, m) && Cong(u, sx, m)
  {
    hide Cong;
    CongScale(z, px, u, m);
    CongTrans(x, px * z, u * z, m);
    L.CongSym(px, u, m);
    CongTrans(u, px, sx, m);
  }

  lemma Divides(u: int, r: int, n: int, d: int, m: int)
    requires m > 0 && Cong(u, r, m) && Cong(n, u * d, m)
    ensures Cong(n, r * d, m)
  {
    hide Cong;
    CongScale(d, u, r, m);
    CongTrans(n, u * d, r * d, m);
  }

  /** The differential addition computes the x-coordinate of p + q from those of p, q and q - p,
      for all points p and q whose difference is a point over u, u not 0. */
  lemma SumStands(c: Shape, p: Affine, q: Affine, o: Affine, s: Affine, d: Affine, u: int,
                  x: int, z: int, x': int, z': int)
    requires Differential(c, p, q, o, s, d, u) && Stands(c, p, x, z) && Stands(c, q, x', z')
    ensures Stands(c, s, SumX(x, z, x', z'), SumZ(u, x, z, x', z'))
  {
    hide SumX, SumZ, Stands, Adds, On, Opposite, Cong, C.NoZeroDivisors;
    L.Positive(c.m);
    if p.At? && q.At? && Cong(p.x, q.x, c.m) {
      SameX(c, p, q, o, s, d, u, x, z, x', z');
    } else if p.At? && q.At? {
      DifferentX(c, p, q, o, s, d, u, x, z, x', z');
    } else {
      OneAtOrigin(c, p, q, o, s, d, u, x, z, x', z');
    }
  }

  // ----- multiples of a point

  /** The multiples of one point: a homomorphism from the integers to the curve. */
  ghost predicate Multiples(c: Shape, pt: int -> Affine)
    requires c.m > 0
  {
    && pt(0) == Origin
    && (forall i :: On(c, pt(i)))
    && (forall i, j :: Adds(c, pt(i), pt(j), pt(i + j)))
  }

  lemma OppositeMultiple(c: Shape, pt: int -> Affine, i: int)
    requires c.m > 0 && Multiples(c, pt)
    ensures Opposite(c, pt(i), pt(-i))
  {
    hide Cong, Tangent, Chord;
    assert Adds(c, pt(i), pt(-i), pt(i + -i));
  }

  /** From n and n + 1 to 2n and 2n + 1: with the roles exchanged, to 2n + 2 and 2n + 1. */
  lemma RungStands(c: Shape, pt: int -> Affine, n: int, k: int, u: int, x: int, z: int, x': int, z': int)
    requires Smooth(c) && Multiples(c, pt) && (k == n + 1 || k == n - 1)
    requires pt(1).At? && Cong(pt(1).x, u, c.m) && u % c.m != 0
    requires Stands(c, pt(n), x, z) && Stands(c, pt(k), x', z')
    ensures Stands(c, pt(2 * n), DoubleX(x, z), DoubleZ(c.a, x, z))
    ensures Stands(c, pt(n + k), SumX(x, z, x', z'), SumZ(u, x, z, x', z'))
  {
    hide Cong, Tangent, Chord, Adds, Stands, On, C.NoZeroDivisors, DoubleX, DoubleZ, SumX, SumZ;
    L.Positive(c.m);
    assert Adds(c, pt(n), pt(n), pt(n + n));
    assert n + n == 2 * n;
    DoubleStands(c, pt(n), pt(2 * n), x, z);
    OppositeMultiple(c, pt, n);
    OppositeMultiple(c, pt, 1);
    L.CongSym(pt(1).x, pt(-1).x, c.m);
    CongTrans(pt(-1).x, pt(1).x, u, c.m);
    assert Adds(c, pt(n), pt(k), pt(n + k));
    assert Adds(c, pt(k), pt(-n), pt(k + -n));
    assert k + -n == 1 || k + -n == -1;
    SumStands(c, pt(n), pt(k), pt(-n), pt(n + k), pt(k + -n), u, x, z, x', z');
  }
}
