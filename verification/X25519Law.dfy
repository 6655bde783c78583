/** What the ladder of X25519 is for: on the curve v^2 = u^3 + 486662 u^2 + u and its twist it
    computes the x-coordinate of the k-th multiple of a point. */
module X25519Law {
  import opened Arithmetic
  import opened Fe25519
  import opened X25519
  import opened Montgomery
  import C = Curve
  import L = CurveLaw
  import ModExp

  const A: int := 486662

  // ----- one step

  lemma DoubleIdentity(x: int, z: int)
    ensures var aa, bb := (x + z) * (x + z), (x - z) * (x - z);
            && aa - bb == 4 * (x * z) && aa * bb == (x * x - z * z) * (x * x - z * z)
            && aa + (aa - bb) * A24 == x * x + A * (x * z) + z * z
  {
    assert (x + z) * (x - z) == x * x - z * z;
    assert (x + z) * (x + z) * ((x - z) * (x - z)) == (x + z) * (x - z) * ((x + z) * (x - z));
  }

  lemma SumIdentity(x: int, z: int, x': int, z': int)
    ensures var da, cb := (x' - z') * (x + z), (x' + z') * (x - z);
            da + cb == 2 * (x * x' - z * z') && da - cb == 2 * (x' * z - x * z')
  {
  }

  /** Four times 121665 plus two is the curve's coefficient, and a step is the doubling and the
      differential addition of the curve with that coefficient, modulo every m. */
  lemma StepFormulas(u: int, s: Ladder, m: int)
    requires m > 0
    ensures 4 * A24 + 2 == A
    ensures var n, x, z, x', z' := Step(u, s, m), s.x2, s.z2, s.x3, s.z3;
            && Cong(n.x2, (x * x - z * z) * (x * x - z * z), m)
            && Cong(n.z2, 4 * (x * z * (x * x + A * (x * z) + z * z)), m)
            && Cong(n.x3, 4 * ((x * x' - z * z') * (x * x' - z * z')), m)
            && Cong(n.z3, 4 * (u * ((x' * z - x * z') * (x' * z - x * z'))), m)
  {
    hide Cong, C.Mul, C.Add, C.Sub;
    StepDouble(u, s, m);
    StepSum(u, s, m);
  }

  lemma StepDouble(u: int, s: Ladder, m: int)
    requires m > 0
    ensures var n, x, z := Step(u, s, m), s.x2, s.z2;
            && Cong(n.x2, (x * x - z * z) * (x * x - z * z), m)
            && Cong(n.z2, 4 * (x * z * (x * x + A * (x * z) + z * z)), m)
  {
    hide Cong, C.Mul, C.Add, C.Sub;
    var x, z := s.x2, s.z2;
    CongRefl(x, m);
    CongRefl(z, m);
    CongRefl(A24, m);
    C.OpAdd(x, x, z, z, m);
    C.OpSub(x, x, z, z, m);
    var a, b := C.Add(x, z, m), C.Sub(x, z, m);
    C.OpMul(a, x + z, a, x + z, m);
    C.OpMul(b, x - z, b, x - z, m);
    var aa, bb, aa', bb' := C.Mul(a, a, m), C.Mul(b, b, m), (x + z) * (x + z), (x - z) * (x - z);
    C.OpSub(aa, aa', bb, bb', m);
    C.OpMul(aa, aa', bb, bb', m);
    var e := C.Sub(aa, bb, m);
    C.OpMul(e, aa' - bb', A24, A24, m);
    C.OpAdd(aa, aa', C.Mul(e, A24, m), (aa' - bb') * A24, m);
    C.OpMul(e, aa' - bb', C.Add(aa, C.Mul(e, A24, m), m), aa' + (aa' - bb') * A24, m);
    DoubleIdentity(x, z);
    MulAssoc(4, x * z, x * x + A * (x * z) + z * z);
  }

  lemma StepSum(u: int, s: Ladder, m: int)
    requires m > 0
    ensures var n, x, z, x', z' := Step(u, s, m), s.x2, s.z2, s.x3, s.z3;
            && Cong(n.x3, 4 * ((x * x' - z * z') * (x * x' - z * z')), m)
            && Cong(n.z3, 4 * (u * ((x' * z - x * z') * (x' * z - x * z'))), m)
  {
    hide Cong, C.Mul, C.Add, C.Sub;
    var x, z, x', z' := s.x2, s.z2, s.x3, s.z3;
    CongRefl(x, m);
    CongRefl(z, m);
    CongRefl(x', m);
    CongRefl(z', m);
    CongRefl(u, m);
    C.OpAdd(x, x, z, z, m);
    C.OpSub(x, x, z, z, m);
    C.OpAdd(x', x', z', z', m);
    C.OpSub(x', x', z', z', m);
    var a, b, c, d := C.Add(x, z, m), C.Sub(x, z, m), C.Add(x', z', m), C.Sub(x', z', m);
    C.OpMul(d, x' - z', a, x + z, m);
    C.OpMul(c, x' + z', b, x - z, m);
    var da, cb := C.Mul(d, a, m), C.Mul(c, b, m);
    C.OpAdd(da, (x' - z') * (x + z), cb, (x' + z') * (x - z), m);
    C.OpSub(da, (x' - z') * (x + z), cb, (x' + z') * (x - z), m);
    SumIdentity(x, z, x', z');
    var v, w := x * x' - z * z', x' * z - x * z';
    var sum, diff := C.Add(da, cb, m), C.Sub(da, cb, m);
    C.OpMul(sum, 2 * v, sum, 2 * v, m);
    C.OpMul(diff, 2 * w, diff, 2 * w, m);
    C.OpMul(u, u, C.Mul(diff, diff, m), 2 * w * (2 * w), m);
    TwiceSquared(u, v, w);
  }

  lemma TwiceSquared(u: int, v: int, w: int)
    ensures 2 * v * (2 * v) == 4 * (v * v) && u * (2 * w * (2 * w)) == 4 * (u * (w * w))
  {
  }

  // ----- the whole ladder

  /** pt gives the multiples of a point over u, on the curve or, by the choice of b, on its twist. */
  ghost predicate PointOver(b: int, pt: int -> Affine, u: int, m: int) {
    Smooth(Shape(A, b, m)) && PointOn(b, pt, u, m)
  }

  ghost predicate PointOn(b: int, pt: int -> Affine, u: int, m: int) {
    m > 2 && u % m != 0 && Multiples(Shape(A, b, m), pt) && pt(1).At? && Cong(pt(1).x, u, m)
  }

  lemma OverParts(b: int, pt: int -> Affine, u: int, m: int)
    requires PointOver(b, pt, u, m)
    ensures m > 2 && Smooth(Shape(A, b, m)) && C.NoZeroDivisors(m) && Multiples(Shape(A, b, m), pt)
  {
    hide C.NoZeroDivisors, Multiples;
  }

  /** Modulo 2^255 - 19 the curve is smooth for every b but 0. */
  lemma ShapeIsSmooth(b: int)
    requires C.NoZeroDivisors(P) && b % P != 0
    ensures Smooth(Shape(A, b, P))
  {
    hide C.NoZeroDivisors;
    SmallMod(A * A - 4, P);
  }

  /** Every u is the x-coordinate of a point of one of these curves. */
  lemma EveryUHasAPoint(u: int, m: int) returns (b: int, y: int)
    requires m > 2
    ensures b % m != 0 && On(Shape(A, b, m), At(u, y))
  {
    hide Cubic;
    if Cubic(u, A) % m != 0 {
      b, y := Cubic(u, A), 1;
      CongRefl(b, m);
    } else {
      b, y := 1, 0;
      SmallMod(1, m);
      SmallMod(0, m);
    }
  }

  lemma StandsCong(c: Shape, p: Affine, x: int, z: int, x': int, z': int)
    requires c.m > 0 && Stands(c, p, x', z') && Cong(x, x', c.m) && Cong(z, z', c.m)
    ensures Stands(c, p, x, z)
  {
    hide Cong;
    L.SameResidue(x, x', c.m);
    L.SameResidue(z, z', c.m);
    if p.At? {
      L.CongSym(z, z', c.m);
      CongScale(p.x, z', z, c.m);
      CongTrans(x, x', p.x * z', c.m);
      CongTrans(x, p.x * z', p.x * z, c.m);
    }
  }

  /** One step from the n-th and a neighbouring multiple. */
  lemma StepStands(b: int, pt: int -> Affine, n: int, k: int, u: int, s: Ladder, m: int)
    requires PointOver(b, pt, u, m) && (k == n + 1 || k == n - 1)
    requires Stands(Shape(A, b, m), pt(n), s.x2, s.z2) && Stands(Shape(A, b, m), pt(k), s.x3, s.z3)
    ensures Stands(Shape(A, b, m), pt(2 * n), Step(u, s, m).x2, Step(u, s, m).z2)
    ensures Stands(Shape(A, b, m), pt(n + k), Step(u, s, m).x3, Step(u, s, m).z3)
  {
    hide Cong, Step, Stands, Multiples, Smooth;
    var c, t := Shape(A, b, m), Step(u, s, m);
    RungStands(c, pt, n, k, u, s.x2, s.z2, s.x3, s.z3);
    StepFormulas(u, s, m);
    StandsCong(c, pt(2 * n), t.x2, t.z2, DoubleX(s.x2, s.z2), DoubleZ(A, s.x2, s.z2));
    StandsCong(c, pt(n + k), t.x3, t.z3, SumX(s.x2, s.z2, s.x3, s.z3), SumZ(u, s.x2, s.z2, s.x3, s.z3));
  }

  /** After the bits of k from t up, the two points are neighbouring multiples: the one for the
      bits read so far, and the next. */
  lemma {:induction false} ClimbStands(b: int, pt: int -> Affine, k: int, u: int, t: nat, m: int)
    requires PointOver(b, pt, u, m) && 0 <= k < Pow2(255) && t <= 255
    ensures var c, s, n := Shape(A, b, m), Climb(k, u, t, m), k / Pow2(t);
            Stands(c, pt(n), s.x2, s.z2) && Stands(c, pt(n + 1), s.x3, s.z3)
    decreases 255 - t
  {
    hide Cong, Step, Stands, PointOver, Pow2, Bit, Smooth, Multiples;
    OverParts(b, pt, u, m);
    if t == 255 {
      DivModUnique(k, 0, k, Pow2(255));
      StartStands(b, pt, u, m);
    } else {
      ClimbStands(b, pt, k, u, t + 1, m);
      PrefixStep(k, t);
      var n, s := k / Pow2(t + 1), Climb(k, u, t + 1, m);
      if Bit(k, t) == 1 {
        StepStands(b, pt, n + 1, n, u, s.Swap(), m);
        assert 2 * (n + 1) == 2 * n + 1 + 1 && n + 1 + n == 2 * n + 1;
      } else {
        StepStands(b, pt, n, n + 1, u, s, m);
        assert n + (n + 1) == 2 * n + 1;
      }
    }
  }

  lemma StartStands(b: int, pt: int -> Affine, u: int, m: int)
    requires PointOver(b, pt, u, m)
    ensures m > 2 && Stands(Shape(A, b, m), pt(0), 1, 0) && Stands(Shape(A, b, m), pt(1), u, 1)
  {
    hide Cong, Adds, On, Smooth;
    SmallMod(0, m);
    SmallMod(1, m);
    L.CongSym(pt(1).x, u, m);
  }

  /** X25519 is scalar multiplication: the x-coordinate of k times the point over u, or 0 when
      that is the point at infinity. */
  lemma ProductIsMultiple(b: int, pt: int -> Affine, k: int, u: int, m: int)
    requires PointOver(b, pt, u, m) && ModExp.Fermat(m) && 0 <= k < Pow2(255)
    ensures m > 2 && Product(k, u, m) == if pt(k).Origin? then 0 else pt(k).x % m
  {
    hide Cong, Climb, Pow, Pow2, PointOver, ModExp.Fermat;
    OverParts(b, pt, u, m);
    var s := Climb(k, u, 0, m);
    ClimbStands(b, pt, k, u, 0, m);
    Pow2Zero(k);
    if pt(k).Origin? {
      ZeroPower(s.z2, m - 2, m);
      L.ZeroProduct(Pow(s.z2, m - 2), s.x2, m);
    } else {
      Divided(pt(k).x, s.x2, s.z2, m);
    }
  }

  lemma Pow2Zero(k: int)
    ensures k / Pow2(0) == k
  {
  }

  lemma ZeroPower(z: int, e: nat, m: int)
    requires m > 0 && z % m == 0 && e > 0
    ensures Pow(z, e) % m == 0
  {
    L.ZeroProduct(z, Pow(z, e - 1), m);
  }

  /** Dividing by z is multiplying by its power. */
  lemma Divided(q: int, x: int, z: int, m: int)
    requires m > 2 && ModExp.Fermat(m) && z % m != 0 && Cong(x, q * z, m)
    ensures (x * Pow(z, m - 2)) % m == q % m
  {
    hide Cong, Pow, ModExp.Fermat;
    var w := Pow(z, m - 2);
    ModExp.InverseCancels(z, w % m, m);
    CongMod(w, m);
    L.CongSym(w % m, w, m);
    CongScale(z, w, w % m, m);
    CongTrans(z * w, z * (w % m), 1, m);
    CongScale(w, x, q * z, m);
    CongScale(q, z * w, 1, m);
    MulAssoc(q, z, w);
    CongTrans(x * w, q * z * w, q, m);
    L.SameResidue(x * w, q, m);
  }

  /** Over u = 0 the result is 0 for every scalar. */
  lemma ProductOfZero(k: int, u: int, m: int)
    requires m > 2 && u % m == 0
    ensures Product(k, u, m) == 0
  {
    hide Climb, Pow;
    ClimbOfZero(k, u, 0, m);
    var s := Climb(k, u, 0, m);
    ZeroPower(s.z2, m - 2, m);
    L.ZeroProduct(Pow(s.z2, m - 2), s.x2, m);
  }

  lemma {:induction false} ClimbOfZero(k: int, u: int, t: nat, m: int)
    requires m > 0 && u % m == 0 && t < 255
    ensures Climb(k, u, t, m).z2 % m == 0 && Climb(k, u, t, m).z3 % m == 0
    decreases 255 - t
  {
    hide Step, Bit;
    var s := Climb(k, u, t + 1, m);
    if t < 254 {
      ClimbOfZero(k, u, t + 1, m);
    } else {
      SmallMod(0, m);
    }
    ZeroStep(u, if Bit(k, t) == 1 then s.Swap() else s, m);
  }

  lemma ZeroStep(u: int, s: Ladder, m: int)
    requires m > 0 && u % m == 0 && (s.z2 % m == 0 || s.x2 % m == 0)
    ensures Step(u, s, m).z2 % m == 0 && Step(u, s, m).z3 % m == 0
  {
    hide Step, Cong;
    var x, z, x', z' := s.x2, s.z2, s.x3, s.z3;
    StepFormulas(u, s, m);
    var g, h := x * x + A * (x * z) + z * z, (x' * z - x * z') * (x' * z - x * z');
    if z % m == 0 {
      L.ZeroProduct(z, 4 * (x * g), m);
      MoveFront(z, x, g);
    } else {
      L.ZeroProduct(x, 4 * (z * g), m);
      MoveFront(x, z, g);
    }
    L.ZeroProduct(u, 4 * h, m);
    MoveFront(u, 1, h);
    L.SameResidue(Step(u, s, m).z2, 4 * (x * z * g), m);
    L.SameResidue(Step(u, s, m).z3, 4 * (u * h), m);
  }

  lemma MoveFront(a: int, b: int, g: int)
    ensures a * (4 * (b * g)) == 4 * (a * b * g) == 4 * (b * a * g)
  {
    MulAssoc(a, b, g);
  }

  // ----- decoding

  /** Bit 255 of the coordinate is ignored, and the rest is taken modulo p. */
  lemma DecodedU(n: int)
    requires 0 <= n < R
    ensures 0 <= DecodeU(n) < P && Cong(DecodeU(n), n - Bit(n, 255) * Pow2(255), P)
  {
    hide Pow2, Cong;
    Pow2Wide();
    var h := R / 2;
    assert h == Pow2(255);
    if n < h {
      DivModUnique(n, 0, n, h);
    } else {
      DivModUnique(n, 1, n - h, h);
    }
    CongMod(n % h, P);
  }

  // ----- what clamping is for

  lemma ClampedRange(n: int)
    ensures var k := DecodeScalar(n);
            R / 4 <= k < R / 2 == Pow2(255) && k % 8 == 0 && (k - R / 4) / 8 == n % (R / 4) / 8
  {
    hide Pow2;
    Pow2Wide();
    var w := n % (R / 4);
    DivModUnique(n, n / (R / 4) * (R / 32) + w / 8, w % 8, 8);
    DivModUnique(R / 4 + w - w % 8, R / 32 + w / 8, 0, 8);
    DivModUnique(w - w % 8, w / 8, 0, 8);
  }

  lemma {:induction false} OriginRepeats(c: Shape, pt: int -> Affine, n: int, j: nat)
    requires c.m > 0 && Multiples(c, pt) && pt(n) == Origin
    ensures pt(j * n) == Origin
  {
    hide Cong, Tangent, Chord, On;
    if j > 0 {
      OriginRepeats(c, pt, n, j - 1);
      assert Adds(c, pt((j - 1) * n), pt(n), pt((j - 1) * n + n));
      assert (j - 1) * n + n == j * n;
    }
  }

  /** A clamped scalar sends every point of small order to 0: the all-zero secret that both ends
      refuse. */
  lemma SmallOrderRefused(b: int, pt: int -> Affine, n: int, u: int, m: int)
    requires PointOver(b, pt, u, m) && ModExp.Fermat(m) && pt(8) == Origin
    ensures m > 2 && Product(DecodeScalar(n), u, m) == 0
  {
    hide Product, DecodeScalar, Pow2, PointOver, ModExp.Fermat, Multiples;
    var k := DecodeScalar(n);
    ClampedRange(n);
    OverParts(b, pt, u, m);
    OriginRepeats(Shape(A, b, m), pt, 8, k / 8);
    assert k / 8 * 8 == k;
    ProductIsMultiple(b, pt, k, u, m);
  }

  // ----- agreement

  /** Every c-th multiple of a point's multiples are the multiples of its c-th. */
  lemma EveryCth(c: Shape, pt: int -> Affine, n: int)
    requires c.m > 0 && Multiples(c, pt)
    ensures Multiples(c, i => pt(i * n))
  {
    hide Cong, Adds, On;
    var q := i => pt(i * n);
    forall i, j
      ensures Adds(c, q(i), q(j), q(i + j))
    {
      MulDistribR(i, j, n);
      assert Adds(c, pt(i * n), pt(j * n), pt(i * n + j * n));
    }
  }

  /** A point over 0 has order two. */
  lemma OverZero(c: Shape, pt: int -> Affine, n: int)
    requires Smooth(c) && Multiples(c, pt) && pt(n).At? && pt(n).x % c.m == 0
    ensures pt(2 * n) == Origin
  {
    hide Cong, Cubic, Tangent, Chord, C.NoZeroDivisors;
    var p := pt(n);
    L.Positive(c.m);
    CubicAtZero(p.x, c.a, c.m);
    CubicZero(c, p);
    CongRefl(p.x, c.m);
    L.ZeroProduct(p.y, 2, c.m);
    assert On(c, p) && Adds(c, p, p, pt(n + n));
    assert n + n == 2 * n && p.y + p.y == p.y * 2;
  }

  lemma CubicAtZero(x: int, a: int, m: int)
    requires m > 0 && x % m == 0
    ensures Cubic(x, a) % m == 0
  {
    L.ZeroProduct(x, x * x + a * x + 1, m);
  }

  lemma HalfTwice(a: int, c: int)
    requires a % 2 == 0
    ensures a / 2 * (2 * c) == a * c
  {
    MulAssoc(a / 2, 2, c);
  }

  /** From a multiple that is the origin or over 0, an even scalar leads to the origin. */
  lemma IteratedZero(c: Shape, pt: int -> Affine, a: int, n: int)
    requires Smooth(c) && Multiples(c, pt) && a >= 0 && a % 2 == 0 && (pt(n).Origin? || pt(n).x % c.m == 0)
    ensures pt(a * n) == Origin
  {
    hide Multiples, C.NoZeroDivisors;
    L.Positive(c.m);
    if pt(n).Origin? {
      OriginRepeats(c, pt, n, a);
    } else {
      OverZero(c, pt, n);
      OriginRepeats(c, pt, 2 * n, a / 2);
      HalfTwice(a, n);
    }
  }

  /** Otherwise it is itself a point over the result. */
  lemma CthOver(b: int, pt: int -> Affine, n: int, u: int, w: int, m: int)
    requires PointOver(b, pt, u, m) && pt(n).At? && pt(n).x % m != 0 && w == pt(n).x % m
    ensures PointOver(b, i => pt(i * n), w, m)
  {
    hide Cong, Adds, On, Smooth;
    var q := i => pt(i * n);
    EveryCth(Shape(A, b, m), pt, n);
    CongMod(pt(n).x, m);
    L.CongSym(w, pt(n).x, m);
    SmallMod(w, m);
    assert q(1) == pt(n);
  }

  /** X25519 of X25519: the point reached is ac times the first. */
  lemma Iterated(b: int, pt: int -> Affine, a: int, c: int, u: int, m: int)
    requires PointOver(b, pt, u, m) && ModExp.Fermat(m)
    requires 0 <= a < Pow2(255) && 0 <= c < Pow2(255) && a % 2 == 0
    ensures m > 2 && Product(a, Product(c, u, m), m) == if pt(a * c).Origin? then 0 else pt(a * c).x % m
  {
    hide Product, Pow2, ModExp.Fermat, PointOver, Multiples, Smooth;
    OverParts(b, pt, u, m);
    var w := Product(c, u, m);
    ProductIsMultiple(b, pt, c, u, m);
    if pt(c).Origin? || pt(c).x % m == 0 {
      SmallMod(0, m);
      ProductOfZero(a, w, m);
      IteratedZero(Shape(A, b, m), pt, a, c);
    } else {
      CthOver(b, pt, c, u, w, m);
      ProductIsMultiple(b, i => pt(i * c), a, w, m);
    }
  }

  /** Diffie-Hellman: two clamped scalars give the same result in either order, from any point. */
  lemma Agreement(b: int, pt: int -> Affine, x: int, y: int, u: int, m: int)
    requires PointOver(b, pt, u, m) && ModExp.Fermat(m)
    ensures var a, c := DecodeScalar(x), DecodeScalar(y);
            m > 2 && Product(a, Product(c, u, m), m) == Product(c, Product(a, u, m), m)
  {
    hide Product, DecodeScalar, Pow2, PointOver, ModExp.Fermat;
    var a, c := DecodeScalar(x), DecodeScalar(y);
    ClampedRange(x);
    ClampedRange(y);
    Even(a);
    Even(c);
    Iterated(b, pt, a, c, u, m);
    Iterated(b, pt, c, a, u, m);
    assert a * c == c * a;
  }

  lemma Even(a: int)
    requires a % 8 == 0
    ensures a % 2 == 0
  {
    DivModUnique(a, a / 8 * 4, 0, 2);
  }
}
