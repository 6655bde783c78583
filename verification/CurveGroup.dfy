/** Scalar multiplication by doubling and adding is repeated addition, given that addition on the
    curve is associative. Jacobian points are compared by the affine points they stand for. */
module CurveGroup {
  import opened Arithmetic
  import opened ModExp
  import opened Curve
  import opened CurveLaw

  /** Both infinity, or both for one affine point. */
  ghost predicate Same(p: Point, q: Point, m: int)
    requires m > 0
  {
    p.Infinity? == q.Infinity?
    && (p.Jacobian? ==> exists x: int, y: int :: StandsFor(p, x, y, m) && StandsFor(q, x, y, m))
  }

  /** The modulus is an odd prime, as hypotheses. */
  ghost predicate Field(m: int) {
    NoZeroDivisors(m) && Fermat(m)
  }

  lemma FieldParts(m: int)
    requires Field(m)
    ensures m > 2 && NoZeroDivisors(m) && Fermat(m)
  {
  }

  // ----- affine points

  lemma Inverse(a: int, m: int) returns (i: int)
    requires Fermat(m) && a % m != 0
    ensures Cong(a * i, 1, m)
  {
    hide Cong, Pow;
    i := Pow(a, m - 2) % m;
    InverseCancels(a, i, m);
  }

  /** A slope with the given cross product. */
  lemma Slope(n: int, d: int, m: int) returns (l: int)
    requires Fermat(m) && d % m != 0
    ensures Cong(l * d, n, m)
  {
    hide Cong, Fermat;
    assert m > 0 by { FermatModulus(m); }
    var i := Inverse(d, m);
    l := n * i;
    CongRefl(n, m);
    CongMul(n, n, d * i, 1, m);
    assert n * i * d == n * (d * i);
  }

  lemma FermatModulus(m: int)
    requires Fermat(m)
    ensures m > 0
  {
  }

  lemma Affine(p: Point, m: int) returns (x: int, y: int)
    requires Field(m) && p.Jacobian? && p.z % m != 0
    ensures StandsFor(p, x, y, m)
  {
    hide Cong, Fermat, NoZeroDivisors;
    FieldParts(m);
    NonzeroProduct(p.z, p.z, m);
    NonzeroProduct(p.z * p.z, p.z, m);
    x := Slope(p.x, p.z * p.z, m);
    y := Slope(p.y, p.z * p.z * p.z, m);
    CongSym(x * (p.z * p.z), p.x, m);
    CongSym(y * (p.z * p.z * p.z), p.y, m);
  }

  lemma StandsForCong(p: Point, x: int, y: int, x': int, y': int, m: int)
    requires m > 0 && StandsFor(p, x, y, m) && Cong(x, x', m) && Cong(y, y', m)
    ensures StandsFor(p, x', y', m)
  {
    hide Cong;
    var z2, z3 := p.z * p.z, p.z * p.z * p.z;
    CongRefl(z2, m);
    CongRefl(z3, m);
    CongMul(x, x', z2, z2, m);
    CongMul(y, y', z3, z3, m);
    CongTrans(p.x, x * z2, x' * z2, m);
    CongTrans(p.y, y * z3, y' * z3, m);
  }

  /** The affine point of two equal points. */
  lemma Common(p: Point, q: Point, m: int) returns (x: int, y: int)
    requires m > 0 && Same(p, q, m) && p.Jacobian?
    ensures StandsFor(p, x, y, m) && StandsFor(q, x, y, m)
  {
    hide StandsFor;
    x, y :| StandsFor(p, x, y, m) && StandsFor(q, x, y, m);
  }

  lemma SameRefl(p: Point, b: int, m: int)
    requires Field(m) && OnCurve(p, b, m)
    ensures Same(p, p, m)
  {
    hide StandsFor, OnEquation, NoZeroDivisors, Fermat;
    FieldParts(m);
    if p.Jacobian? {
      SmallMod(p.z, m);
      var x, y := Affine(p, m);
    }
  }

  lemma SameSym(p: Point, q: Point, m: int)
    requires m > 0 && Same(p, q, m)
    ensures Same(q, p, m)
  {
    hide StandsFor;
  }

  lemma SameTrans(p: Point, q: Point, r: Point, b: int, m: int)
    requires Field(m) && OnCurve(q, b, m) && Same(p, q, m) && Same(q, r, m)
    ensures Same(p, r, m)
  {
    hide StandsFor, OnEquation, NoZeroDivisors, Fermat, Cong;
    FieldParts(m);
    if p.Jacobian? {
      SmallMod(q.z, m);
      var x, y := Common(p, q, m);
      var x', y' := Common(q, r, m);
      StandsForOne(q, x, y, x', y', m);
      StandsForCong(p, x, y, x', y', m);
    }
  }

  // ----- addition respects it

  lemma DoubleSame(p: Point, q: Point, b: int, m: int)
    requires Field(m) && OnCurve(p, b, m) && OnCurve(q, b, m) && Same(p, q, m)
    ensures Same(Double(p, m), Double(q, m), m)
  {
    hide StandsFor, OnEquation, NoZeroDivisors, Fermat, Cong, Double;
    FieldParts(m);
    if p.Jacobian? {
      SmallMod(p.z, m);
      SmallMod(q.z, m);
      var x, y := Common(p, q, m);
      DoubleIsInfinity(p, x, y, m);
      DoubleIsInfinity(q, x, y, m);
      if !Cong(y, 0, m) {
        ResidueZero(y, m);
        SmallMod(2, m);
        NonzeroProduct(2, y, m);
        var l := Slope(3 * (x * x) - 3, 2 * y, m);
        FiniteDouble(p, m);
        FiniteDouble(q, m);
        DoubleIsTangent(p, x, y, l, m);
        DoubleIsTangent(q, x, y, l, m);
        IsFinite(Double(p, m), ThirdX(l, x, x), ThirdY(l, x, y, ThirdX(l, x, x)), m);
        IsFinite(Double(q, m), ThirdX(l, x, x), ThirdY(l, x, y, ThirdX(l, x, x)), m);
      }
    } else {
      DoubleOfInfinity(m);
    }
  }

  lemma DoubleOfInfinity(m: int)
    requires m > 0
    ensures Double(Infinity, m) == Infinity
  {
  }

  lemma FiniteDouble(p: Point, m: int)
    requires m > 0 && Double(p, m) != Infinity
    ensures p.Jacobian? && p.y != 0
  {
    hide Mul, Add, Sub;
  }

  lemma SumInfinity(p: Point, m: int)
    requires m > 0
    ensures Sum(Infinity, p, m) == p && Sum(p, Infinity, m) == p
  {
    hide Mul, Sub;
  }

  lemma SumSame(p: Point, p': Point, q: Point, q': Point, b: int, m: int)
    requires Field(m) && OnCurve(p, b, m) && OnCurve(p', b, m) && OnCurve(q, b, m) && OnCurve(q', b, m)
    requires Same(p, p', m) && Same(q, q', m)
    ensures Same(Sum(p, q, m), Sum(p', q', m), m)
  {
    hide Same, OnCurve, Sum;
    FieldParts(m);
    SumInfinity(p, m);
    SumInfinity(p', m);
    SumInfinity(q, m);
    SumInfinity(q', m);
    SameKind(p, p', m);
    SameKind(q, q', m);
    if p.Jacobian? && q.Jacobian? {
      FiniteSumSame(p, p', q, q', b, m);
    }
  }

  lemma SameKind(p: Point, q: Point, m: int)
    requires m > 0 && Same(p, q, m)
    ensures p.Infinity? == q.Infinity?
  {
    hide StandsFor;
  }

  lemma FiniteSumSame(p: Point, p': Point, q: Point, q': Point, b: int, m: int)
    requires Field(m) && OnCurve(p, b, m) && OnCurve(p', b, m) && OnCurve(q, b, m) && OnCurve(q', b, m)
    requires Same(p, p', m) && Same(q, q', m) && p.Jacobian? && q.Jacobian?
    ensures Same(Sum(p, q, m), Sum(p', q', m), m)
  {
    hide StandsFor, OnEquation, NoZeroDivisors, Fermat, Cong, Sum, Double;
    FieldParts(m);
    var x1, y1 := Common(p, p', m);
    var x2, y2 := Common(q, q', m);
    SmallMod(p.z, m);
    SmallMod(p'.z, m);
    SmallMod(q.z, m);
    SmallMod(q'.z, m);
    var l := 0;
    if !Cong(x1, x2, m) {
      DifferenceZero(x2, x1, m);
      l := Slope(y2 - y1, x2 - x1, m);
    }
    SumIsChord(p, q, x1, y1, x2, y2, l, m);
    SumIsChord(p', q', x1, y1, x2, y2, l, m);
    if !Cong(x1, x2, m) {
      var x3 := ThirdX(l, x1, x2);
      IsFinite(Sum(p, q, m), x3, ThirdY(l, x1, y1, x3), m);
      IsFinite(Sum(p', q', m), x3, ThirdY(l, x1, y1, x3), m);
    } else if Cong(y1, y2, m) {
      DoubleSame(p, p', b, m);
    }
  }

  // ----- repeated addition

  /** Associativity of the addition, as a hypothesis on the curve. */
  ghost predicate Associative(b: int, m: int)
    requires m > 0
  {
    forall p: Point, q: Point, r: Point :: OnCurve(p, b, m) && OnCurve(q, b, m) && OnCurve(r, b, m) ==>
      Same(Sum(Sum(p, q, m), r, m), Sum(p, Sum(q, r, m), m), m)
  }

  /** p + p + ... + p. */
  function Times(k: nat, p: Point, m: int): Point
    requires m > 0
  {
    if k == 0 then Infinity else Sum(Times(k - 1, p, m), p, m)
  }

  ghost predicate Curved(p: Point, b: int, m: int) {
    Field(m) && Associative(b, m) && OnCurve(p, b, m)
  }

  lemma CurvedParts(p: Point, b: int, m: int)
    requires Curved(p, b, m)
    ensures m > 2 && Field(m) && NoZeroDivisors(m) && OnCurve(p, b, m)
  {
    hide OnCurve, Same, Sum;
  }

  lemma {:induction false} TimesOnCurve(k: nat, p: Point, b: int, m: int)
    requires NoZeroDivisors(m) && OnCurve(p, b, m)
    ensures OnCurve(Times(k, p, m), b, m)
  {
    hide Sum, OnCurve;
    if k == 0 {
      InfinityOnCurve(b, m);
    } else {
      TimesOnCurve(k - 1, p, b, m);
      SumOnCurve(Times(k - 1, p, m), p, b, m);
    }
  }

  lemma Reassociate(p: Point, q: Point, r: Point, b: int, m: int)
    requires Curved(p, b, m) && OnCurve(q, b, m) && OnCurve(r, b, m)
    ensures Same(Sum(p, Sum(q, r, m), m), Sum(Sum(p, q, m), r, m), m)
  {
    hide OnCurve, Same, Sum;
    SameSym(Sum(Sum(p, q, m), r, m), Sum(p, Sum(q, r, m), m), m);
  }

  /** jp + kp = (j + k)p. */
  lemma {:induction false} TimesAdd(j: nat, k: nat, p: Point, b: int, m: int)
    requires Curved(p, b, m)
    ensures Same(Sum(Times(j, p, m), Times(k, p, m), m), Times(j + k, p, m), m)
    decreases k
  {
    hide OnCurve, Same, Sum, Associative, Field;
    CurvedParts(p, b, m);
    var t := Times(j, p, m);
    TimesOnCurve(j, p, b, m);
    TimesOnCurve(j + k, p, b, m);
    if k == 0 {
      SumInfinity(t, m);
      SameRefl(t, b, m);
    } else {
      var s := Times(k - 1, p, m);
      TimesOnCurve(k - 1, p, b, m);
      TimesOnCurve(j + k - 1, p, b, m);
      TimesAdd(j, k - 1, p, b, m);
      Reassociate(t, s, p, b, m);
      SumOnCurve(t, s, b, m);
      SumOnCurve(Sum(t, s, m), p, b, m);
      SameRefl(p, b, m);
      SumSame(Sum(t, s, m), Times(j + k - 1, p, m), p, p, b, m);
      assert Times(j + k, p, m) == Sum(Times(j + k - 1, p, m), p, m);
      SameTrans(Sum(t, Sum(s, p, m), m), Sum(Sum(t, s, m), p, m), Times(j + k, p, m), b, m);
    }
  }

  lemma SumOfEqual(p: Point, m: int)
    requires m > 0
    ensures Sum(p, p, m) == Double(p, m)
  {
    hide Mul, Double, Chord;
    DoubleOfInfinity(m);
  }

  lemma {:induction false} DoublingsAreTimes(p: Point, i: nat, b: int, m: int)
    requires Curved(p, b, m)
    ensures Same(Doublings(p, i, m), Times(Pow2(i), p, m), m)
  {
    hide OnCurve, Same, Sum, Associative, Field, Double;
    CurvedParts(p, b, m);
    if i == 0 {
      SumInfinity(p, m);
      SameRefl(p, b, m);
      assert Times(1, p, m) == Sum(Times(0, p, m), p, m);
    } else {
      var d, t := Doublings(p, i - 1, m), Times(Pow2(i - 1), p, m);
      DoublingsAreTimes(p, i - 1, b, m);
      MultipleOnCurve(0, p, i - 1, b, m);
      TimesOnCurve(Pow2(i - 1), p, b, m);
      SumSame(d, t, d, t, b, m);
      SumOfEqual(d, m);
      TimesAdd(Pow2(i - 1), Pow2(i - 1), p, b, m);
      SumOnCurve(t, t, b, m);
      SameTrans(Double(d, m), Sum(t, t, m), Times(Pow2(i), p, m), b, m);
    }
  }

  lemma {:induction false} MultipleIsTimes(k: int, p: Point, i: nat, b: int, m: int)
    requires Curved(p, b, m)
    ensures Same(Multiple(k, p, i, m), Times(k % Pow2(i), p, m), m)
  {
    hide OnCurve, Same, Sum, Associative, Field, Double, Bit, Pow2, Doublings, Times;
    CurvedParts(p, b, m);
    if i == 0 {
      NoBits(k, p, m);
      InfinityOnCurve(b, m);
      SameRefl(Infinity, b, m);
    } else {
      var n := k % Pow2(i - 1);
      MultipleIsTimes(k, p, i - 1, b, m);
      LowBitsStep(k, i - 1);
      if Bit(k, i - 1) == 1 {
        var u, d := Multiple(k, p, i - 1, m), Doublings(p, i - 1, m);
        MultipleOnCurve(k, p, i - 1, b, m);
        TimesOnCurve(n, p, b, m);
        TimesOnCurve(Pow2(i - 1), p, b, m);
        DoublingsAreTimes(p, i - 1, b, m);
        SumSame(u, Times(n, p, m), d, Times(Pow2(i - 1), p, m), b, m);
        TimesAdd(n, Pow2(i - 1), p, b, m);
        SumOnCurve(Times(n, p, m), Times(Pow2(i - 1), p, m), b, m);
        SameTrans(Sum(u, d, m), Sum(Times(n, p, m), Times(Pow2(i - 1), p, m), m), Times(n + Pow2(i - 1), p, m), b, m);
      }
    }
  }

  lemma NoBits(k: int, p: Point, m: int)
    requires m > 0
    ensures Multiple(k, p, 0, m) == Infinity && Times(k % Pow2(0), p, m) == Infinity
  {
  }

  /** Doubling and adding over the bits of k is adding p to itself k times. */
  lemma MultipleCorrect(k: int, p: Point, b: int, m: int)
    requires Curved(p, b, m) && 0 <= k < R
    ensures Same(Multiple(k, p, 256, m), Times(k, p, m), m)
  {
    hide Multiple, Times, Same, Curved, Pow2;
    CurvedParts(p, b, m);
    MultipleIsTimes(k, p, 256, b, m);
    Pow2Wide();
    SmallMod(k, R);
  }

  // ----- without any hypothesis

  lemma PowerBit(i: nat, j: nat)
    ensures Bit(Pow2(i), j) == if i == j then 1 else 0
  {
    if j <= i {
      Pow2Add(i - j, j);
      DivModUnique(Pow2(i), Pow2(i - j), 0, Pow2(j));
      if i > j {
        assert Pow2(i - j) == 2 * Pow2(i - j - 1);
      }
    } else {
      Pow2Grows(i, j);
      DivModUnique(Pow2(i), 0, Pow2(i), Pow2(j));
    }
  }

  lemma {:induction false} Pow2Grows(i: nat, j: nat)
    requires i < j
    ensures Pow2(i) < Pow2(j)
    decreases j
  {
    if i < j - 1 {
      Pow2Grows(i, j - 1);
    }
  }

  /** 2^i times p is exactly i doublings; in particular 2p is the double. */
  lemma {:induction false} PowerMultiple(i: nat, p: Point, n: nat, m: int)
    requires m > 0
    ensures Multiple(Pow2(i), p, n, m) == if i < n then Doublings(p, i, m) else Infinity
    ensures Doublings(p, 0, m) == p && Doublings(p, 1, m) == Double(p, m)
    decreases n
  {
    hide Double, Sum, Pow2, Bit;
    if n > 0 {
      PowerMultiple(i, p, n - 1, m);
      PowerBit(i, n - 1);
      SumInfinity(Doublings(p, n - 1, m), m);
    }
  }
}
