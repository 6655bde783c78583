/** ECDSA verification accepts exactly the signatures that satisfy the signature equation for the
    private key, and so everything the signing procedure produces. */
module EcdsaLaw {
  import opened Arithmetic
  import opened Bignum
  import opened ModExp
  import opened P256
  import opened Ecdsa
  import opened CurveGroup
  import C = Curve
  import L = CurveLaw

  // ----- multiples of multiples

  lemma {:induction false} TimesSame(j: nat, p: C.Point, q: C.Point, b: int, m: int)
    requires Field(m) && C.OnCurve(p, b, m) && C.OnCurve(q, b, m) && Same(p, q, m)
    ensures Same(Times(j, p, m), Times(j, q, m), m)
  {
    hide C.OnCurve, Same, C.Sum, Field;
    FieldParts(m);
    if j == 0 {
      C.InfinityOnCurve(b, m);
      SameRefl(C.Infinity, b, m);
    } else {
      TimesSame(j - 1, p, q, b, m);
      TimesOnCurve(j - 1, p, b, m);
      TimesOnCurve(j - 1, q, b, m);
      SumSame(Times(j - 1, p, m), Times(j - 1, q, m), p, q, b, m);
    }
  }

  /** j(kp) = (jk)p. */
  lemma {:induction false} TimesTimes(j: nat, k: nat, p: C.Point, b: int, m: int)
    requires Curved(p, b, m)
    ensures j * k >= 0 && Same(Times(j, Times(k, p, m), m), Times(j * k, p, m), m)
    decreases j
  {
    hide C.OnCurve, Same, C.Sum, Field, Associative;
    CurvedParts(p, b, m);
    var t := Times(k, p, m);
    TimesOnCurve(k, p, b, m);
    if j == 0 {
      C.InfinityOnCurve(b, m);
      SameRefl(C.Infinity, b, m);
    } else {
      TimesTimes(j - 1, k, p, b, m);
      MulDistribR(j - 1, 1, k);
      var s := Times((j - 1) * k, p, m);
      TimesOnCurve(j - 1, t, b, m);
      TimesOnCurve((j - 1) * k, p, b, m);
      SameRefl(t, b, m);
      SumSame(Times(j - 1, t, m), s, t, t, b, m);
      TimesAdd((j - 1) * k, k, p, b, m);
      C.SumOnCurve(s, t, b, m);
      SameTrans(Times(j, t, m), C.Sum(s, t, m), Times(j * k, p, m), b, m);
    }
  }

  /** Whole turns do not count. */
  lemma TimesMod(k: nat, n: nat, p: C.Point, b: int, m: int)
    requires Curved(p, b, m) && n > 0 && Times(n, p, m) == C.Infinity
    ensures Same(Times(k, p, m), Times(k % n, p, m), m)
  {
    hide C.OnCurve, Same, C.Sum, Field, Associative, Times;
    CurvedParts(p, b, m);
    var q, r := k / n, k % n;
    TimesTimes(q, n, p, b, m);
    TimesOfInfinity(q, m);
    SameKind(C.Infinity, Times(q * n, p, m), m);
    TimesAdd(r, q * n, p, b, m);
    SumInfinity(Times(r, p, m), m);
    assert r + q * n == k;
    SameSym(Times(r, p, m), Times(k, p, m), m);
  }

  lemma {:induction false} TimesOfInfinity(k: nat, m: int)
    requires m > 0
    ensures Times(k, C.Infinity, m) == C.Infinity
  {
    if k > 0 {
      TimesOfInfinity(k - 1, m);
      SumInfinity(C.Infinity, m);
    }
  }

  // ----- hypotheses and keys

  /** The curve is a group over a prime field and the base point has prime order n. */
  ghost predicate Standard(d: Group) {
    && Usable(d) && Field(d.P()) && Fermat(d.N()) && Associative(d.B(), d.P())
    && Times(d.N(), d.G(), d.P()) == C.Infinity
    && forall k :: 0 < k < d.N() ==> Times(k, d.G(), d.P()).Jacobian?
  }

  lemma StandardParts(d: Group)
    requires Standard(d)
    ensures Usable(d) && Curved(d.G(), d.B(), d.P()) && Field(d.P()) && Associative(d.B(), d.P()) && Fermat(d.N())
    ensures C.NoZeroDivisors(d.P()) && Fermat(d.P()) && Times(d.N(), d.G(), d.P()) == C.Infinity
  {
    hide C.OnCurve, Associative, Times, Fermat, C.NoZeroDivisors;
  }

  /** The public key is x times the base point. */
  ghost predicate KeyPair(d: Group, x: nat, qx: int, qy: int) {
    KeyOnCurve(d, qx, qy) && Same(C.Jacobian(qx, qy, 1), Times(x, d.G(), d.P()), d.P())
  }

  // ----- the point of a verification

  /** u1 G + u2 Q is the multiple of the base point by u1 + u2 x. */
  lemma CombinedMultiple(d: Group, x: nat, qx: int, qy: int, u1: nat, u2: nat)
    requires Standard(d) && KeyPair(d, x, qx, qy) && u1 < R && u2 < R
    ensures u2 * x >= 0
    ensures Same(C.Sum(C.Multiple(u1, d.G(), 256, d.P()), C.Multiple(u2, C.Jacobian(qx, qy, 1), 256, d.P()), d.P()),
                 Times(u1 + u2 * x, d.G(), d.P()), d.P())
  {
    hide C.OnCurve, Same, C.Sum, C.Multiple, Field, Associative, Times, Standard, R;
    StandardParts(d);
    var g, q, b, m := d.G(), C.Jacobian(qx, qy, 1), d.B(), d.P();
    CurvedParts(g, b, m);
    var s, t := Times(u1, g, m), Times(u2 * x, g, m);
    MultipleCorrect(u1, g, b, m);
    MultipleCorrect(u2, q, b, m);
    KeyMultiple(q, g, x, u2, b, m);
    C.MultipleOnCurve(u1, g, 256, b, m);
    C.MultipleOnCurve(u2, q, 256, b, m);
    TimesOnCurve(u1, g, b, m);
    TimesOnCurve(u2, q, b, m);
    TimesOnCurve(u2 * x, g, b, m);
    SameTrans(C.Multiple(u2, q, 256, m), Times(u2, q, m), t, b, m);
    SumSame(C.Multiple(u1, g, 256, m), s, C.Multiple(u2, q, 256, m), t, b, m);
    TimesAdd(u1, u2 * x, g, b, m);
    C.SumOnCurve(s, t, b, m);
    SameTrans(C.Sum(C.Multiple(u1, g, 256, m), C.Multiple(u2, q, 256, m), m), C.Sum(s, t, m),
              Times(u1 + u2 * x, g, m), b, m);
  }

  lemma KeyMultiple(q: C.Point, g: C.Point, x: nat, u: nat, b: int, m: int)
    requires Curved(g, b, m) && C.OnCurve(q, b, m) && Same(q, Times(x, g, m), m)
    ensures u * x >= 0 && Same(Times(u, q, m), Times(u * x, g, m), m)
  {
    hide C.OnCurve, Same, C.Sum, Field, Associative, Times;
    CurvedParts(g, b, m);
    var t := Times(x, g, m);
    TimesOnCurve(x, g, b, m);
    TimesSame(u, q, t, b, m);
    TimesTimes(u, x, g, b, m);
    TimesOnCurve(u, t, b, m);
    SameTrans(Times(u, q, m), Times(u, t, m), Times(u * x, g, m), b, m);
  }

  /** Equal points have equal affine coordinates. */
  lemma SameAffineX(d: Group, p: C.Point, q: C.Point)
    requires Field(d.P()) && C.OnCurve(p, d.B(), d.P()) && C.OnCurve(q, d.B(), d.P())
    requires p.Jacobian? && Same(p, q, d.P())
    ensures q.Jacobian? && AffineX(d, p) == AffineX(d, q)
  {
    hide Cong, AffineX, AffineY, C.OnEquation, C.NoZeroDivisors, Fermat;
    var m := d.P();
    FieldParts(m);
    SmallMod(p.z, m);
    SmallMod(q.z, m);
    var x, y := Common(p, q, m);
    AffineStands(d, p);
    AffineStands(d, q);
    L.StandsForOne(p, AffineX(d, p), AffineY(d, p), x, y, m);
    L.StandsForOne(q, AffineX(d, q), AffineY(d, q), x, y, m);
    AffineRange(d, p);
    AffineRange(d, q);
    CongUnique(AffineX(d, p), x, m);
    CongUnique(AffineX(d, q), x, m);
  }

  lemma AffineStands(d: Group, p: C.Point)
    requires p.Jacobian? && p.z % d.P() != 0 && Fermat(d.P())
    ensures L.StandsFor(p, AffineX(d, p), AffineY(d, p), d.P())
  {
    hide Cong, AffineX, AffineY, Fermat;
    AffineCorrect(d, p);
    L.CongSym(AffineX(d, p) * (p.z * p.z), p.x, d.P());
    L.CongSym(AffineY(d, p) * (p.z * p.z * p.z), p.y, d.P());
  }

  lemma AffineRange(d: Group, p: C.Point)
    requires p.Jacobian?
    ensures 0 <= AffineX(d, p) < d.P()
  {
    hide Pow;
  }

  // ----- the signature equation

  /** u1 + u2 x is the k with s k = e + r x. */
  lemma NonceOf(u1: int, u2: int, x: int, e: int, r: int, s: int, k: int, n: int)
    requires Fermat(n) && s % n != 0
    requires Cong(u1 * s, e, n) && Cong(u2 * s, r, n) && Cong(s * k, e + r * x, n)
    ensures Cong(u1 + u2 * x, k, n)
  {
    hide Cong, Fermat;
    FermatModulus(n);
    ScaledSum(u1, u2, x, e, r, s, n);
    L.CongSym(s * k, e + r * x, n);
    CongTrans(s * (u1 + u2 * x), e + r * x, s * k, n);
    var i := Inverse(s, n);
    Cancel(u1 + u2 * x, k, s, i, n);
  }

  lemma ScaledSum(u1: int, u2: int, x: int, e: int, r: int, s: int, n: int)
    requires n > 0 && Cong(u1 * s, e, n) && Cong(u2 * s, r, n)
    ensures Cong(s * (u1 + u2 * x), e + r * x, n)
  {
    hide Cong;
    CongRefl(x, n);
    CongMul(u2 * s, r, x, x, n);
    CongAdd(u1 * s, e, u2 * s * x, r * x, n);
    FactorOut(u1, u2, x, s);
  }

  lemma FactorOut(u1: int, u2: int, x: int, s: int)
    ensures u1 * s + u2 * s * x == s * (u1 + u2 * x)
  {
    MulDistrib(s, u1, u2 * x);
    MulSwap(u2, s, x);
  }

  lemma Cancel(a: int, b: int, s: int, i: int, n: int)
    requires n > 0 && Cong(s * a, s * b, n) && Cong(s * i, 1, n)
    ensures Cong(a, b, n)
  {
    hide Cong;
    CongRefl(i, n);
    CongMul(i, i, s * a, s * b, n);
    Undone(a, s, i, n);
    Undone(b, s, i, n);
    L.CongSym(i * (s * a), a, n);
    CongTrans(a, i * (s * a), i * (s * b), n);
    CongTrans(a, i * (s * b), b, n);
  }

  lemma Undone(a: int, s: int, i: int, n: int)
    requires n > 0 && Cong(s * i, 1, n)
    ensures Cong(i * (s * a), a, n)
  {
    hide Cong;
    CongRefl(a, n);
    CongMul(s * i, 1, a, a, n);
    MulAssoc(i, s, a);
  }

  lemma QuotientRange(d: Group, x: int, s: int)
    ensures 0 <= Quotient(d, x, s) < d.N() < R
  {
    hide Pow, V;
    BnRange(d.n);
  }

  /** Verification reaches k G for the k that the signature equation fixes. */
  lemma VerifyPointIs(d: Group, x: nat, qx: int, qy: int, e: int, r: int, s: int, k: nat)
    requires Standard(d) && KeyPair(d, x, qx, qy) && 0 < r < d.N() && 0 < s < d.N() && k < d.N()
    requires Cong(s * k, e + r * x, d.N())
    ensures Same(VerifyPoint(d, qx, qy, e, r, s), Times(k, d.G(), d.P()), d.P())
  {
    hide C.OnCurve, Same, C.Sum, C.Multiple, Associative, Times, Standard, Quotient, Cong, Fermat, KeyPair, R, Field,
         C.NoZeroDivisors, Curved;
    StandardParts(d);
    var u1, u2, n, g, m := Quotient(d, e % d.N(), s), Quotient(d, r, s), d.N(), d.G(), d.P();
    QuotientRange(d, e % n, s);
    QuotientRange(d, r, s);
    QuotientTimes(d, e % n, s);
    QuotientTimes(d, r, s);
    CongMod(e, n);
    CongTrans(u1 * s, e % n, e, n);
    SmallMod(s, n);
    NonceOf(u1, u2, x, e, r, s, k, n);
    CombinedMultiple(d, x, qx, qy, u1, u2);
    TimesMod(u1 + u2 * x, n, g, d.B(), m);
    L.CongSym(u1 + u2 * x, k, n);
    CongUnique(k, u1 + u2 * x, n);
    CurvedParts(g, d.B(), m);
    TimesOnCurve(u1 + u2 * x, g, d.B(), m);
    SameTrans(VerifyPoint(d, qx, qy, e, r, s), Times(u1 + u2 * x, g, m), Times(k, g, m), d.B(), m);
  }

  /** A signature is accepted if and only if r is the x-coordinate, modulo n, of k G for the k
      with s k = e + r x. */
  lemma AcceptsIff(d: Group, x: nat, qx: int, qy: int, e: int, r: int, s: int, k: nat)
    requires Standard(d) && KeyPair(d, x, qx, qy) && 0 < r < d.N() && 0 < s < d.N() && k < d.N()
    requires Cong(s * k, e + r * x, d.N())
    ensures var point := Times(k, d.G(), d.P());
            Accepts(d, qx, qy, e, r, s) <==> point.Jacobian? && AffineX(d, point) % d.N() == r
  {
    hide C.OnCurve, Same, C.Sum, Associative, Times, VerifyPoint, AffineX, AffineY, Cong, Field, Standard, Curved;
    StandardParts(d);
    CurvedParts(d.G(), d.B(), d.P());
    VerifyPointIs(d, x, qx, qy, e, r, s, k);
    var point, reached := Times(k, d.G(), d.P()), VerifyPoint(d, qx, qy, e, r, s);
    SameKind(reached, point, d.P());
    ReachedOnCurve(d, qx, qy, e, r, s);
    TimesOnCurve(k, d.G(), d.B(), d.P());
    if reached.Jacobian? {
      SameAffineX(d, reached, point);
    }
  }

  lemma ReachedOnCurve(d: Group, qx: int, qy: int, e: int, r: int, s: int)
    requires Usable(d) && C.NoZeroDivisors(d.P()) && KeyOnCurve(d, qx, qy)
    ensures C.OnCurve(VerifyPoint(d, qx, qy, e, r, s), d.B(), d.P())
  {
    hide C.OnCurve, C.Sum, C.Multiple, Quotient;
    VerifyStaysOnCurve(d, qx, qy, Quotient(d, e % d.N(), s), Quotient(d, r, s), 256);
  }

  // ----- signing

  datatype Signature = Signature(r: int, s: int)

  /** The signature of hash value e under the private key x with nonce k. */
  ghost function Sign(d: Group, x: nat, e: int, k: nat): Signature
    requires C.Multiple(k, d.G(), 256, d.P()).Jacobian?
  {
    var r := AffineX(d, C.Multiple(k, d.G(), 256, d.P())) % d.N();
    Signature(r, ((Pow(k, d.N() - 2) % d.N()) * ((e % d.N() + (r * x) % d.N()) % d.N())) % d.N())
  }

  lemma NonceFinite(d: Group, k: nat)
    requires Standard(d) && 0 < k < d.N()
    ensures C.Multiple(k, d.G(), 256, d.P()).Jacobian? && Times(k, d.G(), d.P()).Jacobian?
    ensures AffineX(d, C.Multiple(k, d.G(), 256, d.P())) == AffineX(d, Times(k, d.G(), d.P()))
  {
    hide C.OnCurve, Same, C.Sum, C.Multiple, Associative, Times, AffineX, R, V, Field, Curved;
    StandardParts(d);
    var g, b, m := d.G(), d.B(), d.P();
    CurvedParts(g, b, m);
    BnRange(d.n);
    MultipleCorrect(k, g, b, m);
    SameKind(C.Multiple(k, g, 256, m), Times(k, g, m), m);
    C.MultipleOnCurve(k, g, 256, b, m);
    TimesOnCurve(k, g, b, m);
    SameAffineX(d, C.Multiple(k, g, 256, m), Times(k, g, m));
  }

  /** s k = e + r x modulo n. */
  lemma SignedEquation(w: int, t: int, s: int, k: int, e: int, rx: int, n: int)
    requires n > 0 && Cong(k * w, 1, n) && t == (e % n + rx % n) % n && s == (w * t) % n
    ensures Cong(s * k, e + rx, n)
  {
    hide Cong;
    CongMod(e, n);
    CongMod(rx, n);
    CongAdd(e % n, e, rx % n, rx, n);
    CongMod(e % n + rx % n, n);
    CongTrans(t, e % n + rx % n, e + rx, n);
    CongMod(w * t, n);
    CongRefl(k, n);
    CongMul(s, w * t, k, k, n);
    CongMul(k * w, 1, t, e + rx, n);
    assert w * t * k == k * w * t;
    CongTrans(s * k, k * w * t, e + rx, n);
  }

  /** Whatever is signed is accepted: for every key pair, hash value and nonce that give nonzero r
      and s. */
  lemma SignedVerifies(d: Group, x: nat, qx: int, qy: int, e: int, k: nat)
    requires Standard(d) && KeyPair(d, x, qx, qy) && 0 < k < d.N()
    ensures C.Multiple(k, d.G(), 256, d.P()).Jacobian?
    ensures var g := Sign(d, x, e, k); g.r != 0 && g.s != 0 ==> Accepts(d, qx, qy, e, g.r, g.s)
  {
    hide C.Multiple, Times, AffineX, Cong, Accepts, KeyPair, Standard, Fermat, Pow;
    StandardParts(d);
    NonceFinite(d, k);
    var g, n, w := Sign(d, x, e, k), d.N(), Pow(k, d.N() - 2) % d.N();
    if g.r != 0 && g.s != 0 {
      SmallMod(k, n);
      InverseCancels(k, w, n);
      SignedEquation(w, (e % n + (g.r * x) % n) % n, g.s, k, e, g.r * x, n);
      AcceptsIff(d, x, qx, qy, e, g.r, g.s, k);
    }
  }
}
