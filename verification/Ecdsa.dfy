/** ECDSA verification over a curve of the P-256 shape: src/crypto/p256.c. */
module Ecdsa {
  import opened Machine
  import opened Arithmetic
  import opened Limbs
  import opened Bignum
  import opened ModExp
  import opened P256
  import C = Curve

  /** An affine public key is a reduced pair on the curve. */
  ghost predicate KeyOnCurve(d: Group, qx: int, qy: int) {
    C.OnCurve(C.Jacobian(qx, qy, 1), d.B(), d.P())
  }

  lemma KeyRange(d: Group, qx: int, qy: int)
    requires KeyOnCurve(d, qx, qy)
    ensures 0 <= qx < d.P() && 0 <= qy < d.P()
  {
    hide C.OnEquation;
  }

  method PointIsValid(d: Group, qx: Bytes, qy: Bytes) returns (ok: bool)
    requires Usable(d) && |qx| == 32 && |qy| == 32
    ensures ok <==> KeyOnCurve(d, BE(qx), BE(qy))
  {
    hide V, InField, C.Mul, C.Add, C.OnEquation;
    var x := FromBytes(qx);
    var y := FromBytes(qy);
    BnRange(x);
    BnRange(y);
    FieldRange(d, x);
    FieldRange(d, y);
    FieldRange(d, d.b);
    var cx := Cmp(x, d.p);
    var cy := Cmp(y, d.p);
    if cx >= 0 || cy >= 0 {
      return false;
    }
    var lhs := Mul(d, y, y);
    var x2 := Mul(d, x, x);
    var x3 := Mul(d, x2, x);
    var ax := Mul(d, d.a, x);
    var rhs := Add(d, x3, ax);
    rhs := Add(d, rhs, d.b);
    var c := Cmp(lhs, rhs);
    C.AffineTest(V(x), V(y), d.B(), d.P());
    return c == 0;
  }

  lemma FieldRange(d: Group, a: Bn)
    ensures InField(d, a) <==> V(a) < d.P()
  {
  }

  // ----- verification

  /** x w for the power w = s^(n-2) modulo n. */
  ghost function Quotient(d: Group, x: int, s: int): int {
    (x * (Pow(s, d.N() - 2) % d.N())) % d.N()
  }

  /** Under Fermat it is the quotient x / s modulo n. */
  lemma QuotientTimes(d: Group, x: int, s: int)
    requires Fermat(d.N()) && 0 < s < d.N()
    ensures Cong(Quotient(d, x, s) * s, x, d.N())
  {
    hide Cong, Fermat, Pow;
    var n, w := d.N(), Pow(s, d.N() - 2) % d.N();
    SmallMod(s, n);
    InverseCancels(s, w, n);
    CongMod(x * w, n);
    CongRefl(s, n);
    CongMul(Quotient(d, x, s), x * w, s, s, n);
    CongRefl(x, n);
    CongMul(x, x, s * w, 1, n);
    MulAssoc(x, w, s);
    CongTrans(Quotient(d, x, s) * s, x * w * s, x, n);
  }

  /** u1 G + u2 Q, with u1 = e / s and u2 = r / s. */
  ghost function VerifyPoint(d: Group, qx: int, qy: int, e: int, r: int, s: int): C.Point {
    C.Sum(C.Multiple(Quotient(d, e % d.N(), s), d.G(), 256, d.P()),
          C.Multiple(Quotient(d, r, s), C.Jacobian(qx, qy, 1), 256, d.P()), d.P())
  }

  ghost predicate Accepts(d: Group, qx: int, qy: int, e: int, r: int, s: int) {
    && KeyOnCurve(d, qx, qy)
    && 0 < r < d.N() && 0 < s < d.N()
    && var point := VerifyPoint(d, qx, qy, e, r, s);
       point.Jacobian? && AffineX(d, point) % d.N() == r
  }

  method Verify(d: Group, qx: Bytes, qy: Bytes, hash: Bytes, rBytes: Bytes, sBytes: Bytes) returns (ok: bool)
    requires Usable(d) && |qx| == 32 && |qy| == 32 && |hash| == 32 && |rBytes| == 32 && |sBytes| == 32
    ensures ok <==> Accepts(d, BE(qx), BE(qy), BE(hash), BE(rBytes), BE(sBytes))
  {
    hide V, Pow, C.Multiple, C.Sum, C.OnCurve, AffineX, AffineY, KeyOnCurve, InField, BE;
    var valid := PointIsValid(d, qx, qy);
    if !valid {
      return false;
    }
    KeyRange(d, BE(qx), BE(qy));
    var r := FromBytes(rBytes);
    var s := FromBytes(sBytes);
    BnRange(r);
    BnRange(s);
    var rZero := IsZero(r);
    var rCmp := Cmp(r, d.n);
    if rZero || rCmp >= 0 {
      return false;
    }
    var sZero := IsZero(s);
    var sCmp := Cmp(s, d.n);
    if sZero || sCmp >= 0 {
      return false;
    }
    var e := FromBytes(hash);
    e := ReduceOnce(e, d.n);
    var w := ModInv(s, d.n);
    var u1 := ModMul(e, w, d.n);
    var u2 := ModMul(r, w, d.n);
    var point := Combine(d, u1, u2, qx, qy);
    if point.Infinity? {
      return false;
    }
    var v, affineY := PointToAffine(d, point);
    v := ReduceOnce(v, d.n);
    var c := Cmp(v, r);
    return c == 0;
  }

  method Combine(d: Group, u1: Bn, u2: Bn, qx: Bytes, qy: Bytes) returns (point: EcPoint)
    requires Usable(d) && |qx| == 32 && |qy| == 32 && BE(qx) < d.P() && BE(qy) < d.P()
    ensures Valid(d, point)
    ensures Abs(point) == C.Sum(C.Multiple(V(u1), d.G(), 256, d.P()),
                                C.Multiple(V(u2), C.Jacobian(BE(qx), BE(qy), 1), 256, d.P()), d.P())
  {
    hide V, C.Multiple, C.Sum, C.OnCurve, BE;
    var one: Bn := [1, 0, 0, 0, 0, 0, 0, 0];
    OneBn(one);
    var x := FromBytes(qx);
    var y := FromBytes(qy);
    var g := Jacobian(d.gx, d.gy, one);
    var q := Jacobian(x, y, one);
    var p1 := PointScalarMult(d, u1, g);
    var p2 := PointScalarMult(d, u2, q);
    point := PointAdd(d, p1, p2);
  }

  lemma OneBn(one: seq<int>)
    requires |one| == 8 && one[0] == 1 && forall i :: 1 <= i < 8 ==> one[i] == 0
    ensures V(one) == 1
  {
    ValueZero(one[1..], B);
  }

  /** Every point the verification reaches is infinity or on the curve with a nonzero
      denominator, for every key it accepts, given that p has no zero divisors. */
  lemma VerifyStaysOnCurve(d: Group, qx: int, qy: int, u1: int, u2: int, i: nat)
    requires Usable(d) && C.NoZeroDivisors(d.P()) && KeyOnCurve(d, qx, qy)
    ensures C.OnCurve(C.Doublings(d.G(), i, d.P()), d.B(), d.P())
    ensures C.OnCurve(C.Doublings(C.Jacobian(qx, qy, 1), i, d.P()), d.B(), d.P())
    ensures C.OnCurve(C.Multiple(u1, d.G(), i, d.P()), d.B(), d.P())
    ensures C.OnCurve(C.Multiple(u2, C.Jacobian(qx, qy, 1), i, d.P()), d.B(), d.P())
    ensures C.OnCurve(C.Sum(C.Multiple(u1, d.G(), i, d.P()),
                            C.Multiple(u2, C.Jacobian(qx, qy, 1), i, d.P()), d.P()), d.B(), d.P())
  {
    hide C.OnCurve, C.Multiple, C.Doublings, C.Sum;
    var g, q := d.G(), C.Jacobian(qx, qy, 1);
    C.MultipleOnCurve(u1, g, i, d.B(), d.P());
    C.MultipleOnCurve(u2, q, i, d.B(), d.P());
    C.SumOnCurve(C.Multiple(u1, g, i, d.P()), C.Multiple(u2, q, i, d.P()), d.B(), d.P());
  }

  /** An accepted signature names the x-coordinate of a finite curve point u1 G + u2 Q with
      u1 s = e and u2 s = r modulo n: v Z^2 = X with r = v mod n. */
  lemma AcceptedPoint(d: Group, qx: int, qy: int, e: int, r: int, s: int) returns (u1: int, u2: int, v: int)
    requires Usable(d) && C.NoZeroDivisors(d.P()) && Fermat(d.P()) && Fermat(d.N()) && Accepts(d, qx, qy, e, r, s)
    ensures KeyOnCurve(d, qx, qy) && 0 < r < d.N() && 0 < s < d.N()
    ensures Cong(u1 * s, e, d.N()) && Cong(u2 * s, r, d.N())
    ensures var point := C.Sum(C.Multiple(u1, d.G(), 256, d.P()),
                               C.Multiple(u2, C.Jacobian(qx, qy, 1), 256, d.P()), d.P());
            && point.Jacobian? && C.OnCurve(point, d.B(), d.P())
            && v % d.N() == r && Cong(v * (point.z * point.z), point.x, d.P())
  {
    hide C.Multiple, C.Sum, C.Doublings, C.OnEquation, Pow, AffineX, AffineY, Quotient, Fermat, Cong;
    u1, u2 := Quotient(d, e % d.N(), s), Quotient(d, r, s);
    QuotientTimes(d, e % d.N(), s);
    QuotientTimes(d, r, s);
    CongMod(e, d.N());
    CongTrans(u1 * s, e % d.N(), e, d.N());
    var point := VerifyPoint(d, qx, qy, e, r, s);
    VerifyStaysOnCurve(d, qx, qy, u1, u2, 256);
    SmallMod(point.z, d.P());
    AffineCorrect(d, point);
    v := AffineX(d, point);
  }
}
