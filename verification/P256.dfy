/** NIST P-256: the domain parameters and the point operations of src/crypto/p256_internal.h over
    limbs. */
module P256 {
  import opened Arithmetic
  import opened Bignum
  import opened ModExp
  import C = Curve

  /** Domain parameters as the code keeps them, least significant limb first. Everything but the
      lemmas about P-256 itself holds for any curve of this shape, so the digits stay out of the
      way of the algebra. */
  datatype Domain = Domain(p: Bn, a: Bn, b: Bn, n: Bn, gx: Bn, gy: Bn) {
    function P(): int {
      V(p)
    }

    function N(): int {
      V(n)
    }

    function B(): int {
      V(b)
    }

    function G(): C.Point {
      C.Jacobian(V(gx), V(gy), 1)
    }
  }

  /** Both moduli are real ones. */
  type Group = d: Domain | d.P() > 3 && d.N() > 2 witness (Parameters(); P256)

  /** a is -3, everything is reduced, and the base point is on the curve. */
  ghost predicate Usable(d: Group) {
    && V(d.a) == d.P() - 3 && V(d.b) < d.P() && V(d.gx) < d.P() && V(d.gy) < d.P()
    && C.OnCurve(d.G(), d.B(), d.P())
  }

  /** NIST P-256. */
  const P256: Domain := Domain(
    [0xffffffff, 0xffffffff, 0xffffffff, 0x00000000, 0x00000000, 0x00000000, 0x00000001, 0xffffffff],
    [0xfffffffc, 0xffffffff, 0xffffffff, 0x00000000, 0x00000000, 0x00000000, 0x00000001, 0xffffffff],
    [0x27d2604b, 0x3bce3c3e, 0xcc53b0f6, 0x651d06b0, 0x769886bc, 0xb3ebbd55, 0xaa3a93e7, 0x5ac635d8],
    [0xfc632551, 0xf3b9cac2, 0xa7179e84, 0xbce6faad, 0xffffffff, 0xffffffff, 0x00000000, 0xffffffff],
    [0xd898c296, 0xf4a13945, 0x2deb33a0, 0x77037d81, 0x63a440f2, 0xf8bce6e5, 0xe12c4247, 0x6b17d1f2],
    [0x37bf51f5, 0xcbb64068, 0x6b315ece, 0x2bce3357, 0x7c0f9e16, 0x8ee7eb4a, 0xfe1a7f9b, 0x4fe342e2])

  lemma EightLimbs(s: seq<int>)
    requires |s| == 8
    ensures V(s) == s[0] + B * (s[1] + B * (s[2] + B * (s[3] + B * (s[4] + B * (s[5] + B * (s[6] + B * s[7]))))))
  {
    LimbStep(s, 0);
    LimbStep(s, 1);
    LimbStep(s, 2);
    LimbStep(s, 3);
    LimbStep(s, 4);
    LimbStep(s, 5);
    LimbStep(s, 6);
    LimbStep(s, 7);
    assert s[0..] == s && s[8..] == [];
  }

  lemma LimbStep(s: seq<int>, i: nat)
    requires i < |s|
    ensures V(s[i..]) == s[i] + B * V(s[i + 1..])
  {
    assert s[i..][1..] == s[i + 1..];
  }

  /** The limbs are the numbers of section D.1.2.3 of FIPS 186-4. */
  lemma Parameters()
    ensures P256.P() == 0xffffffff_00000001_00000000_00000000_00000000_ffffffff_ffffffff_ffffffff
    ensures P256.N() == 0xffffffff_00000000_ffffffff_ffffffff_bce6faad_a7179e84_f3b9cac2_fc632551
    ensures P256.B() == 0x5ac635d8_aa3a93e7_b3ebbd55_769886bc_651d06b0_cc53b0f6_3bce3c3e_27d2604b
    ensures V(P256.gx) == 0x6b17d1f2_e12c4247_f8bce6e5_63a440f2_77037d81_2deb33a0_f4a13945_d898c296
    ensures V(P256.gy) == 0x4fe342e2_fe1a7f9b_8ee7eb4a_7c0f9e16_2bce3357_6b315ece_cbb64068_37bf51f5
    ensures V(P256.a) == P256.P() - 3
  {
    hide V;
    EightLimbs(P256.p);
    EightLimbs(P256.a);
    EightLimbs(P256.b);
    EightLimbs(P256.n);
    EightLimbs(P256.gx);
    EightLimbs(P256.gy);
  }

  /** They describe a usable curve: in particular the base point is on it. */
  lemma P256Usable()
    ensures P256.P() > 3 && P256.N() > 2 && Usable(P256)
  {
    hide V;
    Parameters();
  }

  datatype EcPoint = Infinity | Jacobian(x: Bn, y: Bn, z: Bn)

  ghost function Abs(p: EcPoint): C.Point {
    match p
    case Infinity => C.Infinity
    case Jacobian(x, y, z) => C.Jacobian(V(x), V(y), V(z))
  }

  ghost predicate InField(d: Group, a: Bn) {
    V(a) < d.P()
  }

  ghost predicate Valid(d: Group, p: EcPoint) {
    p.Infinity? || (InField(d, p.x) && InField(d, p.y) && InField(d, p.z))
  }

  method Mul(d: Group, a: Bn, b: Bn) returns (o: Bn)
    ensures InField(d, o) && V(o) == C.Mul(V(a), V(b), d.P())
  {
    hide V;
    o := ModMul(a, b, d.p);
  }

  method Add(d: Group, a: Bn, b: Bn) returns (o: Bn)
    requires InField(d, a) && InField(d, b)
    ensures InField(d, o) && V(o) == C.Add(V(a), V(b), d.P())
  {
    hide V;
    o := ModAdd(a, b, d.p);
  }

  method Sub(d: Group, a: Bn, b: Bn) returns (o: Bn)
    requires InField(d, a) && InField(d, b)
    ensures InField(d, o) && V(o) == C.Sub(V(a), V(b), d.P())
  {
    hide V;
    o := ModSub(a, b, d.p);
  }

  method PointDouble(d: Group, p: EcPoint) returns (r: EcPoint)
    requires Valid(d, p)
    ensures Valid(d, r) && Abs(r) == C.Double(Abs(p), d.P())
  {
    hide V, C.Mul, C.Add, C.Sub, InField;
    if p.Infinity? {
      return Infinity;
    }
    var yZero := IsZero(p.y);
    if yZero {
      return Infinity;
    }
    var delta := Mul(d, p.z, p.z);
    var gamma := Mul(d, p.y, p.y);
    var beta := Mul(d, p.x, gamma);
    var xMinus := Sub(d, p.x, delta);
    var xPlus := Add(d, p.x, delta);
    var alphaBase := Mul(d, xMinus, xPlus);
    var alpha := Add(d, alphaBase, alphaBase);
    alpha := Add(d, alpha, alphaBase);
    var alphaSq := Mul(d, alpha, alpha);
    var twoBeta := Add(d, beta, beta);
    var fourBeta := Add(d, twoBeta, twoBeta);
    var eightBeta := Add(d, fourBeta, fourBeta);
    var x3 := Sub(d, alphaSq, eightBeta);
    var yz := Add(d, p.y, p.z);
    var yzSq := Mul(d, yz, yz);
    var z3Tmp := Sub(d, yzSq, gamma);
    var z3 := Sub(d, z3Tmp, delta);
    var bMinus := Sub(d, fourBeta, x3);
    var alphaTimes := Mul(d, alpha, bMinus);
    var gammaSq := Mul(d, gamma, gamma);
    var twoGammaSq := Add(d, gammaSq, gammaSq);
    var fourGammaSq := Add(d, twoGammaSq, twoGammaSq);
    var eightGammaSq := Add(d, fourGammaSq, fourGammaSq);
    var y3 := Sub(d, alphaTimes, eightGammaSq);
    r := Jacobian(x3, y3, z3);
  }

  method PointAdd(d: Group, p: EcPoint, q: EcPoint) returns (r: EcPoint)
    requires Valid(d, p) && Valid(d, q)
    ensures Valid(d, r) && Abs(r) == C.Sum(Abs(p), Abs(q), d.P())
  {
    hide V, C.Mul, C.Add, C.Sub, C.Double, C.Chord, InField;
    if p.Infinity? {
      return q;
    }
    if q.Infinity? {
      return p;
    }
    var z1z1 := Mul(d, p.z, p.z);
    var z2z2 := Mul(d, q.z, q.z);
    var u1 := Mul(d, p.x, z2z2);
    var u2 := Mul(d, q.x, z1z1);
    var z1z1z1 := Mul(d, z1z1, p.z);
    var z2z2z2 := Mul(d, z2z2, q.z);
    var s1 := Mul(d, p.y, z2z2z2);
    var s2 := Mul(d, q.y, z1z1z1);
    var h := Sub(d, u2, u1);
    var rr := Sub(d, s2, s1);
    var hZero := IsZero(h);
    if hZero {
      var rZero := IsZero(rr);
      if rZero {
        r := PointDouble(d, p);
      } else {
        r := Infinity;
      }
      return;
    }
    var z1z2 := Mul(d, p.z, q.z);
    var z3 := Mul(d, z1z2, h);
    r := ChordPoint(d, u1, s1, h, rr, z3);
  }

  method ChordPoint(d: Group, u1: Bn, s1: Bn, h: Bn, rr: Bn, z3: Bn) returns (r: EcPoint)
    requires InField(d, u1) && InField(d, s1) && InField(d, h) && InField(d, rr) && InField(d, z3)
    ensures Valid(d, r) && Abs(r) == C.Chord(V(u1), V(s1), V(h), V(rr), V(z3), d.P())
  {
    hide V, C.Mul, C.Add, C.Sub, InField;
    var h2 := Mul(d, h, h);
    var h3 := Mul(d, h2, h);
    var u1h2 := Mul(d, u1, h2);
    var twoU1h2 := Add(d, u1h2, u1h2);
    var rr2 := Mul(d, rr, rr);
    var tmp := Sub(d, rr2, h3);
    var x3 := Sub(d, tmp, twoU1h2);
    var u1h2Minus := Sub(d, u1h2, x3);
    tmp := Mul(d, rr, u1h2Minus);
    var s1h3 := Mul(d, s1, h3);
    var y3 := Sub(d, tmp, s1h3);
    r := Jacobian(x3, y3, z3);
  }

  method PointScalarMult(d: Group, k: Bn, p: EcPoint) returns (r: EcPoint)
    requires Valid(d, p)
    ensures Valid(d, r) && Abs(r) == C.Multiple(V(k), Abs(p), 256, d.P())
  {
    hide V, C.Double, C.Sum, InField, Bit;
    r := Infinity;
    var addend := p;
    for i := 0 to 256
      invariant Valid(d, r) && Valid(d, addend)
      invariant Abs(addend) == C.Doublings(Abs(p), i, d.P())
      invariant Abs(r) == C.Multiple(V(k), Abs(p), i, d.P())
    {
      ExpBit(k, i);
      if Bit(k[i / 32], i % 32) == 1 {
        r := PointAdd(d, r, addend);
      }
      addend := PointDouble(d, addend);
    }
  }

  // ----- back to affine coordinates

  ghost function ZInverse(d: Group, z: int): int {
    Pow(z, d.P() - 2) % d.P()
  }

  ghost function AffineX(d: Group, p: C.Point): int
    requires p.Jacobian?
  {
    C.Mul(p.x, C.Mul(ZInverse(d, p.z), ZInverse(d, p.z), d.P()), d.P())
  }

  ghost function AffineY(d: Group, p: C.Point): int
    requires p.Jacobian?
  {
    C.Mul(p.y, C.Mul(C.Mul(ZInverse(d, p.z), ZInverse(d, p.z), d.P()), ZInverse(d, p.z), d.P()), d.P())
  }

  method PointToAffine(d: Group, p: EcPoint) returns (x: Bn, y: Bn)
    requires p.Jacobian?
    ensures V(x) == AffineX(d, Abs(p)) && V(y) == AffineY(d, Abs(p))
  {
    hide V, C.Mul, Pow, InField;
    var zInv := ModInv(p.z, d.p);
    var zInv2 := Mul(d, zInv, zInv);
    var zInv3 := Mul(d, zInv2, zInv);
    x := Mul(d, p.x, zInv2);
    y := Mul(d, p.y, zInv3);
  }

  /** x Z^2 = X and y Z^3 = Y, given Fermat's theorem for p. */
  lemma AffineCorrect(d: Group, p: C.Point)
    requires p.Jacobian? && p.z % d.P() != 0 && Fermat(d.P())
    ensures Cong(AffineX(d, p) * (p.z * p.z), p.x, d.P())
    ensures Cong(AffineY(d, p) * (p.z * p.z * p.z), p.y, d.P())
  {
    hide Cong, C.Mul, Pow;
    var z, i, m := p.z, ZInverse(d, p.z), d.P();
    CongRefl(p.x, m);
    CongRefl(p.y, m);
    CongRefl(i, m);
    CongRefl(z, m);
    C.OpMul(i, i, i, i, m);
    C.OpMul(p.x, p.x, C.Mul(i, i, m), i * i, m);
    C.OpMul(C.Mul(i, i, m), i * i, i, i, m);
    C.OpMul(p.y, p.y, C.Mul(C.Mul(i, i, m), i, m), i * i * i, m);
    InverseCancels(z, i, m);
    CongMul(z * i, 1, z * i, 1, m);
    CongMul(z * i * (z * i), 1, z * i, 1, m);
    CancelTwo(AffineX(d, p), p.x, z, i, m);
    CancelThree(AffineY(d, p), p.y, z, i, m);
  }

  lemma CancelTwo(v: int, x: int, z: int, i: int, m: int)
    requires m > 0 && Cong(v, x * (i * i), m) && Cong(z * i * (z * i), 1, m)
    ensures Cong(v * (z * z), x, m)
  {
    CongRefl(z * z, m);
    CongMul(v, x * (i * i), z * z, z * z, m);
    C.SquareMul(z, i);
    MulAssoc(x, i * i, z * z);
    CongMul(x, x, z * i * (z * i), 1, m);
  }

  lemma CancelThree(v: int, y: int, z: int, i: int, m: int)
    requires m > 0 && Cong(v, y * (i * i * i), m) && Cong(z * i * (z * i) * (z * i), 1, m)
    ensures Cong(v * (z * z * z), y, m)
  {
    CongRefl(z * z * z, m);
    CongMul(v, y * (i * i * i), z * z * z, z * z * z, m);
    C.SquareMul(z, i);
    C.Interchange(z * z, i * i, z, i);
    MulAssoc(y, i * i * i, z * z * z);
    CongMul(y, y, z * i * (z * i) * (z * i), 1, m);
  }
}
