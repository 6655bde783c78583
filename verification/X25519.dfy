/** X25519 (section 5 of RFC 7748): the Montgomery ladder of src/crypto/x25519.c, with its
    deferred conditional swaps, against the ladder over residues modulo 2^255 - 19. */
module X25519 {
  import opened Machine
  import opened Arithmetic
  import opened Limbs
  import opened Fe25519
  import opened FeCodec
  import Bits64
  import C = Curve

  // ----- the reference ladder: no limbs, no deferred swaps

  datatype Ladder = Ladder(x2: int, z2: int, x3: int, z3: int) {
    function Swap(): Ladder {
      Ladder(x3, z3, x2, z2)
    }
  }

  const A24: int := 121665

  /** One step, modulo any m. */
  function Step(u: int, s: Ladder, m: int): Ladder
    requires m > 0
  {
    var a := C.Add(s.x2, s.z2, m);
    var aa := C.Mul(a, a, m);
    var b := C.Sub(s.x2, s.z2, m);
    var bb := C.Mul(b, b, m);
    var e := C.Sub(aa, bb, m);
    var da := C.Mul(C.Sub(s.x3, s.z3, m), a, m);
    var cb := C.Mul(C.Add(s.x3, s.z3, m), b, m);
    var sum := C.Add(da, cb, m);
    var diff := C.Sub(da, cb, m);
    Ladder(C.Mul(aa, bb, m), C.Mul(e, C.Add(aa, C.Mul(e, A24, m), m), m), C.Mul(sum, sum, m),
           C.Mul(u, C.Mul(diff, diff, m), m))
  }

  /** The pair of points after the bits 254 down to t of k. */
  function Climb(k: int, u: int, t: nat, m: int): Ladder
    requires t <= 255 && m > 0
    decreases 255 - t
  {
    if t == 255 then Ladder(1, 0, u, 1)
    else
      var s := Climb(k, u, t + 1, m);
      if Bit(k, t) == 1 then Step(u, s.Swap(), m).Swap() else Step(u, s, m)
  }

  /** X25519(k, u): the affine coordinate x2 / z2, the inverse taken as a power. */
  ghost function Product(k: int, u: int, m: int): int
    requires m > 2
  {
    var s := Climb(k, u, 0, m);
    (s.x2 * Pow(s.z2, m - 2)) % m
  }

  /** Bits 0..2 and 255 cleared, bit 254 set. */
  function DecodeScalar(n: int): int {
    R / 4 + n % (R / 4) - n % 8
  }

  function DecodeU(n: int): int {
    (n % (R / 2)) % P
  }

  // ----- the code

  ghost function State(x2: seq<int>, z2: seq<int>, x3: seq<int>, z3: seq<int>): Ladder {
    Ladder(Res(x2), Res(z2), Res(x3), Res(z3))
  }

  /** The exchange by mask: no branch depends on the flag. */
  method Swap(flag: int, a: seq<int64>, b: seq<int64>) returns (x: seq<int64>, y: seq<int64>)
    requires |a| == |b| == 16 && (flag == 0 || flag == 1)
    ensures x == (if flag == 1 then b else a) && y == (if flag == 1 then a else b)
  {
    hide Bits64.And, Bits64.Xor;
    var mask: int64 := -flag;
    var s, t := new int64[16], new int64[16];
    for i := 0 to 16
      invariant forall j :: 0 <= j < i ==> s[j] == (if flag == 1 then b[j] else a[j])
      invariant forall j :: 0 <= j < i ==> t[j] == (if flag == 1 then a[j] else b[j])
    {
      var dummy := Bits64.And(mask, Bits64.Xor(a[i], b[i]));
      Bits64.MaskedExchange(mask, a[i], b[i]);
      s[i], t[i] := Bits64.Xor(a[i], dummy), Bits64.Xor(b[i], dummy);
    }
    x, y := s[..], t[..];
  }

  method LadderStep(x1: seq<int64>, x2: seq<int64>, z2: seq<int64>, x3: seq<int64>, z3: seq<int64>)
    returns (nx2: seq<int64>, nz2: seq<int64>, nx3: seq<int64>, nz3: seq<int64>)
    requires Small(x1) && Small(x2) && Small(z2) && Small(x3) && Small(z3)
    ensures Small(nx2) && Small(nz2) && Small(nx3) && Small(nz3)
    ensures State(nx2, nz2, nx3, nz3) == Step(Res(x1), State(x2, z2, x3, z3), P)
  {
    hide FAdd, FSub, FMul, C.Add, C.Sub, C.Mul, Res, Small, Medium, Reduced;
    FieldOps();
    var a24 := [121665, 0, 0, 0, 0, 0, 0, 0, 0, 0, 0, 0, 0, 0, 0, 0];
    A24Value(a24);
    SmallIsMedium(x1);
    var a := Add(x2, z2);
    var aa := Mul(a, a);
    var b := Sub(x2, z2);
    var bb := Mul(b, b);
    var e := Sub(aa, bb);
    var c := Add(x3, z3);
    var d := Sub(x3, z3);
    var da := Mul(d, a);
    var cb := Mul(c, b);
    var sum := Add(da, cb);
    nx3 := Mul(sum, sum);
    var diff := Sub(da, cb);
    var sqDiff := Mul(diff, diff);
    nz3 := Mul(x1, sqDiff);
    nx2 := Mul(aa, bb);
    var a24e := Mul(e, a24);
    var aaPlus := Add(aa, a24e);
    nz2 := Mul(e, aaPlus);
  }

  lemma FieldOps()
    ensures forall a, b :: FAdd(a, b) == C.Add(a, b, P)
    ensures forall a, b :: FSub(a, b) == C.Sub(a, b, P)
    ensures forall a, b :: FMul(a, b) == C.Mul(a, b, P)
  {
  }

  lemma A24Value(s: seq<int>)
    requires |s| == 16 && s[0] == 121665 && forall i :: 1 <= i < 16 ==> s[i] == 0
    ensures Medium(s) && Res(s) == A24
  {
    ValueZero(s[1..], 65536);
  }

  lemma OneValue(s: seq<int>)
    requires |s| == 16 && (s[0] == 0 || s[0] == 1) && forall i :: 1 <= i < 16 ==> s[i] == 0
    ensures Small(s) && Res(s) == s[0]
  {
    ValueZero(s[1..], 65536);
  }

  method Clamp(scalar: Bytes) returns (k: Bytes)
    requires |scalar| == 32
    ensures |k| == 32 && LE(k) == DecodeScalar(LE(scalar))
  {
    var a := new uint8[32](i requires 0 <= i < 32 => scalar[i]);
    assert a[..] == scalar;
    a[0] := a[0] - a[0] % 8;
    a[31] := a[31] % 128;
    a[31] := a[31] % 64 + 64;
    k := a[..];
    assert k == scalar[0 := scalar[0] - scalar[0] % 8][31 := scalar[31] % 64 + 64];
    ClampValue(scalar, k);
  }

  lemma Pow256Top()
    ensures Pow(256, 31) * 256 == R
  {
    PowTop();
    assert Pow(256, 4) == 0x1_0000_0000;
    PowAdd(256, 4, 4);
    PowAdd(256, 8, 8);
    PowAdd(256, 16, 16);
    assert Pow(256, 32) == 256 * Pow(256, 31);
  }

  lemma ClampValue(s: seq<int>, k: seq<int>)
    requires |s| == 32 && AreDigits(s, 256)
    requires k == s[0 := s[0] - s[0] % 8][31 := s[31] % 64 + 64]
    ensures LE(k) == DecodeScalar(LE(s))
  {
    var t := s[0 := s[0] - s[0] % 8];
    var n := LE(s);
    assert LE(t) == n - s[0] % 8 by {
      ValueUpdate(s, 0, s[0] - s[0] % 8, 256);
    }
    var w, h := Pow(256, 31), s[31];
    ValueUpdate(t, 31, h % 64 + 64, 256);
    TopByte(s);
    Pow256Top();
    ClampArithmetic(n, s[0], LE(s[1..]), w, h);
  }

  lemma ClampArithmetic(n: int, first: int, rest: int, w: int, h: int)
    requires n == first + 256 * rest && w * 256 == R && 0 <= n - w * h < w
    ensures n - first % 8 + w * (h % 64 + 64 - h) == DecodeScalar(n)
  {
    MaskArithmetic(n, n - w * h, h, w, 64);
    MulDistrib(w, h % 64 + 64, h);
    MulDistrib(w, h % 64, 64);
    ModShift(first, 32 * rest, 8);
  }

  lemma TopByte(s: seq<int>)
    requires |s| == 32 && AreDigits(s, 256)
    ensures 0 <= LE(s) - Pow(256, 31) * s[31] < Pow(256, 31)
  {
    ValueSplit(s, 31, 256);
    ValueBound(s[..31], 256);
    assert s[31..] == [s[31]];
    ValueSingle(s[31], 256);
  }

  lemma MaskArithmetic(n: int, low: int, high: int, w: int, m: int)
    requires n == low + w * high && 0 <= low < w && m > 0
    ensures m * w > 0 && n % (m * w) == low + w * (high % m)
  {
    MulMono(1, m, w);
    var q, r := high / m, high % m;
    assert high == q * m + r;
    MulDistrib(w, q * m, r);
    assert w * (q * m) == q * (m * w) by {
      MulAssoc(w, q, m);
      MulSwap(w, q, m);
      MulAssoc(q, m, w);
    }
    BoundStep(low, r, m, w);
    DivModUnique(n, q, low + w * r, m * w);
  }

  /** The result is the quotient of the residues. */
  lemma Quotient(x: int, w: int)
    ensures FMul(x, w % P) == (x * w) % P
  {
    CongMod(w, P);
    CongMul(x, x, w % P, w, P);
  }

  method ScalarMult(scalar: Bytes, uIn: Bytes) returns (uOut: Bytes)
    requires |scalar| == 32 && |uIn| == 32
    ensures |uOut| == 32
    ensures LE(uOut) == Product(DecodeScalar(LE(scalar)), DecodeU(LE(uIn)), P)
  {
    hide FMul, Step, Bit, LE;
    var k := Clamp(scalar);
    var x1 := Unpack(uIn);
    ghost var u := Res(x1);
    var x2, z2, x3, z3 := Climbed(k, x1);
    var zInv := Inv(z2);
    Quotient(Res(x2), Pow(Res(z2), P - 2));
    SmallIsMedium(x2);
    var result := Mul(x2, zInv);
    uOut := Pack(result);
  }

  /** The loop over the scalar's bits and the last swap. */
  method Climbed(k: Bytes, x1: seq<int64>)
    returns (x2: seq<int64>, z2: seq<int64>, x3: seq<int64>, z3: seq<int64>)
    requires |k| == 32 && |x1| == 16 && AreDigits(x1, 65536)
    ensures Small(x2) && Small(z2) && Small(x3) && Small(z3)
    ensures State(x2, z2, x3, z3) == Climb(LE(k), Res(x1), 0, P)
  {
    hide Step, Bit, LE, Res;
    ghost var n, u := LE(k), Res(x1);
    x3 := x1;
    x2 := [1, 0, 0, 0, 0, 0, 0, 0, 0, 0, 0, 0, 0, 0, 0, 0];
    z2 := [0, 0, 0, 0, 0, 0, 0, 0, 0, 0, 0, 0, 0, 0, 0, 0];
    z3 := x2;
    OneValue(x2);
    OneValue(z2);
    var swap := 0;
    var t := 254;
    while t >= 0
      invariant -1 <= t <= 254 && 0 <= swap <= 1
      invariant Small(x2) && Small(z2) && Small(x3) && Small(z3)
      invariant State(x2, z2, x3, z3) == if swap == 1 then Climb(n, u, t + 1, P).Swap()
                                              else Climb(n, u, t + 1, P)
    {
      var kt := Bit(k[t / 8], t % 8);
      ScalarBit(k, t);
      swap := if swap == kt then 0 else 1;
      x2, x3 := Swap(swap, x2, x3);
      z2, z3 := Swap(swap, z2, z3);
      swap := kt;
      x2, z2, x3, z3 := LadderStep(x1, x2, z2, x3, z3);
      t := t - 1;
    }
    x2, x3 := Swap(swap, x2, x3);
    z2, z3 := Swap(swap, z2, z3);
  }

  lemma ScalarBit(k: seq<int>, t: nat)
    requires |k| == 32 && AreDigits(k, 256) && t < 256
    ensures Bit(k[t / 8], t % 8) == Bit(LE(k), t)
  {
    Pow2Words();
    LimbBit(k, 8, 256, t);
  }
}
