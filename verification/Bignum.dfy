/** 256-bit numbers as eight 32-bit limbs, and arithmetic modulo a 256-bit modulus by binary
    long division, as in src/crypto/p256_internal.h. */
module Bignum {
  import opened Machine
  import opened Arithmetic
  import opened Limbs

  const B: int := 0x1_0000_0000

  type Bn = s: seq<uint32> | |s| == 8 witness [0, 0, 0, 0, 0, 0, 0, 0]

  function V(s: seq<int>): int {
    Value(s, B)
  }

  lemma PowB()
    ensures Pow(B, 8) == R && Pow(B, 9) == B * R && Pow(B, 16) == R * R
  {
    assert Pow(B, 4) == 0x1_0000_0000_0000_0000_0000_0000_0000_0000;
    PowAdd(B, 4, 4);
    PowAdd(B, 8, 8);
  }

  lemma BnRange(a: Bn)
    ensures 0 <= V(a) < R
  {
    ValueBound(a, B);
    PowB();
  }

  // ----- comparison

  method IsZero(a: Bn) returns (r: bool)
    ensures r <==> V(a) == 0
  {
    for i := 0 to 8
      invariant forall k :: 0 <= k < i ==> a[k] == 0
    {
      if a[i] != 0 {
        NonZero(a, i);
        return false;
      }
    }
    ValueZero(a, B);
    return true;
  }

  lemma NonZero(a: seq<int>, i: nat)
    requires AreDigits(a, B) && i < |a| && a[i] != 0
    ensures V(a) > 0
  {
    ValueSplit(a, i, B);
    ValueBound(a[..i], B);
    ValueBound(a[i + 1..], B);
    PowPositive(B, i);
    assert a[i..][1..] == a[i + 1..];
    MulMono(1, Value(a[i..], B), Pow(B, i));
  }

  lemma TopLess(a: seq<int>, b: seq<int>, i: nat)
    requires |a| == |b| && AreDigits(a, B) && AreDigits(b, B) && i < |a| && a[i] < b[i]
    requires forall k :: i < k < |a| ==> a[k] == b[k]
    ensures V(a) < V(b)
  {
    assert a[i + 1..] == b[i + 1..];
    ValueTopLess(a, b, i, B);
  }

  method Cmp(a: Bn, b: Bn) returns (r: int)
    ensures r == (if V(a) < V(b) then -1 else if V(a) > V(b) then 1 else 0)
  {
    hide V;
    var i := 7;
    while i >= 0
      invariant -1 <= i <= 7 && forall k :: i < k < 8 ==> a[k] == b[k]
    {
      if a[i] != b[i] {
        if a[i] < b[i] {
          TopLess(a, b, i);
          return -1;
        } else {
          TopLess(b, a, i);
          return 1;
        }
      }
      i := i - 1;
    }
    assert a == b;
    return 0;
  }

  // ----- raw addition and subtraction with a carry or a borrow

  lemma CarryStep(o: seq<int>, a: seq<int>, b: seq<int>, sign: int, i: nat, c: int, d: int)
    requires |o| == |a| == |b| && i < |o|
    requires o[i] + B * d == a[i] + sign * b[i] + c
    requires V(o[..i]) == V(a[..i]) + sign * V(b[..i]) - c * Pow(B, i)
    ensures V(o[..i + 1]) == V(a[..i + 1]) + sign * V(b[..i + 1]) - d * Pow(B, i + 1)
  {
    ValuePrefixStep(o, i, B);
    ValuePrefixStep(a, i, B);
    ValuePrefixStep(b, i, B);
    CarryMoves(Pow(B, i), o[i], a[i], b[i], sign, c, d, V(b[..i]));
  }

  lemma CarryMoves(p: int, o: int, a: int, b: int, sign: int, c: int, d: int, w: int)
    requires o + B * d == a + sign * b + c
    ensures p * o == p * a + sign * (w + p * b) - sign * w + c * p - d * (B * p)
  {
    MulDistrib(sign, w, p * b);
    MulAssoc(sign, p, b);
    MulSwap(sign, p, b);
    MulDistrib(p, a + sign * b + c, B * d);
    MulDistrib(p, a + sign * b, c);
    MulDistrib(p, a, sign * b);
    assert p * (sign * b) == sign * b * p;
    assert p * (B * d) == d * (B * p);
  }

  method AddRaw(a: Bn, b: Bn) returns (o: Bn, carry: uint64)
    ensures 0 <= carry <= 1 && V(o) == V(a) + V(b) - carry * R
  {
    hide V;
    var t := new uint32[8];
    carry := 0;
    EmptyValue(a);
    assert t[..0] == a[..0] == b[..0];
    for i := 0 to 8
      invariant 0 <= carry <= 1
      invariant V(t[..i]) == V(a[..i]) + 1 * V(b[..i]) - carry * Pow(B, i)
    {
      ghost var before, c := t[..i], carry;
      var x: int, y: int := a[i], b[i];
      var s: uint64 := x + y + carry;
      t[i] := s % B;
      carry := s / B;
      assert t[..][..i] == before;
      CarryStep(t[..], a, b, 1, i, c, carry);
      assert t[..][..i + 1] == t[..i + 1];
    }
    o := t[..];
    assert t[..8] == o && a[..8] == a && b[..8] == b;
    PowB();
  }

  /** The 64-bit difference wraps; its top bit is the borrow. */
  method SubRaw(a: Bn, b: Bn) returns (o: Bn, borrow: uint64)
    ensures borrow == (if V(a) < V(b) then 1 else 0) && V(o) == V(a) - V(b) + borrow * R
  {
    hide V;
    var t := new uint32[8];
    borrow := 0;
    EmptyValue(a);
    assert t[..0] == a[..0] == b[..0];
    for i := 0 to 8
      invariant 0 <= borrow <= 1
      invariant V(t[..i]) == V(a[..i]) + -1 * V(b[..i]) + borrow * Pow(B, i)
    {
      ghost var before, c: int := t[..i], borrow;
      var diff := Wrapped(a[i], b[i], borrow);
      t[i] := diff % B;
      borrow := (diff / 0x8000_0000_0000_0000) % 2;
      assert t[..][..i] == before;
      CarryStep(t[..], a, b, -1, i, 0 - c, -(borrow as int));
      assert t[..][..i + 1] == t[..i + 1];
    }
    o := t[..];
    assert t[..8] == o && a[..8] == a && b[..8] == b;
    PowB();
    BnRange(o);
    BnRange(a);
    BnRange(b);
  }

  function Wrapped(x: int, y: int, borrow: int): (d: uint64)
    requires 0 <= x < B && 0 <= y < B && 0 <= borrow <= 1
    ensures d / 0x8000_0000_0000_0000 == (if x < y + borrow then 1 else 0)
    ensures d % B == x - y - borrow + (if x < y + borrow then B else 0)
  {
    (x - y - borrow) % 0x1_0000_0000_0000_0000
  }

  // ----- schoolbook multiplication

  lemma MulStep(s: seq<int>, x: int, b: seq<int>, i: nat, j: nat, c: int, d: int, y: int, v: int)
    requires j < |b| && i + j < |s|
    requires y + B * d == x * b[j] + s[i + j] + c
    requires V(s) + c * Pow(B, i + j) == v + x * Pow(B, i) * V(b[..j])
    ensures V(s[i + j := y]) + d * Pow(B, i + j + 1) == v + x * Pow(B, i) * V(b[..j + 1])
  {
    var p, q, w := Pow(B, i), Pow(B, j), V(b[..j]);
    ValueUpdate(s, i + j, y, B);
    ValuePrefixStep(b, j, B);
    PowAdd(B, i, j);
    MulRow(p, q, x, b[j], w);
    MulStepMoves(p * q, x * b[j], y - s[i + j], c, d);
  }

  lemma MulStepMoves(p: int, xy: int, diff: int, c: int, d: int)
    requires diff + B * d == xy + c
    ensures p * diff + d * (B * p) == p * xy + c * p
  {
    MulDistrib(p, diff, B * d);
    MulDistrib(p, xy, c);
    assert p * (B * d) == d * (B * p);
  }

  /** One row: adds x * b, shifted by i limbs, leaving a carry for limb i + 8. */
  method MulRowInto(o: array<uint32>, x: uint32, b: Bn, i: nat) returns (carry: uint64)
    requires o.Length == 16 && i < 8
    modifies o
    ensures 0 <= carry < B
    ensures V(o[..]) + carry * Pow(B, i + 8) == V(old(o[..])) + x * Pow(B, i) * V(b)
    ensures forall k :: i + 8 <= k < 16 ==> o[k] == old(o[k])
  {
    ghost var v := V(o[..]);
    carry := 0;
    for j := 0 to 8
      invariant 0 <= carry < B
      invariant V(o[..]) + carry * Pow(B, i + j) == v + x * Pow(B, i) * V(b[..j])
      invariant forall k :: i + 8 <= k < 16 ==> o[k] == old(o[k])
    {
      ghost var s: seq<int>, c := o[..], carry;
      var f: int, g: int, h: int := x, b[j], o[i + j];
      ProductFits(f, g, h, carry);
      var t: uint64 := f * g + h + carry;
      o[i + j] := t % B;
      carry := t / B;
      assert o[..] == s[i + j := t % B];
      MulStep(s, x, b, i, j, c, carry, t % B, v);
    }
    assert b[..8] == b;
  }

  lemma ProductFits(x: int, y: int, o: int, c: int)
    requires 0 <= x < B && 0 <= y < B && 0 <= o < B && 0 <= c < B
    ensures 0 <= x * y + o + c < B * B
  {
    MulMono(x, B - 1, y);
    MulMono(0, x, y);
  }

  /** Carries past the row: the limb it meets is still zero, so it stops there. */
  method Propagate(w: array<uint32>, start: nat, carryIn: uint64)
    requires w.Length == 16 && start < 16 && carryIn < B && w[start] == 0
    modifies w
    ensures V(w[..]) == V(old(w[..])) + carryIn * Pow(B, start)
    ensures forall k :: 0 <= k < 16 && k != start ==> w[k] == old(w[k])
  {
    ghost var s: seq<int> := w[..];
    var k, carry := start, carryIn;
    while carry != 0
      invariant start <= k <= start + 1 && 0 <= carry < B
      invariant if k == start then carry == carryIn && w[..] == s else carry == 0 && w[..] == s[start := carryIn]
      decreases carry
    {
      var t: uint64 := w[k] as int + carry;
      w[k] := t % B;
      carry := t / B;
      assert w[..] == s[start := carryIn];
      k := k + 1;
    }
    ValueUpdate(s, start, carryIn, B);
    assert s[start := 0] == s;
  }

  method MulWide(a: Bn, b: Bn) returns (o: seq<uint32>)
    ensures |o| == 16 && V(o) == V(a) * V(b)
  {
    hide V;
    var w := new uint32[16](_ => 0);
    AllZero(w[..]);
    EmptyPrefix(a, V(b));
    for i := 0 to 8
      invariant V(w[..]) == V(a[..i]) * V(b)
      invariant forall k :: i + 8 <= k < 16 ==> w[k] == 0
    {
      var carry := MulRowInto(w, a[i], b, i);
      Propagate(w, i + 8, carry);
      RowDone(a, i, V(b));
    }
    assert a[..8] == a;
    o := w[..];
  }

  lemma EmptyValue(s: seq<int>)
    ensures V(s[..0]) == 0
  {
  }

  lemma UpdateLow(s: seq<int>, x: int)
    requires |s| > 0
    ensures V(s[0 := x]) == V(s) + x - s[0]
  {
    ValueUpdate(s, 0, x, B);
  }

  lemma AllZero(s: seq<int>)
    requires forall i :: 0 <= i < |s| ==> s[i] == 0
    ensures V(s) == 0
  {
    ValueZero(s, B);
  }

  lemma EmptyPrefix(a: seq<int>, w: int)
    ensures V(a[..0]) * w == 0
  {
  }

  lemma RowDone(a: seq<int>, i: nat, w: int)
    requires i < |a|
    ensures V(a[..i]) * w + a[i] * Pow(B, i) * w == V(a[..i + 1]) * w
  {
    ValuePrefixStep(a, i, B);
    var v, p := V(a[..i]), Pow(B, i);
    assert a[i] * p == p * a[i];
    MulDistribR(v, p * a[i], w);
  }

  // ----- reduction by binary long division

  /** rem := 2 * rem, over nine limbs. */
  method Double(rem: array<uint32>)
    requires rem.Length == 9 && V(rem[..]) < R
    modifies rem
    ensures V(rem[..]) == 2 * V(old(rem[..])) && rem[0] % 2 == 0
  {
    hide V;
    ghost var s: seq<int> := rem[..];
    var carry: uint32 := 0;
    EmptyValue(s);
    assert rem[..0] == s[..0];
    for i := 0 to 9
      invariant 0 <= carry <= 1 && (i == 0 ==> carry == 0) && (i > 0 ==> rem[0] % 2 == 0)
      invariant V(rem[..i]) == V(s[..i]) + 1 * V(s[..i]) - carry * Pow(B, i)
      invariant forall k :: i <= k < 9 ==> rem[k] == s[k]
    {
      ghost var before, c := rem[..i], carry;
      var x: int := rem[i];
      var nextCarry := x / 0x8000_0000;
      rem[i] := (2 * x) % B + carry;
      carry := nextCarry;
      ghost var t: seq<int> := rem[..];
      assert t[..i] == before;
      CarryStep(t, s, s, 1, i, c, carry);
      assert t[..i + 1] == rem[..i + 1];
    }
    assert rem[..9] == rem[..] && s[..9] == s;
    NoCarryOut(rem[..], s, carry);
  }

  /** rem := 2 * rem + bit; the low bit is free, so the or is an addition. */
  method ShiftIn(rem: array<uint32>, bit: int)
    requires rem.Length == 9 && V(rem[..]) < R && 0 <= bit <= 1
    modifies rem
    ensures V(rem[..]) == 2 * V(old(rem[..])) + bit
  {
    hide V;
    Double(rem);
    ghost var t: seq<int> := rem[..];
    rem[0] := rem[0] + bit;
    assert rem[..] == t[0 := t[0] + bit];
    UpdateLow(t, t[0] + bit);
  }

  lemma NoCarryOut(t: seq<int>, s: seq<int>, carry: int)
    requires |t| == |s| == 9 && AreDigits(t, B) && 0 <= carry <= 1 && V(s) < R
    requires V(t) == 2 * V(s) - carry * Pow(B, 9)
    ensures carry == 0
  {
    PowB();
    ValueBound(t, B);
  }

  method AtLeast(rem: seq<uint32>, m: Bn) returns (r: bool)
    requires |rem| == 9
    ensures r <==> V(rem) >= V(m)
  {
    hide V;
    ghost var wide: seq<int> := m + [0];
    ExtendZero(m);
    if rem[8] != 0 {
      TopLess(wide, rem, 8);
      return true;
    }
    var i := 7;
    while i >= 0
      invariant -1 <= i <= 7 && forall k :: i < k < 9 ==> rem[k] == wide[k]
    {
      if rem[i] > m[i] {
        TopLess(wide, rem, i);
        return true;
      }
      if rem[i] < m[i] {
        TopLess(rem, wide, i);
        return false;
      }
      i := i - 1;
    }
    assert rem == wide;
    return true;
  }

  lemma ExtendZero(m: seq<int>)
    ensures V(m + [0]) == V(m)
  {
    ValueAppend(m, 0, B);
  }

  /** Subtracts m from the eight low limbs. */
  method SubtractLow(rem: array<uint32>, m: Bn) returns (borrow: uint64)
    requires rem.Length == 9
    modifies rem
    ensures 0 <= borrow <= 1 && rem[8] == old(rem[8])
    ensures V(rem[..8]) == V(old(rem[..8])) + -1 * V(m) + borrow * Pow(B, 8)
  {
    hide V;
    ghost var s: seq<int> := rem[..8];
    EmptyValue(s);
    assert rem[..0] == s[..0] == m[..0];
    borrow := 0;
    for i := 0 to 8
      invariant 0 <= borrow <= 1 && rem[8] == old(rem[8])
      invariant V(rem[..i]) == V(s[..i]) + -1 * V(m[..i]) + borrow * Pow(B, i)
      invariant forall k :: i <= k < 8 ==> rem[k] == s[k]
    {
      ghost var before, c: int := rem[..i], borrow;
      var diff := Wrapped(rem[i], m[i], borrow);
      rem[i] := diff % B;
      borrow := (diff / 0x8000_0000_0000_0000) % 2;
      ghost var t: seq<int> := rem[..8];
      assert t[..i] == before;
      CarryStep(t, s, m, -1, i, 0 - c, -(borrow as int));
      assert t[..i + 1] == rem[..i + 1];
    }
    assert s[..8] == s && m[..8] == m;
  }

  method SubtractInPlace(rem: array<uint32>, m: Bn)
    requires rem.Length == 9 && V(rem[..]) >= V(m)
    modifies rem
    ensures V(rem[..]) == V(old(rem[..])) - V(m)
  {
    hide V;
    ghost var s: seq<int> := rem[..];
    assert rem[..8] == s[..8];
    var borrow := SubtractLow(rem, m);
    ghost var t: seq<int> := rem[..];
    assert rem[..8] == t[..8];
    TopBorrow(t, s, m, borrow);
    rem[8] := rem[8] - borrow;
    assert rem[..] == t[8 := t[8] - borrow];
  }

  /** A borrow out of the eight low limbs is covered by the ninth. */
  lemma TopBorrow(t: seq<int>, s: seq<int>, m: seq<int>, borrow: int)
    requires |t| == |s| == 9 && |m| == 8 && AreDigits(t, B) && AreDigits(m, B) && 0 <= borrow <= 1
    requires t[8] == s[8] && V(s) >= V(m)
    requires V(t[..8]) == V(s[..8]) + -1 * V(m) + borrow * Pow(B, 8)
    ensures t[8] >= borrow
    ensures V(t[8 := t[8] - borrow]) == V(s) - V(m)
  {
    PowB();
    ValueBound(t[..8], B);
    ValuePrefixStep(s, 8, B);
    ValuePrefixStep(t, 8, B);
    assert s[..9] == s && t[..9] == t;
    ValueUpdate(t, 8, t[8] - borrow, B);
  }

  /** One step of long division keeps the remainder of the prefix. */
  lemma DivisionStep(w: int, bit: nat, m: int, r: int)
    requires m > 0 && r == (w / Pow2(bit + 1)) % m
    ensures var t := 2 * r + Bit(w, bit);
            (w / Pow2(bit)) % m == if t >= m then t - m else t
  {
    PrefixStep(w, bit);
    var q := w / Pow2(bit + 1);
    var t := 2 * r + Bit(w, bit);
    var k := 2 * (q / m);
    assert q == (q / m) * m + r;
    MulAssoc(2, q / m, m);
    if t >= m {
      MulDistribR(k, 1, m);
      DivModUnique(2 * q + Bit(w, bit), k + 1, t - m, m);
    } else {
      DivModUnique(2 * q + Bit(w, bit), k, t, m);
    }
  }

  method ReduceWide(wide: seq<uint32>, m: Bn) returns (o: Bn)
    requires |wide| == 16 && V(m) > 0
    ensures V(o) == V(wide) % V(m)
  {
    hide V, Bit, Pow2;
    ghost var w := V(wide);
    var rem := new uint32[9](_ => 0);
    StartZero(wide, rem[..], V(m));
    BnRange(m);
    var bit := 511;
    while bit >= 0
      invariant -1 <= bit <= 511
      invariant V(rem[..]) == (w / Pow2(bit + 1)) % V(m)
    {
      WideBit(wide, bit);
      DivisionStep(w, bit, V(m), V(rem[..]));
      ShiftIn(rem, Bit(wide[bit / 32], bit % 32));
      var ge := AtLeast(rem[..], m);
      if ge {
        SubtractInPlace(rem, m);
      }
      bit := bit - 1;
    }
    Finished(w, rem[..], V(m));
    o := rem[..8];
  }

  lemma StartZero(wide: seq<int>, z: seq<int>, m: int)
    requires |wide| == 16 && AreDigits(wide, B) && m > 0
    requires |z| == 9 && forall i :: 0 <= i < 9 ==> z[i] == 0
    ensures V(z) == (V(wide) / Pow2(511 + 1)) % m
  {
    ValueZero(z, B);
    ValueBound(wide, B);
    PowB();
    Pow2Wide();
    Pow2Add(256, 256);
    DivModUnique(V(wide), 0, V(wide), Pow2(512));
    SmallMod(0, m);
  }

  lemma WideBit(wide: seq<int>, i: nat)
    requires |wide| == 16 && AreDigits(wide, B) && i < 512
    ensures Bit(wide[i / 32], i % 32) == Bit(V(wide), i)
  {
    Pow2Words();
    LimbBit(wide, 32, B, i);
  }

  lemma Finished(w: int, rem: seq<int>, m: int)
    requires |rem| == 9 && AreDigits(rem, B) && 0 < m < R && V(rem) == (w / Pow2(0)) % m
    ensures V(rem[..8]) == w % m
  {
    PowB();
    ValueSplit(rem, 8, B);
    ValueBound(rem[..8], B);
    assert rem[8..] == [rem[8]];
    ValueSingle(rem[8], B);
  }

  method ModMul(a: Bn, b: Bn, m: Bn) returns (o: Bn)
    requires V(m) > 0
    ensures V(o) == (V(a) * V(b)) % V(m)
  {
    var wide := MulWide(a, b);
    o := ReduceWide(wide, m);
  }

  method ModAdd(a: Bn, b: Bn, m: Bn) returns (o: Bn)
    requires 0 < V(m) && V(a) < V(m) && V(b) < V(m)
    ensures V(o) == (V(a) + V(b)) % V(m)
  {
    hide V;
    var sum, carry := AddRaw(a, b);
    BnRange(a);
    BnRange(b);
    BnRange(m);
    BnRange(sum);
    var c := Cmp(sum, m);
    if carry != 0 || c >= 0 {
      var borrow;
      o, borrow := SubRaw(sum, m);
      BnRange(o);
      DivModUnique(V(a) + V(b), 1, V(o), V(m));
    } else {
      o := sum;
      SmallMod(V(o), V(m));
    }
  }

  method ModSub(a: Bn, b: Bn, m: Bn) returns (o: Bn)
    requires 0 < V(m) && V(a) < V(m) && V(b) < V(m)
    ensures V(o) == (V(a) - V(b)) % V(m)
  {
    hide V;
    var diff, borrow := SubRaw(a, b);
    BnRange(a);
    BnRange(b);
    BnRange(m);
    if borrow != 0 {
      var carry;
      o, carry := AddRaw(diff, m);
      BnRange(o);
      DivModUnique(V(a) - V(b), -1, V(o), V(m));
    } else {
      o := diff;
      SmallMod(V(o), V(m));
    }
  }
}
