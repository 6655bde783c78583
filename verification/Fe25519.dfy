/** Field elements of GF(2^255 - 19) as sixteen signed 16-bit limbs held in 64-bit integers,
    as in src/crypto/x25519.c. Loops work in place on arrays; values pass between the
    operations as sequences. */
module Fe25519 {
  import opened Machine
  import opened Arithmetic
  import opened Limbs

  /** 2^255 - 19. */
  const P: int := 0x7fff_ffff_ffff_ffff_ffff_ffff_ffff_ffff_ffff_ffff_ffff_ffff_ffff_ffff_ffff_ffed

  const CARRY_LIMIT: int := 0x4000_0000_0000
  const MUL_LIMIT: int := 131146

  function V(s: seq<int>): int {
    Value(s, 65536)
  }

  /** What two carries leave behind: digits, except that limb 0 may stray by 38. */
  ghost predicate Reduced(s: seq<int>) {
    && |s| == 16
    && -38 <= s[0] <= 65573
    && forall i :: 1 <= i < 16 ==> 0 <= s[i] < 65536
  }

  /** Fit to be added or subtracted. */
  ghost predicate Small(s: seq<int>) {
    |s| == 16 && Within(s, 65573)
  }

  /** Fit to be multiplied. */
  ghost predicate Medium(s: seq<int>) {
    |s| == 16 && Within(s, MUL_LIMIT)
  }

  lemma SmallIsMedium(s: seq<int>)
    requires Small(s)
    ensures Medium(s)
  {
  }

  // ----- the field the limbs stand for

  function FAdd(a: int, b: int): int {
    (a + b) % P
  }

  function FSub(a: int, b: int): int {
    (a - b) % P
  }

  function FMul(a: int, b: int): int {
    (a * b) % P
  }

  function Res(s: seq<int>): int {
    V(s) % P
  }

  lemma ResidueMul(x: int, y: int)
    ensures (x * y) % P == FMul(x % P, y % P)
  {
    CongMod(x, P);
    CongMod(y, P);
    CongMul(x % P, x, y % P, y, P);
  }

  lemma ResidueAdd(x: int, y: int)
    ensures (x + y) % P == FAdd(x % P, y % P)
    ensures (x - y) % P == FSub(x % P, y % P)
  {
    CongMod(x, P);
    CongMod(y, P);
    CongAdd(x % P, x, y % P, y, P);
    CongSub(x % P, x, y % P, y, P);
  }

  /** What a carry moves out of limb 15. */
  function CarryOut(v: int): int {
    v / R
  }

  /** The value a carry leaves: what moved out of the top comes back with weight 38. */
  function CarriedValue(v: int): int {
    v % R + 38 * (v / R)
  }

  lemma PowTop()
    ensures Pow(65536, 15) * 65536 == R
    ensures Pow(65536, 16) == R
    ensures R == 2 * P + 38
  {
    assert Pow(65536, 4) == 0x1_0000_0000_0000_0000;
    PowAdd(65536, 4, 4);
    PowAdd(65536, 8, 8);
    assert Pow(65536, 16) == 65536 * Pow(65536, 15);
  }

  /** Limb 0 apart, the limbs are digits: the value lies within limb 0 of the digit range. */
  lemma LowLimbRange(s: seq<int>)
    requires |s| == 16 && forall i :: 1 <= i < 16 ==> 0 <= s[i] < 65536
    ensures s[0] <= V(s) <= R - 65536 + s[0]
  {
    ValueBound(s[1..], 65536);
    PowTop();
  }

  /** The carry out of limb 15 is the quotient by 2^256 and the limbs are the remainder. */
  lemma CarryValue(before: seq<int>, after: seq<int>, c: int)
    requires |after| == 16 && V(after) == V(before) - c * R + 38 * c
    requires 0 <= after[0] - 38 * c < 65536
    requires forall i :: 1 <= i < 16 ==> 0 <= after[i] < 65536
    ensures c == CarryOut(V(before))
    ensures V(after) == CarriedValue(V(before))
  {
    var low := after[0 := after[0] - 38 * c];
    ValueUpdate(after, 0, after[0] - 38 * c, 65536);
    LowLimbRange(low);
    DivModUnique(V(before), c, V(low), R);
  }

  method Carry(o: array<int64>)
    requires o.Length == 16 && Within(o[..], CARRY_LIMIT)
    modifies o
    ensures V(o[..]) == CarriedValue(V(old(o[..])))
    ensures 0 <= o[0] - 38 * CarryOut(V(old(o[..]))) < 65536
    ensures forall i :: 1 <= i < 16 ==> 0 <= o[i] < 65536
  {
    ghost var start := o[..];
    ghost var c := 0;
    for i := 0 to 16
      invariant forall k :: 1 <= k < i ==> 0 <= o[k] < 65536
      invariant 0 < i ==> 0 <= o[0] - 38 * c < 65536
      invariant V(o[..]) == V(start) - c * R + 38 * c
      invariant i < 16 ==> c == 0 && -2 * CARRY_LIMIT <= o[i] <= 2 * CARRY_LIMIT
      invariant forall k :: i < k < 16 ==> o[k] == start[k]
    {
      ghost var s := o[..];
      o[i] := o[i] + 65536;
      var rawCarry: int64 := o[i] / 65536;
      var carry: int64 := rawCarry - 1;
      o[i] := o[i] - rawCarry * 65536;
      if i < 15 {
        o[i + 1] := o[i + 1] + carry;
        assert o[..] == s[i := s[i] - 65536 * carry][i + 1 := s[i + 1] + carry];
        CarryInto(s, i, carry);
      } else {
        o[0] := o[0] + 38 * carry;
        assert o[..] == s[15 := s[15] - 65536 * carry][0 := s[0] + 38 * carry];
        CarryAround(s, carry);
        c := carry;
      }
    }
    CarryValue(start, o[..], c);
  }

  lemma CarryInto(s: seq<int>, i: nat, c: int)
    requires |s| == 16 && i < 15
    ensures V(s[i := s[i] - 65536 * c][i + 1 := s[i + 1] + c]) == V(s)
  {
    var t := s[i := s[i] - 65536 * c];
    ValueUpdate(s, i, t[i], 65536);
    ValueUpdate(t, i + 1, s[i + 1] + c, 65536);
    CarryMoves(Pow(65536, i), c);
  }

  lemma CarryAround(s: seq<int>, c: int)
    requires |s| == 16
    ensures V(s[15 := s[15] - 65536 * c][0 := s[0] + 38 * c]) == V(s) - c * R + 38 * c
  {
    var t := s[15 := s[15] - 65536 * c];
    ValueUpdate(s, 15, t[15], 65536);
    ValueUpdate(t, 0, s[0] + 38 * c, 65536);
    PowTop();
    CarryMoves(Pow(65536, 15), c);
  }

  lemma CarryMoves(p: int, c: int)
    ensures p * (-65536 * c) + (65536 * p) * c == 0
  {
  }

  /** Carrying keeps the residue modulo p. */
  lemma CarryCong(v: int)
    ensures Cong(CarriedValue(v), v, P)
  {
    PowTop();
    CongFromMultiple(v % R + 38 * (v / R), v, -2 * (v / R), P);
  }

  // ----- multiplication

  lemma ConvolveStep(s: seq<int>, x: int, b: seq<int>, i: nat, j: nat, v: int)
    requires j < |b| && i + j < |s|
    requires V(s) == v + x * Pow(65536, i) * V(b[..j])
    ensures V(s[i + j := s[i + j] + x * b[j]]) == v + x * Pow(65536, i) * V(b[..j + 1])
  {
    var y, w, p, q := b[j], V(b[..j]), Pow(65536, i), Pow(65536, j);
    ValueUpdate(s, i + j, s[i + j] + x * y, 65536);
    ValuePrefixStep(b, j, 65536);
    PowAdd(65536, i, j);
    MulRow(p, q, x, y, w);
  }

  /** Adds x * b, shifted by i limbs, to the columns. */
  method AddRow(t: array<int64>, x: int64, b: seq<int64>, i: nat)
    requires t.Length == 31 && i < 16
    requires -MUL_LIMIT <= x <= MUL_LIMIT && Medium(b)
    requires Within(t[..], i * 0x4_1000_0000)
    modifies t
    ensures V(t[..]) == V(old(t[..])) + x * Pow(65536, i) * V(b)
    ensures Within(t[..], (i + 1) * 0x4_1000_0000)
  {
    ghost var v := V(t[..]);
    for j := 0 to 16
      invariant V(t[..]) == v + x * Pow(65536, i) * V(b[..j])
      invariant forall k :: 0 <= k < i + j ==> -((i + 1) * 0x4_1000_0000) <= t[k] <= (i + 1) * 0x4_1000_0000
      invariant forall k :: i + j <= k < 31 ==> -(i * 0x4_1000_0000) <= t[k] <= i * 0x4_1000_0000
    {
      ghost var s := t[..];
      MulBound(x, b[j], MUL_LIMIT, MUL_LIMIT);
      t[i + j] := t[i + j] + x * b[j];
      assert t[..] == s[i + j := s[i + j] + x * b[j]];
      ConvolveStep(s, x, b, i, j, v);
    }
    assert b[..16] == b;
  }

  /** The 31 column sums of the schoolbook product. */
  method Convolve(a: seq<int64>, b: seq<int64>) returns (t: array<int64>)
    requires Medium(a) && Medium(b)
    ensures fresh(t) && t.Length == 31
    ensures V(t[..]) == V(a) * V(b)
    ensures Within(t[..], 0x41_0000_0000)
  {
    t := new int64[31](_ => 0);
    ValueZero(t[..], 65536);
    for i := 0 to 16
      invariant V(t[..]) == V(a[..i]) * V(b)
      invariant Within(t[..], i * 0x4_1000_0000)
    {
      AddRow(t, a[i], b, i);
      ColumnDone(a, i, V(b));
    }
    assert a[..16] == a;
  }

  lemma ColumnDone(a: seq<int>, i: nat, w: int)
    requires i < |a|
    ensures V(a[..i]) * w + a[i] * Pow(65536, i) * w == V(a[..i + 1]) * w
  {
    ValuePrefixStep(a, i, 65536);
    var v, p := V(a[..i]), Pow(65536, i);
    assert a[i] * p == p * a[i];
    MulDistribR(v, p * a[i], w);
  }

  lemma FoldStep(u: seq<int>, s: seq<int>, i: nat)
    requires |u| == 16 && |s| == 31 && 16 <= i < 31
    ensures V(u[i - 16 := u[i - 16] + 38 * s[i]]) == V(u) + 38 * V(s[16..i + 1]) - 38 * V(s[16..i])
  {
    ValueUpdate(u, i - 16, u[i - 16] + 38 * s[i], 65536);
    assert s[16..i + 1] == s[16..i] + [s[i]];
    ValueAppend(s[16..i], s[i], 65536);
    assert Pow(65536, i - 16) * (38 * s[i]) == 38 * (Pow(65536, i - 16) * s[i]);
  }

  lemma FoldCong(u: seq<int>, s: seq<int>)
    requires |s| == 31 && V(u) == V(s[..16]) + 38 * V(s[16..31])
    ensures Cong(V(u), V(s), P)
  {
    assert s[16..31] == s[16..];
    ValueSplit(s, 16, 65536);
    PowTop();
    CongFromMultiple(V(u), V(s), -2 * V(s[16..]), P);
  }

  /** Folds columns 16..30 onto 0..14 with weight 38 = 2^256 mod p. */
  method Fold(t: array<int64>) returns (o: array<int64>)
    requires t.Length == 31 && Within(t[..], 0x41_0000_0000)
    modifies t
    ensures fresh(o) && o.Length == 16 && Within(o[..], CARRY_LIMIT)
    ensures Cong(V(o[..]), V(old(t[..])), P)
  {
    ghost var s := t[..];
    assert s[16..16] == [];
    for i := 16 to 31
      invariant forall k :: 16 <= k < 31 ==> t[k] == s[k]
      invariant forall k :: i - 16 <= k < 16 ==> t[k] == s[k]
      invariant forall k :: 0 <= k < i - 16 ==> -0x9E7_0000_0000 <= t[k] <= 0x9E7_0000_0000
      invariant V(t[..16]) == V(s[..16]) + 38 * V(s[16..i])
    {
      ghost var u := t[..16];
      t[i - 16] := t[i - 16] + 38 * t[i];
      assert t[..16] == u[i - 16 := u[i - 16] + 38 * s[i]];
      FoldStep(u, s, i);
    }
    ghost var folded := t[..16];
    FoldCong(folded, s);
    o := new int64[16];
    for i := 0 to 16
      invariant o[..i] == t[..i] && t[..16] == folded
    {
      o[i] := t[i];
    }
    assert o[..] == folded;
  }

  /** A product of limb bounds that fits, so that a first carry leaves a small excess. */
  lemma CarryTwice(v: int, s: seq<int>)
    requires |s| == 16 && Within(s, CARRY_LIMIT) && v == V(s)
    ensures -0x4001_0000 <= CarryOut(v) < 0x4001_0000
    ensures -1 <= CarryOut(CarriedValue(v)) <= 1
  {
    ValueWithin(s, CARRY_LIMIT, 65536);
    PowTop();
    assert v == (v / R) * R + v % R;
  }

  method Mul(a: seq<int64>, b: seq<int64>) returns (o: seq<int64>)
    requires Medium(a) && Medium(b)
    ensures Reduced(o) && Small(o) && Medium(o)
    ensures Res(o) == FMul(Res(a), Res(b))
  {
    hide FMul, CarryOut, CarriedValue, V;
    var t := Convolve(a, b);
    var u := Fold(t);
    ghost var v := V(u[..]);
    CarryTwice(v, u[..]);
    CarryCong(v);
    Carry(u);
    ghost var w := V(u[..]);
    CarryCong(w);
    Carry(u);
    o := u[..];
    ResidueMul(V(a), V(b));
  }

  // ----- addition and subtraction

  lemma {:induction false} ValueLinear(a: seq<int>, b: seq<int>, o: seq<int>, sign: int)
    requires |a| == |b| == |o| && forall i :: 0 <= i < |o| ==> o[i] == a[i] + sign * b[i]
    ensures V(o) == V(a) + sign * V(b)
    decreases |o|
  {
    if |o| > 0 {
      ValueLinear(a[1..], b[1..], o[1..], sign);
      var x, y := V(a[1..]), V(b[1..]);
      MulDistrib(65536, x, sign * y);
      MulSwap(65536, sign, y);
      assert 65536 * y * sign == sign * (65536 * y);
      MulDistrib(sign, b[0], 65536 * y);
    }
  }

  method Add(a: seq<int64>, b: seq<int64>) returns (o: seq<int64>)
    requires Small(a) && Small(b)
    ensures Medium(o)
    ensures Res(o) == FAdd(Res(a), Res(b))
  {
    var t := new int64[16];
    for i := 0 to 16
      invariant forall k :: 0 <= k < i ==> t[k] == a[k] + b[k]
    {
      t[i] := a[i] + b[i];
    }
    o := t[..];
    ValueLinear(a, b, o, 1);
    ResidueAdd(V(a), V(b));
  }

  method Sub(a: seq<int64>, b: seq<int64>) returns (o: seq<int64>)
    requires Small(a) && Small(b)
    ensures Medium(o)
    ensures Res(o) == FSub(Res(a), Res(b))
  {
    var t := new int64[16];
    for i := 0 to 16
      invariant forall k :: 0 <= k < i ==> t[k] == a[k] - b[k]
    {
      t[i] := a[i] - b[i];
    }
    o := t[..];
    ValueLinear(a, b, o, -1);
    ResidueAdd(V(a), V(b));
  }

  // ----- inversion

  /** The leading bits of p - 2 = 2^255 - 21 from bit i up. */
  ghost function Exponent(i: nat): int
    requires i <= 254
  {
    Pow2(255 - i) - (if i == 0 then 21 else if i == 1 then 11 else if i == 2 then 6
                     else if i == 3 then 3 else if i == 4 then 2 else 1)
  }

  lemma ExponentStep(i: nat)
    requires i < 254
    ensures Exponent(i + 1) >= 1
    ensures Exponent(i) == 2 * Exponent(i + 1) + (if i == 2 || i == 4 then 0 else 1)
  {
    assert Pow2(255 - i) == 2 * Pow2(254 - i);
    Pow2Large(254 - i);
  }

  lemma {:induction false} Pow2Large(e: nat)
    requires e >= 1
    ensures Pow2(e) >= 2 && (e >= 2 ==> Pow2(e) >= 4) && (e >= 249 ==> Pow2(e) >= 32)
  {
    if e > 1 {
      Pow2Large(e - 1);
      if e >= 249 {
        Pow2Add(5, e - 5);
        assert Pow2(5) == 32;
      }
    }
  }

  /** The chain's exponent is exactly p - 2. */
  lemma ExponentFinal()
    ensures Exponent(0) == P - 2
  {
    PowTop();
    Pow2Wide();
  }

  /** Square, then multiply by a when the exponent's next bit is one. */
  lemma ChainStep(a: int, e: nat)
    ensures FMul(Pow(a, e) % P, Pow(a, e) % P) == Pow(a, 2 * e) % P
    ensures FMul(Pow(a, 2 * e) % P, a) == Pow(a, 2 * e + 1) % P
  {
    ResidueMul(Pow(a, e), Pow(a, e));
    PowAdd(a, e, e);
    assert e + e == 2 * e;
    CongMod(Pow(a, 2 * e), P);
    CongMul(Pow(a, 2 * e) % P, Pow(a, 2 * e), a, a, P);
    assert Pow(a, 2 * e + 1) == a * Pow(a, 2 * e);
  }

  method Inv(a: seq<int64>) returns (o: seq<int64>)
    requires Small(a)
    ensures Small(o) && Medium(o)
    ensures Res(o) == Pow(Res(a), P - 2) % P
  {
    hide FMul;
    var c := a;
    var i := 253;
    ghost var r := Res(a);
    SmallIsMedium(a);
    assert Pow2(1) == 2;
    assert Pow(r, 1) == r;
    while i >= 0
      invariant -1 <= i <= 253 && Small(c) && Medium(c)
      invariant Exponent(i + 1) >= 0 && Res(c) == Pow(r, Exponent(i + 1)) % P
    {
      ExponentStep(i);
      ChainStep(r, Exponent(i + 1));
      c := Mul(c, c);
      if i != 2 && i != 4 {
        c := Mul(c, a);
      }
      i := i - 1;
    }
    ExponentFinal();
    o := c;
  }
}
