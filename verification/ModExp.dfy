/** Exponentiation, inversion and byte conversion of 256-bit numbers. */
module ModExp {
  import opened Machine
  import opened Arithmetic
  import opened Limbs
  import opened Bignum

  /** The low i + 1 bits of e are its low i bits and bit i. */
  lemma LowBitsStep(e: int, i: nat)
    ensures e % Pow2(i + 1) == e % Pow2(i) + Bit(e, i) * Pow2(i)
  {
    PrefixStep(e, i);
    var p, q, b := Pow2(i), e / Pow2(i + 1), Bit(e, i);
    MulDistribR(2 * q, b, p);
    MulSwap(2, q, p);
    DivModUnique(e, q, e % p + b * p, 2 * p);
  }

  lemma SquareStep(b: int, s: int, a: int, i: nat, m: int)
    requires m > 0 && Cong(b, Pow(a, Pow2(i)), m) && s == (b * b) % m
    ensures Cong(s, Pow(a, Pow2(i + 1)), m)
  {
    CongMul(b, Pow(a, Pow2(i)), b, Pow(a, Pow2(i)), m);
    PowAdd(a, Pow2(i), Pow2(i));
    assert Pow2(i) + Pow2(i) == Pow2(i + 1);
    CongMod(b * b, m);
  }

  lemma TakeStep(r: int, b: int, s: int, a: int, e: nat, i: nat, m: int)
    requires m > 0 && Cong(b, Pow(a, Pow2(i)), m) && Cong(r, Pow(a, e), m) && s == (r * b) % m
    ensures Cong(s, Pow(a, e + Pow2(i)), m)
  {
    CongMul(r, Pow(a, e), b, Pow(a, Pow2(i)), m);
    PowAdd(a, e, Pow2(i));
    CongMod(r * b, m);
  }

  /** base^exp mod m, except that nothing reduces the initial 1 when m is 1 and exp is 0. */
  method ModPow(base: Bn, exp: Bn, m: Bn) returns (o: Bn)
    requires V(m) > 0
    ensures V(exp) >= 0
    ensures V(o) == Pow(V(base), V(exp)) % V(m) <==> V(m) > 1 || V(exp) > 0
    ensures V(m) == 1 && V(exp) == 0 ==> V(o) == 1
  {
    hide V, Bit, Pow2, Pow;
    BnRange(exp);
    ghost var a, e, n := V(base), V(exp), V(m);
    var result: Bn := [1, 0, 0, 0, 0, 0, 0, 0];
    var b := base;
    PowStart(result, e, a);
    for i := 0 to 256
      invariant e % Pow2(i) >= 0
      invariant Cong(V(b), Pow(a, Pow2(i)), n)
      invariant Cong(V(result), Pow(a, e % Pow2(i)), n)
      invariant e % Pow2(i) == 0 ==> V(result) == 1
      invariant e % Pow2(i) > 0 ==> 0 <= V(result) < n
    {
      ExpBit(exp, i);
      LowBitsStep(e, i);
      ghost var r := V(result);
      ghost var low := e % Pow2(i);
      if Bit(exp[i / 32], i % 32) == 1 {
        result := ModMul(result, b, m);
        TakeStep(r, V(b), V(result), a, low, i, n);
      }
      ghost var before := V(b);
      b := ModMul(b, b, m);
      SquareStep(before, V(b), a, i, n);
    }
    o := result;
    AllBits(e);
    PowEnd(V(o), a, e, n);
  }

  lemma PowStart(one: seq<int>, e: int, a: int)
    requires |one| == 8 && one[0] == 1 && forall i :: 1 <= i < 8 ==> one[i] == 0
    ensures V(one) == 1 && e % Pow2(0) == 0
    ensures Pow(a, Pow2(0)) == a && Pow(a, 0) == 1
  {
    ValueZero(one[1..], B);
    assert Pow(a, 1) == a * Pow(a, 0);
  }

  lemma PowEnd(r: int, a: int, e: nat, n: int)
    requires n > 0 && Cong(r, Pow(a, e), n)
    requires e == 0 ==> r == 1
    requires e > 0 ==> 0 <= r < n
    ensures r == Pow(a, e) % n <==> n > 1 || e > 0
  {
    if e > 0 {
      CongUnique(r, Pow(a, e), n);
    } else if n > 1 {
      SmallMod(1, n);
    }
  }

  lemma AllBits(e: int)
    requires 0 <= e < R
    ensures e % Pow2(256) == e
  {
    Pow2Wide();
    SmallMod(e, R);
  }

  lemma ExpBit(exp: Bn, i: nat)
    requires i < 256
    ensures Bit(exp[i / 32], i % 32) == Bit(V(exp), i)
  {
    Pow2Words();
    LimbBit(exp, 32, B, i);
  }

  /** The exponent m - 2 in 256 bits: for m = 1 it wraps, and the result is 0 all the same. */
  method ModInv(a: Bn, m: Bn) returns (o: Bn)
    requires V(m) > 0
    ensures V(m) >= 2 ==> V(o) == Pow(V(a), V(m) - 2) % V(m)
    ensures V(m) == 1 ==> V(o) == 0
  {
    hide V, Pow;
    var two: Bn := [2, 0, 0, 0, 0, 0, 0, 0];
    TwoValue(two);
    var exp, borrow := SubRaw(m, two);
    o := ModPow(a, exp, m);
  }

  lemma TwoValue(two: seq<int>)
    requires |two| == 8 && two[0] == 2 && forall i :: 1 <= i < 8 ==> two[i] == 0
    ensures V(two) == 2
  {
    ValueZero(two[1..], B);
  }

  /** Fermat's little theorem, as a hypothesis on the modulus. */
  ghost predicate Fermat(m: int) {
    m >= 2 && forall a: int :: a % m != 0 ==> Pow(a, m - 1) % m == 1
  }

  /** Under Fermat the power is an inverse. */
  lemma InverseCancels(a: int, inv: int, m: int)
    requires Fermat(m) && a % m != 0 && inv == Pow(a, m - 2) % m
    ensures Cong(a * inv, 1, m)
  {
    CongMod(Pow(a, m - 2), m);
    CongMul(a, a, inv, Pow(a, m - 2), m);
    assert Pow(a, m - 1) == a * Pow(a, m - 2);
    SmallMod(1, m);
  }

  method ReduceOnce(a: Bn, m: Bn) returns (o: Bn)
    requires V(m) > 0
    ensures V(o) == V(a) % V(m)
  {
    hide V;
    o := a;
    BnRange(o);
    var c := Cmp(o, m);
    while c >= 0
      invariant V(o) >= 0 && Cong(V(o), V(a), V(m))
      invariant c >= 0 <==> V(o) >= V(m)
      decreases V(o)
    {
      ghost var before := V(o);
      var borrow;
      o, borrow := SubRaw(o, m);
      CongFromMultiple(V(o), before, -1, V(m));
      BnRange(o);
      c := Cmp(o, m);
    }
    CongUnique(V(o), V(a), V(m));
  }

  // ----- big-endian bytes

  function Word(b: seq<int>, off: int): int
    requires 0 <= off && off + 4 <= |b|
  {
    b[off] * 0x100_0000 + b[off + 1] * 0x1_0000 + b[off + 2] * 0x100 + b[off + 3]
  }

  lemma BEWord(b: seq<int>)
    requires |b| >= 4
    ensures BE(b) == B * BE(b[..|b| - 4]) + Word(b, |b| - 4)
  {
    var n := |b|;
    var c, d, e := b[..n - 1], b[..n - 2], b[..n - 3];
    assert c[..n - 2] == d && d[..n - 3] == e && e[..n - 4] == b[..n - 4];
    assert BE(c) == 256 * BE(d) + b[n - 2];
    assert BE(d) == 256 * BE(e) + b[n - 3];
    assert BE(e) == 256 * BE(b[..n - 4]) + b[n - 4];
  }

  lemma {:induction false} BELimbs(b: seq<int>, s: seq<int>)
    requires |b| == 4 * |s|
    requires forall i {:trigger s[i]} :: 0 <= i < |s| ==> s[i] == Word(b, |b| - 4 - 4 * i)
    ensures V(s) == BE(b)
    decreases |s|
  {
    if |s| > 0 {
      var c := b[..|b| - 4];
      forall i | 0 <= i < |s| - 1
        ensures s[1..][i] == Word(c, |c| - 4 - 4 * i)
      {
        assert s[i + 1] == Word(b, |b| - 4 - 4 * (i + 1));
      }
      BELimbs(c, s[1..]);
      BEWord(b);
      assert s[0] == Word(b, |b| - 4);
    }
  }

  method FromBytes(input: Bytes) returns (o: Bn)
    requires |input| == 32
    ensures V(o) == BE(input)
  {
    var t := new uint32[8];
    for i := 0 to 8
      invariant forall k :: 0 <= k < i ==> t[k] == Word(input, 28 - 4 * k)
    {
      t[i] := Word(input, 28 - 4 * i);
    }
    o := t[..];
    BELimbs(input, o);
  }
}
