/** Powers, congruences and remainders. The modulus is always a parameter. */
module Arithmetic {

  /** 2^256. */
  const R: int := 0x1_0000_0000_0000_0000_0000_0000_0000_0000_0000_0000_0000_0000_0000_0000_0000_0000

  function Pow(b: int, e: nat): int
    decreases e
  {
    if e == 0 then 1 else b * Pow(b, e - 1)
  }

  function Pow2(e: nat): (r: int)
    ensures r >= 1
  {
    if e == 0 then 1 else 2 * Pow2(e - 1)
  }

  lemma {:induction false} PowPositive(b: int, e: nat)
    requires b > 0
    ensures Pow(b, e) > 0
  {
    if e > 0 {
      PowPositive(b, e - 1);
    }
  }

  lemma {:induction false} PowAdd(b: int, e: nat, f: nat)
    ensures Pow(b, e + f) == Pow(b, e) * Pow(b, f)
  {
    if e > 0 {
      PowAdd(b, e - 1, f);
      assert Pow(b, e + f) == b * (Pow(b, e - 1) * Pow(b, f));
      MulAssoc(b, Pow(b, e - 1), Pow(b, f));
    }
  }

  lemma {:induction false} Pow2Add(e: nat, f: nat)
    ensures Pow2(e + f) == Pow2(e) * Pow2(f)
  {
    if e > 0 {
      Pow2Add(e - 1, f);
      MulAssoc(2, Pow2(e - 1), Pow2(f));
    }
  }

  lemma Pow2Words()
    ensures Pow2(8) == 0x100 && Pow2(16) == 0x1_0000 && Pow2(32) == 0x1_0000_0000
    ensures Pow2(64) == 0x1_0000_0000_0000_0000
  {
    assert Pow2(4) == 16;
    Pow2Add(4, 4);
    Pow2Add(8, 8);
    Pow2Add(16, 16);
    Pow2Add(32, 32);
  }

  lemma Pow2Wide()
    ensures Pow2(256) == R
    ensures 2 * Pow2(255) == Pow2(256)
  {
    hide Pow2;
    Pow2Words();
    Pow2Add(64, 64);
    Pow2Add(128, 128);
    Pow2Add(1, 255);
    Pow2One();
  }

  lemma Pow2One()
    ensures Pow2(1) == 2
  {
  }

  lemma MulAssoc(a: int, b: int, c: int)
    ensures a * (b * c) == (a * b) * c
  {
  }

  lemma MulSwap(a: int, b: int, c: int)
    ensures (a * b) * c == (a * c) * b
  {
  }

  lemma MulRow(p: int, q: int, x: int, y: int, w: int)
    ensures x * p * w + (p * q) * (x * y) == x * p * (w + q * y)
  {
    MulDistrib(x * p, w, q * y);
    MulAssoc(x * p, q, y);
    MulSwap(x, p, q);
    assert (p * q) * (x * y) == x * (p * q) * y by {
      MulAssoc(p * q, x, y);
    }
    MulAssoc(x, p, q);
  }

  lemma MulDistrib(a: int, b: int, c: int)
    ensures a * (b + c) == a * b + a * c
    ensures a * (b - c) == a * b - a * c
  {
  }

  lemma MulNeg(a: int, b: int)
    ensures (-a) * b == -(a * b) && b * (-a) == -(b * a)
  {
  }

  lemma MulMono(a: int, b: int, c: int)
    requires a <= b && 0 <= c
    ensures a * c <= b * c
  {
  }

  /** A magnitude bound on a product of two bounded factors. */
  lemma MulBound(a: int, b: int, m: int, n: int)
    requires -m <= a <= m && -n <= b <= n
    ensures -(m * n) <= a * b <= m * n
  {
    var x, y := if a < 0 then -a else a, if b < 0 then -b else b;
    MulMono(x, m, y);
    MulMono(y, n, m);
    assert x * y <= m * y && y * m <= n * m;
    assert a * b == x * y || a * b == -(x * y);
  }

  // ----- quotients and remainders

  lemma DivModUnique(x: int, q: int, r: int, m: int)
    requires m > 0 && x == q * m + r && 0 <= r < m
    ensures x / m == q && x % m == r
  {
    var d := x / m - q;
    assert x == (x / m) * m + x % m;
    assert d * m == r - x % m;
    if d >= 1 {
      MulMono(1, d, m);
    } else if d <= -1 {
      MulMono(d, -1, m);
    }
  }

  /** `a` and `b` leave the same remainder modulo `m`. */
  ghost predicate Cong(a: int, b: int, m: int)
    requires m > 0
  {
    a % m == b % m
  }

  lemma ModShift(x: int, k: int, m: int)
    requires m > 0
    ensures (x + k * m) % m == x % m
  {
    MulDistribR(x / m, k, m);
    DivModUnique(x + k * m, x / m + k, x % m, m);
  }

  lemma MulDistribR(a: int, b: int, c: int)
    ensures (a + b) * c == a * c + b * c
    ensures (a - b) * c == a * c - b * c
  {
  }

  lemma CongFromMultiple(a: int, b: int, k: int, m: int)
    requires m > 0 && a == b + k * m
    ensures Cong(a, b, m)
  {
    ModShift(b, k, m);
  }

  lemma CongMultiple(a: int, b: int, m: int) returns (k: int)
    requires m > 0 && Cong(a, b, m)
    ensures a == b + k * m
  {
    k := a / m - b / m;
    MulDistribR(a / m, b / m, m);
  }

  lemma CongRefl(a: int, m: int)
    requires m > 0
    ensures Cong(a, a, m)
  {
  }

  lemma CongTrans(a: int, b: int, c: int, m: int)
    requires m > 0 && Cong(a, b, m) && Cong(b, c, m)
    ensures Cong(a, c, m)
  {
  }

  lemma CongMod(a: int, m: int)
    requires m > 0
    ensures Cong(a % m, a, m)
  {
    CongFromMultiple(a % m, a, -(a / m), m);
  }

  lemma CongAdd(a: int, b: int, c: int, d: int, m: int)
    requires m > 0 && Cong(a, b, m) && Cong(c, d, m)
    ensures Cong(a + c, b + d, m)
  {
    var k := CongMultiple(a, b, m);
    var l := CongMultiple(c, d, m);
    MulDistribR(k, l, m);
    CongFromMultiple(a + c, b + d, k + l, m);
  }

  lemma CongSub(a: int, b: int, c: int, d: int, m: int)
    requires m > 0 && Cong(a, b, m) && Cong(c, d, m)
    ensures Cong(a - c, b - d, m)
  {
    var k := CongMultiple(a, b, m);
    var l := CongMultiple(c, d, m);
    MulDistribR(k, l, m);
    CongFromMultiple(a - c, b - d, k - l, m);
  }

  lemma CongMul(a: int, b: int, c: int, d: int, m: int)
    requires m > 0 && Cong(a, b, m) && Cong(c, d, m)
    ensures Cong(a * c, b * d, m)
  {
    var k := CongMultiple(a, b, m);
    var l := CongMultiple(c, d, m);
    var q := k * c + b * l;
    MulDistribR(b, k * m, c);
    MulDistrib(b, d, l * m);
    MulAssoc(b, l, m);
    MulSwap(k, m, c);
    MulDistribR(k * c, b * l, m);
    CongFromMultiple(a * c, b * d, q, m);
  }

  lemma {:induction false} CongPow(a: int, b: int, e: nat, m: int)
    requires m > 0 && Cong(a, b, m)
    ensures Cong(Pow(a, e), Pow(b, e), m)
  {
    if e > 0 {
      CongPow(a, b, e - 1, m);
      CongMul(a, b, Pow(a, e - 1), Pow(b, e - 1), m);
    }
  }

  lemma SmallMod(a: int, m: int)
    requires 0 <= a < m
    ensures a % m == a
  {
    DivModUnique(a, 0, a, m);
  }

  /** The only representative in [0, m) is the remainder. */
  lemma CongUnique(a: int, b: int, m: int)
    requires m > 0 && Cong(a, b, m) && 0 <= a < m
    ensures a == b % m
  {
    SmallMod(a, m);
  }

  // ----- bits of a natural number

  function Bit(n: int, i: nat): (r: int)
    ensures r == 0 || r == 1
  {
    (n / Pow2(i)) % 2
  }

  lemma DivDiv(x: int, a: int, b: int)
    requires a > 0 && b > 0
    ensures a * b > 0 && x / (a * b) == (x / a) / b
  {
    MulMono(1, a, b);
    var q := x / a;
    DivDivStep(q / b, q % b, x % a, a, b);
    DivModUnique(x, q / b, (q % b) * a + x % a, a * b);
  }

  lemma DivDivStep(q: int, s: int, r: int, a: int, b: int)
    requires 0 <= s < b && 0 <= r < a
    ensures (q * b + s) * a + r == q * (a * b) + (s * a + r)
    ensures 0 <= s * a + r < a * b
  {
    MulDistribR(q * b, s, a);
    MulSwap(q, b, a);
    MulAssoc(q, a, b);
    MulMono(0, s, a);
    MulMono(s, b - 1, a);
    MulDistribR(b, 1, a);
  }

  /** Binary long division: the prefix of `n` above bit i is the prefix above bit i + 1
      doubled, plus bit i. */
  lemma PrefixStep(n: int, i: nat)
    ensures n / Pow2(i) == 2 * (n / Pow2(i + 1)) + Bit(n, i)
  {
    DivDiv(n, Pow2(i), 2);
    assert Pow2(i + 1) == Pow2(i) * 2;
  }
}
