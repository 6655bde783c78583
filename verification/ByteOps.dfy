/** Exclusive-or, or and byte strings of numbers, bit by bit and byte by byte. */
module ByteOps {
  import opened Machine
  import opened Arithmetic
  import opened Limbs

  function XorBits(a: int, b: int, n: nat): (r: int)
    ensures 0 <= r < Pow2(n)
    decreases n
  {
    if n == 0 then 0 else (a + b) % 2 + 2 * XorBits(a / 2, b / 2, n - 1)
  }

  function OrBits(a: int, b: int, n: nat): (r: int)
    ensures 0 <= r < Pow2(n)
    decreases n
  {
    if n == 0 then 0
    else (if a % 2 == 1 || b % 2 == 1 then 1 else 0) + 2 * OrBits(a / 2, b / 2, n - 1)
  }

  /** Applying the same mask twice gives back the first operand. */
  lemma {:induction false} XorTwice(a: int, b: int, n: nat)
    requires 0 <= a < Pow2(n)
    ensures XorBits(XorBits(a, b, n), b, n) == a
    decreases n
  {
    if n > 0 {
      XorTwice(a / 2, b / 2, n - 1);
      var y := XorBits(a / 2, b / 2, n - 1);
      Parity(a, b, y);
    }
  }

  lemma Parity(a: int, b: int, y: int)
    ensures ((a + b) % 2 + 2 * y + b) % 2 == a % 2
    ensures ((a + b) % 2 + 2 * y) / 2 == y
  {
  }

  lemma {:induction false} XorZero(a: int, b: int, n: nat)
    requires 0 <= a < Pow2(n) && 0 <= b < Pow2(n)
    ensures XorBits(a, b, n) == 0 <==> a == b
  {
    if n > 0 {
      XorZero(a / 2, b / 2, n - 1);
    }
  }

  lemma {:induction false} OrZero(a: int, b: int, n: nat)
    requires 0 <= a < Pow2(n) && 0 <= b < Pow2(n)
    ensures OrBits(a, b, n) == 0 <==> a == 0 && b == 0
  {
    if n > 0 {
      OrZero(a / 2, b / 2, n - 1);
    }
  }

  lemma EightBits()
    ensures Pow2(8) == 256
  {
    assert Pow2(4) == 16;
    Pow2Add(4, 4);
  }

  function Xor(a: uint8, b: uint8): uint8 {
    EightBits();
    XorBits(a, b, 8)
  }

  function Or(a: uint8, b: uint8): uint8 {
    EightBits();
    OrBits(a, b, 8)
  }

  lemma XorCancels(a: uint8, b: uint8)
    ensures Xor(Xor(a, b), b) == a
  {
    EightBits();
    XorTwice(a, b, 8);
  }

  /** A mask is injective. */
  lemma XorInjective(a: uint8, b: uint8, mask: uint8)
    requires Xor(mask, a) == Xor(mask, b)
    ensures a == b
  {
    hide Xor;
    XorCommutes(mask, a);
    XorCommutes(mask, b);
    XorCancels(a, mask);
    XorCancels(b, mask);
  }

  lemma XorCommutes(a: uint8, b: uint8)
    ensures Xor(a, b) == Xor(b, a)
  {
    XorBitsCommute(a, b, 8);
  }

  lemma {:induction false} XorBitsCommute(a: int, b: int, n: nat)
    ensures XorBits(a, b, n) == XorBits(b, a, n)
    decreases n
  {
    if n > 0 {
      XorBitsCommute(a / 2, b / 2, n - 1);
    }
  }

  lemma OrXorZero(d: uint8, a: uint8, b: uint8)
    ensures Or(d, Xor(a, b)) == 0 <==> d == 0 && a == b
  {
    EightBits();
    OrZero(d, XorBits(a, b, 8), 8);
    XorZero(a, b, 8);
  }

  // ----- numbers as byte strings

  /** n little-endian bytes of v. */
  function LittleBytes(v: int, n: nat): (b: Bytes)
    ensures |b| == n
    decreases n
  {
    if n == 0 then [] else [v % 256] + LittleBytes(v / 256, n - 1)
  }

  lemma {:induction false} LittleBytesValue(v: int, n: nat)
    requires 0 <= v < Pow(256, n)
    ensures LE(LittleBytes(v, n)) == v
  {
    if n > 0 {
      DivModBound(v, Pow(256, n - 1));
      LittleBytesValue(v / 256, n - 1);
      assert LittleBytes(v, n)[1..] == LittleBytes(v / 256, n - 1);
    }
  }

  lemma DivModBound(v: int, p: int)
    requires 0 <= v < 256 * p
    ensures 0 <= v / 256 < p
  {
  }

  lemma LittleBytesUnique(b: Bytes)
    ensures LittleBytes(LE(b), |b|) == b
  {
    ValueBound(b, 256);
    LittleBytesValue(LE(b), |b|);
    ValueUnique(LittleBytes(LE(b), |b|), b, 256);
  }

  /** n big-endian bytes of v. */
  function BigBytes(v: nat, n: nat): (b: Bytes)
    ensures |b| == n
  {
    seq(n, i requires 0 <= i < n => v / Pow2(8 * (n - 1 - i)) % 256)
  }

  /** Most significant byte first, the low bytes of the number. */
  lemma {:induction false} BigBytesValue(v: nat, n: nat)
    ensures BE(BigBytes(v, n)) == v % Pow2(8 * n)
  {
    hide BigBytes, Pow2;
    if n == 0 {
      NoBytes(v);
    } else {
      BigBytesFront(v, n);
      BigBytesValue(v / 256, n - 1);
      NextByte(n - 1);
      ModStep(v, Pow2(8 * (n - 1)));
    }
  }

  lemma NoBytes(v: nat)
    ensures BE(BigBytes(v, 0)) == v % Pow2(0)
  {
  }

  lemma BigBytesFront(v: nat, n: nat)
    requires n > 0
    ensures BigBytes(v, n)[..n - 1] == BigBytes(v / 256, n - 1) && BigBytes(v, n)[n - 1] == v % 256
  {
    hide Pow2;
    var b, c := BigBytes(v, n), BigBytes(v / 256, n - 1);
    forall i | 0 <= i < n - 1
      ensures b[i] == c[i]
    {
      var p := Pow2(8 * (n - 2 - i));
      NextByte(n - 2 - i);
      DivDiv(v, 256, p);
    }
    LastByte(v, n);
  }

  lemma LastByte(v: nat, n: nat)
    requires n > 0
    ensures BigBytes(v, n)[n - 1] == v % 256
  {
    assert Pow2(0) == 1;
  }

  lemma NextByte(k: nat)
    ensures Pow2(8 * (k + 1)) == 256 * Pow2(8 * k)
  {
    Pow2Words();
    Pow2Add(8, 8 * k);
  }

  lemma ModStep(v: nat, p: int)
    requires p > 0
    ensures v % (256 * p) == 256 * (v / 256 % p) + v % 256
  {
    var q := v / 256;
    MulAssoc(256, q / p, p);
    DivModUnique(v, q / p, 256 * (q % p) + v % 256, 256 * p);
  }

  /** Chunks one after another. */
  function Flatten(chunks: seq<Bytes>): Bytes {
    if |chunks| == 0 then [] else Flatten(chunks[..|chunks| - 1]) + chunks[|chunks| - 1]
  }

  function Zeros(n: nat): (z: Bytes)
    ensures |z| == n && forall i :: 0 <= i < n ==> z[i] == 0
  {
    seq(n, _ => 0)
  }
}
