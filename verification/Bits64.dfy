/** Bitwise operations on signed 64-bit words, in two's complement, and the masked exchange built
    from them. */
module Bits64 {
  import opened Machine
  import opened Arithmetic
  import opened ByteOps

  function AndBits(a: int, b: int, n: nat): (r: int)
    ensures 0 <= r < Pow2(n)
    decreases n
  {
    if n == 0 then 0 else (a % 2) * (b % 2) + 2 * AndBits(a / 2, b / 2, n - 1)
  }

  function And(a: int64, b: int64): int64 {
    Signed(AndBits(a, b, 64))
  }

  function Xor(a: int64, b: int64): int64 {
    Signed(XorBits(a, b, 64))
  }

  /** Halving commutes with taking the low bits. */
  lemma LowHalf(a: int, n: nat)
    requires n > 0
    ensures a % Pow2(n) == a % 2 + 2 * (a / 2 % Pow2(n - 1))
  {
    var p := Pow2(n - 1);
    DivModUnique(a, a / 2 / p, a % 2 + 2 * (a / 2 % p), 2 * p);
  }

  lemma {:induction false} AndOnes(a: int, n: nat)
    ensures AndBits(-1, a, n) == a % Pow2(n)
    decreases n
  {
    if n > 0 {
      AndOnes(a / 2, n - 1);
      LowHalf(a, n);
    }
  }

  lemma {:induction false} AndNone(a: int, n: nat)
    ensures AndBits(0, a, n) == 0
    decreases n
  {
    if n > 0 {
      AndNone(a / 2, n - 1);
    }
  }

  lemma {:induction false} XorNone(a: int, n: nat)
    ensures XorBits(a, 0, n) == a % Pow2(n)
    decreases n
  {
    if n > 0 {
      XorNone(a / 2, n - 1);
      LowHalf(a, n);
    }
  }

  /** Masking a word with its difference to another gives the other. */
  lemma {:induction false} XorDifference(a: int, b: int, n: nat)
    ensures XorBits(a, XorBits(a, b, n), n) == b % Pow2(n)
    decreases n
  {
    hide XorBits, Pow2;
    if n == 0 {
      NoBits(a, XorBits(a, b, n));
      NoBits(b, 0);
    } else {
      var y := XorBits(a / 2, b / 2, n - 1);
      XorStep(a, b, n);
      XorStep(a, XorBits(a, b, n), n);
      DifferenceBit(a, b, y);
      XorDifference(a / 2, b / 2, n - 1);
      LowHalf(b, n);
    }
  }

  lemma XorStep(a: int, b: int, n: nat)
    requires n > 0
    ensures XorBits(a, b, n) == (a + b) % 2 + 2 * XorBits(a / 2, b / 2, n - 1)
  {
  }

  lemma NoBits(a: int, b: int)
    ensures a % Pow2(0) == 0 && XorBits(a, b, 0) == 0
  {
  }

  lemma DifferenceBit(a: int, b: int, y: int)
    ensures var d := (a + b) % 2 + 2 * y; d / 2 == y && (a + d) % 2 == b % 2
  {
  }

  /** Only the low n bits of an operand matter. */
  lemma {:induction false} XorLow(a: int, b: int, c: int, n: nat)
    requires b % Pow2(n) == c % Pow2(n)
    ensures XorBits(a, b, n) == XorBits(a, c, n)
    decreases n
  {
    hide Pow2;
    if n > 0 {
      LowHalf(b, n);
      LowHalf(c, n);
      SameHalves(a, b, c, b / 2 % Pow2(n - 1), c / 2 % Pow2(n - 1));
      XorLow(a / 2, b / 2, c / 2, n - 1);
    }
  }

  lemma SameHalves(a: int, b: int, c: int, x: int, y: int)
    requires b % 2 + 2 * x == c % 2 + 2 * y
    ensures x == y && (a + b) % 2 == (a + c) % 2
  {
  }

  lemma SignedLow(x: int)
    ensures Signed(x) % Pow2(64) == x % Pow2(64)
  {
    Pow2Words();
    var m, h := 0x1_0000_0000_0000_0000, 0x8000_0000_0000_0000;
    ModShift(x, -((x + h) / m), m);
  }

  lemma SignedBack(x: int64)
    ensures Signed(x % Pow2(64)) == x
  {
    Pow2Words();
  }

  /** The exchange without a branch: with all bits of the mask set the words change places, with
      none set they stay. */
  lemma MaskedExchange(mask: int64, a: int64, b: int64)
    requires mask == 0 || mask == -1
    ensures var dummy := And(mask, Xor(a, b));
            && Xor(a, dummy) == (if mask == -1 then b else a)
            && Xor(b, dummy) == (if mask == -1 then a else b)
  {
    hide XorBits, AndBits, Signed, Pow2;
    var z := XorBits(a, b, 64);
    var dummy := And(mask, Xor(a, b));
    SignedLow(z);
    SignedBack(a);
    SignedBack(b);
    if mask == -1 {
      AndOnes(Signed(z), 64);
      SignedBack(Signed(z));
      XorLow(a, dummy, z, 64);
      XorLow(b, dummy, z, 64);
      XorDifference(a, b, 64);
      XorBitsCommute(a, b, 64);
      XorDifference(b, a, 64);
    } else {
      AndNone(Signed(z), 64);
      SignedZero();
      XorNone(a, 64);
      XorNone(b, 64);
    }
  }

  lemma SignedZero()
    ensures Signed(0) == 0
  {
  }
}
