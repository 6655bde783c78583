/** Little-endian positional numbers with integer digits of any sign and size. */
module Limbs {
  import opened Arithmetic

  function Value(s: seq<int>, b: int): int
    decreases |s|
  {
    if |s| == 0 then 0 else s[0] + b * Value(s[1..], b)
  }

  /** A little-endian byte string as a number. */
  function LE(b: seq<int>): int {
    Value(b, 256)
  }

  /** A big-endian byte string as a number. */
  function BE(b: seq<int>): int
    decreases |b|
  {
    if |b| == 0 then 0 else 256 * BE(b[..|b| - 1]) + b[|b| - 1]
  }

  ghost predicate AreDigits(s: seq<int>, b: int) {
    forall i :: 0 <= i < |s| ==> 0 <= s[i] < b
  }

  ghost predicate Within(s: seq<int>, m: int) {
    forall i :: 0 <= i < |s| ==> -m <= s[i] <= m
  }

  lemma {:induction false} ValueConcat(s: seq<int>, t: seq<int>, b: int)
    ensures Value(s + t, b) == Value(s, b) + Pow(b, |s|) * Value(t, b)
    decreases |s|
  {
    if |s| == 0 {
      assert s + t == t;
    } else {
      assert (s + t)[1..] == s[1..] + t;
      ValueConcat(s[1..], t, b);
      var p, v, w := Pow(b, |s| - 1), Value(s[1..], b), Value(t, b);
      MulAssoc(b, p, w);
      MulDistrib(b, v, p * w);
    }
  }

  lemma ValueSplit(s: seq<int>, i: nat, b: int)
    requires i <= |s|
    ensures Value(s, b) == Value(s[..i], b) + Pow(b, i) * Value(s[i..], b)
  {
    assert s == s[..i] + s[i..];
    ValueConcat(s[..i], s[i..], b);
  }

  lemma ValueSingle(x: int, b: int)
    ensures Value([x], b) == x
  {
    assert [x][1..] == [];
  }

  lemma ValueAppend(s: seq<int>, x: int, b: int)
    ensures Value(s + [x], b) == Value(s, b) + Pow(b, |s|) * x
  {
    ValueSingle(x, b);
    ValueConcat(s, [x], b);
  }

  /** One more digit of a prefix. */
  lemma ValuePrefixStep(s: seq<int>, i: nat, b: int)
    requires i < |s|
    ensures Value(s[..i + 1], b) == Value(s[..i], b) + Pow(b, i) * s[i]
  {
    assert s[..i + 1] == s[..i] + [s[i]];
    ValueAppend(s[..i], s[i], b);
  }

  lemma {:induction false} ValueUpdate(s: seq<int>, i: nat, x: int, b: int)
    requires i < |s|
    ensures Value(s[i := x], b) == Value(s, b) + Pow(b, i) * (x - s[i])
    decreases i
  {
    if i == 0 {
      assert s[i := x][1..] == s[1..];
    } else {
      assert s[i := x][1..] == s[1..][i - 1 := x];
      ValueUpdate(s[1..], i - 1, x, b);
      var d, v, p := x - s[i], Value(s[1..], b), Pow(b, i - 1);
      MulAssoc(b, p, d);
      MulDistrib(b, v, p * d);
    }
  }

  lemma {:induction false} ValueZero(s: seq<int>, b: int)
    requires forall i :: 0 <= i < |s| ==> s[i] == 0
    ensures Value(s, b) == 0
    decreases |s|
  {
    if |s| > 0 {
      ValueZero(s[1..], b);
    }
  }

  lemma {:induction false} ValueBound(s: seq<int>, b: int)
    requires b > 0 && AreDigits(s, b)
    ensures 0 <= Value(s, b) < Pow(b, |s|)
    decreases |s|
  {
    if |s| > 0 {
      ValueBound(s[1..], b);
      BoundStep(s[0], Value(s[1..], b), Pow(b, |s| - 1), b);
    }
  }

  lemma BoundStep(x: int, v: int, p: int, b: int)
    requires 0 <= x < b && 0 <= v < p
    ensures 0 <= x + b * v < b * p
  {
    MulMono(0, v, b);
    MulMono(v, p - 1, b);
    MulDistribR(p, 1, b);
  }

  /** Limbs of magnitude at most m give a value of magnitude at most m * (b^n - 1) / (b - 1). */
  lemma {:induction false} ValueWithin(s: seq<int>, m: int, b: int)
    requires b >= 2 && Within(s, m)
    ensures -(m * (Pow(b, |s|) - 1)) <= Value(s, b) * (b - 1) <= m * (Pow(b, |s|) - 1)
    decreases |s|
  {
    if |s| > 0 {
      ValueWithin(s[1..], m, b);
      var v, p := Value(s[1..], b), Pow(b, |s| - 1);
      WithinStep(s[0], v, p, m, b);
      MulNeg(v, b - 1);
      WithinStep(-s[0], -v, p, m, b);
      MulNeg(v, b);
      MulNeg(s[0] + b * v, b - 1);
    }
  }

  lemma WithinStep(x: int, v: int, p: int, m: int, b: int)
    requires b >= 2 && x <= m && v * (b - 1) <= m * (p - 1)
    ensures (x + b * v) * (b - 1) <= m * (b * p - 1)
  {
    var c := b - 1;
    MulDistribR(x, b * v, c);
    MulAssoc(b, v, c);
    MulMono(x, m, c);
    MulMono(v * c, m * (p - 1), b);
    assert (m * (p - 1)) * b == m * (b * p) - m * b by {
      MulDistrib(m, p, 1);
      MulDistribR(m * p, m, b);
      MulSwap(m, p, b);
      MulAssoc(m, b, p);
    }
    MulDistrib(m, b, 1);
    MulDistrib(m, b * p, 1);
  }

  lemma {:induction false} ValueUnique(s: seq<int>, t: seq<int>, b: int)
    requires b > 0 && |s| == |t| && AreDigits(s, b) && AreDigits(t, b)
    requires Value(s, b) == Value(t, b)
    ensures s == t
    decreases |s|
  {
    if |s| > 0 {
      DivModUnique(Value(s, b), Value(s[1..], b), s[0], b);
      DivModUnique(Value(t, b), Value(t[1..], b), t[0], b);
      ValueUnique(s[1..], t[1..], b);
      assert s == [s[0]] + s[1..] && t == [t[0]] + t[1..];
    }
  }

  /** The top digit decides a comparison. */
  lemma ValueTopLess(s: seq<int>, t: seq<int>, k: nat, b: int)
    requires b > 0 && |s| == |t| && AreDigits(s, b) && AreDigits(t, b)
    requires k < |s| && s[k] < t[k] && s[k + 1..] == t[k + 1..]
    ensures Value(s, b) < Value(t, b)
  {
    ValueSplit(s, k + 1, b);
    ValueSplit(t, k + 1, b);
    ValuePrefixStep(s, k, b);
    ValuePrefixStep(t, k, b);
    ValueBound(s[..k], b);
    ValueBound(t[..k], b);
    TopStep(Value(s[..k], b), Value(t[..k], b), Pow(b, k), s[k], t[k]);
  }

  lemma TopStep(v: int, w: int, p: int, x: int, y: int)
    requires v < p && 0 < p && 0 <= w && x < y
    ensures v + p * x < w + p * y
  {
    MulMono(x + 1, y, p);
    MulDistribR(x, 1, p);
  }

  /** Bit i of a number is bit i mod w of its w-bit limb i div w. */
  lemma LimbBit(s: seq<int>, w: nat, b: int, i: nat)
    requires w > 0 && b == Pow2(w) && AreDigits(s, b) && i / w < |s|
    ensures Bit(Value(s, b), i) == Bit(s[i / w], i % w)
  {
    hide Bit, Pow2, Value, AreDigits;
    LimbBitAt(s, w, b, i / w, i % w, i);
  }

  lemma {:induction false} LimbBitAt(s: seq<int>, w: nat, b: int, k: nat, j: nat, i: nat)
    requires j < w && b == Pow2(w) && AreDigits(s, b) && k < |s| && i == w * k + j
    ensures Bit(Value(s, b), i) == Bit(s[k], j)
    decreases k
  {
    hide Bit, Pow2;
    var v := Value(s[1..], b);
    if k == 0 {
      LowBit(s[0], v, w, j);
    } else {
      MulDistrib(w, k - 1, 1);
      MulNonNegative(w, k - 1);
      LimbBitAt(s[1..], w, b, k - 1, j, i - w);
      HighBit(s[0], v, w, i);
    }
  }

  lemma MulNonNegative(a: nat, b: nat)
    ensures a * b >= 0
  {
  }

  lemma HighBit(x: int, v: int, w: nat, i: nat)
    requires 0 <= x < Pow2(w) && i >= w
    ensures Bit(x + Pow2(w) * v, i) == Bit(v, i - w)
  {
    hide Pow2;
    var n := x + Pow2(w) * v;
    Pow2Add(w, i - w);
    DivDiv(n, Pow2(w), Pow2(i - w));
    DivModUnique(n, v, x, Pow2(w));
  }

  lemma LowBit(x: int, v: int, w: nat, i: nat)
    requires i < w
    ensures Bit(x + Pow2(w) * v, i) == Bit(x, i)
  {
    var p, h := Pow2(i), Pow2(w - i - 1);
    Pow2Add(i, w - i);
    MulAssoc(p, 2 * h, v);
    MulAssoc(2, h, v);
    EvenShift(x, p, h * v);
  }

  lemma EvenShift(x: int, p: int, k: int)
    requires p > 0
    ensures ((x + p * (2 * k)) / p) % 2 == (x / p) % 2
  {
    MulDistribR(x / p, 2 * k, p);
    DivModUnique(x + p * (2 * k), x / p + 2 * k, x % p, p);
    ModShift(x / p, k, 2);
  }
}
