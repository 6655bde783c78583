/** Packing and unpacking of field elements to and from 32 little-endian bytes. */
module FeCodec {
  import opened Machine
  import opened Arithmetic
  import opened Limbs
  import opened Fe25519

  /** The 16-bit limb of a low and a high byte. */
  function Pair(low: int, high: int): int {
    low + 256 * high
  }

  lemma {:induction false} BytePairs(b: seq<int>, s: seq<int>)
    requires |b| == 2 * |s|
    requires forall i :: 0 <= i < |s| ==> s[i] == Pair(b[2 * i], b[2 * i + 1])
    ensures LE(b) == V(s)
    decreases |s|
  {
    if |s| > 0 {
      forall i | 0 <= i < |s| - 1
        ensures s[1..][i] == Pair(b[2..][2 * i], b[2..][2 * i + 1])
      {
        assert s[i + 1] == Pair(b[2 * (i + 1)], b[2 * (i + 1) + 1]);
      }
      BytePairs(b[2..], s[1..]);
      assert b[1..][1..] == b[2..];
      assert LE(b) == b[0] + 256 * Value(b[1..], 256);
      assert Value(b[1..], 256) == b[1] + 256 * LE(b[2..]);
    }
  }

  /** The scalar's top bit is dropped: the value is taken modulo 2^255. */
  method Unpack(n: Bytes) returns (o: seq<int64>)
    requires |n| == 32
    ensures |o| == 16 && AreDigits(o, 65536)
    ensures V(o) == LE(n) % (R / 2)
  {
    var t := new int64[16];
    for i := 0 to 16
      invariant forall k :: 0 <= k < i ==> t[k] == Pair(n[2 * k], n[2 * k + 1])
    {
      t[i] := Pair(n[2 * i], n[2 * i + 1]);
    }
    ghost var full := t[..];
    BytePairs(n, full);
    t[15] := t[15] % 0x8000;
    o := t[..];
    assert o == full[15 := full[15] % 0x8000];
    TopMasked(full);
  }

  lemma TopMasked(s: seq<int>)
    requires |s| == 16 && AreDigits(s, 65536)
    ensures V(s[15 := s[15] % 0x8000]) == V(s) % (R / 2)
  {
    var t := s[15 := s[15] % 0x8000];
    ValueUpdate(s, 15, t[15], 65536);
    PowTop();
    ValueSplit(t, 15, 65536);
    ValueBound(t[..15], 65536);
    assert t[15..] == [t[15]];
    ValueSingle(t[15], 65536);
    DivModUnique(V(s), s[15] / 0x8000, V(t), R / 2);
  }

  function PLimb(i: int): int64 {
    if i == 0 then 0xffed else if i == 15 then 0x7fff else 0xffff
  }

  ghost predicate IsPLimbs(q: seq<int>) {
    |q| == 16 && (forall i :: 0 <= i < 16 ==> q[i] == PLimb(i)) && V(q) == P
  }

  lemma PLimbs() returns (q: seq<int>)
    ensures IsPLimbs(q)
  {
    var ones: seq<int> := seq(16, i => 0xffff);
    AllOnes(ones);
    var low := ones[0 := 0xffed];
    q := low[15 := 0x7fff];
    ValueUpdate(ones, 0, 0xffed, 65536);
    ValueUpdate(low, 15, 0x7fff, 65536);
    PowTop();
  }

  lemma {:induction false} AllOnes(s: seq<int>)
    requires forall i :: 0 <= i < |s| ==> s[i] == 0xffff
    ensures V(s) == Pow(65536, |s|) - 1
    decreases |s|
  {
    if |s| > 0 {
      AllOnes(s[1..]);
    }
  }

  /** A third carry removes the stray of limb 0: the sixteen limbs are digits. */
  lemma ThirdCarry(v: int, s: seq<int>)
    requires -38 <= v <= R + 37 && |s| == 16 && V(s) == CarriedValue(v)
    requires 0 <= s[0] - 38 * CarryOut(v) < 65536
    requires forall i :: 1 <= i < 16 ==> 0 <= s[i] < 65536
    ensures AreDigits(s, 65536)
  {
    var c := v / R;
    assert v == c * R + v % R;
    assert -1 <= c <= 1;
    var low := s[0 := s[0] - 38 * c];
    ValueUpdate(s, 0, s[0] - 38 * c, 65536);
    LowLimbRange(low);
  }

  /** One trial subtraction of p with explicit borrows. */
  method TrialSubtract(t: seq<int64>) returns (m: seq<int64>, borrow: int64)
    requires |t| == 16 && AreDigits(t, 65536)
    ensures |m| == 16 && AreDigits(m, 65536)
    ensures borrow == (if V(t) < P then 1 else 0)
    ensures V(m) == V(t) - P + borrow * R
  {
    ghost var q := PLimbs();
    var a := new int64[16];
    borrow := 0;
    for i := 0 to 16
      invariant 0 <= borrow <= 1
      invariant forall k :: 0 <= k < i ==> 0 <= a[k] < 65536
      invariant V(a[..i]) == V(t[..i]) - V(q[..i]) + borrow * Pow(65536, i)
    {
      ghost var before, b := a[..i], borrow;
      var d: int64 := t[i] - PLimb(i) - borrow;
      borrow := if d < 0 then 1 else 0;
      if borrow == 1 {
        d := d + 0x10000;
      }
      a[i] := d;
      assert a[..][..i] == before;
      BorrowStep(a[..], t, q, i, b, borrow);
      assert a[..i + 1] == a[..][..i + 1];
    }
    m := a[..];
    assert a[..16] == m && t[..16] == t && q[..16] == q;
    PowTop();
    ValueBound(m, 65536);
    ValueBound(t, 65536);
  }

  lemma BorrowStep(m: seq<int>, t: seq<int>, q: seq<int>, i: nat, b: int, c: int)
    requires |m| == |t| == |q| == 16 && i < 16
    requires m[i] == t[i] - q[i] - b + 65536 * c
    requires V(m[..i]) == V(t[..i]) - V(q[..i]) + b * Pow(65536, i)
    ensures V(m[..i + 1]) == V(t[..i + 1]) - V(q[..i + 1]) + c * Pow(65536, i + 1)
  {
    ValuePrefixStep(m, i, 65536);
    ValuePrefixStep(t, i, 65536);
    ValuePrefixStep(q, i, 65536);
    BorrowMoves(Pow(65536, i), m[i], t[i], q[i], b, c);
  }

  lemma BorrowMoves(p: int, m: int, t: int, q: int, b: int, c: int)
    requires m == t - q - b + 65536 * c
    ensures p * m == p * t - p * q - b * p + c * (65536 * p)
  {
    assert p * m == p * (t - q - b) + p * (65536 * c);
    assert p * (t - q - b) == p * t - p * q - p * b;
  }

  /** The three carries: sixteen true digits below 2^256. */
  method Freeze(n: seq<int64>) returns (o: seq<int64>)
    requires |n| == 16 && Within(n, CARRY_LIMIT)
    ensures |o| == 16 && AreDigits(o, 65536) && Cong(V(o), V(n), P)
  {
    hide CarryOut, CarriedValue, V;
    var t := new int64[16](i requires 0 <= i < 16 => n[i]);
    assert t[..] == n;
    CarryTwice(V(n), n);
    CarryCong(V(n));
    Carry(t);
    CarryCong(V(t[..]));
    Carry(t);
    ghost var v := V(t[..]);
    LowLimbRange(t[..]);
    CarryCong(v);
    Carry(t);
    o := t[..];
    ThirdCarry(v, o);
  }

  method Pack(n: seq<int64>) returns (o: Bytes)
    requires |n| == 16 && Within(n, CARRY_LIMIT)
    ensures |o| == 32
    ensures LE(o) == V(n) % P
  {
    var t := Freeze(n);
    ValueBound(t, 65536);
    PowTop();
    for pass := 0 to 2
      invariant |t| == 16 && AreDigits(t, 65536) && Cong(V(t), V(n), P)
      invariant 0 <= V(t) < (if pass == 0 then R else if pass == 1 then P + 38 else P)
    {
      var m, borrow := TrialSubtract(t);
      ValueBound(m, 65536);
      if borrow == 0 {
        CongFromMultiple(V(m), V(t), -1, P);
        t := m;
      }
    }
    CongUnique(V(t), V(n), P);
    o := Store(t);
  }

  method Store(t: seq<int64>) returns (o: Bytes)
    requires |t| == 16 && AreDigits(t, 65536)
    ensures |o| == 32 && LE(o) == V(t)
  {
    var b := new uint8[32];
    for i := 0 to 16
      invariant forall k :: 0 <= k < i ==> t[k] == Pair(b[2 * k], b[2 * k + 1])
    {
      b[2 * i] := t[i] % 256;
      b[2 * i + 1] := (t[i] / 256) % 256;
    }
    o := b[..];
    BytePairs(o, t);
  }
}
