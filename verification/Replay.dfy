/** The anti-replay window (section 4.5.1 of RFC 9147): src/replay.c. */
module Replay {
  import opened Machine
  import opened Arithmetic
  import opened Limbs

  const WORD: int := 0x1_0000_0000_0000_0000

  // ----- bit operations on a 64-bit word

  function ShiftLeft(word: uint64, shift: nat): uint64 {
    (word * Pow2(shift)) % WORD
  }

  /** Sets bit k. */
  function OrBit(word: uint64, k: nat): (r: uint64)
    requires k < 64
  {
    if Bit(word, k) == 1 then word
    else
      SetFits(word, k);
      word + Pow2(k)
  }

  lemma SetFits(word: int, k: nat)
    requires 0 <= word < WORD && k < 64 && Bit(word, k) == 0
    ensures word + Pow2(k) < WORD
  {
    hide Pow2;
    Pow2Words();
    Pow2Add(k, 64 - k);
    var p, h := Pow2(k), Pow2(64 - k - 1);
    TopHalf(k);
    EvenQuotient(word, p, h);
  }

  lemma TopHalf(k: nat)
    requires k < 64
    ensures Pow2(64 - k) == 2 * Pow2(64 - k - 1)
  {
  }

  lemma EvenQuotient(word: int, p: int, h: int)
    requires p > 0 && word < p * (2 * h) && (word / p) % 2 == 0
    ensures word + p < p * (2 * h)
  {
    var q := word / p;
    if q >= 2 * h {
      MulMono(2 * h, q, p);
    } else {
      assert q <= 2 * h - 2;
      MulMono(q, 2 * h - 2, p);
      MulDistribR(2 * h, 2, p);
    }
  }

  lemma ShiftedBit(word: uint64, shift: nat, i: nat)
    requires shift < 64 && i < 64
    ensures Bit(ShiftLeft(word, shift), i) == if i >= shift then Bit(word, i - shift) else 0
  {
    hide Bit, Pow2;
    Pow2Words();
    var n := word * Pow2(shift);
    LowBit(n % WORD, n / WORD, 64, i);
    assert n % WORD + WORD * (n / WORD) == n;
    if i >= shift {
      HighBit(0, word, shift, i);
    } else {
      LowBit(0, word, shift, i);
      ZeroBit(i);
    }
  }

  lemma ZeroBit(i: nat)
    ensures Bit(0, i) == 0
  {
    SmallDiv(Pow2(i));
  }

  lemma SmallDiv(p: int)
    requires p > 0
    ensures 0 / p == 0
  {
    DivModUnique(0, 0, 0, p);
  }

  /** Setting bit k changes only bit k. */
  lemma OredBit(word: uint64, k: nat, i: nat)
    requires k < 64
    ensures Bit(OrBit(word, k), i) == if i == k then 1 else Bit(word, i)
  {
    if Bit(word, k) == 0 {
      SetFits(word, k);
      var p := Pow2(k);
      var low, high := word % p, word / p;
      assert word == low + p * high;
      MulDistrib(p, high, 1);
      if i < k {
        LowBit(low, high, k, i);
        LowBit(low, high + 1, k, i);
      } else {
        HighBit(low, high, k, i);
        HighBit(low, high + 1, k, i);
        OddNext(high, i - k);
      }
    }
  }

  lemma OddNext(h: int, j: nat)
    requires h % 2 == 0
    ensures Bit(h + 1, j) == if j == 0 then 1 else Bit(h, j)
  {
    if j > 0 {
      assert Pow2(1) == 2;
      HighBit(0, h / 2, 1, j);
      HighBit(1, h / 2, 1, j);
    }
  }

  // ----- the window

  class ReplayWindow {
    var highest: uint64
    var bitmap: uint64
    var hasReceivedAny: bool

    /** Every number ever accepted. */
    ghost var accepted: set<int>

    /** Bit i of the word stands for number highest - i. */
    ghost predicate Valid()
      reads this
    {
      && (hasReceivedAny <==> accepted != {})
      && (hasReceivedAny ==> highest in accepted)
      && (forall n :: n in accepted ==> 0 <= n <= highest)
      && (hasReceivedAny ==> forall i: nat :: i < 64 ==> (Bit(bitmap, i) == 1 <==> highest - i in accepted))
    }

    constructor ()
      ensures Valid() && accepted == {}
    {
      highest, bitmap, hasReceivedAny, accepted := 0, 0, false, {};
    }

    /** Fresh exactly when never accepted and fewer than 64 behind the highest. */
    method Check(n: uint64) returns (isNew: bool)
      requires Valid()
      ensures isNew <==> n !in accepted && (accepted == {} || n as int + 64 > highest)
    {
      if !hasReceivedAny {
        return true;
      }
      if n > highest {
        return true;
      }
      var diff := highest - n;
      if diff >= 64 {
        return false;
      }
      assert highest - diff == n;
      return Bit(bitmap, diff) == 0;
    }

    method Accept(n: uint64)
      requires Valid()
      modifies this
      ensures Valid() && accepted == old(accepted) + {n}
    {
      hide Bit, Pow2, ShiftLeft, OrBit;
      if !hasReceivedAny {
        FirstBit();
        highest, bitmap, hasReceivedAny := n, 1, true;
        accepted := {n};
        return;
      }
      if n > highest {
        var shift := n - highest;
        bitmap := Advance(bitmap, shift);
        highest := n;
      } else {
        var diff := highest - n;
        if diff < 64 {
          SetBits(bitmap, diff);
          bitmap := OrBit(bitmap, diff);
        }
      }
      accepted := accepted + {n};
    }
  }

  lemma FirstBit()
    ensures forall i: nat :: i < 64 ==> (Bit(1, i) == 1 <==> i == 0)
  {
    forall i: nat | i < 64
      ensures Bit(1, i) == 1 <==> i == 0
    {
      ZeroBit(i);
      OddNext(0, i);
    }
  }

  lemma SetBits(word: uint64, k: nat)
    requires k < 64
    ensures forall i: nat :: i < 64 ==> Bit(OrBit(word, k), i) == if i == k then 1 else Bit(word, i)
  {
    hide Bit, OrBit;
    forall i: nat | i < 64
      ensures Bit(OrBit(word, k), i) == if i == k then 1 else Bit(word, i)
    {
      OredBit(word, k, i);
    }
  }

  /** Shifts the history up and marks the new highest. */
  method Advance(word: uint64, shift: uint64) returns (r: uint64)
    requires shift > 0
    ensures forall i: nat :: i < 64 ==>
              Bit(r, i) == if i == 0 then 1 else if i >= shift then Bit(word, i - shift) else 0
  {
    hide Bit, Pow2, ShiftLeft, OrBit;
    var moved := if shift >= 64 then 0 else ShiftLeft(word, shift);
    forall i: nat | i < 64
      ensures Bit(moved, i) == if i >= shift then Bit(word, i - shift) else 0
    {
      if shift >= 64 {
        ZeroBit(i);
      } else {
        ShiftedBit(word, shift, i);
      }
    }
    r := OrBit(moved, 0);
    SetBits(moved, 0);
  }

  // ----- runs of check-then-accept

  /** No earlier copy passed, and no number 64 or more ahead did. */
  ghost predicate ShouldPass(numbers: seq<uint64>, passed: seq<bool>, i: nat)
    requires i < |numbers| && i <= |passed|
  {
    forall j :: 0 <= j < i && passed[j] ==> numbers[j] != numbers[i] && (numbers[j] as int) < numbers[i] as int + 64
  }

  ghost predicate IsAccepted(accepted: set<int>, numbers: seq<uint64>, passed: seq<bool>)
    requires |passed| <= |numbers|
  {
    && (forall j :: 0 <= j < |passed| && passed[j] ==> numbers[j] in accepted)
    && (forall n :: n in accepted ==> exists j :: 0 <= j < |passed| && passed[j] && numbers[j] == n)
  }

  /** The 64-bit word decides as the unbounded set of accepted numbers would, over every run. */
  method Filter(numbers: seq<uint64>) returns (passed: seq<bool>)
    ensures |passed| == |numbers|
    ensures forall i :: 0 <= i < |numbers| ==> (passed[i] <==> ShouldPass(numbers, passed, i))
  {
    hide Bit;
    var w := new ReplayWindow();
    passed := [];
    for i := 0 to |numbers|
      invariant |passed| == i && w.Valid() && fresh(w)
      invariant IsAccepted(w.accepted, numbers, passed)
      invariant forall k :: 0 <= k < i ==> (passed[k] <==> ShouldPass(numbers, passed, k))
    {
      var isNew := w.Check(numbers[i]);
      Decides(w.accepted, w.highest, w.hasReceivedAny, numbers, passed, i);
      if isNew {
        w.Accept(numbers[i]);
      }
      ghost var before := passed;
      passed := passed + [isNew];
      Extends(numbers, before, isNew);
    }
  }

  lemma Decides(accepted: set<int>, highest: int, any: bool, numbers: seq<uint64>, passed: seq<bool>, i: nat)
    requires i == |passed| < |numbers| && IsAccepted(accepted, numbers, passed)
    requires (any <==> accepted != {}) && (any ==> highest in accepted)
    requires forall n :: n in accepted ==> 0 <= n <= highest
    ensures ShouldPass(numbers, passed, i)
       <==> numbers[i] !in accepted && (accepted == {} || numbers[i] as int + 64 > highest)
  {
  }

  lemma Extends(numbers: seq<uint64>, passed: seq<bool>, isNew: bool)
    requires |passed| < |numbers|
    ensures forall k :: 0 <= k <= |passed| ==>
              (ShouldPass(numbers, passed + [isNew], k) <==> ShouldPass(numbers, passed, k))
  {
  }

  /** So no number passes twice. */
  lemma NoReplay(numbers: seq<uint64>, passed: seq<bool>, i: nat, j: nat)
    requires |passed| == |numbers| && i < j < |numbers|
    requires forall k :: 0 <= k < |numbers| ==> (passed[k] <==> ShouldPass(numbers, passed, k))
    requires passed[i] && passed[j]
    ensures numbers[i] != numbers[j]
  {
    assert ShouldPass(numbers, passed, j);
  }
}
