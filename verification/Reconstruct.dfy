/** Rebuilding truncated epochs and sequence numbers against a known reference (section 4.2.2 of
    RFC 9147): the two functions at the end of src/record.c. */
module Reconstruct {
  import opened Machine
  import opened Arithmetic

  const SEQ_LIMIT: int := 0x1_0000_0000_0000
  const EPOCH_LIMIT: int := 0x1_0000

  function Distance(a: int, b: int): nat {
    if a > b then a - b else b - a
  }

  // ----- sequence numbers

  /** The first candidate stays unless a later one is in range and strictly closer. */
  function Closer(reference: int, best: int, candidate: int): int {
    if 0 <= candidate < SEQ_LIMIT && Distance(candidate, reference) < Distance(best, reference) then candidate else best
  }

  /** Candidates in the reference's own window, then the one below, then the one above. */
  function Sequence(highest: nat, wire: nat, window: nat): int
    requires window > 0
  {
    var base, low := highest - highest % window, wire % window;
    Closer(highest, Closer(highest, base + low, base - window + low), base + window + low)
  }

  /** The candidates are formed in signed 64-bit arithmetic. For references from 2^63 on the casts
      change them, but never into one that would be taken. */
  method ReconstructSequence(highest: uint64, wire: uint16, wireBits: nat) returns (best: int)
    requires wireBits == 8 || wireBits == 16
    ensures best == Sequence(highest, wire, if wireBits == 8 then 0x100 else 0x1_0000)
  {
    hide Signed;
    var window := if wireBits == 8 then 0x100 else 0x1_0000;
    var base := highest - highest % window;
    var truncated := wire % window;
    best := base + truncated;
    var bestDist := Distance(best, highest);
    var w := -1;
    while w <= 1
      invariant w == -1 || w == 1 || w == 3
      invariant bestDist == Distance(best, highest) < window
      invariant w == -1 ==> best == base + truncated
      invariant w == 1 ==> best == Closer(highest, base + truncated, base - window + truncated)
      invariant w == 3 ==> best == Sequence(highest, wire, window)
    {
      var candidate := Signed(Signed(base) + w * window + truncated);
      CastIsHarmless(highest, base, truncated, window, w, bestDist);
      if 0 <= candidate <= 0xFFFF_FFFF_FFFF {
        var dist := Distance(candidate, highest);
        if dist < bestDist {
          bestDist := dist;
          best := candidate;
        }
      }
      w := w + 2;
    }
  }

  lemma CastIsHarmless(highest: uint64, base: int, low: int, window: int, w: int, bestDist: int)
    requires (window == 0x100 || window == 0x1_0000) && base == highest - highest % window && 0 <= low < window
    requires (w == -1 || w == 1) && bestDist < window
    ensures var exact, candidate := base + w * window + low, Signed(Signed(base) + w * window + low);
            0 <= candidate < SEQ_LIMIT && Distance(candidate, highest) < bestDist
            <==> 0 <= exact < SEQ_LIMIT && Distance(exact, highest) < bestDist
    ensures var exact, candidate := base + w * window + low, Signed(Signed(base) + w * window + low);
            0 <= exact < SEQ_LIMIT && Distance(exact, highest) < bestDist ==> candidate == exact
  {
    var exact := base + w * window + low;
    SignedShift(base, w * window + low);
    if highest < 0x4000_0000_0000_0000 {
      SignedSmall(exact);
    } else {
      SignedRange(exact);
    }
  }

  lemma SignedShift(x: int, y: int)
    ensures Signed(Signed(x) + y) == Signed(x + y)
  {
    var m, h := 0x1_0000_0000_0000_0000, 0x8000_0000_0000_0000;
    ModShift(x + y + h, -((x + h) / m), m);
  }

  lemma SignedSmall(x: int)
    requires -0x8000_0000_0000_0000 <= x < 0x8000_0000_0000_0000
    ensures Signed(x) == x
  {
  }

  /** A large number read as signed is itself, or less by 2^64. */
  lemma SignedRange(x: int)
    requires 0 <= x < 0x1_8000_0000_0000_0000
    ensures Signed(x) == x || Signed(x) == x - 0x1_0000_0000_0000_0000
  {
  }

  /** When the number n is recovered from its low bits: closer than half a window; or no
      competitor in range because n lies in the first or the last window; or exactly half a
      window away in the reference's own window, which wins ties. */
  ghost predicate Recoverable(highest: int, n: int, window: int)
    requires window > 0
  {
    || 2 * Distance(n, highest) < window
    || (n > highest && n < window)
    || (n < highest && n + window >= SEQ_LIMIT)
    || (2 * Distance(n, highest) == window && n / window == highest / window)
  }

  /** Reconstruction inverts truncation exactly on the recoverable numbers. */
  lemma SequenceExact(highest: nat, n: nat, window: nat)
    requires highest < SEQ_LIMIT && n < SEQ_LIMIT
    requires window == 0x100 || window == 0x1_0000
    ensures Sequence(highest, n % window, window) == n <==> Recoverable(highest, n, window)
  {
    hide Closer, Distance;
    var q, k := highest / window, n / window - highest / window;
    assert highest - highest % window == q * window;
    assert n / window * window == n - n % window;
    MulDistribR(n / window, q, window);
    WindowInRange(highest, window);
    WindowInRange(n, window);
    SmallMod(n % window, window);
    Candidates(highest, n, window, q * window, k);
    assert n - k * window == q * window + n % window;
  }

  lemma WindowInRange(n: nat, window: nat)
    requires n < SEQ_LIMIT && (window == 0x100 || window == 0x1_0000)
    ensures 0 <= n / window * window && n / window * window + window <= SEQ_LIMIT
  {
    if window == 0x100 {
      assert SEQ_LIMIT == 0x100 * 0x100_0000_0000;
    } else {
      assert SEQ_LIMIT == 0x1_0000 * 0x1_0000_0000;
    }
  }

  /** n lies k windows above the reference's window, which starts at base. */
  lemma Candidates(h: int, n: int, w: int, base: int, k: int)
    requires 0 <= h - base < w && 0 <= n - base - k * w < w
    requires 0 <= base && base + w <= SEQ_LIMIT && 0 <= base + k * w && base + k * w + w <= SEQ_LIMIT
    ensures Closer(h, Closer(h, n - k * w, n - k * w - w), n - k * w + w) == n
       <==> || 2 * Distance(n, h) < w
            || (n > h && n < w)
            || (n < h && n + w >= SEQ_LIMIT)
            || (2 * Distance(n, h) == w && k == 0)
  {
    if k >= 2 {
      MulMono(2, k, w);
    } else if k <= -2 {
      MulMono(k, -2, w);
    } else if k == 1 {
      assert k * w == w;
    } else if k == -1 {
      assert k * w == -w;
    } else {
      assert k * w == 0;
    }
  }

  /** The result never leaves the 48-bit range, so the reference stays in it. */
  lemma SequenceInRange(highest: nat, wire: nat, window: nat)
    requires highest < SEQ_LIMIT && (window == 0x100 || window == 0x1_0000)
    ensures 0 <= Sequence(highest, wire, window) < SEQ_LIMIT
    ensures Sequence(highest, wire, window) % window == wire % window
  {
    WindowInRange(highest, window);
    var q, low := highest / window, wire % window;
    MulDistribR(q, 1, window);
    DivModUnique(q * window + low, q, low, window);
    DivModUnique(q * window - window + low, q - 1, low, window);
    DivModUnique(q * window + window + low, q + 1, low, window);
  }

  // ----- epochs

  function EpochCloser(reference: int, best: int, candidate: int): int {
    if 0 <= candidate < EPOCH_LIMIT && (best < 0 || Distance(candidate, reference) < Distance(best, reference))
    then candidate else best
  }

  function Epoch(highest: uint16, low2: nat): int {
    var base, low := highest - highest % 4, low2 % 4;
    EpochCloser(highest, EpochCloser(highest, EpochCloser(highest, -1, base - 4 + low), base + low), base + 4 + low)
  }

  method ReconstructEpoch(highest: uint16, wireLow2: uint8) returns (best: int)
    ensures best == Epoch(highest, wireLow2) && 0 <= best < EPOCH_LIMIT
  {
    var h: int := highest;
    var low2, base := wireLow2 % 4, h - h % 4;
    best := -1;
    var bestDist := 0x7fff_ffff;
    var w := -1;
    while w <= 1
      invariant -1 <= w <= 2
      invariant best < 0 ==> best == -1 && bestDist == 0x7fff_ffff
      invariant best >= 0 ==> best < EPOCH_LIMIT && bestDist == Distance(best, h)
      invariant w == -1 ==> best == -1
      invariant w == 0 ==> best == EpochCloser(h, -1, base - 4 + low2)
      invariant w == 1 ==> best == EpochCloser(h, EpochCloser(h, -1, base - 4 + low2), base + low2)
      invariant w == 2 ==> best == Epoch(highest, wireLow2)
      invariant w >= 1 ==> best >= 0
    {
      var candidate := base + w * 4 + low2;
      if 0 <= candidate <= 0xFFFF {
        var dist := candidate - h;
        if dist < 0 {
          dist := -dist;
        }
        if dist < bestDist {
          bestDist := dist;
          best := candidate;
        }
      }
      w := w + 1;
    }
  }

  /** An epoch comes back when it is at most one away, two below, or has no closer competitor
      inside 0..65535. */
  lemma EpochExact(highest: uint16, e: uint16)
    ensures Epoch(highest, e % 4) == e
       <==> || Distance(e, highest) <= 1
            || e == highest - 2
            || (e == highest + 2 && highest < 2)
            || (e == highest + 3 && highest == 0)
            || (e == highest - 3 && highest == 0xFFFF)
  {
    var h: int, x: int := highest, e;
    assert x == 4 * (x / 4) + x % 4;
    assert h == 4 * (h / 4) + h % 4;
  }
}
