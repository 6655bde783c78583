/** Arithmetic modulo 2^130 - 5 in five 26-bit limbs: bytes_to_limbs, poly1305_mulmod and the
    final reduction of src/crypto/poly1305.c. */
module Poly1305Field {
  import opened Machine
  import opened Arithmetic
  import opened Limbs

  /** 2^130 - 5. */
  const Q: int := 0x3_ffffffff_ffffffff_ffffffff_fffffffb

  const M26: int := 0x400_0000
  const M52: int := 0x10_0000_0000_0000
  const M78: int := 0x4000_0000_0000_0000_0000
  const M104: int := 0x100_0000_0000_0000_0000_0000_0000

  function V(s: seq<int>): int
    requires |s| == 5
  {
    s[0] + M26 * s[1] + M52 * s[2] + M78 * s[3] + M104 * s[4]
  }

  /** The accumulator between blocks: limb 1 may exceed 26 bits by the last carry. */
  ghost predicate Carried(h: seq<int>) {
    && |h| == 5
    && 0 <= h[0] < M26 && 0 <= h[1] < M26 + 64 && 0 <= h[2] < M26 && 0 <= h[3] < M26 && 0 <= h[4] < M26
  }

  /** The accumulator after a block is added. */
  ghost predicate Loaded(h: seq<int>) {
    |h| == 5 && forall i :: 0 <= i < 5 ==> 0 <= h[i] < 2 * M26 + 64
  }

  ghost predicate Canonical(h: seq<int>) {
    |h| == 5 && forall i :: 0 <= i < 5 ==> 0 <= h[i] < M26
  }

  /** r and the precomputed multiples of 5. */
  ghost predicate Keyed(r: seq<int>, s: seq<int>) {
    && Canonical(r) && |s| == 4
    && forall i :: 0 <= i < 4 ==> s[i] == 5 * r[i + 1]
  }

  // ----- bytes to limbs

  lemma LittleWord(b: seq<int>)
    requires |b| >= 4
    ensures LE(b) == b[0] + 0x100 * b[1] + 0x1_0000 * b[2] + 0x100_0000 * b[3] + 0x1_0000_0000 * LE(b[4..])
  {
    assert b[1..][1..] == b[2..] && b[2..][1..] == b[3..] && b[3..][1..] == b[4..];
    assert LE(b[3..]) == b[3] + 256 * LE(b[4..]);
    assert LE(b[2..]) == b[2] + 256 * LE(b[3..]);
    assert LE(b[1..]) == b[1] + 256 * LE(b[2..]);
  }

  function Word(b: seq<int>, i: int): int
    requires 0 <= i && i + 4 <= |b|
  {
    b[i] + 0x100 * b[i + 1] + 0x1_0000 * b[i + 2] + 0x100_0000 * b[i + 3]
  }

  lemma FourWords(b: seq<int>)
    requires |b| >= 16
    ensures LE(b) == Word(b, 0) + 0x1_0000_0000 * Word(b, 4) + 0x1_0000_0000_0000_0000 * Word(b, 8)
                   + 0x1_0000_0000_0000_0000_0000_0000 * Word(b, 12)
                   + 0x1_0000_0000_0000_0000_0000_0000_0000_0000 * LE(b[16..])
  {
    LittleWord(b);
    LittleWord(b[4..]);
    LittleWord(b[8..]);
    LittleWord(b[12..]);
    assert b[4..][4..] == b[8..] && b[8..][4..] == b[12..] && b[12..][4..] == b[16..];
  }

  method BytesToLimbs(buf: Bytes) returns (t: seq<uint32>)
    requires |buf| == 17 && buf[16] <= 1
    ensures Canonical(t) && V(t) == LE(buf)
  {
    var b: seq<int> := buf;
    t := [b[0] + 0x100 * b[1] + 0x1_0000 * b[2] + 0x100_0000 * (b[3] % 4),
          b[3] / 4 + 0x40 * b[4] + 0x4000 * b[5] + 0x40_0000 * (b[6] % 16),
          b[6] / 16 + 0x10 * b[7] + 0x1000 * b[8] + 0x10_0000 * (b[9] % 64),
          b[9] / 64 + 0x4 * b[10] + 0x400 * b[11] + 0x4_0000 * b[12],
          b[13] + 0x100 * b[14] + 0x1_0000 * b[15] + 0x100_0000 * b[16]];
    FourWords(b);
    assert b[16..] == [b[16]];
    ValueSingle(b[16], 256);
    assert forall i :: 0 <= i < 17 ==> 0 <= b[i] < 256;
    RegroupBits(b);
  }

  lemma RegroupBits(b: seq<int>)
    requires |b| == 17 && forall i :: 0 <= i < 17 ==> 0 <= b[i] < 256
    ensures b[0] + 0x100 * b[1] + 0x1_0000 * b[2] + 0x100_0000 * (b[3] % 4)
          + M26 * (b[3] / 4 + 0x40 * b[4] + 0x4000 * b[5] + 0x40_0000 * (b[6] % 16))
          + M52 * (b[6] / 16 + 0x10 * b[7] + 0x1000 * b[8] + 0x10_0000 * (b[9] % 64))
          + M78 * (b[9] / 64 + 0x4 * b[10] + 0x400 * b[11] + 0x4_0000 * b[12])
          + M104 * (b[13] + 0x100 * b[14] + 0x1_0000 * b[15] + 0x100_0000 * b[16])
         == Word(b, 0) + 0x1_0000_0000 * Word(b, 4) + 0x1_0000_0000_0000_0000 * Word(b, 8)
          + 0x1_0000_0000_0000_0000_0000_0000 * Word(b, 12)
          + 0x1_0000_0000_0000_0000_0000_0000_0000_0000 * b[16]
  {
  }

  // ----- multiplication

  lemma Row(h: int, a: int, b: int, c: int, d: int, e: int)
    ensures h * (a + M26 * b + M52 * c + M78 * d + M104 * e)
         == h * a + M26 * (h * b) + M52 * (h * c) + M78 * (h * d) + M104 * (h * e)
  {
    MulDistrib(h, a + M26 * b + M52 * c + M78 * d, M104 * e);
    MulDistrib(h, a + M26 * b + M52 * c, M78 * d);
    MulDistrib(h, a + M26 * b, M52 * c);
    MulDistrib(h, a, M26 * b);
  }

  // The coefficients of h[i] in the five columns, and what they leave out of 2^(26 i) * V(r).

  ghost function W(r: seq<int>, i: int): int
    requires |r| == 5
  {
    if i == 1 then 5 * r[4] + M26 * r[0] + M52 * r[1] + M78 * r[2] + M104 * r[3]
    else if i == 2 then 5 * r[3] + M26 * (5 * r[4]) + M52 * r[0] + M78 * r[1] + M104 * r[2]
    else if i == 3 then 5 * r[2] + M26 * (5 * r[3]) + M52 * (5 * r[4]) + M78 * r[0] + M104 * r[1]
    else 5 * r[1] + M26 * (5 * r[2]) + M52 * (5 * r[3]) + M78 * (5 * r[4]) + M104 * r[0]
  }

  ghost function L(r: seq<int>, i: int): int
    requires |r| == 5
  {
    if i == 1 then r[4]
    else if i == 2 then r[3] + M26 * r[4]
    else if i == 3 then r[2] + M26 * r[3] + M52 * r[4]
    else r[1] + M26 * r[2] + M52 * r[3] + M78 * r[4]
  }

  lemma Folding(r: seq<int>)
    requires |r| == 5
    ensures W(r, 1) == M26 * V(r) - Q * L(r, 1) && W(r, 2) == M52 * V(r) - Q * L(r, 2)
    ensures W(r, 3) == M78 * V(r) - Q * L(r, 3) && W(r, 4) == M104 * V(r) - Q * L(r, 4)
  {
  }

  /** Five columns: what carries past limb 4 comes back with weight 5. */
  lemma Columns(h: seq<int>, r: seq<int>, s: seq<int>)
    requires |h| == 5 && Keyed(r, s)
    ensures var d := [h[0] * r[0] + h[1] * s[3] + h[2] * s[2] + h[3] * s[1] + h[4] * s[0],
                      h[0] * r[1] + h[1] * r[0] + h[2] * s[3] + h[3] * s[2] + h[4] * s[1],
                      h[0] * r[2] + h[1] * r[1] + h[2] * r[0] + h[3] * s[3] + h[4] * s[2],
                      h[0] * r[3] + h[1] * r[2] + h[2] * r[1] + h[3] * r[0] + h[4] * s[3],
                      h[0] * r[4] + h[1] * r[3] + h[2] * r[2] + h[3] * r[1] + h[4] * r[0]];
            Cong(V(d), V(h) * V(r), Q)
  {
    hide Cong, V;
    var d := [h[0] * r[0] + h[1] * s[3] + h[2] * s[2] + h[3] * s[1] + h[4] * s[0],
              h[0] * r[1] + h[1] * r[0] + h[2] * s[3] + h[3] * s[2] + h[4] * s[1],
              h[0] * r[2] + h[1] * r[1] + h[2] * r[0] + h[3] * s[3] + h[4] * s[2],
              h[0] * r[3] + h[1] * r[2] + h[2] * r[1] + h[3] * r[0] + h[4] * s[3],
              h[0] * r[4] + h[1] * r[3] + h[2] * r[2] + h[3] * r[1] + h[4] * r[0]];
    ColumnsAreRows(h, r, s, d);
    RowsCong(h, r);
  }

  lemma ColumnsAreRows(h: seq<int>, r: seq<int>, s: seq<int>, d: seq<int>)
    requires |h| == 5 && |d| == 5 && Keyed(r, s)
    requires d[0] == h[0] * r[0] + h[1] * s[3] + h[2] * s[2] + h[3] * s[1] + h[4] * s[0]
    requires d[1] == h[0] * r[1] + h[1] * r[0] + h[2] * s[3] + h[3] * s[2] + h[4] * s[1]
    requires d[2] == h[0] * r[2] + h[1] * r[1] + h[2] * r[0] + h[3] * s[3] + h[4] * s[2]
    requires d[3] == h[0] * r[3] + h[1] * r[2] + h[2] * r[1] + h[3] * r[0] + h[4] * s[3]
    requires d[4] == h[0] * r[4] + h[1] * r[3] + h[2] * r[2] + h[3] * r[1] + h[4] * r[0]
    ensures V(d) == h[0] * V(r) + h[1] * W(r, 1) + h[2] * W(r, 2) + h[3] * W(r, 3) + h[4] * W(r, 4)
  {
    Row(h[0], r[0], r[1], r[2], r[3], r[4]);
    Row(h[1], s[3], r[0], r[1], r[2], r[3]);
    Row(h[2], s[2], s[3], r[0], r[1], r[2]);
    Row(h[3], s[1], s[2], s[3], r[0], r[1]);
    Row(h[4], s[0], s[1], s[2], s[3], r[0]);
    assert s[3] == 5 * r[4] && s[2] == 5 * r[3] && s[1] == 5 * r[2] && s[0] == 5 * r[1];
  }

  lemma RowsCong(h: seq<int>, r: seq<int>)
    requires |h| == 5 && |r| == 5
    ensures Cong(h[0] * V(r) + h[1] * W(r, 1) + h[2] * W(r, 2) + h[3] * W(r, 3) + h[4] * W(r, 4), V(h) * V(r), Q)
  {
    Folding(r);
    hide W, L, Cong;
    var v, k := V(r), h[1] * L(r, 1) + h[2] * L(r, 2) + h[3] * L(r, 3) + h[4] * L(r, 4);
    FoldRow(h[1], W(r, 1), M26, v, L(r, 1));
    FoldRow(h[2], W(r, 2), M52, v, L(r, 2));
    FoldRow(h[3], W(r, 3), M78, v, L(r, 3));
    FoldRow(h[4], W(r, 4), M104, v, L(r, 4));
    Row(v, h[0], h[1], h[2], h[3], h[4]);
    CongFromMultiple(h[0] * v + h[1] * W(r, 1) + h[2] * W(r, 2) + h[3] * W(r, 3) + h[4] * W(r, 4),
                     V(h) * v, -k, Q);
  }

  lemma FoldRow(h: int, w: int, b: int, v: int, l: int)
    requires w == b * v - Q * l
    ensures h * w == b * (h * v) - h * l * Q
  {
    MulDistrib(h, b * v, Q * l);
    MulAssoc(h, b, v);
    MulSwap(h, b, v);
  }

  lemma ColumnBound(h0: int, h1: int, h2: int, h3: int, h4: int, c0: int, c1: int, c2: int, c3: int, c4: int, k: int)
    requires 0 <= h0 < 2 * M26 + 64 && 0 <= h1 < 2 * M26 + 64 && 0 <= h2 < 2 * M26 + 64
    requires 0 <= h3 < 2 * M26 + 64 && 0 <= h4 < 2 * M26 + 64
    requires 0 <= c0 && 0 <= c1 && 0 <= c2 && 0 <= c3 && 0 <= c4 && c0 + c1 + c2 + c3 + c4 <= k
    ensures 0 <= h0 * c0 + h1 * c1 + h2 * c2 + h3 * c3 + h4 * c4 <= (2 * M26 + 64) * k
  {
    var u := 2 * M26 + 64;
    MulMono(h0, u, c0);
    MulMono(h1, u, c1);
    MulMono(h2, u, c2);
    MulMono(h3, u, c3);
    MulMono(h4, u, c4);
    MulMono(0, h0, c0);
    MulMono(0, h1, c1);
    MulMono(0, h2, c2);
    MulMono(0, h3, c3);
    MulMono(0, h4, c4);
  }

  /** The carry chain over the columns; every intermediate fits its C type. */
  method CarryColumns(e0: uint64, e1: uint64, e2: uint64, e3: uint64, e4: uint64) returns (h: seq<uint32>)
    requires e0 <= (2 * M26 + 64) * (21 * M26) && e1 <= (2 * M26 + 64) * (21 * M26)
    requires e2 <= (2 * M26 + 64) * (21 * M26) && e3 <= (2 * M26 + 64) * (21 * M26)
    requires e4 <= (2 * M26 + 64) * (5 * M26)
    ensures Carried(h)
    ensures Cong(V(h), V([e0, e1, e2, e3, e4]), Q)
  {
    var d1, d2, d3, d4 := e1, e2, e3, e4;
    var carry: uint64 := e0 / M26;
    var h0: uint32 := e0 % M26;
    d1 := d1 + carry;
    carry := d1 / M26;
    var h1: uint32 := d1 % M26;
    d2 := d2 + carry;
    carry := d2 / M26;
    var h2: uint32 := d2 % M26;
    d3 := d3 + carry;
    carry := d3 / M26;
    var h3: uint32 := d3 % M26;
    d4 := d4 + carry;
    carry := d4 / M26;
    var h4: uint32 := d4 % M26;
    ghost var top := carry;
    h0 := h0 + carry * 5;
    carry := h0 / M26;
    h0 := h0 % M26;
    h1 := h1 + carry;
    h := [h0, h1, h2, h3, h4];
    CongFromMultiple(V(h), V([e0, e1, e2, e3, e4]), -(top as int), Q);
  }

  method MulMod(h: seq<uint32>, r: seq<uint32>, s: seq<uint32>) returns (o: seq<uint32>)
    requires Loaded(h) && Keyed(r, s)
    ensures Carried(o)
    ensures Cong(V(o), V(h) * V(r), Q)
  {
    hide Cong;
    var x: seq<int>, k: seq<int>, f: seq<int> := h, r, s;
    ColumnBound(x[0], x[1], x[2], x[3], x[4], k[0], f[3], f[2], f[1], f[0], 21 * M26);
    ColumnBound(x[0], x[1], x[2], x[3], x[4], k[1], k[0], f[3], f[2], f[1], 21 * M26);
    ColumnBound(x[0], x[1], x[2], x[3], x[4], k[2], k[1], k[0], f[3], f[2], 21 * M26);
    ColumnBound(x[0], x[1], x[2], x[3], x[4], k[3], k[2], k[1], k[0], f[3], 21 * M26);
    ColumnBound(x[0], x[1], x[2], x[3], x[4], k[4], k[3], k[2], k[1], k[0], 5 * M26);
    var d0: uint64 := x[0] * k[0] + x[1] * f[3] + x[2] * f[2] + x[3] * f[1] + x[4] * f[0];
    var d1: uint64 := x[0] * k[1] + x[1] * k[0] + x[2] * f[3] + x[3] * f[2] + x[4] * f[1];
    var d2: uint64 := x[0] * k[2] + x[1] * k[1] + x[2] * k[0] + x[3] * f[3] + x[4] * f[2];
    var d3: uint64 := x[0] * k[3] + x[1] * k[2] + x[2] * k[1] + x[3] * k[0] + x[4] * f[3];
    var d4: uint64 := x[0] * k[4] + x[1] * k[3] + x[2] * k[2] + x[3] * k[1] + x[4] * k[0];
    Columns(h, r, s);
    o := CarryColumns(d0, d1, d2, d3, d4);
    CongTrans(V(o), V([d0, d1, d2, d3, d4]), V(h) * V(r), Q);
  }

  // ----- the final reduction

  /** One more carry pass leaves true 26-bit limbs: only a full ripple reaches limb 0, and then
      limbs 1 and 2 are nearly empty. */
  method CarryFinal(g: seq<uint32>) returns (h: seq<uint32>)
    requires Carried(g)
    ensures Canonical(h) && Cong(V(h), V(g), Q)
  {
    var h0, h1, h2, h3, h4 := g[0], g[1], g[2], g[3], g[4];
    var c: uint32 := h1 / M26;
    h1 := h1 % M26;
    h2 := h2 + c;
    c := h2 / M26;
    h2 := h2 % M26;
    h3 := h3 + c;
    c := h3 / M26;
    h3 := h3 % M26;
    h4 := h4 + c;
    c := h4 / M26;
    h4 := h4 % M26;
    h0 := h0 + c * 5;
    ghost var top := c;
    assert top == 0 || (top == 1 && h1 < 64 && h2 == 0);
    c := h0 / M26;
    h0 := h0 % M26;
    h1 := h1 + c;
    c := h1 / M26;
    h1 := h1 % M26;
    h2 := h2 + c;
    h := [h0, h1, h2, h3, h4];
    CongFromMultiple(V(h), V(g), -(top as int), Q);
  }

  /** Subtracts p once when it fits, by borrows. */
  method SubtractOnce(h: seq<uint32>) returns (r: seq<uint32>)
    requires Canonical(h)
    ensures Canonical(r) && V(r) == V(h) % Q
  {
    var b0: int64 := h[0] as int - 0x3fffffb;
    var borrow: int64 := if b0 < 0 then 1 else 0;
    if borrow == 1 {
      b0 := b0 + 0x4000000;
    }
    var b1: int64 := h[1] as int - 0x3ffffff - borrow;
    borrow := if b1 < 0 then 1 else 0;
    if borrow == 1 {
      b1 := b1 + 0x4000000;
    }
    var b2: int64 := h[2] as int - 0x3ffffff - borrow;
    borrow := if b2 < 0 then 1 else 0;
    if borrow == 1 {
      b2 := b2 + 0x4000000;
    }
    var b3: int64 := h[3] as int - 0x3ffffff - borrow;
    borrow := if b3 < 0 then 1 else 0;
    if borrow == 1 {
      b3 := b3 + 0x4000000;
    }
    var b4: int64 := h[4] as int - 0x3ffffff - borrow;
    borrow := if b4 < 0 then 1 else 0;
    if borrow == 0 {
      r := [b0, b1, b2, b3, b4];
      DivModUnique(V(h), 1, V(r), Q);
    } else {
      r := h;
      SmallMod(V(h), Q);
    }
  }

  /** Regroups into 32-bit words, drops bits above 128, and adds the pad. */
  method PackAndAdd(r: seq<uint32>, pad: Bytes) returns (tag: Bytes)
    requires Canonical(r) && |pad| == 16
    ensures |tag| == 16
    ensures LE(tag) == (V(r) + LE(pad)) % 0x1_0000_0000_0000_0000_0000_0000_0000_0000
  {
    var x: seq<int>, p: seq<int> := r, pad;
    var w0: uint32 := x[0] + M26 * (x[1] % 0x40);
    var w1: uint32 := x[1] / 0x40 + 0x10_0000 * (x[2] % 0x1000);
    var w2: uint32 := x[2] / 0x1000 + 0x4000 * (x[3] % 0x4_0000);
    var w3: uint32 := x[3] / 0x4_0000 + 0x100 * (x[4] % 0x100_0000);
    FourWords(p);
    assert p[16..] == [];
    assert forall i :: 0 <= i < 16 ==> 0 <= p[i] < 256;
    RegroupWords(x);
    tag := AddWords(w0, w1, w2, w3, Word(p, 0), Word(p, 4), Word(p, 8), Word(p, 12));
    ModShift(V(r) + LE(pad), -(x[4] / 0x100_0000), 0x1_0000_0000_0000_0000_0000_0000_0000_0000);
  }

  lemma RegroupWords(x: seq<int>)
    requires |x| == 5 && 0 <= x[0] < M26
    ensures x[0] + M26 * (x[1] % 0x40) + 0x1_0000_0000 * (x[1] / 0x40 + 0x10_0000 * (x[2] % 0x1000))
          + 0x1_0000_0000_0000_0000 * (x[2] / 0x1000 + 0x4000 * (x[3] % 0x4_0000))
          + 0x1_0000_0000_0000_0000_0000_0000 * (x[3] / 0x4_0000 + 0x100 * (x[4] % 0x100_0000))
         == V(x) - 0x1_0000_0000_0000_0000_0000_0000_0000_0000 * (x[4] / 0x100_0000)
  {
  }

  /** A 128-bit addition in four 32-bit words; the carry out of the last is dropped. */
  method AddWords(w0: uint32, w1: uint32, w2: uint32, w3: uint32, p0: uint32, p1: uint32, p2: uint32, p3: uint32)
    returns (tag: Bytes)
    ensures |tag| == 16
    ensures LE(tag) == ((w0 as int + 0x1_0000_0000 * (w1 as int) + 0x1_0000_0000_0000_0000 * (w2 as int)
                         + 0x1_0000_0000_0000_0000_0000_0000 * (w3 as int))
                      + (p0 as int + 0x1_0000_0000 * (p1 as int) + 0x1_0000_0000_0000_0000 * (p2 as int)
                         + 0x1_0000_0000_0000_0000_0000_0000 * (p3 as int)))
                       % 0x1_0000_0000_0000_0000_0000_0000_0000_0000
  {
    var a0: int, a1: int, a2: int, a3: int := w0, w1, w2, w3;
    var f0: uint64 := a0 + p0;
    var f1: uint64 := a1 + p1 + f0 / 0x1_0000_0000;
    var f2: uint64 := a2 + p2 + f1 / 0x1_0000_0000;
    var f3: uint64 := a3 + p3 + f2 / 0x1_0000_0000;
    var b0, b1, b2, b3 := f0 % 0x1_0000_0000, f1 % 0x1_0000_0000, f2 % 0x1_0000_0000, f3 % 0x1_0000_0000;
    tag := Store32(b0) + Store32(b1) + Store32(b2) + Store32(b3);
    TagWords(tag, b0, b1, b2, b3);
    DivModUnique(a0 + 0x1_0000_0000 * a1 + 0x1_0000_0000_0000_0000 * a2 + 0x1_0000_0000_0000_0000_0000_0000 * a3
                 + (p0 as int + 0x1_0000_0000 * (p1 as int) + 0x1_0000_0000_0000_0000 * (p2 as int)
                    + 0x1_0000_0000_0000_0000_0000_0000 * (p3 as int)),
                 f3 / 0x1_0000_0000, LE(tag), 0x1_0000_0000_0000_0000_0000_0000_0000_0000);
  }

  function Store32(w: uint32): (b: Bytes)
    ensures |b| == 4 && Word(b, 0) == w
  {
    var b1 := w / 0x100;
    var b2 := b1 / 0x100;
    var b3 := b2 / 0x100;
    [w % 0x100, b1 % 0x100, b2 % 0x100, b3 % 0x100]
  }

  lemma TagWords(tag: seq<int>, w0: uint32, w1: uint32, w2: uint32, w3: uint32)
    requires tag == Store32(w0) + Store32(w1) + Store32(w2) + Store32(w3)
    ensures LE(tag) == w0 as int + 0x1_0000_0000 * (w1 as int) + 0x1_0000_0000_0000_0000 * (w2 as int)
                     + 0x1_0000_0000_0000_0000_0000_0000 * (w3 as int)
  {
    FourWords(tag);
    assert tag[16..] == [];
  }
}
