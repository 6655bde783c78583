/** Big-endian fields of 16, 24 and 48 bits. */
module Wire {
  import opened Machine
  import opened Arithmetic

  function Get16(b: Bytes, i: nat): uint16
    requires i + 2 <= |b|
  {
    256 * (b[i] as int) + b[i + 1]
  }

  function Get24(b: Bytes, i: nat): (v: int)
    requires i + 3 <= |b|
    ensures 0 <= v < 0x100_0000
  {
    0x1_0000 * (b[i] as int) + Get16(b, i + 1)
  }

  function Get48(b: Bytes, i: nat): (v: int)
    requires i + 6 <= |b|
    ensures 0 <= v < 0x1_0000_0000_0000
  {
    0x100_0000 * Get24(b, i) + Get24(b, i + 3)
  }

  /** The low 16 bits, as the casts to uint8_t keep them. */
  function Put16(v: nat): (b: Bytes)
    ensures |b| == 2 && Get16(b, 0) == v % 0x1_0000
  {
    [v / 256 % 256, v % 256]
  }

  function Put24(v: nat): (b: Bytes)
    ensures |b| == 3 && Get24(b, 0) == v % 0x100_0000
  {
    var high := v / 256;
    DivModUnique(v, high / 256 / 256, high / 256 % 256 * 0x1_0000 + high % 256 * 256 + v % 256, 0x100_0000);
    [high / 256 % 256, high % 256, v % 256]
  }

  function Put48(v: nat): (b: Bytes)
    ensures |b| == 6 && Get48(b, 0) == v % 0x1_0000_0000_0000
  {
    Halves(Put24(v / 0x100_0000), Put24(v), v);
    Put24(v / 0x100_0000) + Put24(v)
  }

  lemma Halves(h: Bytes, l: Bytes, v: nat)
    requires |h| == |l| == 3 && Get24(h, 0) == v / 0x100_0000 % 0x100_0000 && Get24(l, 0) == v % 0x100_0000
    ensures Get48(h + l, 0) == v % 0x1_0000_0000_0000
  {
    var b := h + l;
    assert b[0] == h[0] && b[1] == h[1] && b[2] == h[2] && b[3] == l[0] && b[4] == l[1] && b[5] == l[2];
    assert Get24(b, 0) == Get24(h, 0) && Get24(b, 3) == Get24(l, 0);
    var q := v / 0x100_0000;
    DivModUnique(v, q / 0x100_0000, q % 0x100_0000 * 0x100_0000 + v % 0x100_0000, 0x1_0000_0000_0000);
  }

  /** A field keeps its value wherever the string around it puts it. */
  lemma FieldAt(pre: Bytes, f: Bytes, post: Bytes)
    ensures |f| == 2 ==> Get16(pre + f + post, |pre|) == Get16(f, 0)
    ensures |f| == 3 ==> Get24(pre + f + post, |pre|) == Get24(f, 0)
    ensures |f| == 6 ==> Get48(pre + f + post, |pre|) == Get48(f, 0)
  {
    var s := pre + f + post;
    assert forall k :: 0 <= k < |f| ==> s[|pre| + k] == f[k];
  }
}
