/** HKDF-Expand (section 2.3 of RFC 5869) and HKDF-Expand-Label over any 32-byte MAC:
    src/crypto/hkdf.c. */
module Hkdf {
  import opened Machine
  import opened Wire

  const HASH_LEN: nat := 32
  const INFO_MAX: nat := 200
  const LABEL_MAX: nat := 64
  const CONTEXT_MAX: nat := 64

  type Mac = f: (Bytes, Bytes) -> Bytes | forall k, m :: |f(k, m)| == 32
    witness (k, m) => seq(32, _ => 0)

  /** T(n) of RFC 5869: T(0) is empty and T(n) = HMAC(prk, T(n-1) | info | n). */
  function T(mac: Mac, prk: Bytes, info: Bytes, n: nat): (t: Bytes)
    requires n <= 255
    ensures |t| == if n == 0 then 0 else HASH_LEN
  {
    if n == 0 then [] else mac(prk, T(mac, prk, info, n - 1) + info + [n])
  }

  /** T(1) | ... | T(n). */
  function Stream(mac: Mac, prk: Bytes, info: Bytes, n: nat): (s: Bytes)
    requires n <= 255
    ensures |s| == HASH_LEN * n
  {
    if n == 0 then [] else Stream(mac, prk, info, n - 1) + T(mac, prk, info, n)
  }

  function Blocks(len: nat): nat {
    (len + HASH_LEN - 1) / HASH_LEN
  }

  /** The first len octets of the stream. */
  function Okm(mac: Mac, prk: Bytes, info: Bytes, len: nat): (okm: Bytes)
    requires len <= 255 * HASH_LEN
    ensures |okm| == len
  {
    Stream(mac, prk, info, Blocks(len))[..len]
  }

  function Expand(mac: Mac, prk: Bytes, info: Bytes, len: nat): Result<Bytes> {
    if len > 255 * HASH_LEN then Err(BadArg)
    else if |info| > INFO_MAX then Err(BadArg)
    else Ok(Okm(mac, prk, info, len))
  }

  lemma {:induction false} StreamPrefix(mac: Mac, prk: Bytes, info: Bytes, m: nat, n: nat)
    requires m <= n <= 255
    ensures Stream(mac, prk, info, n)[..HASH_LEN * m] == Stream(mac, prk, info, m)
    decreases n
  {
    if m < n {
      StreamPrefix(mac, prk, info, m, n - 1);
      var s := Stream(mac, prk, info, n - 1);
      assert (s + T(mac, prk, info, n))[..HASH_LEN * m] == s[..HASH_LEN * m];
    }
  }

  /** For fixed info a shorter output is a prefix of a longer one. */
  lemma OkmPrefix(mac: Mac, prk: Bytes, info: Bytes, m: nat, n: nat)
    requires m <= n <= 255 * HASH_LEN
    ensures Okm(mac, prk, info, n)[..m] == Okm(mac, prk, info, m)
  {
    hide Stream;
    StreamPrefix(mac, prk, info, Blocks(m), Blocks(n));
    var s, short := Stream(mac, prk, info, Blocks(n)), Stream(mac, prk, info, Blocks(m));
    assert s[..n][..m] == s[..m];
    assert s[..HASH_LEN * Blocks(m)][..m] == s[..m];
  }

  lemma {:induction false} StreamBlock(mac: Mac, prk: Bytes, info: Bytes, n: nat, i: nat)
    requires 0 < i <= n <= 255
    ensures Stream(mac, prk, info, n)[32 * (i - 1)..32 * i] == T(mac, prk, info, i)
    decreases n
  {
    hide T;
    var s := Stream(mac, prk, info, n - 1);
    if i == n {
      assert (s + T(mac, prk, info, n))[32 * (n - 1)..32 * n] == T(mac, prk, info, n);
    } else {
      StreamBlock(mac, prk, info, n - 1, i);
      assert (s + T(mac, prk, info, n))[32 * (i - 1)..32 * i] == s[32 * (i - 1)..32 * i];
    }
  }

  /** Section 2.3 of RFC 5869 on the output alone: each full block is the MAC of the block before it
      (nothing before the first), the info and the block's number in one byte. */
  lemma OkmChains(mac: Mac, prk: Bytes, info: Bytes, len: nat, i: nat)
    requires len <= 255 * 32 && 0 < i && 32 * i <= len
    ensures var okm := Okm(mac, prk, info, len);
            var before := if i == 1 then [] else okm[32 * (i - 2)..32 * (i - 1)];
            okm[32 * (i - 1)..32 * i] == mac(prk, before + info + [i])
  {
    hide T, Stream;
    var n := Blocks(len);
    var s, okm := Stream(mac, prk, info, n), Okm(mac, prk, info, len);
    StreamBlock(mac, prk, info, n, i);
    assert okm[32 * (i - 1)..32 * i] == s[32 * (i - 1)..32 * i];
    Next(mac, prk, info, i);
    if i == 1 {
      Start(mac, prk, info);
    } else {
      StreamBlock(mac, prk, info, n, i - 1);
      assert okm[32 * (i - 2)..32 * (i - 1)] == s[32 * (i - 2)..32 * (i - 1)];
    }
  }

  /** The one-byte counter wraps only after its last use. */
  method ExpandInto(mac: Mac, prk: Bytes, info: Bytes, len: nat) returns (r: Result<Bytes>)
    ensures r == Expand(mac, prk, info, len)
  {
    hide T, Stream;
    if len > 255 * HASH_LEN {
      return Err(BadArg);
    }
    if |info| > INFO_MAX {
      return Err(BadArg);
    }
    var out: Bytes := [];
    var t: Bytes := [];
    var counter: uint8 := 1;
    ghost var n := 0;
    Start(mac, prk, info);
    while |out| < len
      invariant n <= 255 && counter == (n + 1) % 256
      invariant t == T(mac, prk, info, n)
      invariant |out| == if HASH_LEN * n <= len then HASH_LEN * n else len
      invariant (n == 0 || HASH_LEN * (n - 1) < len) && out == Stream(mac, prk, info, n)[..|out|]
      decreases len - |out|
    {
      var combine := t + info + [counter];
      t := mac(prk, combine);
      Next(mac, prk, info, n + 1);
      ghost var s := Stream(mac, prk, info, n);
      assert s[..|out|] == s;
      var take := len - |out|;
      if take > HASH_LEN {
        take := HASH_LEN;
      }
      assert (s + t)[..|out| + take] == s + t[..take];
      out := out + t[..take];
      counter := (counter as int + 1) % 256;
      n := n + 1;
    }
    Ceiling(len, n);
    return Ok(out);
  }

  lemma Start(mac: Mac, prk: Bytes, info: Bytes)
    ensures T(mac, prk, info, 0) == [] && Stream(mac, prk, info, 0) == []
  {
  }

  lemma Next(mac: Mac, prk: Bytes, info: Bytes, n: nat)
    requires 0 < n <= 255
    ensures T(mac, prk, info, n) == mac(prk, T(mac, prk, info, n - 1) + info + [n])
    ensures Stream(mac, prk, info, n) == Stream(mac, prk, info, n - 1) + T(mac, prk, info, n)
  {
  }

  lemma Ceiling(len: nat, n: nat)
    requires HASH_LEN * n >= len && (n == 0 || HASH_LEN * (n - 1) < len)
    ensures n == Blocks(len)
  {
  }

  // ----- the label

  /** length, label and context, each preceded by its size. */
  function Label(len: nat, name: Bytes, context: Bytes): Bytes
    requires |name| <= 255 && |context| <= 255
  {
    Put16(len) + [|name|] + name + [|context|] + context
  }

  function ExpandLabel(mac: Mac, secret: Bytes, prefix: Bytes, name: Bytes, context: Bytes, len: nat): Result<Bytes> {
    if |prefix| + |name| > LABEL_MAX || |context| > CONTEXT_MAX then Err(BadArg)
    else if len > 0xFFFF then Err(BadArg)
    else Expand(mac, secret, Label(len, prefix + name, context), len)
  }

  /** The encoded label always fits the info bound, so only an over-long output is refused. */
  lemma LabelFits(mac: Mac, secret: Bytes, prefix: Bytes, name: Bytes, context: Bytes, len: nat)
    requires |prefix| + |name| <= LABEL_MAX && |context| <= CONTEXT_MAX
    ensures |Label(len, prefix + name, context)| <= 132 <= INFO_MAX
    ensures ExpandLabel(mac, secret, prefix, name, context, len).Ok? <==> len <= 255 * HASH_LEN
  {
  }

  /** Different (length, label, context) triples give different info strings. */
  lemma LabelInjective(len: nat, name: Bytes, context: Bytes, len': nat, name': Bytes, context': Bytes)
    requires len <= 0xFFFF && len' <= 0xFFFF && |name| <= 255 && |name'| <= 255
    requires |context| <= 255 && |context'| <= 255
    requires Label(len, name, context) == Label(len', name', context')
    ensures len == len' && name == name' && context == context'
  {
    var a := Label(len, name, context);
    LabelParts(len, name, context);
    LabelParts(len', name', context');
    assert Get16(a[..2], 0) == len == len';
  }

  lemma LabelParts(len: nat, name: Bytes, context: Bytes)
    requires |name| <= 255 && |context| <= 255
    ensures var a, n := Label(len, name, context), |name|;
            && |a| == n + |context| + 4 && a[..2] == Put16(len) && a[2] == n
            && a[3..3 + n] == name && a[4 + n..] == context
  {
    hide Put16;
  }
}
