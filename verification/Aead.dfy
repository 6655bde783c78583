/** AEAD_CHACHA20_POLY1305 (section 2.8 of RFC 8439): src/crypto/aead_chacha20poly1305.c. */
module Aead {
  import opened Machine
  import opened Arithmetic
  import opened Limbs
  import opened ByteOps
  import opened ChaCha20
  import Poly1305

  // ----- what the tag covers

  function PadLen(n: nat): nat {
    (16 - n % 16) % 16
  }

  /** aad, zeros to a multiple of 16, ciphertext, zeros, and both lengths in 8 bytes. */
  function MacInput(aad: Bytes, ct: Bytes): Bytes {
    aad + Zeros(PadLen(|aad|)) + ct + Zeros(PadLen(|ct|)) + LittleBytes(|aad|, 8) + LittleBytes(|ct|, 8)
  }

  lemma EightBytes(x: int, y: int)
    requires 0 <= x < 0x1_0000_0000_0000_0000 && 0 <= y < 0x1_0000_0000_0000_0000
    requires LittleBytes(x, 8) == LittleBytes(y, 8)
    ensures x == y
  {
    assert Pow(256, 4) == 0x1_0000_0000;
    PowAdd(256, 4, 4);
    LittleBytesValue(x, 8);
    LittleBytesValue(y, 8);
  }

  /** Distinct (aad, ciphertext) pairs are authenticated as distinct byte strings. */
  lemma MacInputInjective(aad: Bytes, ct: Bytes, aad': Bytes, ct': Bytes)
    requires |aad| < 0x1_0000_0000_0000_0000 && |ct| < 0x1_0000_0000_0000_0000
    requires |aad'| < 0x1_0000_0000_0000_0000 && |ct'| < 0x1_0000_0000_0000_0000
    requires MacInput(aad, ct) == MacInput(aad', ct')
    ensures aad == aad' && ct == ct'
  {
    hide LittleBytes;
    var m := MacInput(aad, ct);
    LastSixteen(aad, ct);
    LastSixteen(aad', ct');
    EightBytes(|aad|, |aad'|);
    EightBytes(|ct|, |ct'|);
    Parts(aad, ct);
    Parts(aad', ct');
  }

  lemma LastSixteen(aad: Bytes, ct: Bytes)
    ensures var m := MacInput(aad, ct);
            && |m| >= 16
            && m[|m| - 16..|m| - 8] == LittleBytes(|aad|, 8) && m[|m| - 8..] == LittleBytes(|ct|, 8)
  {
    hide LittleBytes;
    var front := aad + Zeros(PadLen(|aad|)) + ct + Zeros(PadLen(|ct|));
    var x, y := LittleBytes(|aad|, 8), LittleBytes(|ct|, 8);
    assert (front + x + y)[|front|..|front| + 8] == x;
    assert (front + x + y)[|front| + 8..] == y;
  }

  lemma Parts(aad: Bytes, ct: Bytes)
    ensures var m, n := MacInput(aad, ct), |aad| + PadLen(|aad|);
            n + |ct| <= |m| && m[..|aad|] == aad && m[n..n + |ct|] == ct
  {
    hide LittleBytes;
    var m, n := MacInput(aad, ct), |aad| + PadLen(|aad|);
    var front := aad + Zeros(PadLen(|aad|));
    var back := Zeros(PadLen(|ct|)) + LittleBytes(|aad|, 8) + LittleBytes(|ct|, 8);
    assert m == front + ct + back;
    assert front[..|aad|] == aad;
  }

  // ----- the construction

  function OneTimeKey(block: BlockFunction, key: Bytes, nonce: Bytes): (otk: Bytes)
    ensures |otk| == 32
  {
    block(key, nonce, 0)[..32]
  }

  function SealTag(block: BlockFunction, key: Bytes, nonce: Bytes, aad: Bytes, ct: Bytes): (tag: Bytes)
    ensures |tag| == 16
  {
    LittleBytes(Poly1305.Tag(OneTimeKey(block, key, nonce), MacInput(aad, ct)), 16)
  }

  datatype Sealed = Sealed(ct: Bytes, tag: Bytes)

  function Seal(block: BlockFunction, key: Bytes, nonce: Bytes, aad: Bytes, text: Bytes): (s: Sealed)
    ensures |s.ct| == |text| && |s.tag| == 16
  {
    var ct := Cipher(block, key, nonce, 1, text);
    Sealed(ct, SealTag(block, key, nonce, aad, ct))
  }

  function Open(block: BlockFunction, key: Bytes, nonce: Bytes, aad: Bytes, ct: Bytes, tag: Bytes): (r: Result<Bytes>)
    ensures r.Ok? ==> |r.value| == |ct|
  {
    if tag == SealTag(block, key, nonce, aad, ct) then Ok(Cipher(block, key, nonce, 1, ct)) else Err(AuthFailed)
  }

  /** Decryption undoes encryption for every key, nonce, AAD and text. */
  lemma OpenSeal(block: BlockFunction, key: Bytes, nonce: Bytes, aad: Bytes, text: Bytes)
    ensures var s := Seal(block, key, nonce, aad, text);
            Open(block, key, nonce, aad, s.ct, s.tag) == Ok(text)
  {
    hide Cipher, SealTag;
    CipherTwice(block, key, nonce, 1, text);
  }

  /** Whatever opens is exactly what sealing its text produces. */
  lemma SealOpen(block: BlockFunction, key: Bytes, nonce: Bytes, aad: Bytes, ct: Bytes, tag: Bytes)
    requires Open(block, key, nonce, aad, ct, tag).Ok?
    ensures Seal(block, key, nonce, aad, Open(block, key, nonce, aad, ct, tag).value) == Sealed(ct, tag)
  {
    hide Cipher, SealTag;
    CipherTwice(block, key, nonce, 1, ct);
  }

  // ----- what each block of the key stream is used for

  /** Ciphertext byte i is masked with block 1 + i / 64, until the 32-bit counter comes back to 0
      after 2^32 - 1 blocks. */
  lemma CiphertextByte(block: BlockFunction, key: Bytes, nonce: Bytes, aad: Bytes, text: Bytes, i: nat)
    requires i < |text|
    ensures var ct := Seal(block, key, nonce, aad, text).ct;
            if i < 64 * 0xFFFF_FFFF then ct[i] == Xor(text[i], block(key, nonce, 1 + i / 64)[i % 64])
            else i < 64 * 0x1_0000_0000 ==> ct[i] == Xor(text[i], block(key, nonce, 0)[i % 64])
  {
    hide Xor, SealTag;
    if i < 64 * 0xFFFF_FFFF {
      SmallMod(1 + i / 64, 0x1_0000_0000);
    } else if i < 64 * 0x1_0000_0000 {
      assert 1 + i / 64 == 0x1_0000_0000;
    }
  }

  /** The block of the one-time key is never used to encrypt: changing it changes no ciphertext. */
  lemma CiphertextIgnoresKeyBlock(block: BlockFunction, block': BlockFunction, key: Bytes, nonce: Bytes, aad: Bytes,
                                  text: Bytes)
    requires |text| <= 64 * 0xFFFF_FFFF
    requires forall c: uint32 :: c != 0 ==> block(key, nonce, c) == block'(key, nonce, c)
    ensures Seal(block, key, nonce, aad, text).ct == Seal(block', key, nonce, aad, text).ct
  {
    hide Seal, Xor;
    var ct, ct' := Seal(block, key, nonce, aad, text).ct, Seal(block', key, nonce, aad, text).ct;
    forall i | 0 <= i < |text|
      ensures ct[i] == ct'[i]
    {
      CiphertextByte(block, key, nonce, aad, text, i);
      CiphertextByte(block', key, nonce, aad, text, i);
    }
  }

  /** And no other block has a part in the one-time key: the tag of a given ciphertext depends on
      the key stream through the first half of block 0 only. */
  lemma TagIgnoresTextBlocks(block: BlockFunction, block': BlockFunction, key: Bytes, nonce: Bytes, aad: Bytes,
                             ct: Bytes)
    requires block(key, nonce, 0)[..32] == block'(key, nonce, 0)[..32]
    ensures SealTag(block, key, nonce, aad, ct) == SealTag(block', key, nonce, aad, ct)
    ensures LE(SealTag(block, key, nonce, aad, ct))
         == Poly1305.Tag(block(key, nonce, 0)[..32], MacInput(aad, ct))
  {
    hide Poly1305.Tag, MacInput, LittleBytes, LE;
    var otk := block(key, nonce, 0)[..32];
    TagRange(otk, MacInput(aad, ct));
    Poly1305.Pow256Half();
    LittleBytesValue(Poly1305.Tag(otk, MacInput(aad, ct)), 16);
  }

  lemma TagRange(otk: Bytes, msg: Bytes)
    requires |otk| == 32
    ensures 0 <= Poly1305.Tag(otk, msg) < 0x1_0000_0000_0000_0000_0000_0000_0000_0000
  {
    hide Poly1305.Polynomial, Poly1305.KeyR, LE;
  }

  /** What opens is exactly what carries the tag of its AAD and ciphertext. */
  lemma OpensIff(block: BlockFunction, key: Bytes, nonce: Bytes, aad: Bytes, ct: Bytes, tag: Bytes)
    requires |tag| == 16
    ensures Open(block, key, nonce, aad, ct, tag).Ok?
       <==> LE(tag) == Poly1305.Tag(block(key, nonce, 0)[..32], MacInput(aad, ct))
  {
    hide Poly1305.Tag, MacInput, LittleBytes, LE, Cipher, SealTag;
    var own := SealTag(block, key, nonce, aad, ct);
    TagIgnoresTextBlocks(block, block, key, nonce, aad, ct);
    LittleBytesUnique(tag);
    LittleBytesUnique(own);
  }

  // ----- the code

  method MacAadAndCiphertext(mac: Poly1305.Context, aad: Bytes, ct: Bytes)
    requires mac.Valid()
    modifies mac`h, mac`bufLen, mac`msg, mac.buf
    ensures mac.Valid() && mac.msg == old(mac.msg) + MacInput(aad, ct)
  {
    hide Poly1305.Keys, Poly1305.Represents, LittleBytes;
    ghost var start := mac.msg;
    mac.Update(aad);
    if PadLen(|aad|) > 0 {
      mac.Update(Zeros(PadLen(|aad|)));
    }
    assert mac.msg == start + aad + Zeros(PadLen(|aad|));
    mac.Update(ct);
    if PadLen(|ct|) > 0 {
      mac.Update(Zeros(PadLen(|ct|)));
    }
    assert mac.msg == start + aad + Zeros(PadLen(|aad|)) + ct + Zeros(PadLen(|ct|));
    var lens := LittleBytes(|aad|, 8) + LittleBytes(|ct|, 8);
    mac.Update(lens);
    assert mac.msg == start + MacInput(aad, ct);
  }

  method ComputeTag(block: BlockFunction, key: Bytes, nonce: Bytes, aad: Bytes, ct: Bytes) returns (tag: Bytes)
    ensures tag == SealTag(block, key, nonce, aad, ct)
  {
    hide Poly1305.Keys, Poly1305.Represents, Poly1305.Tag, LittleBytes, MacInput, LE;
    var otk := block(key, nonce, 0)[..32];
    var mac := new Poly1305.Context(otk);
    MacAadAndCiphertext(mac, aad, ct);
    assert mac.msg == MacInput(aad, ct);
    tag := mac.Final();
    LittleBytesUnique(tag);
  }

  method Encrypt(block: BlockFunction, key: Bytes, nonce: Bytes, aad: Bytes, text: Bytes)
    returns (ct: Bytes, tag: Bytes)
    ensures Sealed(ct, tag) == Seal(block, key, nonce, aad, text)
  {
    ct := XorStream(block, key, nonce, 1, text);
    tag := ComputeTag(block, key, nonce, aad, ct);
  }

  /** The comparison accumulates differences over all sixteen bytes. */
  method Decrypt(block: BlockFunction, key: Bytes, nonce: Bytes, aad: Bytes, ct: Bytes, tag: Bytes)
    returns (r: Result<Bytes>)
    requires |tag| == 16
    ensures r == Open(block, key, nonce, aad, ct, tag)
  {
    hide SealTag, Cipher, Xor, Or;
    var computed := ComputeTag(block, key, nonce, aad, ct);
    var diff: uint8 := 0;
    for i := 0 to 16
      invariant diff == 0 <==> computed[..i] == tag[..i]
    {
      OrXorZero(diff, computed[i], tag[i]);
      diff := Or(diff, Xor(computed[i], tag[i]));
      assert computed[..i + 1] == computed[..i] + [computed[i]] && tag[..i + 1] == tag[..i] + [tag[i]];
    }
    assert computed[..16] == computed && tag[..16] == tag;
    if diff != 0 {
      return Err(AuthFailed);
    }
    var text := XorStream(block, key, nonce, 1, ct);
    return Ok(text);
  }
}
