/** ChaCha20 encryption (section 2.4 of RFC 8439): the block loop of src/crypto/chacha20.c over
    any block function. */
module ChaCha20 {
  import opened Machine
  import opened ByteOps

  /** (key, nonce, counter) to 64 bytes of key stream. */
  type BlockFunction = f: (Bytes, Bytes, uint32) -> Bytes | forall k, n, c :: |f(k, n, c)| == 64
    witness (k, n, c) => Zeros(64)

  /** Byte i of the key stream; the 32-bit block counter wraps. */
  function KeyStream(block: BlockFunction, key: Bytes, nonce: Bytes, counter: uint32, i: nat): uint8 {
    block(key, nonce, (counter + i / 64) % 0x1_0000_0000)[i % 64]
  }

  /** The whole text masked with the key stream. */
  function Cipher(block: BlockFunction, key: Bytes, nonce: Bytes, counter: uint32, text: Bytes): (out: Bytes)
    ensures |out| == |text|
  {
    seq(|text|, i requires 0 <= i < |text| => Xor(text[i], KeyStream(block, key, nonce, counter, i)))
  }

  /** Encryption and decryption are the same operation. */
  lemma CipherTwice(block: BlockFunction, key: Bytes, nonce: Bytes, counter: uint32, text: Bytes)
    ensures Cipher(block, key, nonce, counter, Cipher(block, key, nonce, counter, text)) == text
  {
    hide Xor, KeyStream;
    var once := Cipher(block, key, nonce, counter, text);
    var twice := Cipher(block, key, nonce, counter, once);
    forall i | 0 <= i < |text|
      ensures twice[i] == text[i]
    {
      XorCancels(text[i], KeyStream(block, key, nonce, counter, i));
    }
  }

  method XorStream(block: BlockFunction, key: Bytes, nonce: Bytes, initialCounter: uint32, input: Bytes)
    returns (output: Bytes)
    ensures output == Cipher(block, key, nonce, initialCounter, input)
  {
    hide Xor;
    var out := new uint8[|input|];
    var counter := initialCounter;
    var off := 0;
    while off < |input|
      invariant 0 <= off <= |input| && (off % 64 == 0 || off == |input|)
      invariant off % 64 == 0 ==> counter == (initialCounter + off / 64) % 0x1_0000_0000
      invariant forall i :: 0 <= i < off ==> out[i] == Xor(input[i], KeyStream(block, key, nonce, initialCounter, i))
    {
      var stream := block(key, nonce, counter);
      var take := |input| - off;
      if take > 64 {
        take := 64;
      }
      for i := 0 to take
        invariant forall k :: 0 <= k < off + i ==>
          out[k] == Xor(input[k], KeyStream(block, key, nonce, initialCounter, k))
      {
        BlockIndex(off, i);
        out[off + i] := Xor(input[off + i], stream[i]);
      }
      NextCounter(initialCounter, off, counter);
      off := off + take;
      counter := (counter as int + 1) % 0x1_0000_0000;
    }
    output := out[..];
  }

  lemma BlockIndex(off: nat, i: nat)
    requires off % 64 == 0 && i < 64
    ensures (off + i) / 64 == off / 64 && (off + i) % 64 == i
  {
  }

  lemma NextCounter(c0: int, off: nat, c: int)
    requires off % 64 == 0 && c == (c0 + off / 64) % 0x1_0000_0000
    ensures (c + 1) % 0x1_0000_0000 == (c0 + (off + 64) / 64) % 0x1_0000_0000
  {
  }
}
