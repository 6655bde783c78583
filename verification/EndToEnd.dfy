/** The handshake with its own cryptography: X25519 for the exchange, ECDSA for the signature. */
module EndToEnd {
  import opened Machine
  import opened Limbs
  import opened Handshake
  import opened HandshakeWire
  import opened HandshakeRun
  import opened HandshakeComplete
  import opened KeyAgreement
  import opened X25519Law
  import opened Montgomery
  import opened P256
  import opened Ecdsa
  import opened EcdsaLaw
  import Asn1
  import Fe25519
  import ModExp
  import C = Curve

  /** The client's check is ECDSA verification on this curve. */
  ghost predicate ChecksEcdsa(s: Suite, d: Group) {
    forall leaf: Leaf, hash: Bytes, g: Asn1.Signature ::
      s.verify(leaf, hash, g).Ok? <==> Accepts(d, BE(leaf.qx), BE(leaf.qy), BE(hash), BE(g.r), BE(g.s))
  }

  /** g is the signature of this hash under the private key x with some nonce. */
  ghost predicate IsSignature(d: Group, x: nat, hash: Bytes, g: Asn1.Signature, k: nat)
    requires Standard(d)
  {
    0 < k < d.N() && Signed(d, x, BE(hash), k) == Signature(BE(g.r), BE(g.s)) && BE(g.r) != 0 && BE(g.s) != 0
  }

  ghost function Signed(d: Group, x: nat, e: int, k: nat): Signature
    requires Standard(d) && 0 < k < d.N()
  {
    NonceFinite(d, k);
    Sign(d, x, e, k)
  }

  /** The server's signer either fails or signs with the private key x. */
  ghost predicate SignsEcdsa(v: ServerConfig, d: Group, x: nat)
    requires Standard(d)
  {
    forall hash: Bytes :: v.sign(hash).Ok? ==> exists k: nat :: IsSignature(d, x, hash, v.sign(hash).value, k)
  }

  /** Whatever the server signs, a client that has its public key accepts. */
  lemma SignatureAccepted(s: Suite, v: ServerConfig, d: Group, x: nat, leaf: Leaf, hash: Bytes)
    requires Standard(d) && ChecksEcdsa(s, d) && SignsEcdsa(v, d, x)
    requires KeyPair(d, x, BE(leaf.qx), BE(leaf.qy)) && v.sign(hash).Ok?
    ensures s.verify(leaf, hash, v.sign(hash).value) == Ok(())
  {
    hide Standard, KeyPair, Accepts, BE, Sign;
    var g := v.sign(hash).value;
    var k: nat :| IsSignature(d, x, hash, g, k);
    SignedVerifies(d, x, BE(leaf.qx), BE(leaf.qy), BE(hash), k);
    assert Sign(d, x, BE(hash), k) == Signature(BE(g.r), BE(g.s));
    assert Accepts(d, BE(leaf.qx), BE(leaf.qy), BE(hash), BE(g.r), BE(g.s));
    assert s.verify(leaf, hash, g).Ok?;
    assert s.verify(leaf, hash, g).value == ();
  }

  /** For every pair of hellos and private keys: if the shared secret is not all zero, the server has
      a presentable chain and the client accepts it as belonging to the server's signing key, then
      an undisturbed handshake ends with both sides done. That the two exchanges agree and that the
      signature verifies are not assumed. */
  lemma HandshakeCompletes(s: Suite, c: ClientConfig, v: ServerConfig, b: int, pt: int -> Affine, d: Group, x: nat)
    returns (steps: seq<Step>)
    requires OverX25519(s) && PointOver(b, pt, 9, Fe25519.P) && ModExp.Fermat(Fe25519.P)
    requires Standard(d) && ChecksEcdsa(s, d) && SignsEcdsa(v, d, x)
    requires !AllZero(Secret(s, c, v)) && Presentable(s, v, HelloTranscript(s, c, v))
    requires s.chain(v.certs).Ok? && KeyPair(d, x, BE(s.chain(v.certs).value.qx), BE(s.chain(v.certs).value.qy))
    ensures Run(s, c, v, steps).Some?
    ensures var a := Run(s, c, v, steps).value; a.client.ClientDone? && a.server.ServerDone?
  {
    hide OverX25519, PointOver, ModExp.Fermat, Standard, ChecksEcdsa, SignsEcdsa, KeyPair, BE, Run, AllZero, SignedHash,
         ToBeSigned, Secret, HelloTranscript;
    SecretsAgree(s, c, v, b, pt);
    var hash := SignedHash(s, ToBeSigned(HelloTranscript(s, c, v), v.certs));
    SignatureAccepted(s, v, d, x, s.chain(v.certs).value, hash);
    steps := Completes(s, c, v);
  }
}
