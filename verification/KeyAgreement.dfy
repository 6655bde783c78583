/** The handshake over X25519: the two ends share one secret. */
module KeyAgreement {
  import opened Machine
  import opened Arithmetic
  import opened Limbs
  import opened ByteOps
  import opened Fe25519
  import opened X25519
  import opened X25519Law
  import opened Montgomery
  import opened Hello
  import opened Handshake
  import opened HandshakeWire
  import ModExp

  /** The bytes that ScalarMult returns. */
  ghost function Exchanged(scalar: Bytes, point: Bytes): (b: Bytes)
    ensures |b| == 32
  {
    LittleBytes(Product(DecodeScalar(LE(scalar)), DecodeU(LE(point)), P), 32)
  }

  method Exchange(scalar: Bytes, point: Bytes) returns (b: Bytes)
    requires |scalar| == 32 && |point| == 32
    ensures b == Exchanged(scalar, point)
  {
    hide Product, LE, LittleBytes;
    b := ScalarMult(scalar, point);
    LittleBytesUnique(b);
  }

  /** The coordinate 9 of the base point. */
  function BasePoint(): (b: Bytes)
    ensures |b| == 32
  {
    [9] + Zeros(31)
  }

  lemma BaseIsNine()
    ensures LE(BasePoint()) == 9 && DecodeU(9) == 9
  {
    var b := BasePoint();
    assert b[1..] == Zeros(31);
    ValueZero(b[1..], 256);
    SmallMod(9, R / 2);
    SmallMod(9, P);
  }

  /** The suite's key exchange is X25519. */
  ghost predicate OverX25519(s: Suite) {
    && (forall k: Bytes32 :: s.base(k) == Exchanged(k, BasePoint()))
    && (forall k: Bytes32, point: Bytes32 :: s.dh(k, point) == Exchanged(k, point))
  }

  /** What one end sends is read by the other as the number it is. */
  lemma ReadBack(scalar: Bytes, point: Bytes)
    ensures DecodeU(LE(Exchanged(scalar, point))) == Product(DecodeScalar(LE(scalar)), DecodeU(LE(point)), P)
  {
    hide Pow, LE, Climb, DecodeScalar, LittleBytes;
    var n := Product(DecodeScalar(LE(scalar)), DecodeU(LE(point)), P);
    Pow256Top();
    Pow256Whole();
    LittleBytesValue(n, 32);
    SmallMod(n, R / 2);
    SmallMod(n, P);
  }

  lemma Pow256Whole()
    ensures Pow(256, 32) == Pow(256, 31) * 256
  {
  }

  /** With X25519 for the exchange both ends of a run compute the same secret, whatever their private
      keys, given that the base point's multiples form a group. */
  lemma SecretsAgree(s: Suite, c: ClientConfig, v: ServerConfig, b: int, pt: int -> Affine)
    requires OverX25519(s) && PointOver(b, pt, 9, P) && ModExp.Fermat(P)
    ensures Commutes(s, c, v)
  {
    hide Product, LE, LittleBytes, DecodeScalar, DecodeU, PointOver, ModExp.Fermat, Exchanged;
    BaseIsNine();
    ReadBack(v.priv, BasePoint());
    ReadBack(c.priv, BasePoint());
    Agreement(b, pt, LE(c.priv), LE(v.priv), 9, P);
    ExchangedIs(c.priv, s.base(v.priv));
    ExchangedIs(v.priv, s.base(c.priv));
  }

  lemma ExchangedIs(scalar: Bytes, point: Bytes)
    ensures Exchanged(scalar, point) == LittleBytes(Product(DecodeScalar(LE(scalar)), DecodeU(LE(point)), P), 32)
  {
  }
}
