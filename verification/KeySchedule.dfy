/** Handshake keys and Finished values: src/handshake/key_schedule.c. */
module KeySchedule {
  import opened Machine
  import opened ByteOps
  import opened Wire
  import opened Hkdf
  import opened RecordProtect

  datatype Keys = Keys(
    handshakeSecret: Bytes, clientSecret: Bytes, serverSecret: Bytes,
    clientKey: Bytes, clientIv: Iv, serverKey: Bytes, serverIv: Iv)

  function Ascii(s: string): (b: Bytes)
    ensures |b| == |s| && forall i :: 0 <= i < |s| ==> b[i] == s[i] as int % 0x100
  {
    seq(|s|, i requires 0 <= i < |s| => s[i] as int % 0x100)
  }

  function LabelPrefix(): (b: Bytes)
    ensures |b| == 6
  {
    Ascii("dtls13")
  }

  /** HKDF-Expand-Label with the arguments the schedule uses, none of which it can refuse. */
  function Derived(mac: Mac, secret: Bytes, name: string, context: Bytes, len: nat): (k: Bytes)
    requires |name| <= 12 && |context| <= 32 && len <= 32
    ensures |k| == len
    ensures ExpandLabel(mac, secret, LabelPrefix(), Ascii(name), context, len) == Ok(k)
  {
    LabelFits(mac, secret, LabelPrefix(), Ascii(name), context, len);
    ExpandLabel(mac, secret, LabelPrefix(), Ascii(name), context, len).value
  }

  function HandshakeSecret(mac: Mac, emptyHash: Bytes, shared: Bytes): Bytes
    requires |emptyHash| == 32
  {
    var early := mac(Zeros(32), Zeros(32));
    mac(Derived(mac, early, "derived", emptyHash, 32), shared)
  }

  function DeriveKeys(mac: Mac, emptyHash: Bytes, shared: Bytes, helloHash: Bytes): Keys
    requires |emptyHash| == 32 && |helloHash| == 32
  {
    var secret := HandshakeSecret(mac, emptyHash, shared);
    var client := Derived(mac, secret, "c hs traffic", helloHash, 32);
    var server := Derived(mac, secret, "s hs traffic", helloHash, 32);
    Keys(secret, client, server,
         Derived(mac, client, "key", [], 32), Derived(mac, client, "iv", [], 12),
         Derived(mac, server, "key", [], 32), Derived(mac, server, "iv", [], 12))
  }

  function Finished(mac: Mac, baseKey: Bytes, hash: Bytes): (v: Bytes)
    ensures |v| == 32
  {
    mac(Derived(mac, baseKey, "finished", [], 32), hash)
  }

  /** The comparison ors all differences together and looks at the result once. */
  method VerifyFinished(mac: Mac, baseKey: Bytes, hash: Bytes, received: Bytes) returns (r: Result<()>)
    requires |received| == 32
    ensures r == if received == Finished(mac, baseKey, hash) then Ok(()) else Err(AuthFailed)
  {
    hide Xor, Or, Finished;
    var computed := Finished(mac, baseKey, hash);
    var diff: uint8 := 0;
    for i := 0 to 32
      invariant diff == 0 <==> computed[..i] == received[..i]
    {
      OrXorZero(diff, computed[i], received[i]);
      assert computed[..i + 1] == computed[..i] + [computed[i]];
      assert received[..i + 1] == received[..i] + [received[i]];
      diff := Or(diff, Xor(computed[i], received[i]));
    }
    assert computed[..32] == computed && received[..32] == received;
    return if diff == 0 then Ok(()) else Err(AuthFailed);
  }

  /** Every value drawn from one secret uses its own info string: no two purposes share key
      material unless the MAC itself collides. */
  lemma PurposesSeparate(name: string, context: Bytes, len: nat, name': string, context': Bytes, len': nat)
    requires |name| <= 12 && |name'| <= 12 && |context| <= 32 && |context'| <= 32 && len <= 32 && len' <= 32
    requires forall i :: 0 <= i < |name| ==> name[i] as int < 0x80
    requires forall i :: 0 <= i < |name'| ==> name'[i] as int < 0x80
    ensures Label(len, LabelPrefix() + Ascii(name), context) == Label(len', LabelPrefix() + Ascii(name'), context')
            <==> name == name' && context == context' && len == len'
  {
    hide Label;
    if Label(len, LabelPrefix() + Ascii(name), context) == Label(len', LabelPrefix() + Ascii(name'), context') {
      LabelInjective(len, LabelPrefix() + Ascii(name), context, len', LabelPrefix() + Ascii(name'), context');
      var a, b := LabelPrefix() + Ascii(name), LabelPrefix() + Ascii(name');
      assert Ascii(name) == a[6..] && Ascii(name') == b[6..];
      forall i | 0 <= i < |name|
        ensures name[i] == name'[i]
      {
        assert Ascii(name)[i] == Ascii(name')[i];
      }
    }
  }

  // ----- no two secrets coincide unless the MAC collides

  /** Two different calls of the MAC with one result. */
  datatype Collision = Collision(key: Bytes, msg: Bytes, key': Bytes, msg': Bytes) {
    predicate Valid(mac: Mac) {
      (key != key' || msg != msg') && mac(key, msg) == mac(key', msg')
    }
  }

  /** What the MAC is asked for one block of output. */
  function DerivedInput(name: string, context: Bytes): Bytes
    requires |name| <= 12 && |context| <= 32
  {
    Label(32, LabelPrefix() + Ascii(name), context) + [1]
  }

  lemma DerivedIsOneCall(mac: Mac, secret: Bytes, name: string, context: Bytes)
    requires |name| <= 12 && |context| <= 32
    ensures Derived(mac, secret, name, context, 32) == mac(secret, DerivedInput(name, context))
  {
    hide Label;
    var info := Label(32, LabelPrefix() + Ascii(name), context);
    LabelFits(mac, secret, LabelPrefix(), Ascii(name), context, 32);
    Start(mac, secret, info);
    Next(mac, secret, info, 1);
    assert [] + info + [1] == info + [1];
    var t := T(mac, secret, info, 1);
    assert Stream(mac, secret, info, 1) == t && t[..32] == t;
  }

  lemma InputLayout(name: string, context: Bytes)
    requires |name| <= 12 && |context| <= 32
    ensures DerivedInput(name, context)
         == [0, 32, 6 + |name|] + Ascii("dtls13") + Ascii(name) + [|context|] + context + [1]
  {
    hide Ascii;
    assert Put16(32) == [0, 32];
  }

  /** The whole schedule as MAC calls (section 7.1 of RFC 8446 with the labels of section 5.9 of
      RFC 9147). */
  lemma ScheduleCalls(mac: Mac, emptyHash: Bytes, shared: Bytes, helloHash: Bytes)
    requires |emptyHash| == 32 && |helloHash| == 32
    ensures var k := DeriveKeys(mac, emptyHash, shared, helloHash);
            && k.handshakeSecret
               == mac(mac(mac(Zeros(32), Zeros(32)), DerivedInput("derived", emptyHash)), shared)
            && k.clientSecret == mac(k.handshakeSecret, DerivedInput("c hs traffic", helloHash))
            && k.serverSecret == mac(k.handshakeSecret, DerivedInput("s hs traffic", helloHash))
            && k.clientKey == mac(k.clientSecret, DerivedInput("key", []))
            && k.serverKey == mac(k.serverSecret, DerivedInput("key", []))
            && k.clientIv == IvOf(mac, k.clientSecret) && k.serverIv == IvOf(mac, k.serverSecret)
  {
    hide Derived, DerivedInput, IvOf;
    var k := DeriveKeys(mac, emptyHash, shared, helloHash);
    DerivedIsOneCall(mac, mac(Zeros(32), Zeros(32)), "derived", emptyHash);
    DerivedIsOneCall(mac, k.handshakeSecret, "c hs traffic", helloHash);
    DerivedIsOneCall(mac, k.handshakeSecret, "s hs traffic", helloHash);
    DerivedIsOneCall(mac, k.clientSecret, "key", []);
    DerivedIsOneCall(mac, k.serverSecret, "key", []);
    IvIsOneCall(mac, k.clientSecret);
    IvIsOneCall(mac, k.serverSecret);
  }

  /** Twelve bytes under the label "iv". */
  function IvOf(mac: Mac, secret: Bytes): Bytes {
    mac(secret, [0, 12, 8] + Ascii("dtls13") + Ascii("iv") + [0] + [1])[..12]
  }

  lemma IvIsOneCall(mac: Mac, secret: Bytes)
    ensures Derived(mac, secret, "iv", [], 12) == IvOf(mac, secret)
  {
    hide Ascii;
    var info := Label(12, LabelPrefix() + Ascii("iv"), []);
    LabelFits(mac, secret, LabelPrefix(), Ascii("iv"), [], 12);
    assert Put16(12) == [0, 12];
    assert info == [0, 12, 8] + Ascii("dtls13") + Ascii("iv") + [0];
    Start(mac, secret, info);
    Next(mac, secret, info, 1);
    assert [] + info + [1] == info + [1];
    assert Stream(mac, secret, info, 1) == T(mac, secret, info, 1);
  }

  lemma FinishedCalls(mac: Mac, baseKey: Bytes, hash: Bytes)
    ensures Finished(mac, baseKey, hash) == mac(mac(baseKey, DerivedInput("finished", [])), hash)
  {
    hide Derived, DerivedInput;
    DerivedIsOneCall(mac, baseKey, "finished", []);
  }

  /** Equal 32-byte outputs for different secrets, names or contexts are a collision. */
  lemma DerivedCollide(mac: Mac, a: Bytes, name: string, context: Bytes, b: Bytes, name': string, context': Bytes)
    returns (c: Collision)
    requires |name| <= 12 && |name'| <= 12 && |context| <= 32 && |context'| <= 32
    requires forall i :: 0 <= i < |name| ==> name[i] as int < 0x80
    requires forall i :: 0 <= i < |name'| ==> name'[i] as int < 0x80
    requires a != b || name != name' || context != context'
    requires Derived(mac, a, name, context, 32) == Derived(mac, b, name', context', 32)
    ensures c.Valid(mac)
  {
    hide Label, Derived;
    DerivedIsOneCall(mac, a, name, context);
    DerivedIsOneCall(mac, b, name', context');
    c := Collision(a, DerivedInput(name, context), b, DerivedInput(name', context'));
    PurposesSeparate(name, context, 32, name', context', 32);
    var info := Label(32, LabelPrefix() + Ascii(name), context);
    var info' := Label(32, LabelPrefix() + Ascii(name'), context');
    assert (info + [1])[..|info + [1]| - 1] == info && (info' + [1])[..|info' + [1]| - 1] == info';
  }

  /** The two directions have different secrets and different keys: if either pair coincides, the
      MAC has collided on two of the schedule's own inputs. */
  lemma DirectionsSeparate(mac: Mac, emptyHash: Bytes, shared: Bytes, helloHash: Bytes) returns (c: Collision)
    requires |emptyHash| == 32 && |helloHash| == 32
    requires var k := DeriveKeys(mac, emptyHash, shared, helloHash);
             k.clientSecret == k.serverSecret || k.clientKey == k.serverKey
    ensures c.Valid(mac)
  {
    hide Derived, HandshakeSecret;
    var k := DeriveKeys(mac, emptyHash, shared, helloHash);
    if k.clientSecret == k.serverSecret {
      assert "c hs traffic"[0] != "s hs traffic"[0];
      c := DerivedCollide(mac, k.handshakeSecret, "c hs traffic", helloHash,
                          k.handshakeSecret, "s hs traffic", helloHash);
    } else {
      c := DerivedCollide(mac, k.clientSecret, "key", [], k.serverSecret, "key", []);
    }
  }

  lemma SecretsCollide(mac: Mac, emptyHash: Bytes, shared: Bytes, shared': Bytes) returns (c: Collision)
    requires |emptyHash| == 32 && shared != shared'
    requires HandshakeSecret(mac, emptyHash, shared) == HandshakeSecret(mac, emptyHash, shared')
    ensures c.Valid(mac)
  {
    hide Derived;
    var salt := Derived(mac, mac(Zeros(32), Zeros(32)), "derived", emptyHash, 32);
    c := Collision(salt, shared, salt, shared');
  }

  /** Different transcripts or different shared secrets give different traffic secrets. */
  lemma SessionsSeparate(mac: Mac, emptyHash: Bytes, shared: Bytes, helloHash: Bytes, shared': Bytes, helloHash': Bytes)
    returns (c: Collision)
    requires |emptyHash| == 32 && |helloHash| == 32 && |helloHash'| == 32
    requires shared != shared' || helloHash != helloHash'
    requires var k := DeriveKeys(mac, emptyHash, shared, helloHash);
             var k' := DeriveKeys(mac, emptyHash, shared', helloHash');
             k.clientSecret == k'.clientSecret || k.serverSecret == k'.serverSecret
    ensures c.Valid(mac)
  {
    hide Derived, HandshakeSecret;
    var k, k' := DeriveKeys(mac, emptyHash, shared, helloHash), DeriveKeys(mac, emptyHash, shared', helloHash');
    if k.handshakeSecret == k'.handshakeSecret && helloHash == helloHash' {
      c := SecretsCollide(mac, emptyHash, shared, shared');
    } else if k.clientSecret == k'.clientSecret {
      c := DerivedCollide(mac, k.handshakeSecret, "c hs traffic", helloHash,
                          k'.handshakeSecret, "c hs traffic", helloHash');
    } else {
      c := DerivedCollide(mac, k.handshakeSecret, "s hs traffic", helloHash,
                          k'.handshakeSecret, "s hs traffic", helloHash');
    }
  }

  /** Finished values name their side and their transcript. */
  lemma FinishedSeparate(mac: Mac, baseKey: Bytes, hash: Bytes, baseKey': Bytes, hash': Bytes) returns (c: Collision)
    requires baseKey != baseKey' || hash != hash'
    requires Finished(mac, baseKey, hash) == Finished(mac, baseKey', hash')
    ensures c.Valid(mac)
  {
    hide Derived;
    var k, k' := Derived(mac, baseKey, "finished", [], 32), Derived(mac, baseKey', "finished", [], 32);
    if k == k' && hash == hash' {
      c := DerivedCollide(mac, baseKey, "finished", [], baseKey', "finished", []);
    } else {
      c := Collision(k, hash, k', hash');
    }
  }
}
