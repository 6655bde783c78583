/** EncryptedExtensions, Certificate and CertificateVerify bodies: src/handshake/messages.c. */
module Messages {
  import opened Machine
  import opened Wire
  import opened Codec

  const MAX_CERTS: nat := 4
  const ECDSA_SECP256R1_SHA256: uint16 := 0x0403

  // ----- EncryptedExtensions

  const EMPTY_EXTENSIONS: Bytes := [0, 0]

  function ParseEncryptedExtensions(buf: Bytes): Result<()> {
    var exts :- TakeVector(buf, 2, Truncated, BadLength);
    if |exts.tail| != 0 then Err(BadLength) else Ok(())
  }

  // ----- Certificate

  /** One CertificateEntry with its always-empty extensions. */
  function Entry(der: Bytes): (b: Bytes)
    ensures |b| == 5 + |der|
  {
    Vector(3, der) + Vector(2, [])
  }

  function Entries(certs: seq<Bytes>): Bytes {
    if |certs| == 0 then [] else Entry(certs[0]) + Entries(certs[1..])
  }

  function CertificateBody(certs: seq<Bytes>): Bytes {
    [0] + Vector(3, Entries(certs))
  }

  function SerializeCertificate(certs: seq<Bytes>, cap: nat): Result<Bytes> {
    if |certs| == 0 || |certs| > MAX_CERTS then Err(BadArg)
    else if |CertificateBody(certs)| > cap then Err(BadLength)
    else Ok(CertificateBody(certs))
  }

  lemma {:induction false} EntriesAppend(certs: seq<Bytes>, der: Bytes)
    ensures Entries(certs + [der]) == Entries(certs) + Entry(der)
  {
    hide Entry;
    if |certs| == 0 {
      assert Entries([der]) == Entry(der) + Entries([]);
    } else {
      EntriesAppend(certs[1..], der);
      assert (certs + [der])[1..] == certs[1..] + [der];
    }
  }

  method WriteEntry(w: Writer, der: Bytes)
    requires w.Valid()
    modifies w, w.buf
    ensures w.Valid() && w.State() == Put(old(w.State()), w.buf.Length, Entry(der))
  {
    hide Put, Vector, Patched;
    ghost var s, cap := w.State(), w.buf.Length;
    var pos := w.Reserve(3);
    w.WriteBytes(der);
    PatchIsVector(s, cap, pos, 3, der);
    w.Patch(pos, 3);
    ghost var t := w.State();
    pos := w.Reserve(2);
    PatchIsVector(t, cap, pos, 2, []);
    PutNothing(w.State(), cap);
    w.Patch(pos, 2);
    PutPut(s, cap, Vector(3, der), Vector(2, []));
  }

  method WriteCertificate(certs: seq<Bytes>, cap: nat) returns (r: Result<Bytes>)
    ensures r == SerializeCertificate(certs, cap)
  {
    hide Put, Vector, Patched, Entry;
    if |certs| == 0 || |certs| > MAX_CERTS {
      return Err(BadArg);
    }
    var w := new Writer(cap);
    w.WriteU8(0);
    ghost var s := w.State();
    var pos := w.Reserve(3);
    ghost var t := w.State();
    PutNothing(t, cap);
    for i := 0 to |certs|
      invariant w.Valid() && fresh(w) && fresh(w.buf) && w.buf.Length == cap
      invariant w.State() == Put(t, cap, Entries(certs[..i]))
    {
      WriteEntry(w, certs[i]);
      PutPut(t, cap, Entries(certs[..i]), Entry(certs[i]));
      EntriesAppend(certs[..i], certs[i]);
      assert certs[..i + 1] == certs[..i] + [certs[i]];
    }
    assert certs[..|certs|] == certs;
    PatchIsVector(s, cap, pos, 3, Entries(certs));
    w.Patch(pos, 3);
    PutPut(Holding([]), cap, [0], Vector(3, Entries(certs)));
    r := w.Finish();
    PutFirst(cap, CertificateBody(certs));
  }

  function ParseEntries(list: Bytes, count: nat): Result<seq<Bytes>>
    decreases |list|
  {
    if |list| == 0 then Ok([])
    else if count >= MAX_CERTS then Err(Unsupported)
    else
      var cert :- TakeVector(list, 3, Truncated, BadLength);
      var exts :- TakeVector(cert.tail, 2, Truncated, BadLength);
      var rest :- ParseEntries(exts.tail, count + 1);
      Ok([cert.head] + rest)
  }

  function ParseCertificate(buf: Bytes): Result<seq<Bytes>> {
    var context :- TakeVector(buf, 1, Truncated, BadLength);
    var list :- TakeVector(context.tail, 3, Truncated, BadLength);
    var certs :- ParseEntries(list.head, 0);
    if |certs| == 0 then Err(BadArg) else Ok(certs)
  }

  method ReadCertificate(buf: Bytes) returns (r: Result<seq<Bytes>>)
    ensures r == ParseCertificate(buf)
  {
    hide TakeVector;
    var reader := new Reader(buf);
    var context :- reader.ViewVector(1, Truncated, BadLength);
    var list :- reader.ViewVector(3, Truncated, BadLength);
    var entries := ReadEntries(list);
    if entries.Err? {
      return entries;
    }
    if |entries.value| == 0 {
      return Err(BadArg);
    }
    return entries;
  }

  /** What remains to be parsed, put behind what has been. */
  ghost function Resume(done: seq<Bytes>, rest: Bytes): Result<seq<Bytes>> {
    var more :- ParseEntries(rest, |done|);
    Ok(done + more)
  }

  method ReadEntries(list: Bytes) returns (r: Result<seq<Bytes>>)
    ensures r == ParseEntries(list, 0)
  {
    hide TakeVector, ParseEntries;
    var reader := new Reader(list);
    var certs: seq<Bytes> := [];
    ResumeNothing(list);
    while reader.pos < |list|
      invariant reader.Valid() && fresh(reader) && reader.buf == list
      invariant Resume(certs, reader.Rest()) == ParseEntries(list, 0)
      decreases |list| - reader.pos
    {
      ResumeStep(certs, reader.Rest());
      if |certs| >= MAX_CERTS {
        return Err(Unsupported);
      }
      var cert :- reader.ViewVector(3, Truncated, BadLength);
      var exts :- reader.ViewVector(2, Truncated, BadLength);
      certs := certs + [cert];
    }
    assert reader.Rest() == [];
    ResumeEnd(certs);
    return Ok(certs);
  }

  lemma ResumeNothing(rest: Bytes)
    ensures Resume([], rest) == ParseEntries(rest, 0)
  {
    hide TakeVector, ParseEntries;
    if ParseEntries(rest, 0).Ok? {
      assert [] + ParseEntries(rest, 0).value == ParseEntries(rest, 0).value;
    }
  }

  lemma ResumeEnd(done: seq<Bytes>)
    ensures Resume(done, []) == Ok(done)
  {
    assert done + [] == done;
  }

  lemma ResumeStep(done: seq<Bytes>, rest: Bytes)
    requires |rest| > 0
    ensures Resume(done, rest) ==
            if |done| >= MAX_CERTS then Err(Unsupported)
            else match TakeVector(rest, 3, Truncated, BadLength)
                 case Err(e) => Err(e)
                 case Ok(cert) =>
                   match TakeVector(cert.tail, 2, Truncated, BadLength)
                   case Err(e) => Err(e)
                   case Ok(exts) => Resume(done + [cert.head], exts.tail)
  {
    hide TakeVector;
    var c := TakeVector(rest, 3, Truncated, BadLength);
    if |done| < MAX_CERTS && c.Ok? {
      var x := TakeVector(c.value.tail, 2, Truncated, BadLength);
      if x.Ok? && ParseEntries(x.value.tail, |done| + 1).Ok? {
        var more := ParseEntries(x.value.tail, |done| + 1).value;
        assert done + ([c.value.head] + more) == done + [c.value.head] + more;
      }
    }
  }

  lemma {:induction false} EntriesParse(certs: seq<Bytes>, count: nat)
    requires count + |certs| <= MAX_CERTS && |Entries(certs)| < 0x100_0000
    ensures ParseEntries(Entries(certs), count) == Ok(certs)
    decreases |certs|
  {
    hide TakeVector, Vector;
    if |certs| > 0 {
      var der, rest := certs[0], Entries(certs[1..]);
      assert Entries(certs) == Vector(3, der) + (Vector(2, []) + rest);
      TakeVectorFirst(3, der, Vector(2, []) + rest, Truncated, BadLength);
      TakeVectorFirst(2, [], rest, Truncated, BadLength);
      EntriesParse(certs[1..], count + 1);
      assert [der] + certs[1..] == certs;
    }
  }

  /** What was parsed took up at least its own encoding. */
  lemma {:induction false} ParsedFits(list: Bytes, count: nat)
    requires ParseEntries(list, count).Ok?
    ensures |Entries(ParseEntries(list, count).value)| <= |list|
    decreases |list|
  {
    hide TakeVector, Entry;
    if |list| > 0 {
      var cert := TakeVector(list, 3, Truncated, BadLength).value;
      var exts := TakeVector(cert.tail, 2, Truncated, BadLength).value;
      ParsedFits(exts.tail, count + 1);
      var rest := ParseEntries(exts.tail, count + 1).value;
      assert ([cert.head] + rest)[1..] == rest;
    }
  }

  /** A serialized list of one to four certificates parses back exactly when it is shorter than
      2^24 bytes. */
  lemma CertificateRoundTrip(certs: seq<Bytes>)
    requires 1 <= |certs| <= MAX_CERTS
    ensures ParseCertificate(CertificateBody(certs)) == Ok(certs) <==> |Entries(certs)| < 0x100_0000
  {
    hide Vector, TakeVector, Entries, ParseEntries;
    var body := CertificateBody(certs);
    var entries := Entries(certs);
    ContextIsEmpty(Vector(3, entries));
    if |entries| < 0x100_0000 {
      assert Vector(3, entries) + [] == Vector(3, entries);
      TakeVectorFirst(3, entries, [], Truncated, BadLength);
      EntriesParse(certs, 0);
    } else if ParseCertificate(body) == Ok(certs) {
      var list := TakeVector(Vector(3, entries), 3, Truncated, BadLength).value;
      ParsedFits(list.head, 0);
      TakenIsShort(Vector(3, entries), 3, Truncated, BadLength);
      assert false;
    }
  }

  lemma ContextIsEmpty(rest: Bytes)
    ensures TakeVector([0] + rest, 1, Truncated, BadLength) == Ok(Split([], rest))
  {
    TakeVectorFirst(1, [], rest, Truncated, BadLength);
    assert Vector(1, []) == [0];
  }

  lemma TakenIsShort(b: Bytes, w: Width, e: Status, f: Status)
    requires TakeVector(b, w, e, f).Ok?
    ensures |TakeVector(b, w, e, f).value.head| < Capacity(w)
  {
    hide Get16, Get24;
  }

  // ----- CertificateVerify

  datatype CertificateVerify = CertificateVerify(algorithm: uint16, signature: Bytes)

  function ParseCertificateVerify(buf: Bytes): Result<CertificateVerify> {
    var algorithm :- Take(buf, 2, Truncated);
    var signature :- TakeVector(algorithm.tail, 2, Truncated, BadLength);
    if |signature.tail| != 0 then Err(BadLength)
    else Ok(CertificateVerify(Get16(algorithm.head, 0), signature.head))
  }

  /** The body the server builds by hand around its DER signature. */
  function CertificateVerifyBody(signature: Bytes): Bytes {
    Put16(ECDSA_SECP256R1_SHA256) + Vector(2, signature)
  }

  /** It parses back exactly when the signature's length fits its field. */
  lemma CertificateVerifyRoundTrip(signature: Bytes)
    ensures |signature| < 0x1_0000 <==>
            ParseCertificateVerify(CertificateVerifyBody(signature))
            == Ok(CertificateVerify(ECDSA_SECP256R1_SHA256, signature))
  {
    hide Vector, TakeVector, Get16, Put16, Take;
    TakeFirst(Put16(ECDSA_SECP256R1_SHA256), Vector(2, signature), Truncated);
    if |signature| < 0x1_0000 {
      assert Vector(2, signature) + [] == Vector(2, signature);
      TakeVectorFirst(2, signature, [], Truncated, BadLength);
    } else if TakeVector(Vector(2, signature), 2, Truncated, BadLength).Ok? {
      TakenIsShort(Vector(2, signature), 2, Truncated, BadLength);
    }
  }

  /** 64 spaces, the context string, a zero byte and the transcript hash. */
  function CertificateVerifyContent(context: Bytes, hash: Bytes): Bytes {
    seq(64, _ => 0x20) + context + [0] + hash
  }
}
