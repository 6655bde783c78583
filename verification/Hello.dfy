/** ClientHello and ServerHello bodies: src/handshake/hello.c. */
module Hello {
  import opened Machine
  import opened ByteOps
  import opened Wire
  import opened Codec

  const LEGACY_VERSION: uint16 := 0xFEFD
  const DTLS_1_3: uint16 := 0xFEFC
  const CHACHA20_POLY1305_SHA256: uint16 := 0x1303
  const GROUP_X25519: uint16 := 0x001D

  const SUPPORTED_VERSIONS: uint16 := 43
  const SUPPORTED_GROUPS: uint16 := 10
  const KEY_SHARE: uint16 := 51
  const SIGNATURE_ALGORITHMS: uint16 := 13

  type Bytes32 = b: Bytes | |b| == 32 witness Zeros(32)

  // ----- what is sent

  function Extension(kind: uint16, data: Bytes): Bytes {
    Put16(kind) + Vector(2, data)
  }

  function ShareEntry(key: Bytes): Bytes {
    Put16(GROUP_X25519) + Vector(2, key)
  }

  function SignatureSchemes(): Bytes {
    Put16(0x0403) + Put16(0x0804) + Put16(0x0807)
  }

  function ClientExtensions(key: Bytes): Bytes {
    Extension(SUPPORTED_VERSIONS, Vector(1, Put16(DTLS_1_3)))
    + Extension(SUPPORTED_GROUPS, Vector(2, Put16(GROUP_X25519)))
    + Extension(KEY_SHARE, Vector(2, ShareEntry(key)))
    + Extension(SIGNATURE_ALGORITHMS, Vector(2, SignatureSchemes()))
  }

  /** Everything of a ClientHello before its extensions. */
  function ClientPreamble(random: Bytes): Bytes {
    Put16(LEGACY_VERSION) + random + Vector(1, []) + Vector(1, [])
    + Vector(2, Put16(CHACHA20_POLY1305_SHA256)) + Vector(1, [0])
  }

  function ClientHelloBody(random: Bytes, key: Bytes): Bytes {
    ClientPreamble(random) + Vector(2, ClientExtensions(key))
  }

  function ServerExtensions(key: Bytes): Bytes {
    Extension(SUPPORTED_VERSIONS, Put16(DTLS_1_3)) + Extension(KEY_SHARE, ShareEntry(key))
  }

  function ServerPreamble(random: Bytes): Bytes {
    Put16(LEGACY_VERSION) + random + Vector(1, []) + Put16(CHACHA20_POLY1305_SHA256) + [0]
  }

  function ServerHelloBody(random: Bytes, key: Bytes): Bytes {
    ServerPreamble(random) + Vector(2, ServerExtensions(key))
  }

  // ----- the serializers

  /** Either the whole string fits the buffer or the writer overflows. */
  function Fit(data: Bytes, cap: nat): Result<Bytes> {
    if |data| > cap then Err(BadLength) else Ok(data)
  }

  method WriteEmptyVector(w: Writer, width: Width)
    requires w.Valid()
    modifies w, w.buf
    ensures w.Valid() && w.State() == Put(old(w.State()), w.buf.Length, Vector(width, []))
  {
    hide Put, Vector, Patched;
    ghost var s := w.State();
    var pos := w.Reserve(width);
    PatchIsVector(s, w.buf.Length, pos, width, []);
    PutNothing(w.State(), w.buf.Length);
    w.Patch(pos, width);
  }

  /** A length-prefixed field with a body that needs no patching of its own. */
  method WriteVector(w: Writer, width: Width, body: Bytes)
    requires w.Valid()
    modifies w, w.buf
    ensures w.Valid() && w.State() == Put(old(w.State()), w.buf.Length, Vector(width, body))
  {
    hide Put, Vector, Patched;
    ghost var s := w.State();
    var pos := w.Reserve(width);
    w.WriteBytes(body);
    PatchIsVector(s, w.buf.Length, pos, width, body);
    w.Patch(pos, width);
  }

  /** An extension whose data is one length-prefixed list: the inner length is patched first. */
  method WriteListExtension(w: Writer, kind: uint16, width: Width, list: Bytes)
    requires w.Valid()
    modifies w, w.buf
    ensures w.Valid() && w.State() == Put(old(w.State()), w.buf.Length, Extension(kind, Vector(width, list)))
  {
    hide Put, Vector, Patched;
    ghost var s, cap := w.State(), w.buf.Length;
    w.WriteU16(kind);
    ghost var t := w.State();
    var pos := w.Reserve(2);
    WriteVector(w, width, list);
    PatchIsVector(t, cap, pos, 2, Vector(width, list));
    w.Patch(pos, 2);
    PutPut(s, cap, Put16(kind), Vector(2, Vector(width, list)));
  }

  method WriteShareEntry(w: Writer, key: Bytes)
    requires w.Valid()
    modifies w, w.buf
    ensures w.Valid() && w.State() == Put(old(w.State()), w.buf.Length, ShareEntry(key))
  {
    hide Put, Vector, Patched;
    ghost var s := w.State();
    w.WriteU16(GROUP_X25519);
    WriteVector(w, 2, key);
    PutPut(s, w.buf.Length, Put16(GROUP_X25519), Vector(2, key));
  }

  method WriteClientShare(w: Writer, key: Bytes)
    requires w.Valid()
    modifies w, w.buf
    ensures w.Valid() && w.State() == Put(old(w.State()), w.buf.Length,
                                             Extension(KEY_SHARE, Vector(2, ShareEntry(key))))
  {
    hide Put, Vector, Patched, ShareEntry;
    ghost var s, cap := w.State(), w.buf.Length;
    w.WriteU16(KEY_SHARE);
    ghost var t := w.State();
    var pos := w.Reserve(2);
    ghost var u := w.State();
    var listPos := w.Reserve(2);
    WriteShareEntry(w, key);
    PatchIsVector(u, cap, listPos, 2, ShareEntry(key));
    w.Patch(listPos, 2);
    PatchIsVector(t, cap, pos, 2, Vector(2, ShareEntry(key)));
    w.Patch(pos, 2);
    PutPut(s, cap, Put16(KEY_SHARE), Vector(2, Vector(2, ShareEntry(key))));
  }

  method WriteServerShare(w: Writer, key: Bytes)
    requires w.Valid()
    modifies w, w.buf
    ensures w.Valid() && w.State() == Put(old(w.State()), w.buf.Length, Extension(KEY_SHARE, ShareEntry(key)))
  {
    hide Put, Vector, Patched, ShareEntry;
    ghost var s, cap := w.State(), w.buf.Length;
    w.WriteU16(KEY_SHARE);
    ghost var t := w.State();
    var pos := w.Reserve(2);
    WriteShareEntry(w, key);
    PatchIsVector(t, cap, pos, 2, ShareEntry(key));
    w.Patch(pos, 2);
    PutPut(s, cap, Put16(KEY_SHARE), Vector(2, ShareEntry(key)));
  }

  method WriteClientExtensions(w: Writer, key: Bytes)
    requires w.Valid()
    modifies w, w.buf
    ensures w.Valid() && w.State() == Put(old(w.State()), w.buf.Length, ClientExtensions(key))
  {
    hide Put, Vector, Patched, ShareEntry, Extension;
    ghost var s, cap := w.State(), w.buf.Length;
    ghost var versions := Extension(SUPPORTED_VERSIONS, Vector(1, Put16(DTLS_1_3)));
    ghost var groups := Extension(SUPPORTED_GROUPS, Vector(2, Put16(GROUP_X25519)));
    ghost var share := Extension(KEY_SHARE, Vector(2, ShareEntry(key)));
    WriteListExtension(w, SUPPORTED_VERSIONS, 1, Put16(DTLS_1_3));
    WriteListExtension(w, SUPPORTED_GROUPS, 2, Put16(GROUP_X25519));
    PutPut(s, cap, versions, groups);
    WriteClientShare(w, key);
    PutPut(s, cap, versions + groups, share);
    WriteListExtension(w, SIGNATURE_ALGORITHMS, 2, SignatureSchemes());
    PutPut(s, cap, versions + groups + share, Extension(SIGNATURE_ALGORITHMS, Vector(2, SignatureSchemes())));
  }

  method WriteClientPreamble(w: Writer, random: Bytes)
    requires w.Valid()
    modifies w, w.buf
    ensures w.Valid() && w.State() == Put(old(w.State()), w.buf.Length, ClientPreamble(random))
  {
    hide Put, Vector, Patched;
    ghost var s, cap := w.State(), w.buf.Length;
    ghost var head := Put16(LEGACY_VERSION) + random;
    ghost var suites := Vector(2, Put16(CHACHA20_POLY1305_SHA256));
    w.WriteU16(LEGACY_VERSION);
    w.WriteBytes(random);
    PutPut(s, cap, Put16(LEGACY_VERSION), random);
    WriteEmptyVector(w, 1);
    PutPut(s, cap, head, Vector(1, []));
    WriteEmptyVector(w, 1);
    PutPut(s, cap, head + Vector(1, []), Vector(1, []));
    WriteVector(w, 2, Put16(CHACHA20_POLY1305_SHA256));
    PutPut(s, cap, head + Vector(1, []) + Vector(1, []), suites);
    WriteVector(w, 1, [0]);
    PutPut(s, cap, head + Vector(1, []) + Vector(1, []) + suites, Vector(1, [0]));
  }

  /** Succeeds exactly when the buffer holds the whole message. */
  method SerializeClientHello(random: Bytes32, key: Bytes32, cap: nat) returns (r: Result<Bytes>)
    ensures r == Fit(ClientHelloBody(random, key), cap)
  {
    hide Put, Vector, Patched, ClientPreamble, ClientExtensions;
    var w := new Writer(cap);
    WriteClientPreamble(w, random);
    ghost var s := w.State();
    var pos := w.Reserve(2);
    WriteClientExtensions(w, key);
    PatchIsVector(s, cap, pos, 2, ClientExtensions(key));
    w.Patch(pos, 2);
    PutPut(Holding([]), cap, ClientPreamble(random), Vector(2, ClientExtensions(key)));
    PutFirst(cap, ClientHelloBody(random, key));
    r := w.Finish();
  }

  method WriteServerExtensions(w: Writer, key: Bytes)
    requires w.Valid()
    modifies w, w.buf
    ensures w.Valid() && w.State() == Put(old(w.State()), w.buf.Length, ServerExtensions(key))
  {
    hide Put, Vector, Patched, ShareEntry;
    ghost var s, cap := w.State(), w.buf.Length;
    w.WriteU16(SUPPORTED_VERSIONS);
    WriteVector(w, 2, Put16(DTLS_1_3));
    PutPut(s, cap, Put16(SUPPORTED_VERSIONS), Vector(2, Put16(DTLS_1_3)));
    WriteServerShare(w, key);
    PutPut(s, cap, Extension(SUPPORTED_VERSIONS, Put16(DTLS_1_3)), Extension(KEY_SHARE, ShareEntry(key)));
  }

  method WriteServerPreamble(w: Writer, random: Bytes)
    requires w.Valid()
    modifies w, w.buf
    ensures w.Valid() && w.State() == Put(old(w.State()), w.buf.Length, ServerPreamble(random))
  {
    hide Put, Vector, Patched;
    ghost var s, cap := w.State(), w.buf.Length;
    ghost var head := Put16(LEGACY_VERSION) + random;
    w.WriteU16(LEGACY_VERSION);
    w.WriteBytes(random);
    PutPut(s, cap, Put16(LEGACY_VERSION), random);
    WriteEmptyVector(w, 1);
    PutPut(s, cap, head, Vector(1, []));
    w.WriteU16(CHACHA20_POLY1305_SHA256);
    PutPut(s, cap, head + Vector(1, []), Put16(CHACHA20_POLY1305_SHA256));
    w.WriteU8(0);
    PutPut(s, cap, head + Vector(1, []) + Put16(CHACHA20_POLY1305_SHA256), [0]);
  }

  method SerializeServerHello(random: Bytes32, key: Bytes32, cap: nat) returns (r: Result<Bytes>)
    ensures r == Fit(ServerHelloBody(random, key), cap)
  {
    hide Put, Vector, Patched, ServerPreamble, ServerExtensions;
    var w := new Writer(cap);
    WriteServerPreamble(w, random);
    ghost var s := w.State();
    var pos := w.Reserve(2);
    WriteServerExtensions(w, key);
    PatchIsVector(s, cap, pos, 2, ServerExtensions(key));
    w.Patch(pos, 2);
    PutPut(Holding([]), cap, ServerPreamble(random), Vector(2, ServerExtensions(key)));
    PutFirst(cap, ServerHelloBody(random, key));
    r := w.Finish();
  }

  // ----- extensions

  datatype Option<+T> = None | Some(value: T)

  /** The data of the first extension of a kind; a malformed block ends the search. */
  function Find(block: Bytes, want: uint16): Option<Bytes>
    decreases |block|
  {
    if |block| == 0 then None
    else
      match Take(block, 2, Truncated)
      case Err(_) => None
      case Ok(kind) =>
        match TakeVector(kind.tail, 2, Truncated, BadLength)
        case Err(_) => None
        case Ok(data) => if Get16(kind.head, 0) == want then Some(data.head) else Find(data.tail, want)
  }

  method FindExtension(block: Bytes, want: uint16) returns (r: Option<Bytes>)
    ensures r == Find(block, want)
  {
    hide TakeVector, Take, Get16, Find;
    var reader := new Reader(block);
    while reader.pos < |block|
      invariant reader.Valid() && fresh(reader) && reader.buf == block
      invariant Find(reader.Rest(), want) == Find(block, want)
      decreases |block| - reader.pos
    {
      ghost var rest := reader.Rest();
      FindUnfold(rest, want);
      var kind := reader.View(2, Truncated);
      if kind.Err? {
        return None;
      }
      var data := reader.ViewVector(2, Truncated, BadLength);
      if data.Err? {
        return None;
      }
      if Get16(kind.value, 0) == want {
        return Some(data.value);
      }
    }
    assert reader.Rest() == [];
    FindNothing(want);
    return None;
  }

  lemma FindNothing(want: uint16)
    ensures Find([], want) == None
  {
  }

  lemma FindUnfold(block: Bytes, want: uint16)
    requires |block| > 0
    ensures var kind := Take(block, 2, Truncated);
            if kind.Err? then Find(block, want) == None
            else
              var data := TakeVector(kind.value.tail, 2, Truncated, BadLength);
              Find(block, want) == if data.Err? then None
                                   else if Get16(kind.value.head, 0) == want then Some(data.value.head)
                                   else Find(data.value.tail, want)
  {
    hide Take, TakeVector, Get16;
  }

  lemma FindStep(kind: uint16, data: Bytes, rest: Bytes, want: uint16)
    requires |data| < 0x1_0000
    ensures Find(Extension(kind, data) + rest, want) == if kind == want then Some(data) else Find(rest, want)
  {
    hide TakeVector, Vector, Take, Get16, Put16;
    var block := Extension(kind, data) + rest;
    assert block == Put16(kind) + (Vector(2, data) + rest);
    TakeFirst(Put16(kind), Vector(2, data) + rest, Truncated);
    TakeVectorFirst(2, data, rest, Truncated, BadLength);
    assert block[..] == block;
  }

  // ----- ServerHello parsing

  datatype ServerHello = ServerHello(random: Bytes, suite: uint16, key: Bytes)

  function ParseServerShare(data: Bytes): Result<Bytes> {
    var group :- Take(data, 2, Unsupported);
    var key :- TakeVector(group.tail, 2, Unsupported, Unsupported);
    if Get16(group.head, 0) != GROUP_X25519 || |key.head| != 32 then Err(Unsupported) else Ok(key.head)
  }

  function ParseServerExtensions(block: Bytes): Result<Bytes> {
    match Find(block, SUPPORTED_VERSIONS)
    case None => Err(Unsupported)
    case Some(version) =>
      if |version| != 2 || Get16(version, 0) != DTLS_1_3 then Err(Unsupported)
      else
        match Find(block, KEY_SHARE)
        case None => Err(Unsupported)
        case Some(data) => ParseServerShare(data)
  }

  function ParseServerHello(buf: Bytes): Result<ServerHello> {
    var version :- Take(buf, 2, Truncated);
    var random :- Take(version.tail, 32, Truncated);
    var sessionId :- TakeVector(random.tail, 1, Truncated, Truncated);
    var suite :- Take(sessionId.tail, 2, Truncated);
    var compression :- Take(suite.tail, 1, Truncated);
    var block :- TakeVector(compression.tail, 2, Truncated, BadLength);
    var key :- ParseServerExtensions(block.head);
    Ok(ServerHello(random.head, Get16(suite.head, 0), key))
  }

  method ReadServerExtensions(block: Bytes) returns (r: Result<Bytes>)
    ensures r == ParseServerExtensions(block)
  {
    hide Find, Get16, Take, TakeVector;
    var version := FindExtension(block, SUPPORTED_VERSIONS);
    if version.None? {
      return Err(Unsupported);
    }
    if |version.value| != 2 {
      return Err(Unsupported);
    }
    if Get16(version.value, 0) != DTLS_1_3 {
      return Err(Unsupported);
    }
    var data := FindExtension(block, KEY_SHARE);
    if data.None? {
      return Err(Unsupported);
    }
    var reader := new Reader(data.value);
    var group :- reader.View(2, Unsupported);
    var key :- reader.ViewVector(2, Unsupported, Unsupported);
    if Get16(group, 0) != GROUP_X25519 || |key| != 32 {
      return Err(Unsupported);
    }
    return Ok(key);
  }

  method ReadServerHello(buf: Bytes) returns (r: Result<ServerHello>)
    ensures r == ParseServerHello(buf)
  {
    hide Get16, Take, TakeVector, ParseServerExtensions;
    var reader := new Reader(buf);
    var version :- reader.View(2, Truncated);
    var random :- reader.View(32, Truncated);
    var sessionId :- reader.ViewVector(1, Truncated, Truncated);
    var suite :- reader.View(2, Truncated);
    var compression :- reader.View(1, Truncated);
    var block :- reader.ViewVector(2, Truncated, BadLength);
    var key :- ReadServerExtensions(block);
    return Ok(ServerHello(random, Get16(suite, 0), key));
  }

  lemma ServerExtensionsParse(key: Bytes32)
    ensures |ServerExtensions(key)| < 0x1_0000 && ParseServerExtensions(ServerExtensions(key)) == Ok(key)
  {
    hide Find, Vector, TakeVector, Take, Get16, Put16, Extension;
    ServerExtensionsLen(key);
    var versions, share := Extension(SUPPORTED_VERSIONS, Put16(DTLS_1_3)), Extension(KEY_SHARE, ShareEntry(key));
    FindStep(SUPPORTED_VERSIONS, Put16(DTLS_1_3), share, SUPPORTED_VERSIONS);
    FindStep(SUPPORTED_VERSIONS, Put16(DTLS_1_3), share, KEY_SHARE);
    assert share + [] == share;
    FindStep(KEY_SHARE, ShareEntry(key), [], KEY_SHARE);
    TakeFirst(Put16(GROUP_X25519), Vector(2, key), Unsupported);
    assert Vector(2, key) + [] == Vector(2, key);
    TakeVectorFirst(2, key, [], Unsupported, Unsupported);
  }

  lemma ServerExtensionsLen(key: Bytes32)
    ensures |ShareEntry(key)| == 36 && |ServerExtensions(key)| == 46
  {
  }

  /** What the server writes, the client reads. */
  lemma ServerHelloRoundTrip(random: Bytes32, key: Bytes32)
    ensures ParseServerHello(ServerHelloBody(random, key)) == Ok(ServerHello(random, CHACHA20_POLY1305_SHA256, key))
  {
    hide Vector, TakeVector, Take, Get16, Put16, ServerExtensions, ParseServerExtensions;
    ServerExtensionsParse(key);
    var suite := Put16(CHACHA20_POLY1305_SHA256);
    var block := Vector(2, ServerExtensions(key));
    var e := suite + ([0] + block);
    assert ServerHelloBody(random, key) == Put16(LEGACY_VERSION) + (random + (Vector(1, []) + e));
    TakeFirst(Put16(LEGACY_VERSION), random + (Vector(1, []) + e), Truncated);
    TakeFirst(random, Vector(1, []) + e, Truncated);
    TakeVectorFirst(1, [], e, Truncated, Truncated);
    TakeFirst(suite, [0] + block, Truncated);
    TakeFirst([0], block, Truncated);
    assert block + [] == block;
    TakeVectorFirst(2, ServerExtensions(key), [], Truncated, BadLength);
  }

  // ----- ClientHello parsing

  datatype ClientHello = ClientHello(random: Bytes, key: Bytes)

  /** Whether a list of 16-bit values contains v. */
  function Contains16(list: Bytes, v: uint16): bool
    requires |list| % 2 == 0
    decreases |list|
  {
    if |list| == 0 then false else Get16(list, 0) == v || Contains16(list[2..], v)
  }

  function ParseSuites(list: Bytes): Result<()> {
    if |list| % 2 != 0 then Err(BadLength)
    else if !Contains16(list, CHACHA20_POLY1305_SHA256) then Err(Unsupported)
    else Ok(())
  }

  function ParseVersions(data: Bytes): Result<()> {
    if |data| < 1 || data[0] as int + 1 != |data| || data[0] % 2 != 0 then Err(Unsupported)
    else if !Contains16(data[1..], DTLS_1_3) then Err(Unsupported)
    else Ok(())
  }

  /** The last x25519 entry of the list; one malformed entry spoils the list. */
  function LastShare(list: Bytes, found: Option<Bytes>): Result<Option<Bytes>>
    decreases |list|
  {
    if |list| == 0 then Ok(found)
    else
      var group :- Take(list, 2, Unsupported);
      var key :- TakeVector(group.tail, 2, Unsupported, Unsupported);
      LastShare(key.tail, if Get16(group.head, 0) == GROUP_X25519 && |key.head| == 32 then Some(key.head) else found)
  }

  function ParseClientShare(data: Bytes): Result<Bytes> {
    var list :- TakeVector(data, 2, Unsupported, Unsupported);
    var share :- LastShare(list.head, None);
    match share
    case None => Err(Unsupported)
    case Some(key) => Ok(key)
  }

  function ParseClientExtensions(block: Bytes): Result<Bytes> {
    match Find(block, SUPPORTED_VERSIONS)
    case None => Err(Unsupported)
    case Some(versions) =>
      var _ :- ParseVersions(versions);
      match Find(block, KEY_SHARE)
      case None => Err(Unsupported)
      case Some(data) => ParseClientShare(data)
  }

  function ParseClientHello(buf: Bytes): Result<ClientHello> {
    var version :- Take(buf, 2, Truncated);
    var random :- Take(version.tail, 32, Truncated);
    var sessionId :- TakeVector(random.tail, 1, Truncated, Truncated);
    var cookie :- TakeVector(sessionId.tail, 1, Truncated, Truncated);
    var suites :- TakeVector(cookie.tail, 2, Truncated, BadLength);
    var _ :- ParseSuites(suites.head);
    var compression :- TakeVector(suites.tail, 1, Truncated, Truncated);
    var block :- TakeVector(compression.tail, 2, Truncated, BadLength);
    var key :- ParseClientExtensions(block.head);
    Ok(ClientHello(random.head, key))
  }

  /** The verdict on a list of which a part has been read. */
  ghost function Verdict(rest: Bytes, found: bool): Result<()> {
    if |rest| % 2 != 0 then Err(BadLength)
    else if !found && !Contains16(rest, CHACHA20_POLY1305_SHA256) then Err(Unsupported)
    else Ok(())
  }

  method ReadSuites(list: Bytes) returns (r: Result<()>)
    ensures r == ParseSuites(list)
  {
    hide Get16, Take, Verdict;
    var reader := new Reader(list);
    var found := false;
    VerdictStart(list);
    while reader.pos < |list|
      invariant reader.Valid() && fresh(reader) && reader.buf == list
      invariant Verdict(reader.Rest(), found) == ParseSuites(list)
      decreases |list| - reader.pos
    {
      VerdictStep(reader.Rest(), found);
      var suite := reader.View(2, BadLength);
      if suite.Err? {
        return Err(suite.status);
      }
      if Get16(suite.value, 0) == CHACHA20_POLY1305_SHA256 {
        found := true;
      }
    }
    assert reader.Rest() == [];
    VerdictEnd(found);
    if !found {
      return Err(Unsupported);
    }
    return Ok(());
  }

  lemma VerdictStart(list: Bytes)
    ensures Verdict(list, false) == ParseSuites(list)
  {
  }

  lemma VerdictEnd(found: bool)
    ensures Verdict([], found) == if found then Ok(()) else Err(Unsupported)
  {
  }

  lemma VerdictStep(rest: Bytes, found: bool)
    requires |rest| > 0
    ensures match Take(rest, 2, BadLength)
            case Err(e) => Verdict(rest, found) == Err(e)
            case Ok(s) => Verdict(rest, found) == Verdict(s.tail, found || Get16(s.head, 0) == CHACHA20_POLY1305_SHA256)
  {
  }

  method ReadVersions(data: Bytes) returns (r: Result<()>)
    ensures r == ParseVersions(data)
  {
    hide Get16;
    if |data| < 1 {
      return Err(Unsupported);
    }
    var listLen := data[0];
    if listLen as int + 1 != |data| || listLen % 2 != 0 {
      return Err(Unsupported);
    }
    var found := false;
    var i := 1;
    while i + 1 < |data|
      invariant 1 <= i <= |data| && i % 2 == 1
      invariant Contains16(data[1..], DTLS_1_3) <==> found || Contains16(data[i..], DTLS_1_3)
    {
      SameField(data, i);
      if Get16(data, i) == DTLS_1_3 {
        found := true;
      }
      assert data[i..][2..] == data[i + 2..];
      i := i + 2;
    }
    if !found {
      return Err(Unsupported);
    }
    return Ok(());
  }

  lemma SameField(data: Bytes, i: nat)
    requires i + 2 <= |data|
    ensures Get16(data, i) == Get16(data[i..], 0)
  {
  }

  datatype Share = Share(group: uint16, key: Bytes)

  /** The next entry of a share list. */
  method ReadShare(reader: Reader) returns (r: Result<Share>)
    requires reader.Valid()
    modifies reader
    ensures reader.Valid()
    ensures match Take(old(reader.Rest()), 2, Unsupported)
            case Err(e) => r == Err(e)
            case Ok(group) =>
              match TakeVector(group.tail, 2, Unsupported, Unsupported)
              case Err(e) => r == Err(e)
              case Ok(key) => && r == Ok(Share(Get16(group.head, 0), key.head)) && reader.Rest() == key.tail
                              && reader.pos > old(reader.pos)
  {
    hide Get16, Take, TakeVector;
    var group :- reader.View(2, Unsupported);
    var key :- reader.ViewVector(2, Unsupported, Unsupported);
    return Ok(Share(Get16(group, 0), key));
  }

  method ReadLastShare(list: Bytes) returns (r: Result<Option<Bytes>>)
    ensures r == LastShare(list, None)
  {
    hide Get16, Take, TakeVector, LastShare;
    var reader := new Reader(list);
    var found: Option<Bytes> := None;
    while reader.pos < |list|
      invariant reader.Valid() && fresh(reader) && reader.buf == list
      invariant LastShare(reader.Rest(), found) == LastShare(list, None)
      decreases |list| - reader.pos
    {
      ghost var rest := reader.Rest();
      var entry := ReadShare(reader);
      LastShareUnfold(rest, found);
      if entry.Err? {
        return Err(entry.status);
      }
      if entry.value.group == GROUP_X25519 && |entry.value.key| == 32 {
        found := Some(entry.value.key);
      }
    }
    assert reader.Rest() == [];
    LastShareEnd(found);
    return Ok(found);
  }

  lemma LastShareEnd(found: Option<Bytes>)
    ensures LastShare([], found) == Ok(found)
  {
  }

  lemma LastShareUnfold(list: Bytes, found: Option<Bytes>)
    requires |list| > 0
    ensures var group := Take(list, 2, Unsupported);
            if group.Err? then LastShare(list, found) == Err(group.status)
            else
              var key := TakeVector(group.value.tail, 2, Unsupported, Unsupported);
              if key.Err? then LastShare(list, found) == Err(key.status)
              else
                var here := Get16(group.value.head, 0) == GROUP_X25519 && |key.value.head| == 32;
                LastShare(list, found) == LastShare(key.value.tail, if here then Some(key.value.head) else found)
  {
    hide Take, TakeVector, Get16;
  }

  method ReadClientExtensions(block: Bytes) returns (r: Result<Bytes>)
    ensures r == ParseClientExtensions(block)
  {
    hide Find, Get16, Take, TakeVector, ParseVersions, LastShare;
    var versions := FindExtension(block, SUPPORTED_VERSIONS);
    if versions.None? {
      return Err(Unsupported);
    }
    var _ :- ReadVersions(versions.value);
    var data := FindExtension(block, KEY_SHARE);
    if data.None? {
      return Err(Unsupported);
    }
    var reader := new Reader(data.value);
    var list :- reader.ViewVector(2, Unsupported, Unsupported);
    var share :- ReadLastShare(list);
    if share.None? {
      return Err(Unsupported);
    }
    return Ok(share.value);
  }

  method ReadClientHello(buf: Bytes) returns (r: Result<ClientHello>)
    ensures r == ParseClientHello(buf)
  {
    hide Get16, Take, TakeVector, ParseClientExtensions, ParseSuites;
    var reader := new Reader(buf);
    var version :- reader.View(2, Truncated);
    var random :- reader.View(32, Truncated);
    var sessionId :- reader.ViewVector(1, Truncated, Truncated);
    var cookie :- reader.ViewVector(1, Truncated, Truncated);
    var suites :- reader.ViewVector(2, Truncated, BadLength);
    var _ :- ReadSuites(suites);
    var compression :- reader.ViewVector(1, Truncated, Truncated);
    var block :- reader.ViewVector(2, Truncated, BadLength);
    var key :- ReadClientExtensions(block);
    return Ok(ClientHello(random, key));
  }

  lemma ClientExtensionsLen(key: Bytes32)
    ensures |ShareEntry(key)| == 36 && |SignatureSchemes()| == 6 && |ClientExtensions(key)| == 69
  {
  }

  lemma OnlyShare(key: Bytes32)
    ensures LastShare(ShareEntry(key), None) == Ok(Some(key))
  {
    hide Vector, TakeVector, Take, Get16, Put16;
    TakeFirst(Put16(GROUP_X25519), Vector(2, key), Unsupported);
    assert Vector(2, key) + [] == Vector(2, key);
    TakeVectorFirst(2, key, [], Unsupported, Unsupported);
  }

  lemma ClientShareParses(key: Bytes32)
    ensures ParseClientShare(Vector(2, ShareEntry(key))) == Ok(key)
  {
    hide Vector, TakeVector, LastShare;
    ClientExtensionsLen(key);
    assert Vector(2, ShareEntry(key)) + [] == Vector(2, ShareEntry(key));
    TakeVectorFirst(2, ShareEntry(key), [], Unsupported, Unsupported);
    OnlyShare(key);
  }

  lemma OneValue(v: uint16)
    ensures Contains16(Put16(v), v)
  {
  }

  lemma VersionsParse()
    ensures ParseVersions(Vector(1, Put16(DTLS_1_3))) == Ok(())
  {
    hide Contains16, Put16;
    OneValue(DTLS_1_3);
    assert Vector(1, Put16(DTLS_1_3))[1..] == Put16(DTLS_1_3);
  }

  lemma ClientExtensionsParse(key: Bytes32)
    ensures |ClientExtensions(key)| < 0x1_0000 && ParseClientExtensions(ClientExtensions(key)) == Ok(key)
  {
    hide Find, Vector, TakeVector, Take, Get16, Put16, Extension, ParseClientShare, ParseVersions, ShareEntry,
         SignatureSchemes;
    ClientExtensionsLen(key);
    var v, g, k := Vector(1, Put16(DTLS_1_3)), Vector(2, Put16(GROUP_X25519)), Vector(2, ShareEntry(key));
    var last := Extension(SIGNATURE_ALGORITHMS, Vector(2, SignatureSchemes()));
    var shares := Extension(KEY_SHARE, k) + last;
    var groups := Extension(SUPPORTED_GROUPS, g) + shares;
    assert ClientExtensions(key) == Extension(SUPPORTED_VERSIONS, v) + groups;
    FindStep(SUPPORTED_VERSIONS, v, groups, SUPPORTED_VERSIONS);
    FindStep(SUPPORTED_VERSIONS, v, groups, KEY_SHARE);
    FindStep(SUPPORTED_GROUPS, g, shares, KEY_SHARE);
    FindStep(KEY_SHARE, k, last, KEY_SHARE);
    VersionsParse();
    ClientShareParses(key);
  }

  lemma SuitesParse()
    ensures ParseSuites(Put16(CHACHA20_POLY1305_SHA256)) == Ok(())
  {
    OneValue(CHACHA20_POLY1305_SHA256);
  }

  /** What the client writes, the server reads. */
  lemma ClientHelloRoundTrip(random: Bytes32, key: Bytes32)
    ensures ParseClientHello(ClientHelloBody(random, key)) == Ok(ClientHello(random, key))
  {
    hide Vector, TakeVector, Take, Get16, Put16, ClientExtensions, ParseClientExtensions, ParseSuites;
    ClientExtensionsParse(key);
    SuitesParse();
    var suites := Put16(CHACHA20_POLY1305_SHA256);
    var block := Vector(2, ClientExtensions(key));
    var d := Vector(1, [0]) + block;
    var c := Vector(2, suites) + d;
    var b := Vector(1, []) + c;
    var a := Vector(1, []) + b;
    assert ClientHelloBody(random, key) == Put16(LEGACY_VERSION) + (random + a);
    TakeFirst(Put16(LEGACY_VERSION), random + a, Truncated);
    TakeFirst(random, a, Truncated);
    TakeVectorFirst(1, [], b, Truncated, Truncated);
    TakeVectorFirst(1, [], c, Truncated, Truncated);
    TakeVectorFirst(2, suites, d, Truncated, BadLength);
    TakeVectorFirst(1, [0], block, Truncated, Truncated);
    assert block + [] == block;
    TakeVectorFirst(2, ClientExtensions(key), [], Truncated, BadLength);
  }
}
