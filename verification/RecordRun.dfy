/** The sending and receiving objects of src/record_protect.c, and what holds over whole runs of
    them. */
module RecordRun {
  import opened Machine
  import opened Record
  import opened Reconstruct
  import opened ChaCha20
  import opened Aead
  import opened RecordProtect

  // ----- the objects

  class RecordProtection {
    const key: Bytes
    const iv: Iv
    const epoch: uint16
    var next: uint64

    ghost function State(): SendState
      reads this
    {
      SendState(key, iv, next, epoch)
    }

    constructor (key: Bytes, iv: Iv, epoch: uint16)
      ensures State() == SendState(key, iv, 0, epoch)
    {
      this.key, this.iv, this.epoch, next := key, iv, epoch, 0;
    }

    /** Writes one record; the counter moves only when a record was written. */
    method ProtectInto(block: BlockFunction, contentType: uint8, text: Bytes, out: array<uint8>)
      returns (r: Result<nat>)
      modifies this`next, out
      ensures match Protect(block, old(State()), contentType, text, out.Length)
              case Ok(sent) => r == Ok(|sent.record|) && State() == sent.state
                               && |sent.record| <= out.Length && out[..|sent.record|] == sent.record
              case Err(e) => r == Err(e) && State() == old(State()) && out[..] == old(out[..])
    {
      hide Nonce, Seal, FixedHeader;
      if |text| + 1 > MAX_INNER {
        return Err(BadLength);
      }
      var inner := text + [contentType];
      if 5 + |inner| + TAG_LEN > out.Length {
        return Err(BadLength);
      }
      var header := FixedHeader(epoch, next, |inner| + TAG_LEN);
      var nonce := BuildNonce(iv, next);
      var ct, tag := Encrypt(block, key, nonce, header, inner);
      var off := Append(out, 0, header);
      assert out[..off] == header;
      off := Append(out, off, ct);
      off := Append(out, off, tag);
      next := (next as int + 1) % 0x1_0000_0000_0000_0000;
      return Ok(off);
    }
  }

  datatype Message = Message(contentType: uint8, text: Bytes)

  class RecordUnprotection {
    const key: Bytes
    const iv: Iv
    const epoch: uint16
    var highest: Seq48

    ghost function State(): ReadState
      reads this
    {
      ReadState(key, iv, highest, epoch)
    }

    constructor (key: Bytes, iv: Iv, epoch: uint16)
      ensures State() == ReadState(key, iv, 0, epoch)
    {
      this.key, this.iv, this.epoch, highest := key, iv, epoch, 0;
    }

    /** Opens one datagram; every rejection leaves the high mark untouched. */
    method UnprotectFrom(block: BlockFunction, buf: Bytes, cap: nat) returns (r: Result<Message>)
      modifies this`highest
      ensures match Unprotect(block, old(State()), buf, cap)
              case Ok(o) => r == Ok(Message(o.contentType, o.text)) && State() == o.state
              case Err(e) => r == Err(e) && State() == old(State())
    {
      hide Nonce, Open, ParseUnified, Epoch, Sequence, Stripped;
      var parsed := ParseUnified(buf, 0);
      if parsed.Err? {
        return Err(parsed.status);
      }
      var rec := parsed.value;
      var fullEpoch := ReconstructEpoch(epoch, rec.hdr.epochLow2);
      if fullEpoch != epoch {
        return Err(Unsupported);
      }
      var full := ReconstructSequence(highest, rec.hdr.seqno, if rec.hdr.seq16 then 16 else 8);
      SequenceInRange(highest, rec.hdr.seqno, if rec.hdr.seq16 then 0x1_0000 else 0x100);
      if |rec.payload| < TAG_LEN {
        return Err(BadLength);
      }
      var n := |rec.payload| - TAG_LEN;
      if n > MAX_INNER {
        return Err(BadLength);
      }
      var nonce := BuildNonce(iv, full);
      HeaderFits(buf);
      var plain := Decrypt(block, key, nonce, buf[..rec.headerLen], rec.payload[..n], rec.payload[n..]);
      if plain.Err? {
        return Err(plain.status);
      }
      var inner := plain.value;
      var i := Strip(inner);
      if i == 0 {
        return Err(BadArg);
      }
      if i - 1 > cap {
        return Err(BadLength);
      }
      if full > highest {
        highest := full;
      }
      return Ok(Message(inner[i - 1], inner[..i - 1]));
    }
  }

  lemma HeaderFits(buf: Bytes)
    ensures ParseUnified(buf, 0).Ok? ==> ParseUnified(buf, 0).value.headerLen <= |buf|
  {
  }

  method Strip(inner: Bytes) returns (i: nat)
    ensures i == Stripped(inner)
  {
    i := |inner|;
    assert inner[..i] == inner;
    while i > 0 && inner[i - 1] == 0
      invariant 0 <= i <= |inner| && Stripped(inner[..i]) == Stripped(inner)
    {
      assert inner[..i][..i - 1] == inner[..i - 1];
      i := i - 1;
    }
  }

  // ----- runs

  /** The i-th record of a sender that starts in state s. */
  function Nth(block: BlockFunction, s: SendState, msgs: seq<Message>, i: nat): Bytes
    requires i < |msgs| && s.next + |msgs| <= SEQ_LIMIT
  {
    RecordOf(block, s.(next := s.next + i), msgs[i].contentType, msgs[i].text)
  }

  datatype Flight = Flight(records: seq<Bytes>, state: SendState)

  /** Protecting one message after another. */
  function SendAll(block: BlockFunction, s: SendState, msgs: seq<Message>, cap: nat): Result<Flight>
  {
    if |msgs| == 0 then Ok(Flight([], s))
    else
      var m := msgs[|msgs| - 1];
      var before :- SendAll(block, s, msgs[..|msgs| - 1], cap);
      var sent :- Protect(block, before.state, m.contentType, m.text, cap);
      Ok(Flight(before.records + [sent.record], sent.state))
  }

  /** A sender's run is its records in order, numbered consecutively. */
  lemma {:induction false} SendAllRecords(block: BlockFunction, s: SendState, msgs: seq<Message>, cap: nat)
    requires s.next + |msgs| <= SEQ_LIMIT && SendAll(block, s, msgs, cap).Ok?
    ensures var f := SendAll(block, s, msgs, cap).value;
            && |f.records| == |msgs| && f.state == s.(next := s.next + |msgs|)
            && forall i :: 0 <= i < |msgs| ==> f.records[i] == Nth(block, s, msgs, i)
    decreases |msgs|
  {
    hide RecordOf;
    if |msgs| > 0 {
      SendAllRecords(block, s, msgs[..|msgs| - 1], cap);
    }
  }

  /** What the network hands the receiver: a copy of some record, or anything else. */
  datatype Delivery = Copy(index: nat) | Foreign(datagram: Bytes)

  /** The largest number among a list of deliveries. */
  function High(start: int, first: int, ds: seq<Delivery>): int {
    if |ds| == 0 then start
    else
      var h, d := High(start, first, ds[..|ds| - 1]), ds[|ds| - 1];
      if d.Copy? && first + d.index > h then first + d.index else h
  }

  /** It is an upper bound of the start and of every number delivered, and is one of them. */
  lemma {:induction false} HighIsMaximum(start: int, first: int, ds: seq<Delivery>)
    ensures High(start, first, ds) >= start
    ensures forall d :: d in ds && d.Copy? ==> first + d.index <= High(start, first, ds)
    ensures || High(start, first, ds) == start
            || exists d :: d in ds && d.Copy? && first + d.index == High(start, first, ds)
    decreases |ds|
  {
    if |ds| > 0 {
      var most, d := ds[..|ds| - 1], ds[|ds| - 1];
      HighIsMaximum(start, first, most);
      assert ds == most + [d];
    }
  }

  datatype Received = Received(state: ReadState, outputs: seq<Result<Message>>)

  function Datagram(block: BlockFunction, s: SendState, msgs: seq<Message>, d: Delivery): Bytes
    requires s.next + |msgs| <= SEQ_LIMIT && (d.Copy? ==> d.index < |msgs|)
  {
    if d.Copy? then Nth(block, s, msgs, d.index) else d.datagram
  }

  function ReceiveOne(block: BlockFunction, r: Received, buf: Bytes, cap: nat): (q: Received)
  {
    match Unprotect(block, r.state, buf, cap)
    case Ok(o) => Received(o.state, r.outputs + [Ok(Message(o.contentType, o.text))])
    case Err(e) => Received(r.state, r.outputs + [Err(e)])
  }

  ghost predicate IndicesFit(ds: seq<Delivery>, n: nat) {
    forall k :: 0 <= k < |ds| && ds[k].Copy? ==> ds[k].index < n
  }

  function Receive(block: BlockFunction, s: SendState, u: ReadState, msgs: seq<Message>, ds: seq<Delivery>,
                   cap: nat): (r: Received)
    requires s.next + |msgs| <= SEQ_LIMIT && IndicesFit(ds, |msgs|)
  {
    if |ds| == 0 then Received(u, [])
    else
      ReceiveOne(block, Receive(block, s, u, msgs, ds[..|ds| - 1], cap),
                 Datagram(block, s, msgs, ds[|ds| - 1]), cap)
  }

  /** A message the sender can send and the receiver can hold. */
  ghost predicate Fits(m: Message, cap: nat) {
    m.contentType != 0 && |m.text| + 1 <= MAX_INNER && |m.text| <= cap
  }

  // ----- every run, delivery by delivery

  /** The read state that delivery k meets. */
  ghost function Met(block: BlockFunction, s: SendState, u: ReadState, msgs: seq<Message>,
                     ds: seq<Delivery>, cap: nat, k: nat): ReadState
    requires k <= |ds| && s.next + |msgs| <= SEQ_LIMIT && IndicesFit(ds, |msgs|)
  {
    Receive(block, s, u, msgs, ds[..k], cap).state
  }

  /** The full number the receiver gives a datagram; what is not a unified record has none. */
  ghost function NumberOf(u: ReadState, buf: Bytes): Seq48 {
    match ParseUnified(buf, 0)
    case Ok(rec) => FullSequence(u, rec.hdr)
    case Err(_) => 0
  }

  /** The number the receiver gives delivery k. */
  ghost function Number(block: BlockFunction, s: SendState, u: ReadState, msgs: seq<Message>,
                        ds: seq<Delivery>, cap: nat, k: nat): Seq48
    requires k < |ds| && s.next + |msgs| <= SEQ_LIMIT && IndicesFit(ds, |msgs|)
  {
    NumberOf(Met(block, s, u, msgs, ds, cap, k), Datagram(block, s, msgs, ds[k]))
  }

  /** Delivery k, if it is a copy: its own number is found exactly when it is near enough the high
      mark it meets, and then it opens to its own message. */
  ghost predicate Delivered(block: BlockFunction, s: SendState, u: ReadState, msgs: seq<Message>,
                            ds: seq<Delivery>, cap: nat, outputs: seq<Result<Message>>, k: nat)
    requires k < |ds| && k < |outputs| && s.next + |msgs| <= SEQ_LIMIT && IndicesFit(ds, |msgs|)
  {
    ds[k].Copy? && Fits(msgs[ds[k].index], cap) ==>
      var n := s.next + ds[k].index;
      var near := Recoverable(Met(block, s, u, msgs, ds, cap, k).highest, n, 0x1_0000);
      (Number(block, s, u, msgs, ds, cap, k) == n <==> near) && (near ==> outputs[k] == Ok(msgs[ds[k].index]))
  }

  /** h is the largest of the start and the numbers of the accepted deliveries. */
  ghost predicate IsHighMark(block: BlockFunction, s: SendState, u: ReadState, msgs: seq<Message>,
                             ds: seq<Delivery>, cap: nat, outputs: seq<Result<Message>>, h: int)
    requires |outputs| == |ds| && s.next + |msgs| <= SEQ_LIMIT && IndicesFit(ds, |msgs|)
  {
    && u.highest <= h
    && (forall k :: 0 <= k < |ds| && outputs[k].Ok? ==> Number(block, s, u, msgs, ds, cap, k) <= h)
    && (h == u.highest
        || exists k :: 0 <= k < |ds| && outputs[k].Ok? && Number(block, s, u, msgs, ds, cap, k) == h)
  }

  /** For any order, loss, repetition and interleaving of junk, and for each delivery by itself:
      a copy near enough the high mark it meets opens to exactly its message, whatever became of
      the others; and the high mark is the largest number accepted. */
  lemma {:induction false} DeliveryCorrect(block: BlockFunction, s: SendState, u: ReadState, msgs: seq<Message>,
                                           ds: seq<Delivery>, cap: nat)
    requires u.key == s.key && u.iv == s.iv && u.epoch == s.epoch
    requires s.next + |msgs| <= SEQ_LIMIT && IndicesFit(ds, |msgs|)
    ensures var r := Receive(block, s, u, msgs, ds, cap);
            && r.state == u.(highest := r.state.highest) && |r.outputs| == |ds|
            && (forall k :: 0 <= k < |ds| ==> Delivered(block, s, u, msgs, ds, cap, r.outputs, k))
            && IsHighMark(block, s, u, msgs, ds, cap, r.outputs, r.state.highest)
    decreases |ds|
  {
    hide Unprotect, RecordOf, NumberOf, Delivered, IsHighMark;
    if |ds| == 0 {
      StartsAtMark(block, s, u, msgs, cap);
    } else {
      var n := |ds| - 1;
      var most := ds[..n];
      DeliveryCorrect(block, s, u, msgs, most, cap);
      var before, r := Receive(block, s, u, msgs, most, cap), Receive(block, s, u, msgs, ds, cap);
      AcceptedNumber(block, before.state, Datagram(block, s, msgs, ds[n]), cap);
      forall k | 0 <= k < |ds|
        ensures Delivered(block, s, u, msgs, ds, cap, r.outputs, k)
      {
        if k < n {
          DeliveredStays(block, s, u, msgs, ds, cap, before.outputs, r.outputs, k);
        } else {
          LastDelivered(block, s, u, msgs, ds, cap, r.outputs);
        }
      }
      MarkMoves(block, s, u, msgs, ds, cap, before.outputs, r.outputs, before.state.highest, r.state.highest);
    }
  }

  lemma StartsAtMark(block: BlockFunction, s: SendState, u: ReadState, msgs: seq<Message>, cap: nat)
    requires s.next + |msgs| <= SEQ_LIMIT
    ensures IsHighMark(block, s, u, msgs, [], cap, [], u.highest)
  {
  }

  /** What an accepted datagram does to the read state: its number, if larger, is the new mark. */
  lemma AcceptedNumber(block: BlockFunction, u: ReadState, buf: Bytes, cap: nat)
    ensures var o := Unprotect(block, u, buf, cap);
            o.Ok? ==>
              o.value.state == u.(highest := if NumberOf(u, buf) > u.highest then NumberOf(u, buf) else u.highest)
  {
    hide Open, ParseUnified, Nonce, Stripped, Epoch, Sequence;
  }

  lemma SameNumber(block: BlockFunction, s: SendState, u: ReadState, msgs: seq<Message>,
                   ds: seq<Delivery>, cap: nat, n: nat, k: nat)
    requires k < n <= |ds| && s.next + |msgs| <= SEQ_LIMIT && IndicesFit(ds, |msgs|)
    ensures IndicesFit(ds[..n], |msgs|)
    ensures Met(block, s, u, msgs, ds[..n], cap, k) == Met(block, s, u, msgs, ds, cap, k)
    ensures Number(block, s, u, msgs, ds[..n], cap, k) == Number(block, s, u, msgs, ds, cap, k)
  {
    hide Unprotect, RecordOf, NumberOf;
    assert ds[..n][..k] == ds[..k];
  }

  lemma DeliveredStays(block: BlockFunction, s: SendState, u: ReadState, msgs: seq<Message>, ds: seq<Delivery>,
                       cap: nat, before: seq<Result<Message>>, outputs: seq<Result<Message>>, k: nat)
    requires s.next + |msgs| <= SEQ_LIMIT && IndicesFit(ds, |msgs|) && k < |ds| - 1
    requires |before| == |ds| - 1 && |outputs| == |ds| && outputs[k] == before[k]
    requires Delivered(block, s, u, msgs, ds[..|ds| - 1], cap, before, k)
    ensures Delivered(block, s, u, msgs, ds, cap, outputs, k)
  {
    hide Recoverable, Number, Met;
    SameNumber(block, s, u, msgs, ds, cap, |ds| - 1, k);
  }

  lemma LastDelivered(block: BlockFunction, s: SendState, u: ReadState, msgs: seq<Message>, ds: seq<Delivery>,
                      cap: nat, outputs: seq<Result<Message>>)
    requires u.key == s.key && u.iv == s.iv && u.epoch == s.epoch
    requires s.next + |msgs| <= SEQ_LIMIT && IndicesFit(ds, |msgs|) && |ds| > 0 && |outputs| == |ds|
    requires var met := Met(block, s, u, msgs, ds, cap, |ds| - 1);
             && met == u.(highest := met.highest)
             && outputs[|ds| - 1] == match Unprotect(block, met, Datagram(block, s, msgs, ds[|ds| - 1]), cap)
                                     case Ok(o) => Ok(Message(o.contentType, o.text))
                                     case Err(e) => Err(e)
    ensures Delivered(block, s, u, msgs, ds, cap, outputs, |ds| - 1)
  {
    hide Unprotect, RecordOf, NumberOf, Recoverable, Receive;
    var met, d := Met(block, s, u, msgs, ds, cap, |ds| - 1), ds[|ds| - 1];
    if d.Copy? && Fits(msgs[d.index], cap) {
      var m, w := msgs[d.index], s.(next := s.next + d.index);
      CopyNumber(block, w, met, m);
      if Recoverable(met.highest, w.next, 0x1_0000) {
        UnprotectProtect(block, w, met, m.contentType, m.text, cap);
        assert m == Message(m.contentType, m.text);
      }
    }
  }

  /** A record gets its own number exactly when that is recoverable. */
  lemma CopyNumber(block: BlockFunction, w: SendState, u: ReadState, m: Message)
    requires w.next < SEQ_LIMIT && |m.text| + 1 <= MAX_INNER
    ensures NumberOf(u, RecordOf(block, w, m.contentType, m.text)) == w.next
       <==> Recoverable(u.highest, w.next, 0x1_0000)
  {
    hide Seal, ParseUnified, RecordOf, FixedHeader, Nonce, Recoverable, Sequence;
    RecordParses(block, w, m.contentType, m.text);
    SequenceExact(u.highest, w.next, 0x1_0000);
  }

  lemma MarkMoves(block: BlockFunction, s: SendState, u: ReadState, msgs: seq<Message>, ds: seq<Delivery>, cap: nat,
                  before: seq<Result<Message>>, outputs: seq<Result<Message>>, h: int, h': int)
    requires s.next + |msgs| <= SEQ_LIMIT && IndicesFit(ds, |msgs|) && |ds| > 0
    requires |before| == |ds| - 1 && |outputs| == |ds| && outputs[..|ds| - 1] == before
    requires IsHighMark(block, s, u, msgs, ds[..|ds| - 1], cap, before, h)
    requires var n := Number(block, s, u, msgs, ds, cap, |ds| - 1);
             h' == if outputs[|ds| - 1].Ok? && n > h then n else h
    ensures IsHighMark(block, s, u, msgs, ds, cap, outputs, h')
  {
    hide Number;
    var n := |ds| - 1;
    forall k | 0 <= k < n
      ensures Number(block, s, u, msgs, ds[..n], cap, k) == Number(block, s, u, msgs, ds, cap, k)
      ensures outputs[k] == before[k]
    {
      SameNumber(block, s, u, msgs, ds, cap, n, k);
      assert outputs[..n][k] == outputs[k];
    }
    if h' == h && h != u.highest {
      var k :| 0 <= k < n && before[k].Ok? && Number(block, s, u, msgs, ds[..n], cap, k) == h;
      assert outputs[k].Ok? && Number(block, s, u, msgs, ds, cap, k) == h';
    }
  }

  // ----- runs that are fair throughout

  ghost predicate Sendable(msgs: seq<Message>, cap: nat) {
    forall i :: 0 <= i < |msgs| ==> Fits(msgs[i], cap)
  }

  /** Delivery k is near enough the high mark it meets, or is a datagram the receiver rejects. */
  ghost predicate Fair(block: BlockFunction, s: SendState, u: ReadState, msgs: seq<Message>,
                       ds: seq<Delivery>, cap: nat, k: nat)
    requires k < |ds| && s.next + |msgs| <= SEQ_LIMIT && IndicesFit(ds, |msgs|)
  {
    var h := High(u.highest, s.next, ds[..k]);
    match ds[k]
    case Copy(i) => Recoverable(h, s.next + i, 0x1_0000)
    case Foreign(d) => 0 <= h < SEQ_LIMIT && Unprotect(block, u.(highest := h), d, cap).Err?
  }

  /** When every delivery is fair, every copy opens to its message, nothing else opens, and the high
      mark is the maximum delivered number. */
  lemma {:induction false} FairDelivery(block: BlockFunction, s: SendState, u: ReadState, msgs: seq<Message>,
                                        ds: seq<Delivery>, cap: nat)
    requires u.key == s.key && u.iv == s.iv && u.epoch == s.epoch
    requires s.next + |msgs| <= SEQ_LIMIT && Sendable(msgs, cap) && IndicesFit(ds, |msgs|)
    requires forall k :: 0 <= k < |ds| ==> Fair(block, s, u, msgs, ds, cap, k)
    ensures var r := Receive(block, s, u, msgs, ds, cap);
            && r.state.highest == High(u.highest, s.next, ds) && r.state == u.(highest := r.state.highest)
            && |r.outputs| == |ds|
            && forall k :: 0 <= k < |ds| ==>
                 if ds[k].Copy? then r.outputs[k] == Ok(msgs[ds[k].index]) else r.outputs[k].Err?
    decreases |ds|
  {
    hide Unprotect, RecordOf, Recoverable;
    if |ds| > 0 {
      var n := |ds| - 1;
      var most, d := ds[..n], ds[n];
      forall k | 0 <= k < n
        ensures Fair(block, s, u, msgs, most, cap, k)
      {
        assert Fair(block, s, u, msgs, ds, cap, k);
        assert most[..k] == ds[..k];
      }
      FairDelivery(block, s, u, msgs, most, cap);
      assert Fair(block, s, u, msgs, ds, cap, n);
      LastDelivery(block, s, u.(highest := High(u.highest, s.next, most)), msgs, d, cap);
    }
  }

  lemma LastDelivery(block: BlockFunction, s: SendState, u: ReadState, msgs: seq<Message>, d: Delivery, cap: nat)
    requires u.key == s.key && u.iv == s.iv && u.epoch == s.epoch
    requires s.next + |msgs| <= SEQ_LIMIT && Sendable(msgs, cap)
    requires match d
             case Copy(i) => i < |msgs| && Recoverable(u.highest, s.next + i, 0x1_0000)
             case Foreign(b) => Unprotect(block, u, b, cap).Err?
    ensures var o := Unprotect(block, u, Datagram(block, s, msgs, d), cap);
            match d
            case Copy(i) =>
              var m := msgs[i];
              o == Ok(Opened(m.contentType, m.text,
                             u.(highest := if s.next + i > u.highest then s.next + i else u.highest)))
            case Foreign(b) => o.Err?
  {
    hide Unprotect, RecordOf, Recoverable;
    if d.Copy? {
      var m := msgs[d.index];
      UnprotectProtect(block, s.(next := s.next + d.index), u, m.contentType, m.text, cap);
    }
  }

  /** Within 2^15 of the high mark is near enough. */
  lemma HalfWindowRecoverable(highest: nat, n: nat)
    requires highest < SEQ_LIMIT && n < SEQ_LIMIT && Distance(n, highest) < 0x8000
    ensures Recoverable(highest, n, 0x1_0000)
  {
  }

  /** No two records of a run share a nonce. */
  lemma RunNonces(s: SendState, n: nat, i: nat, j: nat)
    requires s.next + n <= SEQ_LIMIT && i < n && j < n && i != j
    ensures Nonce(s.iv, s.next + i) != Nonce(s.iv, s.next + j)
  {
    hide Nonce;
    if Nonce(s.iv, s.next + i) == Nonce(s.iv, s.next + j) {
      NonceInjective(s.iv, s.next + i, s.next + j);
    }
  }
}
