/** The byte writer and reader that src/handshake/hello.c and src/handshake/messages.c share:
    append, reserve a length and patch it later; and the mirror that takes fields off the front. */
module Codec {
  import opened Machine
  import opened ByteOps
  import opened Wire

  /** Width of a length prefix in bytes. */
  type Width = w: int | 1 <= w <= 3 witness 1

  function Capacity(w: Width): nat {
    if w == 1 then 0x100 else if w == 2 then 0x1_0000 else 0x100_0000
  }

  /** The prefix keeps only the low bits of a length that does not fit it. */
  function Prefix(w: Width, n: nat): (b: Bytes)
    ensures |b| == w
  {
    if w == 1 then [n % 0x100] else if w == 2 then Put16(n) else Put24(n)
  }

  function Number(b: Bytes): nat
    requires 1 <= |b| <= 3
  {
    if |b| == 1 then b[0] else if |b| == 2 then Get16(b, 0) else Get24(b, 0)
  }

  lemma NumberPrefix(w: Width, n: nat)
    ensures Number(Prefix(w, n)) == n % Capacity(w)
  {
    hide Get16, Get24, Put16, Put24;
  }

  function Vector(w: Width, body: Bytes): (b: Bytes)
    ensures |b| == w + |body|
  {
    Prefix(w, |body|) + body
  }

  // ----- writing

  datatype Buffer = Overflowed | Holding(bytes: Bytes)

  function Put(s: Buffer, cap: nat, data: Bytes): Buffer {
    if s.Overflowed? || |s.bytes| + |data| > cap then Overflowed else Holding(s.bytes + data)
  }

  /** Overwrites the w bytes at pos with the length of everything after them. */
  function Patched(s: Buffer, pos: nat, w: Width): Buffer
    requires s.Holding? ==> pos + w <= |s.bytes|
  {
    if s.Overflowed? then s
    else Holding(s.bytes[..pos] + Prefix(w, |s.bytes| - pos - w) + s.bytes[pos + w..])
  }

  lemma PutPut(s: Buffer, cap: nat, a: Bytes, b: Bytes)
    ensures Put(Put(s, cap, a), cap, b) == Put(s, cap, a + b)
  {
    if s.Holding? {
      assert s.bytes + a + b == s.bytes + (a + b);
    }
  }

  lemma PutNothing(s: Buffer, cap: nat)
    ensures s.Overflowed? || |s.bytes| <= cap ==> Put(s, cap, []) == s
  {
  }

  lemma PutFirst(cap: nat, data: Bytes)
    ensures Put(Holding([]), cap, data) == if |data| > cap then Overflowed else Holding(data)
  {
    assert [] + data == data;
  }

  /** Reserving, writing a body and patching is writing the body behind its length. */
  lemma PatchIsVector(s: Buffer, cap: nat, pos: nat, w: Width, body: Bytes)
    requires s.Holding? ==> pos == |s.bytes|
    ensures var t := Put(Put(s, cap, Zeros(w)), cap, body);
            && (t.Holding? ==> pos + w <= |t.bytes|)
            && Patched(t, pos, w) == Put(s, cap, Vector(w, body))
  {
    hide Prefix;
    var t := Put(Put(s, cap, Zeros(w)), cap, body);
    if t.Holding? {
      assert t.bytes[..pos] == s.bytes && t.bytes[pos + w..] == body;
      assert s.bytes + Prefix(w, |body|) + body == s.bytes + Vector(w, body);
    }
  }

  method Overwrite(buf: array<uint8>, pos: nat, data: Bytes, ghost len: nat)
    requires pos + |data| <= len <= buf.Length
    modifies buf
    ensures buf[..len] == old(buf[..len])[..pos] + data + old(buf[..len])[pos + |data|..]
  {
    forall i | 0 <= i < |data| {
      buf[pos + i] := data[i];
    }
  }

  class Writer {
    const buf: array<uint8>
    var len: nat
    var overflow: bool

    ghost predicate Valid()
      reads this
    {
      len <= buf.Length
    }

    ghost function State(): Buffer
      requires Valid()
      reads this, buf
    {
      if overflow then Overflowed else Holding(buf[..len])
    }

    constructor (cap: nat)
      ensures Valid() && fresh(buf) && buf.Length == cap && len == 0 && State() == Holding([])
    {
      buf := new uint8[cap];
      len, overflow := 0, false;
    }

    method WriteBytes(data: Bytes)
      requires Valid()
      modifies this, buf
      ensures Valid() && State() == Put(old(State()), buf.Length, data)
    {
      if overflow || len + |data| > buf.Length {
        overflow := true;
        return;
      }
      forall i | 0 <= i < |data| {
        buf[len + i] := data[i];
      }
      assert buf[..len] == old(buf[..len]);
      assert buf[len..len + |data|] == data;
      assert buf[..len + |data|] == buf[..len] + buf[len..len + |data|];
      len := len + |data|;
    }

    method WriteU8(v: uint8)
      requires Valid()
      modifies this, buf
      ensures Valid() && State() == Put(old(State()), buf.Length, [v])
    {
      WriteBytes([v]);
    }

    method WriteU16(v: uint16)
      requires Valid()
      modifies this, buf
      ensures Valid() && State() == Put(old(State()), buf.Length, Put16(v))
    {
      WriteBytes(Put16(v));
    }

    method Reserve(w: Width) returns (pos: nat)
      requires Valid()
      modifies this, buf
      ensures Valid() && State() == Put(old(State()), buf.Length, Zeros(w))
      ensures pos == old(len)
    {
      pos := len;
      WriteBytes(Zeros(w));
    }

    method Patch(pos: nat, w: Width)
      requires Valid() && (!overflow ==> pos + w <= len)
      modifies buf
      ensures Valid() && State() == Patched(old(State()), pos, w)
    {
      if overflow {
        return;
      }
      hide Prefix;
      Overwrite(buf, pos, Prefix(w, len - pos - w), len);
    }

    method Finish() returns (r: Result<Bytes>)
      requires Valid()
      ensures r == (if State().Overflowed? then Err(BadLength) else Ok(State().bytes))
    {
      if overflow {
        return Err(BadLength);
      }
      return Ok(buf[..len]);
    }
  }

  // ----- reading

  datatype Split = Split(head: Bytes, tail: Bytes)

  function Take(b: Bytes, n: nat, e: Status): (r: Result<Split>)
    ensures r.Ok? ==> b == r.value.head + r.value.tail && |r.value.head| == n
  {
    if n > |b| then Err(e) else Ok(Split(b[..n], b[n..]))
  }

  /** A length-prefixed field; the two ways it can fail have their own status. */
  function TakeVector(b: Bytes, w: Width, noLength: Status, noBody: Status): (r: Result<Split>)
    ensures r.Ok? ==> |b| == w + |r.value.head| + |r.value.tail|
  {
    var l :- Take(b, w, noLength);
    Take(l.tail, Number(l.head), noBody)
  }

  lemma TakeFirst(x: Bytes, rest: Bytes, e: Status)
    ensures Take(x + rest, |x|, e) == Ok(Split(x, rest))
  {
    assert (x + rest)[..|x|] == x && (x + rest)[|x|..] == rest;
  }

  lemma TakeVectorFirst(w: Width, body: Bytes, rest: Bytes, e: Status, f: Status)
    requires |body| < Capacity(w)
    ensures TakeVector(Vector(w, body) + rest, w, e, f) == Ok(Split(body, rest))
  {
    hide Prefix, Number;
    var p := Prefix(w, |body|);
    assert Vector(w, body) + rest == p + (body + rest);
    TakeFirst(p, body + rest, e);
    NumberPrefix(w, |body|);
    TakeFirst(body, rest, f);
  }

  class Reader {
    const buf: Bytes
    var pos: nat

    ghost predicate Valid()
      reads this
    {
      pos <= |buf|
    }

    ghost function Rest(): Bytes
      requires Valid()
      reads this
    {
      buf[pos..]
    }

    constructor (b: Bytes)
      ensures Valid() && buf == b && Rest() == b
    {
      buf := b;
      pos := 0;
    }

    method View(n: nat, e: Status) returns (r: Result<Bytes>)
      requires Valid()
      modifies this
      ensures Valid()
      ensures match Take(old(Rest()), n, e)
              case Ok(s) => r == Ok(s.head) && Rest() == s.tail && pos == old(pos) + n
              case Err(x) => r == Err(x) && Rest() == old(Rest())
    {
      if pos + n > |buf| {
        return Err(e);
      }
      var out := buf[pos..pos + n];
      assert out == buf[pos..][..n];
      pos := pos + n;
      return Ok(out);
    }

    /** A length field, then that many bytes. */
    method ViewVector(w: Width, noLength: Status, noBody: Status) returns (r: Result<Bytes>)
      requires Valid()
      modifies this
      ensures Valid()
      ensures match TakeVector(old(Rest()), w, noLength, noBody)
              case Ok(s) => r == Ok(s.head) && Rest() == s.tail && pos == old(pos) + w + |s.head|
              case Err(x) => r == Err(x)
    {
      hide Number;
      var l :- View(w, noLength);
      r := View(Number(l), noBody);
    }
  }
}
