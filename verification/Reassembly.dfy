/** Out-of-order reassembly of handshake messages (section 5.5 of RFC 9147): src/reassembly.c. */
module Reassembly {
  import opened Machine
  import opened HandshakeHeader

  const MAX_LEN: nat := 4096

  // ----- values

  /** `got` holds the bytes received so far, by position. */
  datatype State = Idle | Collecting(msgType: uint8, messageSeq: uint16, total: nat, got: map<int, uint8>)

  function Overlay(got: map<int, uint8>, offset: nat, body: Bytes): map<int, uint8> {
    got + map i | offset <= i < offset + |body| :: ByteAt(body, offset, i)
  }

  function ByteAt(body: Bytes, offset: int, i: int): uint8
    requires offset <= i < offset + |body|
  {
    body[i - offset]
  }

  function Add(st: State, f: Fragment): Result<State> {
    if f.hdr.length > MAX_LEN then Err(BadLength)
    else if f.hdr.fragmentOffset + |f.body| > f.hdr.length then Err(BadLength)
    else match st
      case Idle =>
        Ok(Collecting(f.hdr.msgType, f.hdr.messageSeq, f.hdr.length, Overlay(map[], f.hdr.fragmentOffset, f.body)))
      case Collecting(t, q, total, got) =>
        if f.hdr.msgType != t || f.hdr.messageSeq != q then Err(Unsupported)
        else if f.hdr.length != total then Err(BadLength)
        else Ok(Collecting(t, q, total, Overlay(got, f.hdr.fragmentOffset, f.body)))
  }

  /** Which fragments are taken, and what taking one does: it names the message if it is the first,
      its own positions hold its own bytes whatever was there, and no other position changes. */
  lemma AddMeans(st: State, f: Fragment)
    ensures Add(st, f).Ok? <==>
              && f.hdr.length <= 4096 && f.hdr.fragmentOffset + |f.body| <= f.hdr.length
              && (st.Collecting? ==>
                    st.msgType == f.hdr.msgType && st.messageSeq == f.hdr.messageSeq && st.total == f.hdr.length)
    ensures Add(st, f).Ok? ==>
              && var t, o, n := Add(st, f).value, f.hdr.fragmentOffset, |f.body|;
              && t.Collecting? && t.msgType == f.hdr.msgType && t.messageSeq == f.hdr.messageSeq
              && t.total == f.hdr.length
              && (forall i :: o <= i < o + n ==> i in t.got && t.got[i] == f.body[i - o])
              && (forall i :: !(o <= i < o + n) ==> (i in t.got <==> st.Collecting? && i in st.got))
              && (forall i :: !(o <= i < o + n) && i in t.got ==> t.got[i] == st.got[i])
  {
  }

  ghost predicate Complete(st: State) {
    st.Collecting? && forall i :: 0 <= i < st.total ==> i in st.got
  }

  // ----- the end of a fragment in 32 bits

  /** The sum the code compares with the message's length. */
  function End32(hdr: Header): uint32 {
    (hdr.fragmentOffset as int + hdr.fragmentLength) % 0x1_0000_0000
  }

  /** The comparison in 32 bits is the comparison of the true numbers. */
  ghost predicate EndExact(hdr: Header) {
    End32(hdr) <= hdr.length <==> hdr.fragmentOffset as int + hdr.fragmentLength <= hdr.length
  }

  /** It is, unless the sum wraps to something no longer than the message; that takes lengths of
      more than the 24 bits a parsed header has. */
  lemma EndExactIff(hdr: Header)
    ensures var end := hdr.fragmentOffset as int + hdr.fragmentLength;
            EndExact(hdr) <==> end < 0x1_0000_0000 || end - 0x1_0000_0000 > hdr.length
    ensures WireSized(hdr) ==> EndExact(hdr)
  {
  }

  /** A header whose end wraps to zero passes the comparison although nothing of it fits. */
  lemma EndWraps()
    ensures !EndExact(Header(1, 0, 0, 0xFFFF_FFFF, 1))
  {
  }

  // ----- the object

  class Reassembler {
    const buf: array<uint8>
    const received: array<bool>
    var totalLen: nat
    var totalLenKnown: bool
    var msgType: uint8
    var messageSeq: uint16
    var inProgress: bool

    ghost predicate Valid()
      reads this
    {
      buf.Length == MAX_LEN && received.Length == MAX_LEN && totalLen <= MAX_LEN && (inProgress ==> totalLenKnown)
    }

    ghost function View(): State
      requires Valid()
      reads this, buf, received
    {
      if inProgress then
        Collecting(msgType, messageSeq, totalLen, map i | 0 <= i < totalLen && received[i] :: buf[i])
      else Idle
    }

    constructor ()
      ensures Valid() && fresh(buf) && fresh(received) && View() == Idle
    {
      buf := new uint8[MAX_LEN];
      received := new bool[MAX_LEN](_ => false);
      totalLen, totalLenKnown, msgType, messageSeq, inProgress := 0, false, 0, 0, false;
    }

    /** A rejected fragment changes nothing. */
    method AddFragment(f: Fragment) returns (r: Result<()>)
      requires Valid() && EndExact(f.hdr) && f.hdr.fragmentLength == |f.body|
      modifies this, buf, received
      ensures Valid()
      ensures match Add(old(View()), f)
              case Ok(s) => r == Ok(()) && View() == s
              case Err(e) => r == Err(e) && View() == old(View()) && unchanged(this, buf, received)
    {
      if f.hdr.length > MAX_LEN {
        return Err(BadLength);
      }
      var end: uint32 := End32(f.hdr);
      if end > f.hdr.length {
        return Err(BadLength);
      }
      if !inProgress {
        msgType := f.hdr.msgType;
        messageSeq := f.hdr.messageSeq;
        totalLen := f.hdr.length;
        totalLenKnown := true;
        inProgress := true;
        forall i | 0 <= i < totalLen {
          received[i] := false;
        }
        assert View().got == map[];
      } else if f.hdr.msgType != msgType || f.hdr.messageSeq != messageSeq {
        return Err(Unsupported);
      } else if f.hdr.length != totalLen {
        return Err(BadLength);
      }
      Store(f.hdr.fragmentOffset, f.body);
      return Ok(());
    }

    method Store(offset: nat, body: Bytes)
      requires Valid() && inProgress && offset + |body| <= totalLen
      modifies buf, received
      ensures old(View()).Collecting? && View() == old(View()).(got := Overlay(old(View().got), offset, body))
    {
      forall i | 0 <= i < |body| {
        buf[offset + i] := body[i];
      }
      forall i | 0 <= i < |body| {
        received[offset + i] := true;
      }
    }

    method IsComplete() returns (done: bool)
      requires Valid()
      ensures done <==> Complete(View())
      ensures done ==>
                && |Contents()| == View().total
                && forall i :: 0 <= i < View().total ==> Contents()[i] == View().got[i]
    {
      if !inProgress || !totalLenKnown {
        return false;
      }
      for i := 0 to totalLen
        invariant forall k :: 0 <= k < i ==> received[k]
      {
        if !received[i] {
          assert i !in View().got;
          return false;
        }
      }
      return true;
    }

    ghost function Contents(): Bytes
      requires Valid()
      reads this, buf
    {
      buf[..totalLen]
    }
  }

  // ----- one message, cut up

  /** f is a piece of msg, sent under type t and number q. */
  ghost predicate Cut(f: Fragment, t: uint8, q: uint16, msg: Bytes) {
    && f.hdr.msgType == t && f.hdr.messageSeq == q && f.hdr.length == |msg|
    && f.hdr.fragmentOffset + |f.body| <= |msg|
    && f.body == msg[f.hdr.fragmentOffset..f.hdr.fragmentOffset + |f.body|]
  }

  /** f belongs to another message or is malformed. */
  ghost predicate Alien(f: Fragment, t: uint8, q: uint16, n: nat) {
    || f.hdr.length > MAX_LEN || f.hdr.fragmentOffset + |f.body| > f.hdr.length
    || f.hdr.msgType != t || f.hdr.messageSeq != q || f.hdr.length != n
  }

  /** A run: rejected fragments are dropped. */
  function Feed(st: State, fs: seq<Fragment>): State {
    if |fs| == 0 then st
    else
      var before := Feed(st, fs[..|fs| - 1]);
      match Add(before, fs[|fs| - 1])
      case Ok(s) => s
      case Err(_) => before
  }

  ghost predicate Covers(f: Fragment, i: int) {
    f.hdr.fragmentOffset <= i < f.hdr.fragmentOffset + |f.body|
  }

  /** Position i of msg lies in some piece of it among fs. */
  ghost predicate Covered(fs: seq<Fragment>, t: uint8, q: uint16, msg: Bytes, i: int) {
    exists k :: 0 <= k < |fs| && Cut(fs[k], t, q, msg) && Covers(fs[k], i)
  }

  /** No fragment of fs can start a message. */
  ghost predicate Unstarted(fs: seq<Fragment>) {
    forall k :: 0 <= k < |fs| ==> Add(Idle, fs[k]).Err?
  }

  /** The first fragment that can start a message is a piece of this one. */
  ghost predicate Latches(fs: seq<Fragment>, t: uint8, q: uint16, msg: Bytes) {
    exists j :: 0 <= j < |fs| && Unstarted(fs[..j]) && Add(Idle, fs[j]).Ok? && Cut(fs[j], t, q, msg)
  }

  ghost predicate Names(st: State, t: uint8, q: uint16, n: nat) {
    st.Collecting? && st.msgType == t && st.messageSeq == q && st.total == n
  }

  /** The state holds exactly the covered positions of msg, each with its byte. */
  ghost predicate Collected(st: State, fs: seq<Fragment>, t: uint8, q: uint16, msg: Bytes) {
    && Names(st, t, q, |msg|)
    && (forall i :: i in st.got <==> Covered(fs, t, q, msg, i))
    && (forall i :: i in st.got ==> 0 <= i < |msg| && st.got[i] == msg[i])
  }

  /** In any order, with any overlap and repetition and any alien fragments in between: the
      message is collected if and only if it is a piece of it that starts the reassembly. */
  lemma {:induction false} FeedCollects(fs: seq<Fragment>, t: uint8, q: uint16, msg: Bytes)
    requires |msg| <= MAX_LEN
    requires forall k :: 0 <= k < |fs| ==> Cut(fs[k], t, q, msg) || Alien(fs[k], t, q, |msg|)
    ensures var s := Feed(Idle, fs);
            && (Latches(fs, t, q, msg) ==> Collected(s, fs, t, q, msg))
            && (!Latches(fs, t, q, msg) ==> !Names(s, t, q, |msg|))
            && (s.Idle? <==> Unstarted(fs))
    decreases |fs|
  {
    hide Add, Cut, Alien, Covered, Latches;
    if |fs| == 0 {
      NeverLatched(t, q, msg);
    } else {
      var n := |fs| - 1;
      var most, f := fs[..n], fs[n];
      assert fs == most + [f];
      FeedCollects(most, t, q, msg);
      CoveredStep(most, f, t, q, msg);
      LatchStep(most, f, t, q, msg);
      UnstartedStep(most, f);
      var s := Feed(Idle, most);
      if s.Idle? {
        if Cut(f, t, q, msg) {
          FirstPiece(f, t, q, msg);
          NothingCovered(most, t, q, msg);
        } else {
          ForeignPiece(f, t, q, msg);
        }
      } else if Latches(most, t, q, msg) {
        NextPiece(s, f, t, q, msg);
      } else {
        NamesStay(s, f);
      }
    }
  }

  lemma NeverLatched(t: uint8, q: uint16, msg: Bytes)
    ensures !Latches([], t, q, msg)
  {
  }

  lemma UnstartedStep(fs: seq<Fragment>, f: Fragment)
    ensures Unstarted(fs + [f]) <==> Unstarted(fs) && Add(Idle, f).Err?
  {
    hide Add;
    var all := fs + [f];
    assert all[|fs|] == f && forall k :: 0 <= k < |fs| ==> all[k] == fs[k];
  }

  lemma LatchStep(fs: seq<Fragment>, f: Fragment, t: uint8, q: uint16, msg: Bytes)
    requires |msg| <= MAX_LEN
    ensures Latches(fs + [f], t, q, msg) <==> Latches(fs, t, q, msg) || (Unstarted(fs) && Cut(f, t, q, msg))
  {
    hide Add, Unstarted, Cut;
    var all := fs + [f];
    if Latches(fs, t, q, msg) {
      var j :| 0 <= j < |fs| && Unstarted(fs[..j]) && Add(Idle, fs[j]).Ok? && Cut(fs[j], t, q, msg);
      assert all[..j] == fs[..j] && all[j] == fs[j];
    }
    if Unstarted(fs) && Cut(f, t, q, msg) {
      FirstPiece(f, t, q, msg);
      assert all[..|fs|] == fs && all[|fs|] == f;
    }
    if Latches(all, t, q, msg) {
      var j :| 0 <= j < |all| && Unstarted(all[..j]) && Add(Idle, all[j]).Ok? && Cut(all[j], t, q, msg);
      if j < |fs| {
        assert all[..j] == fs[..j] && all[j] == fs[j];
      } else {
        assert all[..j] == fs;
      }
    }
  }

  /** A piece of the message always can start it, so nothing of it came before. */
  lemma NothingCovered(fs: seq<Fragment>, t: uint8, q: uint16, msg: Bytes)
    requires |msg| <= MAX_LEN && Unstarted(fs)
    ensures forall i :: !Covered(fs, t, q, msg, i)
  {
    hide Add, Cut, Covers;
    forall k | 0 <= k < |fs| && Cut(fs[k], t, q, msg)
      ensures false
    {
      FirstPiece(fs[k], t, q, msg);
    }
  }

  lemma ForeignPiece(f: Fragment, t: uint8, q: uint16, msg: Bytes)
    requires Alien(f, t, q, |msg|)
    ensures Add(Idle, f).Ok? ==> Add(Idle, f).value.Collecting? && !Names(Add(Idle, f).value, t, q, |msg|)
  {
  }

  lemma NamesStay(s: State, f: Fragment)
    requires s.Collecting?
    ensures Add(s, f).Ok? ==> Names(Add(s, f).value, s.msgType, s.messageSeq, s.total)
  {
  }

  lemma FirstPiece(f: Fragment, t: uint8, q: uint16, msg: Bytes)
    requires |msg| <= MAX_LEN && Cut(f, t, q, msg)
    ensures var s := Add(Idle, f);
            && s.Ok? && s.value.Collecting?
            && s.value.msgType == t && s.value.messageSeq == q && s.value.total == |msg|
            && (forall i :: i in s.value.got <==> Covers(f, i))
            && (forall i :: i in s.value.got ==> 0 <= i < |msg| && s.value.got[i] == msg[i])
  {
  }

  lemma NextPiece(s: State, f: Fragment, t: uint8, q: uint16, msg: Bytes)
    requires |msg| <= MAX_LEN && s.Collecting? && s.msgType == t && s.messageSeq == q && s.total == |msg|
    requires forall i :: i in s.got ==> 0 <= i < |msg| && s.got[i] == msg[i]
    requires Cut(f, t, q, msg) || Alien(f, t, q, |msg|)
    ensures var r := Add(s, f);
            && (r.Ok? <==> Cut(f, t, q, msg))
            && (r.Ok? ==>
                && r.value.Collecting?
                && r.value.msgType == t && r.value.messageSeq == q && r.value.total == |msg|
                && (forall i :: i in r.value.got <==> i in s.got || Covers(f, i))
                && (forall i :: i in r.value.got ==> 0 <= i < |msg| && r.value.got[i] == msg[i]))
  {
  }

  lemma CoveredStep(fs: seq<Fragment>, f: Fragment, t: uint8, q: uint16, msg: Bytes)
    ensures forall i :: Covered(fs + [f], t, q, msg, i)
              <==> Covered(fs, t, q, msg, i) || (Cut(f, t, q, msg) && Covers(f, i))
  {
    forall i
      ensures Covered(fs + [f], t, q, msg, i)
         <==> Covered(fs, t, q, msg, i) || (Cut(f, t, q, msg) && Covers(f, i))
    {
      var all := fs + [f];
      if Covered(fs, t, q, msg, i) {
        var k :| 0 <= k < |fs| && Cut(fs[k], t, q, msg) && Covers(fs[k], i);
        assert all[k] == fs[k];
      }
      if Cut(f, t, q, msg) && Covers(f, i) {
        assert all[|fs|] == f;
      }
    }
  }

  /** The message is complete exactly when a piece of it started the reassembly and its pieces
      cover it. */
  lemma CompleteIffCovered(fs: seq<Fragment>, t: uint8, q: uint16, msg: Bytes)
    requires |msg| <= MAX_LEN
    requires forall k :: 0 <= k < |fs| ==> Cut(fs[k], t, q, msg) || Alien(fs[k], t, q, |msg|)
    ensures Complete(Feed(Idle, fs)) && Names(Feed(Idle, fs), t, q, |msg|)
       <==> Latches(fs, t, q, msg) && forall i :: 0 <= i < |msg| ==> Covered(fs, t, q, msg, i)
  {
    hide Add, Cut, Alien, Covered, Latches, Feed;
    FeedCollects(fs, t, q, msg);
  }

  /** The object over a whole run: it reports this message complete exactly when a piece of it
      came first and its pieces cover it, and then its buffer is the message. */
  method Reassemble(fs: seq<Fragment>, ghost t: uint8, ghost q: uint16, ghost msg: Bytes)
    returns (done: bool, kind: uint8, number: uint16, contents: Bytes)
    requires |msg| <= MAX_LEN
    requires forall k :: 0 <= k < |fs| ==> Cut(fs[k], t, q, msg) || Alien(fs[k], t, q, |msg|)
    requires forall k :: 0 <= k < |fs| ==> EndExact(fs[k].hdr) && fs[k].hdr.fragmentLength == |fs[k].body|
    ensures done && kind == t && number == q && |contents| == |msg|
       <==> Latches(fs, t, q, msg) && forall i :: 0 <= i < |msg| ==> Covered(fs, t, q, msg, i)
    ensures done && kind == t && number == q && |contents| == |msg| ==> contents == msg
  {
    hide Add, Cut, Alien, Covered, Latches, EndExact;
    var r := new Reassembler();
    for i := 0 to |fs|
      invariant r.Valid() && fresh(r) && fresh(r.buf) && fresh(r.received)
      invariant r.View() == Feed(Idle, fs[..i])
    {
      var status := r.AddFragment(fs[i]);
      assert fs[..i + 1][..i] == fs[..i];
    }
    assert fs[..|fs|] == fs;
    done := r.IsComplete();
    CompleteIffCovered(fs, t, q, msg);
    FeedCollects(fs, t, q, msg);
    kind, number, contents := r.msgType, r.messageSeq, r.buf[..r.totalLen];
    assert contents == r.Contents();
  }
}
