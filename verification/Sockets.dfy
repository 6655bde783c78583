/** A datagram socket whose every send and receive has a given outcome: the network, the clock
    and the peer are all in these two functions. */
module Sockets {
  import opened Machine

  /** How many calls were made, and what was handed over to be sent. */
  datatype Io = Io(sends: nat, recvs: nat, sent: seq<Bytes>) {
    function Sent(datagram: Bytes): Io {
      Io(sends + 1, recvs, sent + [datagram])
    }

    function Heard(): Io {
      Io(sends, recvs + 1, sent)
    }
  }

  datatype Net = Net(send: nat -> Result<()>, recv: nat -> Result<Bytes>)

  class Socket {
    const net: Net
    var sends: nat
    var recvs: nat
    var sent: seq<Bytes>

    ghost function State(): Io
      reads this
    {
      Io(sends, recvs, sent)
    }

    constructor (n: Net)
      ensures net == n && State() == Io(0, 0, [])
    {
      net := n;
      sends, recvs, sent := 0, 0, [];
    }

    method Send(datagram: Bytes) returns (r: Result<()>)
      modifies this
      ensures r == net.send(old(sends)) && State() == old(State()).Sent(datagram)
    {
      r := net.send(sends);
      sends, sent := sends + 1, sent + [datagram];
    }

    method Recv() returns (r: Result<Bytes>)
      modifies this
      ensures r == net.recv(old(recvs)) && State() == old(State()).Heard()
    {
      r := net.recv(recvs);
      recvs := recvs + 1;
    }
  }
}
