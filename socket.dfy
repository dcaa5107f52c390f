/** A connected TCP stream socket as the client uses it. What the peer does is fixed in
    advance: `inbound` is every byte it sends before closing its end, `maxRecv` how many
    bytes one recv call delivers whenever that many have arrived (the same for every call), `fails(i)` whether the i-th sendall call raises (reset,
    broken pipe), so a send can fail after earlier ones went through. */
module Sockets {
  import opened Bytes

  function Min(a: nat, b: nat): (m: nat)
    ensures m <= a && m <= b && (m == a || m == b)
  {
    if a <= b then a else b
  }

  class Socket {
    var inbound: seq<byte>
    var pos: nat
    var sent: seq<byte>
    var maxRecv: nat
    var fails: nat -> bool
    /** How many sendall calls have been made. */
    var sends: nat
    var closed: bool

    ghost predicate Valid()
      reads this
    {
      pos <= |inbound| && maxRecv > 0
    }

    constructor (inbound: seq<byte>, maxRecv: nat, fails: nat -> bool)
      requires maxRecv > 0
      ensures Valid()
      ensures this.inbound == inbound && pos == 0 && sent == [] && sends == 0
      ensures this.maxRecv == maxRecv && this.fails == fails && !closed
    {
      this.inbound := inbound;
      pos := 0;
      sent := [];
      this.maxRecv := maxRecv;
      this.fails := fails;
      sends := 0;
      closed := false;
    }

    /** Bytes the peer has sent and recv has not yet returned. */
    ghost function Unread(): seq<byte>
      reads this
      requires Valid()
    {
      inbound[pos..]
    }

    /** recv(n): the next min(n, maxRecv, available) bytes of the stream; empty once the
        peer's stream is exhausted. */
    method Recv(n: nat) returns (chunk: seq<byte>)
      requires Valid()
      modifies this
      ensures Valid() && OnlyReceived(this)
      ensures chunk == old(inbound[pos..])[..Min(n, Min(maxRecv, |inbound| - old(pos)))]
      ensures pos == old(pos) + |chunk|
    {
      var k := Min(n, Min(maxRecv, |inbound| - pos));
      chunk := inbound[pos..pos + k];
      pos := pos + k;
    }

    /** sendall(data): the call raises when the schedule says so, and otherwise every byte
        is written; a call that raises writes nothing. */
    method SendAll(data: seq<byte>) returns (ok: bool)
      modifies this
      ensures ok == !fails(old(sends)) && sends == old(sends) + 1
      ensures sent == (if ok then old(sent) + data else old(sent))
      ensures inbound == old(inbound) && pos == old(pos) && maxRecv == old(maxRecv)
      ensures fails == old(fails) && closed == old(closed)
    {
      ok := !fails(sends);
      sends := sends + 1;
      if ok {
        sent := sent + data;
      }
    }

    method Close()
      modifies this
      ensures closed
      ensures inbound == old(inbound) && pos == old(pos) && sent == old(sent)
      ensures maxRecv == old(maxRecv) && fails == old(fails) && sends == old(sends)
    {
      closed := true;
    }
  }

  /** Only the read cursor of s moved. */
  twostate predicate OnlyReceived(s: Socket)
    reads s
  {
    && s.inbound == old(s.inbound) && s.sent == old(s.sent) && s.maxRecv == old(s.maxRecv)
    && s.fails == old(s.fails) && s.sends == old(s.sends) && s.closed == old(s.closed)
  }
}
