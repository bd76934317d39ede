/** What a protocol state sends through (src/nrg_state_connection.cpp:26-62): packets go out while
    it is ready, and are refused otherwise. */
module StateConnections {
  import opened Packets

  class StateConnection {
    var ready: bool
    var sent: seq<Bytes>
    var flags: seq<nat>
    var resent: nat

    constructor (ready: bool)
      ensures this.ready == ready && sent == [] && flags == [] && resent == 0
    {
      this.ready, sent, flags, resent := ready, [], [], 0;
    }

    method SendPacket(p: Packet, f: nat) returns (ok: bool)
      requires p.Valid()
      modifies `sent, `flags
      ensures ok == ready
      ensures sent == old(sent) + if ok then [p.Contents()] else []
      ensures flags == old(flags) + if ok then [f] else []
    {
      ok := ready;
      if ok {
        sent := sent + [p.Peek(0, p.used)];
        flags := flags + [f];
      }
    }

    method ResendLastPacket() returns (ok: bool)
      modifies `resent
      ensures ok == ready && resent == if ok then old(resent) + 1 else old(resent)
    {
      ok := ready;
      if ok {
        resent := resent + 1;
      }
    }
  }
}
