/** The two handshake states as the classes they are: each method does to its fields and packets
    what the functions of Handshakes say. */
module HandshakeStates {
  import opened Packets
  import opened Varints
  import opened Codecs
  import opened Handshakes
  import opened StateConnections

  /** Three sixteen-bit numbers, as read or written one after the other. */
  method ReadVersion(p: Packet) returns (v: Bytes)
    requires p.Valid() && p.used < SIZE_T / 2 && p.used - p.pos >= 6
    modifies p`pos
    ensures p.Valid() && p.Contents() == old(p.Contents()) && p.pos == old(p.pos) + 6
    ensures v == p.Contents()[old(p.pos)..p.pos]
  {
    ghost var start := p.pos;
    var major := p.ReadBE(2);
    var minor := p.ReadBE(2);
    var patch := p.ReadBE(2);
    v := BigEndian(2, major) + BigEndian(2, minor) + BigEndian(2, patch);
    ghost var s := p.Contents();
    BigEndianSurjective(s[start..start + 2]);
    BigEndianSurjective(s[start + 2..start + 4]);
    BigEndianSurjective(s[start + 4..start + 6]);
    assert v == s[start..start + 2] + s[start + 2..start + 4] + s[start + 4..start + 6];
  }

  /** Codec<std::string>::encode */
  method WriteText(p: Packet, s: Bytes)
    requires p.Valid() && p.pos == p.used && |s| < 0x8000_0000
    modifies p.Repr()
    ensures p.Valid() && p.pos == p.used && (p.data == old(p.data) || fresh(p.data))
    ensures p.Contents() == old(p.Contents()) + TextImage(s)
  {
    hide Overwrite, Enc, Pow2;
    Below64();
    ghost var start := p.Contents();
    var _ := Encode(p, 64, |s|);
    p.WriteArray(s);
    assert p.Contents() == start + (Enc(|s|) + s);
  }

  class ServerHandshakeState {
    const game: Game
    const packet: Packet
    var response: int
    const challenge: nat
    var gotPacket: bool

    ghost predicate Valid()
      reads packet
    {
      packet.Valid() && game.Valid() && challenge < SIZE_T
    }

    ghost function State(): ServerHs
      reads this
    {
      ServerHs(response, challenge, gotPacket)
    }

    /** The challenge is a random number drawn at construction. */
    constructor (game: Game, challenge: nat)
      requires game.Valid() && challenge < SIZE_T
      ensures Valid() && fresh(packet.Repr()) && State() == ServerHs(NO_RESPONSE, challenge, false)
      ensures this.game == game
    {
      this.game, this.challenge := game, challenge;
      packet := new Packet(MAX_PACKET_SIZE);
      response, gotPacket := NO_RESPONSE, false;
    }

    /** The checks on a join request, each with its own reply. */
    method JudgeRequest(p: Packet, full: bool) returns (ok: bool)
      requires Valid() && p.Valid() && p.used < SIZE_T / 2 && JudgeJoin(game, p.Contents(), p.pos, full) != Undecided
      modifies `response, p`pos
      ensures p.Valid() && p.Contents() == old(p.Contents())
      ensures JudgeJoin(game, p.Contents(), old(p.pos), full) == if ok then Reply(response) else Malformed
      ensures !ok ==> response == old(response)
    {
      hide ReadField;
      if p.used - p.pos <= 6 {
        return false;
      }
      var v := ReadVersion(p);
      if v != LIB_VERSION {
        response := WRONG_LIB_VERSION;
        return true;
      }
      var _, name := ReadFieldFrom(p, Text);
      if !NameMatches(name, game.name) {
        response := WRONG_GAME;
        return true;
      }
      if p.used - p.pos < 4 {
        return false;
      }
      ghost var at := p.pos;
      var version := p.ReadBE(4);
      if version !in game.accepts {
        response := WRONG_GAME_VERSION;
        return true;
      }
      response := if full then SERVER_FULL else SERVER_CHALLENGE;
      return true;
    }

    method OnRecvPacket(p: Packet, full: bool) returns (ok: bool)
      requires Valid() && p.Valid() && p.pos == 0 && p.used < SIZE_T / 2
      requires ServerReceive(game, State(), p.Contents(), full) != ServerUndefined
      modifies `response, `gotPacket, p`pos
      ensures Valid() && p.Valid() && p.Contents() == old(p.Contents())
      ensures ServerReceive(game, old(State()), p.Contents(), full) == ServerRead(State(), ok)
    {
      hide JudgeJoin;
      if p.used - p.pos == 0 {
        return false;
      }
      gotPacket := true;
      var command := p.Read8(0);
      if command == JOIN_REQUEST {
        ok := JudgeRequest(p, full);
      } else if command == CHALLENGE_RESPONSE {
        if response != SERVER_CHALLENGE {
          return false;
        }
        if p.used - p.pos == 8 {
          var echo := p.ReadBE(8);
          response := if echo == challenge then SERVER_ACCEPTED else WRONG_CHALLENGE;
          ok := true;
        } else {
          return false;
        }
      } else {
        return false;
      }
    }

    predicate NeedsUpdate()
      reads this
      ensures NeedsUpdate() == ServerNeeds(State())
    {
      gotPacket
    }

    /** The first byte of any packet of this state is the response. */
    method WriteResponse()
      requires Valid() && (this as object) !in packet.Repr()
      modifies packet.Repr()
      ensures Valid() && fresh(packet.Repr() - old(packet.Repr())) && packet.pos == packet.used
      ensures 0 <= response < 256 ==> packet.Contents() == [response]
    {
      packet.Reset();
      packet.Write8(if 0 <= response then response % 256 else (response + 256) % 256);
    }

    method WriteChallenge()
      requires Valid() && (this as object) !in packet.Repr() && packet.pos == packet.used
      requires response == SERVER_CHALLENGE && packet.Contents() == [response]
      modifies packet.Repr()
      ensures Valid() && fresh(packet.Repr() - old(packet.Repr())) && packet.Contents() == ChallengeBytes(challenge)
    {
      hide BigEndian, Overwrite;
      packet.WriteBE(8, challenge);
    }

    method WriteVersions()
      requires Valid() && (this as object) !in packet.Repr() && packet.pos == packet.used
      modifies packet.Repr()
      ensures Valid() && fresh(packet.Repr() - old(packet.Repr())) && packet.pos == packet.used
      ensures packet.Contents() == old(packet.Contents()) + LIB_VERSION + BigEndian(4, game.version)
    {
      hide BigEndian, Overwrite;
      packet.WriteArray(LIB_VERSION);
      packet.WriteBE(4, game.version);
    }

    method WritePlayer()
      requires Valid() && (this as object) !in packet.Repr() && packet.pos == packet.used && response == SERVER_ACCEPTED
      requires packet.Contents() == [response] + LIB_VERSION + BigEndian(4, game.version)
      modifies packet.Repr()
      ensures Valid() && fresh(packet.Repr() - old(packet.Repr())) && packet.Contents() == AcceptBytes(game)
    {
      hide BigEndian, Overwrite;
      packet.WriteBE(2, game.playerId);
    }

    method Update(out: StateConnection) returns (result: Result)
      requires Valid() && {out as object} !! packet.Repr() && (this as object) !in packet.Repr()
      modifies `gotPacket, packet.Repr(), out`sent, out`flags
      ensures Valid() && fresh(packet.Repr() - old(packet.Repr()))
      ensures var u := ServerUpdate(game, old(State()), out.ready);
              State() == u.state && result == u.result && out.sent == old(out.sent) + u.sent
      ensures out.flags == old(out.flags) + if |out.sent| > old(|out.sent|) then [0] else []
    {
      hide ChallengeBytes, AcceptBytes;
      WriteResponse();
      if response == SERVER_CHALLENGE {
        WriteChallenge();
        var _ := out.SendPacket(packet, 0);
        gotPacket := false;
        return Continue;
      }
      WriteVersions();
      if response == SERVER_ACCEPTED {
        WritePlayer();
        var ok := out.SendPacket(packet, 0);
        if ok {
          gotPacket := false;
          return Change;
        }
        return Continue;
      }
      return Failure;
    }
  }

  class ClientHandshakeState {
    const name: Bytes
    const version: nat
    const buffer: Packet
    var phase: int
    var timeouts: nat
    var serverChallenge: nat
    var params: Option<Params>

    ghost predicate Valid()
      reads this, buffer
    {
      buffer.Valid() && |name| < 0x8000_0000 && version < 0x1_0000_0000 && serverChallenge < SIZE_T
    }

    ghost function State(): ClientHs
      reads this
    {
      ClientHs(phase, timeouts, serverChallenge, params)
    }

    constructor (name: Bytes, version: nat)
      requires |name| < 0x8000_0000 && version < 0x1_0000_0000
      ensures Valid() && fresh(buffer.Repr()) && State() == ClientHs(NOT_STARTED, 0, 0, None)
      ensures this.name == name && this.version == version
    {
      this.name, this.version := name, version;
      buffer := new Packet(MAX_PACKET_SIZE);
      phase, timeouts, serverChallenge, params := NOT_STARTED, 0, 0, None;
    }

    method OnRecvPacket(p: Packet) returns (ok: bool)
      requires Valid() && p.Valid() && p.pos == 0 && p.used < SIZE_T / 2 && p != buffer
      modifies `phase, `serverChallenge, `params, p`pos
      ensures Valid() && p.Valid() && p.Contents() == old(p.Contents())
      ensures ClientReceive(old(State()), p.Contents()) == ClientRead(State(), ok)
    {
      hide FromBigEndian;
      if phase != WAITING || p.used - p.pos == 0 {
        return false;
      }
      var response := p.Read8(0);
      if response == SERVER_CHALLENGE {
        if p.used - p.pos != 8 {
          return false;
        }
        Pow256Of8();
        serverChallenge := p.ReadBE(8);
        phase := CHALLENGED;
        return true;
      }
      if p.used - p.pos <= 10 {
        return false;
      }
      var libVersion := ReadVersion(p);
      var gameVersion := p.ReadBE(4);
      if response == SERVER_ACCEPTED && p.used - p.pos == 2 {
        var id := p.ReadBE(2);
        params := Some(Params(libVersion, gameVersion, id));
        phase := ACCEPTED;
      } else {
        phase := REJECTED;
      }
      return true;
    }

    predicate NeedsUpdate()
      reads this
      ensures NeedsUpdate() == ClientNeeds(State())
    {
      phase != WAITING
    }

    method WriteJoin()
      requires Valid() && (this as object) !in buffer.Repr()
      modifies buffer.Repr()
      ensures Valid() && fresh(buffer.Repr() - old(buffer.Repr())) && buffer.Contents() == JoinBytes(name, version)
    {
      hide Overwrite, BigEndian, TextImage;
      buffer.Reset();
      buffer.Write8(JOIN_REQUEST);
      buffer.WriteArray(LIB_VERSION);
      assert buffer.Contents() == [JOIN_REQUEST] + LIB_VERSION;
      WriteText(buffer, name);
      buffer.WriteBE(4, version);
    }

    method WriteEcho()
      requires Valid() && (this as object) !in buffer.Repr()
      modifies buffer.Repr()
      ensures Valid() && fresh(buffer.Repr() - old(buffer.Repr())) && buffer.Contents() == ChallengeBytes(serverChallenge)
    {
      hide Overwrite, BigEndian;
      buffer.Reset();
      buffer.Write8(CHALLENGE_RESPONSE);
      buffer.WriteBE(8, serverChallenge);
    }

    method Update(out: StateConnection, timedOut: bool) returns (result: Result)
      requires Valid() && {out as object} !! buffer.Repr() && (this as object) !in buffer.Repr()
      modifies `phase, `timeouts, buffer.Repr(), out`sent, out`flags, out`resent
      ensures Valid() && fresh(buffer.Repr() - old(buffer.Repr()))
      ensures var u := ClientUpdate(name, version, old(State()), timedOut, out.ready);
              State() == u.state && result == u.result && out.sent == old(out.sent) + u.sent
      ensures out.flags == old(out.flags) + if |out.sent| > old(|out.sent|) then [0] else []
      ensures out.resent == old(out.resent) + if timedOut && old(timeouts) < 5 && out.ready then 1 else 0
    {
      hide JoinBytes, ChallengeBytes;
      if timedOut {
        timeouts := timeouts + 1;
        if timeouts > 5 {
          return Failure;
        }
        var _ := out.ResendLastPacket();
        return Continue;
      }
      timeouts := 0;
      if phase == NOT_STARTED {
        WriteJoin();
        var ok := out.SendPacket(buffer, 0);
        if ok {
          phase := WAITING;
        }
        return Continue;
      } else if phase == CHALLENGED {
        WriteEcho();
        var ok := out.SendPacket(buffer, 0);
        if ok {
          phase := WAITING;
        }
        return Continue;
      } else if phase == ACCEPTED {
        return Change;
      }
      return Failure;
    }
  }
}
