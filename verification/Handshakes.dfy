/** The opening handshake between a client and the server (src/nrg_clientstate.cpp:45-153,
    src/nrg_serverstate.cpp:47-183): join request, challenge, echo, acceptance. */
module Handshakes {
  import opened Packets
  import opened Varints
  import opened Codecs

  const WRONG_LIB_VERSION: int := -1
  const WRONG_GAME: int := -2
  const WRONG_GAME_VERSION: int := -3
  const SERVER_FULL: int := -4
  const WRONG_CHALLENGE: int := -5
  const NO_RESPONSE: int := 0
  const SERVER_ACCEPTED: int := 1
  const SERVER_CHALLENGE: int := 2

  const JOIN_REQUEST: byte := 1
  const CHALLENGE_RESPONSE: byte := 2

  const NOT_STARTED: int := -1
  const WAITING: int := 0
  const ACCEPTED: int := 1
  const REJECTED: int := 2
  const CHALLENGED: int := 3

  /** What a server plays and which client versions its version check lets in. */
  datatype Game = Game(name: Bytes, version: nat, accepts: set<nat>, playerId: nat)
  {
    predicate Valid()
    {
      |name| < 0x8000_0000 && version < 0x1_0000_0000 && playerId < 65536
    }
  }

  // ---------------------------------------------------------------- messages

  /** getLibVersion(): 0.0.3, the only version isVersionCompatible lets through. */
  const LIB_VERSION: Bytes := [0, 0, 0, 0, 0, 3]

  function JoinBytes(name: Bytes, version: nat): (s: Bytes)
    ensures |s| >= 11 && s[0] == JOIN_REQUEST
  {
    [JOIN_REQUEST] + LIB_VERSION + TextImage(name) + BigEndian(4, version)
  }

  /** The server's challenge and the client's echo of it are the same nine bytes. */
  function ChallengeBytes(challenge: nat): (s: Bytes)
    ensures |s| == 9 && s[0] == CHALLENGE_RESPONSE && s[1..] == BigEndian(8, challenge)
  {
    [CHALLENGE_RESPONSE] + BigEndian(8, challenge)
  }

  function AcceptBytes(game: Game): (s: Bytes)
    ensures |s| == 13 && s[0] == 1 && s[11..] == BigEndian(2, game.playerId)
  {
    [1] + LIB_VERSION + BigEndian(4, game.version) + BigEndian(2, game.playerId)
  }

  // ---------------------------------------------------------------- the server's side

  datatype ServerHs = ServerHs(response: int, challenge: nat, gotPacket: bool)

  datatype Verdict = Reply(response: int) | Malformed | Undecided

  /** Whether the decoded name equals the server's; a name that does not decode stays empty. */
  predicate NameMatches(value: Option<Bytes>, name: Bytes)
  {
    value == Some(TextImage(name)) || (value.None? && name == [])
  }

  /** The checks on a join request behind its command byte, in the order they are made. */
  function JudgeJoin(game: Game, buf: Bytes, pos: nat, full: bool): (v: Verdict)
    requires pos <= |buf|
  {
    if |buf| - pos <= 6 then Malformed
    else if buf[pos..pos + 6] != LIB_VERSION then Reply(WRONG_LIB_VERSION)
    else match ReadField(Text, buf, pos + 6)
      case Undefined => Undecided
      case FieldRead(next, _, value) =>
        if !NameMatches(value, game.name) then Reply(WRONG_GAME)
        else if |buf| - next < 4 then Malformed
        else if FromBigEndian(buf[next..next + 4]) !in game.accepts then Reply(WRONG_GAME_VERSION)
        else if full then Reply(SERVER_FULL)
        else Reply(SERVER_CHALLENGE)
  }

  datatype ServerRead = ServerRead(state: ServerHs, ok: bool) | ServerUndefined

  function ServerReceive(game: Game, s: ServerHs, buf: Bytes, full: bool): (r: ServerRead)
    ensures r.ServerRead? ==> r.state.challenge == s.challenge
  {
    if buf == [] then ServerRead(s, false)
    else
      var t := s.(gotPacket := true);
      if buf[0] == JOIN_REQUEST then
        match JudgeJoin(game, buf, 1, full)
        case Undecided => ServerUndefined
        case Malformed => ServerRead(t, false)
        case Reply(response) => ServerRead(t.(response := response), true)
      else if buf[0] == CHALLENGE_RESPONSE && s.response == SERVER_CHALLENGE && |buf| == 9 then
        ServerRead(t.(response := if FromBigEndian(buf[1..9]) == s.challenge then SERVER_ACCEPTED else WRONG_CHALLENGE), true)
      else ServerRead(t, false)
  }

  /** What update tells the state manager. */
  datatype Result = Continue | Change | Failure

  datatype Updated<S> = Updated(state: S, sent: seq<Bytes>, result: Result)

  /** An update is due once a packet has come in. */
  predicate ServerNeeds(s: ServerHs)
  {
    s.gotPacket
  }

  /** `ready` is whether a packet can be sent now. */
  function ServerUpdate(game: Game, s: ServerHs, ready: bool): Updated<ServerHs>
  {
    if s.response == SERVER_CHALLENGE then
      Updated(s.(gotPacket := false), if ready then [ChallengeBytes(s.challenge)] else [], Continue)
    else if s.response == SERVER_ACCEPTED then
      if ready then Updated(s.(gotPacket := false), [AcceptBytes(game)], Change) else Updated(s, [], Continue)
    else Updated(s, [], Failure)
  }

  // ---------------------------------------------------------------- the client's side

  /** What a client learns on being accepted. */
  datatype Params = Params(libVersion: Bytes, gameVersion: nat, playerId: nat)

  datatype ClientHs = ClientHs(phase: int, timeouts: nat, challenge: nat, params: Option<Params>)

  datatype ClientRead = ClientRead(state: ClientHs, ok: bool)

  function ClientReceive(s: ClientHs, buf: Bytes): ClientRead
  {
    if s.phase != WAITING || buf == [] then ClientRead(s, false)
    else if buf[0] == SERVER_CHALLENGE then
      if |buf| != 9 then ClientRead(s, false)
      else ClientRead(s.(challenge := FromBigEndian(buf[1..9]), phase := CHALLENGED), true)
    else if |buf| <= 11 then ClientRead(s, false)
    else if buf[0] == SERVER_ACCEPTED && |buf| == 13 then
      ClientRead(s.(phase := ACCEPTED,
                    params := Some(Params(buf[1..7], FromBigEndian(buf[7..11]), FromBigEndian(buf[11..13])))), true)
    else ClientRead(s.(phase := REJECTED), true)
  }

  /** An update is due unless an answer is being waited for. */
  predicate ClientNeeds(s: ClientHs)
  {
    s.phase != WAITING
  }

  /** A resend of the last packet goes out again as it was, so it is not listed in `sent`. */
  function ClientUpdate(name: Bytes, version: nat, s: ClientHs, timedOut: bool, ready: bool): Updated<ClientHs>
  {
    if timedOut then
      Updated(s.(timeouts := s.timeouts + 1), [], if s.timeouts + 1 > 5 then Failure else Continue)
    else
      var t := s.(timeouts := 0);
      if s.phase == NOT_STARTED then
        if ready then Updated(t.(phase := WAITING), [JoinBytes(name, version)], Continue) else Updated(t, [], Continue)
      else if s.phase == CHALLENGED then
        if ready then Updated(t.(phase := WAITING), [ChallengeBytes(s.challenge)], Continue) else Updated(t, [], Continue)
      else Updated(t, [], if s.phase == ACCEPTED then Change else Failure)
  }

  // ---------------------------------------------------------------- what join requests lead to

  lemma {:induction false} EncLonger(a: nat, b: nat)
    requires a <= b
    ensures |Enc(a)| <= |Enc(b)|
  {
    if a >= 128 {
      EncLonger(a / 128, b / 128);
    }
  }

  lemma TextImageInjective(a: Bytes, b: Bytes)
    requires TextImage(a) == TextImage(b)
    ensures a == b
  {
    hide Enc;
    if |a| < |b| {
      EncLonger(|a|, |b|);
    } else {
      EncLonger(|b|, |a|);
    }
    assert TextImage(a)[|Enc(|a|)|..] == a;
    assert TextImage(b)[|Enc(|b|)|..] == b;
  }

  // What a request says, by its bytes: the command, six bytes of library version, a length, as many
  // bytes of name, four bytes of game version.

  datatype NameRead = NameRead(name: Bytes, end: nat) | NameUndefined

  /** The string at a place, and where it ends. A length that exceeds what is left reads as no name. */
  function NameIn(buf: Bytes, at: nat): (r: NameRead)
    requires at <= |buf|
    ensures r.NameRead? ==> at <= r.end <= |buf|
  {
    match Decode(64, buf, at)
    case Overflow => NameUndefined
    case Decoded(n, next, _) => if next + n <= |buf| then NameRead(buf[next..next + n], next + n) else NameRead([], next)
  }

  predicate SaysVersion(bytes: Bytes)
  {
    |bytes| > 7 && bytes[1..7] == LIB_VERSION
  }

  predicate SaysName(bytes: Bytes)
  {
    SaysVersion(bytes) && NameIn(bytes, 7).NameRead?
  }

  predicate SaysGame(game: Game, bytes: Bytes)
  {
    SaysName(bytes) && NameIn(bytes, 7).name == game.name
  }

  predicate SaysGameVersion(game: Game, bytes: Bytes)
  {
    SaysGame(game, bytes) && NameIn(bytes, 7).end + 4 <= |bytes|
  }

  function GameVersionIn(game: Game, bytes: Bytes): nat
    requires SaysGameVersion(game, bytes)
  {
    var end := NameIn(bytes, 7).end;
    FromBigEndian(bytes[end..end + 4])
  }

  /** A join request that is let through: the library's own version, the server's own name, an
      accepted game version, and room. */
  predicate ValidJoin(game: Game, bytes: Bytes, full: bool)
  {
    && bytes != [] && bytes[0] == JOIN_REQUEST && !full
    && SaysGameVersion(game, bytes) && GameVersionIn(game, bytes) in game.accepts
  }

  lemma NameAsRead(bytes: Bytes, at: nat, name: Bytes)
    requires at < |bytes|
    ensures var f, r := ReadField(Text, bytes, at), NameIn(bytes, at);
            && (f.FieldRead? <==> r.NameRead?)
            && (f.FieldRead? ==> f.next == r.end && (NameMatches(f.value, name) <==> r.name == name))
  {
    hide DecodeFrom, TextImage, NameMatches;
    DecodeLength(bytes, at, 0, 0);
    var d := Decode(64, bytes, at);
    if d.Decoded? {
      if d.len == 0 || |bytes| - d.next < d.value {
        MatchesNone(name);
        if d.next + d.value <= |bytes| {
          assert bytes[d.next..d.next + d.value] == [];
        }
      } else {
        MatchesSome(bytes[d.next..d.next + d.value], name);
      }
    }
  }

  lemma MatchesNone(name: Bytes)
    ensures NameMatches(None, name) <==> name == []
  {
  }

  lemma MatchesSome(read: Bytes, name: Bytes)
    ensures NameMatches(Some(TextImage(read)), name) <==> read == name
  {
    hide TextImage;
    if TextImage(read) == TextImage(name) {
      TextImageInjective(read, name);
    }
  }

  /** For every request at all, each answer is given exactly where the bytes say so: the challenge to
      valid joins alone, and each refusal to what passes the checks before it and fails its own. */
  lemma JudgedIff(game: Game, bytes: Bytes, full: bool)
    requires bytes != [] && bytes[0] == JOIN_REQUEST
    ensures var v := JudgeJoin(game, bytes, 1, full);
            && (v == Reply(SERVER_CHALLENGE) <==> ValidJoin(game, bytes, full))
            && (v == Reply(WRONG_LIB_VERSION) <==> |bytes| > 7 && bytes[1..7] != LIB_VERSION)
            && (v == Reply(WRONG_GAME) <==> SaysName(bytes) && NameIn(bytes, 7).name != game.name)
            && (v == Reply(WRONG_GAME_VERSION) <==>
                  SaysGameVersion(game, bytes) && GameVersionIn(game, bytes) !in game.accepts)
            && (v == Reply(SERVER_FULL) <==>
                  SaysGameVersion(game, bytes) && GameVersionIn(game, bytes) in game.accepts && full)
            && (v == Malformed <==> |bytes| <= 7 || (SaysGame(game, bytes) && NameIn(bytes, 7).end + 4 > |bytes|))
            && (v == Undecided <==> SaysVersion(bytes) && NameIn(bytes, 7).NameUndefined?)
  {
    hide ReadField, NameIn, NameMatches, FromBigEndian;
    if |bytes| > 7 {
      NameAsRead(bytes, 7, game.name);
    }
  }

  /** A client's own join request gets through exactly when names agree, the version is accepted
      and there is room; otherwise the first check to fail decides the reply. */
  lemma JoinJudged(game: Game, name: Bytes, version: nat, full: bool)
    requires game.Valid() && |name| < 0x8000_0000 && version < 0x1_0000_0000
    ensures JudgeJoin(game, JoinBytes(name, version), 1, full) ==
            Reply(if name != game.name then WRONG_GAME
                  else if version !in game.accepts then WRONG_GAME_VERSION
                  else if full then SERVER_FULL
                  else SERVER_CHALLENGE)
  {
    hide ReadField, BigEndian, FromBigEndian, TextImage;
    var buf := JoinBytes(name, version);
    var image, at := TextImage(name), 7 + |TextImage(name)|;
    NonEmptyImage(name);
    assert buf[1..7] == LIB_VERSION;
    assert buf == [JOIN_REQUEST] + LIB_VERSION + image + BigEndian(4, version);
    ReadTextImage([JOIN_REQUEST] + LIB_VERSION, name, BigEndian(4, version));
    assert buf[at..at + 4] == BigEndian(4, version);
    Pow256Of4();
    BigEndianRoundTrip(4, version);
    if name != game.name && TextImage(name) == TextImage(game.name) {
      TextImageInjective(name, game.name);
    }
  }

  lemma NonEmptyImage(s: Bytes)
    ensures |TextImage(s)| >= 1
  {
  }

  lemma Pow256Of4()
    ensures Pow256(4) == 0x1_0000_0000
  {
  }

  lemma Pow256Of8()
    ensures Pow256(8) == SIZE_T
  {
    Pow256Of4();
    assert Pow256(8) == 256 * Pow256(7) == 65536 * Pow256(6) == 16777216 * Pow256(5) == 0x1_0000_0000 * Pow256(4);
  }

  lemma ChallengeReadsBack(challenge: nat)
    requires challenge < SIZE_T
    ensures FromBigEndian(ChallengeBytes(challenge)[1..9]) == challenge
  {
    hide BigEndian, FromBigEndian;
    Pow256Of8();
    BigEndianRoundTrip(8, challenge);
    assert ChallengeBytes(challenge)[1..9] == ChallengeBytes(challenge)[1..];
  }

  predicate IsEcho(bytes: Bytes)
  {
    |bytes| == 9 && bytes[0] == CHALLENGE_RESPONSE
  }

  /** Only its own challenge, echoed byte for byte, moves the server on to acceptance; any other nine bytes
      of echo are a wrong one. */
  lemma EchoOnly(game: Game, s: ServerHs, buf: Bytes, full: bool)
    requires s.challenge < SIZE_T && ServerReceive(game, s, buf, full).ServerRead?
    requires s.response != SERVER_ACCEPTED
    ensures ServerReceive(game, s, buf, full).state.response == SERVER_ACCEPTED <==>
            s.response == SERVER_CHALLENGE && buf == ChallengeBytes(s.challenge)
    ensures s.response != WRONG_CHALLENGE ==>
              (ServerReceive(game, s, buf, full).state.response == WRONG_CHALLENGE <==>
               s.response == SERVER_CHALLENGE && IsEcho(buf) && buf != ChallengeBytes(s.challenge))
  {
    hide BigEndian, FromBigEndian, ReadField;
    ChallengeReadsBack(s.challenge);
    if |buf| == 9 && FromBigEndian(buf[1..9]) == s.challenge {
      BigEndianSurjective(buf[1..9]);
      if buf[0] == CHALLENGE_RESPONSE {
        assert buf == [CHALLENGE_RESPONSE] + buf[1..9];
      }
    }
  }

  /** Every packet the server takes: a join request it can judge, or nine bytes of answer to its
      challenge; the others, empty ones apart, only ask for an update. */
  lemma TakenIff(game: Game, s: ServerHs, buf: Bytes, full: bool)
    requires ServerReceive(game, s, buf, full).ServerRead?
    ensures var r := ServerReceive(game, s, buf, full);
            && (r.ok <==> Judgeable(game, buf) || (s.response == SERVER_CHALLENGE && IsEcho(buf)))
            && (!r.ok ==> r.state.response == s.response)
            && r.state.gotPacket == (s.gotPacket || buf != [])
  {
    hide JudgeJoin, NameIn;
    if buf != [] && buf[0] == JOIN_REQUEST {
      JudgedIff(game, buf, full);
    }
  }

  /** A join request with a library version, and a game version too if its name is the server's. */
  predicate Judgeable(game: Game, bytes: Bytes)
  {
    |bytes| > 7 && bytes[0] == JOIN_REQUEST && !(SaysGame(game, bytes) && NameIn(bytes, 7).end + 4 > |bytes|)
  }

  // ---------------------------------------------------------------- over a network

  /** Something the server was handed, and whether it was full at that moment. */
  datatype Heard = Heard(bytes: Bytes, full: bool)

  /** Both ends; every packet ever sent each way (any of them may arrive any number of times, or
      never); what the server has heard so far; whether it accepted, or gave the client up; whether
      the client went on into the game, or gave up. */
  datatype Link = Link(server: ServerHs, client: ClientHs, toServer: set<Bytes>, toClient: set<Bytes>,
                       heard: seq<Heard>, entered: bool, dropped: bool, inGame: bool, gaveUp: bool)

  function Opening(challenge: nat): Link
  {
    Link(ServerHs(NO_RESPONSE, challenge, false), ClientHs(NOT_STARTED, 0, 0, None), {}, {}, [], false, false, false, false)
  }

  datatype Event =
    | ServerHears(bytes: Bytes, full: bool)
    | ServerUpdates(late: bool, ready: bool)
    | ClientHears(answer: Bytes)
    | ClientUpdates(timedOut: bool, clientReady: bool)

  /** The people involved: the server's game, and what the client claims to play. */
  datatype Parties = Parties(game: Game, name: Bytes, version: nat)
  {
    predicate Valid()
    {
      game.Valid() && |name| < 0x8000_0000 && version < 0x1_0000_0000
    }
  }

  /** The client only ever hears the server. The server hears the client alone when `honest`,
      and anybody at all otherwise. Either end updates when one is due, or none was for too long. */
  predicate Enabled(p: Parties, honest: bool, w: Link, e: Event)
  {
    match e
    case ServerHears(bytes, full) =>
      !w.entered && !w.dropped && ServerReceive(p.game, w.server, bytes, full).ServerRead? &&
      (honest ==> bytes in w.toServer)
    case ServerUpdates(late, _) => !w.entered && !w.dropped && (ServerNeeds(w.server) || late)
    case ClientHears(answer) => !w.inGame && !w.gaveUp && answer in w.toClient
    case ClientUpdates(timedOut, _) => !w.inGame && !w.gaveUp && (ClientNeeds(w.client) || timedOut)
  }

  function AsSet(s: seq<Bytes>): set<Bytes>
  {
    set x | x in s
  }

  function Step(p: Parties, honest: bool, w: Link, e: Event): Link
    requires Enabled(p, honest, w, e)
  {
    match e
    case ServerHears(bytes, full) =>
      w.(server := ServerReceive(p.game, w.server, bytes, full).state, heard := w.heard + [Heard(bytes, full)])
    case ServerUpdates(_, ready) =>
      var u := ServerUpdate(p.game, w.server, ready);
      w.(server := u.state, toClient := w.toClient + AsSet(u.sent), entered := u.result == Change,
         dropped := u.result == Failure)
    case ClientHears(answer) => w.(client := ClientReceive(w.client, answer).state)
    case ClientUpdates(timedOut, ready) =>
      var u := ClientUpdate(p.name, p.version, w.client, timedOut, ready);
      w.(client := u.state, toServer := w.toServer + AsSet(u.sent), inGame := u.result == Change,
         gaveUp := u.result == Failure)
  }

  /** A valid join request is at position i. */
  predicate JoinedAt(p: Parties, heard: seq<Heard>, i: nat)
  {
    i < |heard| && ValidJoin(p.game, heard[i].bytes, heard[i].full)
  }

  ghost predicate Joined(p: Parties, heard: seq<Heard>)
  {
    exists i: nat :: JoinedAt(p, heard, i)
  }

  /** A valid join, and after it an echo of the server's own challenge. */
  ghost predicate Proved(p: Parties, heard: seq<Heard>, challenge: nat)
  {
    exists i: nat, j: nat :: JoinedAt(p, heard, i) && i < j < |heard| && heard[j].bytes == ChallengeBytes(challenge)
  }

  function ServerParams(game: Game): Params
  {
    Params(LIB_VERSION, game.version, game.playerId)
  }

  /** What holds whoever talks to the server. */
  ghost predicate Agreed(p: Parties, w: Link)
  {
    var c := w.server.challenge;
    && p.Valid() && c < SIZE_T
    && (w.server.response == SERVER_CHALLENGE ==> Joined(p, w.heard))
    && (w.server.response == SERVER_ACCEPTED || w.entered ==> Proved(p, w.heard, c))
    && (forall m :: m in w.toClient ==> m == ChallengeBytes(c) || (m == AcceptBytes(p.game) && w.entered))
    && (w.client.phase == ACCEPTED ==> w.entered && w.client.params == Some(ServerParams(p.game)))
    && (w.inGame ==> w.client.phase == ACCEPTED)
    && (w.entered ==> AcceptBytes(p.game) in w.toClient)
    && (w.client.phase == CHALLENGED ==> w.client.challenge == c)
    && NOT_STARTED <= w.client.phase <= CHALLENGED && w.client.phase != REJECTED
  }

  /** What holds when it hears the client alone. */
  ghost predicate HonestlyAgreed(p: Parties, w: Link)
  {
    (forall m :: m in w.toServer ==> m == JoinBytes(p.name, p.version) || m == ChallengeBytes(w.server.challenge)) &&
    w.server.response != WRONG_CHALLENGE
  }

  lemma HeardMore(p: Parties, heard: seq<Heard>, challenge: nat, more: Heard)
    ensures Joined(p, heard) ==> Joined(p, heard + [more])
    ensures Proved(p, heard, challenge) ==> Proved(p, heard + [more], challenge)
    ensures Joined(p, heard) && more.bytes == ChallengeBytes(challenge) ==> Proved(p, heard + [more], challenge)
    ensures JoinedAt(p, heard + [more], |heard|) ==> Joined(p, heard + [more])
  {
    hide ValidJoin, ChallengeBytes;
    var all := heard + [more];
    if Joined(p, heard) {
      var i: nat :| JoinedAt(p, heard, i);
      assert JoinedAt(p, all, i);
      if more.bytes == ChallengeBytes(challenge) {
        assert all[|heard|].bytes == ChallengeBytes(challenge);
      }
    }
    if Proved(p, heard, challenge) {
      var i: nat, j: nat :| JoinedAt(p, heard, i) && i < j < |heard| && heard[j].bytes == ChallengeBytes(challenge);
      assert JoinedAt(p, all, i) && all[j].bytes == ChallengeBytes(challenge);
    }
  }

  lemma ServerHearsKeeps(p: Parties, honest: bool, w: Link, bytes: Bytes, full: bool)
    requires Agreed(p, w) && (honest ==> HonestlyAgreed(p, w)) && Enabled(p, honest, w, ServerHears(bytes, full))
    ensures var v := Step(p, honest, w, ServerHears(bytes, full));
            Agreed(p, v) && (honest ==> HonestlyAgreed(p, v))
  {
    hide JudgeJoin, ChallengeBytes, AcceptBytes, JoinBytes, Joined, Proved;
    var c := w.server.challenge;
    HeardMore(p, w.heard, c, Heard(bytes, full));
    if w.server.response != SERVER_ACCEPTED {
      EchoOnly(p.game, w.server, bytes, full);
    }
    ChallengeReadsBack(c);
    if bytes != [] {
      JudgedReply(p.game, bytes, full);
    }
    ServerMoves(p, w, bytes, full);
  }

  /** Joining never yields acceptance, nor the reply to a wrong echo. */
  lemma JudgedReply(game: Game, bytes: Bytes, full: bool)
    requires bytes != []
    ensures var v := JudgeJoin(game, bytes, 1, full);
            v.Reply? ==> v.response != SERVER_ACCEPTED && v.response != WRONG_CHALLENGE
  {
    hide ReadField;
  }

  lemma ServerMoves(p: Parties, w: Link, bytes: Bytes, full: bool)
    requires ServerReceive(p.game, w.server, bytes, full).ServerRead?
    ensures var r := ServerReceive(p.game, w.server, bytes, full).state.response;
            r != w.server.response && r == SERVER_CHALLENGE ==> JoinedAt(p, w.heard + [Heard(bytes, full)], |w.heard|)
  {
    hide JudgeJoin, ValidJoin;
    if bytes != [] && bytes[0] == JOIN_REQUEST {
      JudgedIff(p.game, bytes, full);
    }
  }

  lemma ServerUpdatesKeeps(p: Parties, honest: bool, w: Link, late: bool, ready: bool)
    requires Agreed(p, w) && (honest ==> HonestlyAgreed(p, w)) && Enabled(p, honest, w, ServerUpdates(late, ready))
    ensures var v := Step(p, honest, w, ServerUpdates(late, ready));
            Agreed(p, v) && (honest ==> HonestlyAgreed(p, v))
  {
    hide ChallengeBytes, AcceptBytes, JoinBytes, Joined, Proved;
  }

  lemma ClientHearsKeeps(p: Parties, honest: bool, w: Link, answer: Bytes)
    requires Agreed(p, w) && (honest ==> HonestlyAgreed(p, w)) && Enabled(p, honest, w, ClientHears(answer))
    ensures var v := Step(p, honest, w, ClientHears(answer));
            Agreed(p, v) && (honest ==> HonestlyAgreed(p, v))
  {
    hide ChallengeBytes, AcceptBytes, JoinBytes, Joined, Proved, FromBigEndian, BigEndian;
    ChallengeReadsBack(w.server.challenge);
    AcceptReadsBack(p.game);
  }

  lemma AcceptReadsBack(game: Game)
    requires game.Valid()
    ensures AcceptBytes(game)[1..7] == LIB_VERSION
    ensures FromBigEndian(AcceptBytes(game)[7..11]) == game.version
    ensures FromBigEndian(AcceptBytes(game)[11..13]) == game.playerId
  {
    hide BigEndian, FromBigEndian;
    assert Pow256(2) == 65536;
    Pow256Of4();
    BigEndianRoundTrip(2, game.playerId);
    BigEndianRoundTrip(4, game.version);
    assert AcceptBytes(game)[7..11] == BigEndian(4, game.version);
    assert AcceptBytes(game)[11..13] == BigEndian(2, game.playerId);
  }

  lemma ClientUpdatesKeeps(p: Parties, honest: bool, w: Link, timedOut: bool, ready: bool)
    requires Agreed(p, w) && (honest ==> HonestlyAgreed(p, w))
    requires Enabled(p, honest, w, ClientUpdates(timedOut, ready))
    ensures var v := Step(p, honest, w, ClientUpdates(timedOut, ready));
            Agreed(p, v) && (honest ==> HonestlyAgreed(p, v))
  {
    hide ChallengeBytes, AcceptBytes, JoinBytes, Joined, Proved;
  }

  ghost predicate Run(p: Parties, honest: bool, challenge: nat, ws: seq<Link>, events: seq<Event>)
  {
    p.Valid() && challenge < SIZE_T && |ws| == |events| + 1 && ws[0] == Opening(challenge) &&
    forall i :: 0 <= i < |events| ==>
      Enabled(p, honest, ws[i], events[i]) && ws[i + 1] == Step(p, honest, ws[i], events[i])
  }

  lemma {:induction false} RunKeeps(p: Parties, honest: bool, challenge: nat, ws: seq<Link>, events: seq<Event>, i: nat)
    requires Run(p, honest, challenge, ws, events) && i < |ws|
    ensures Agreed(p, ws[i]) && (honest ==> HonestlyAgreed(p, ws[i])) && ws[i].server.challenge == challenge
  {
    hide Agreed, HonestlyAgreed, Step, Enabled;
    if i == 0 {
      OpeningAgreed(p, challenge);
    } else {
      RunKeeps(p, honest, challenge, ws, events, i - 1);
      var w, e := ws[i - 1], events[i - 1];
      assert Enabled(p, honest, w, e) && ws[i - 1 + 1] == Step(p, honest, w, e);
      StepKeeps(p, honest, w, e);
    }
  }

  lemma OpeningAgreed(p: Parties, challenge: nat)
    requires p.Valid() && challenge < SIZE_T
    ensures Agreed(p, Opening(challenge)) && HonestlyAgreed(p, Opening(challenge))
  {
  }

  lemma StepKeeps(p: Parties, honest: bool, w: Link, e: Event)
    requires Agreed(p, w) && (honest ==> HonestlyAgreed(p, w)) && Enabled(p, honest, w, e)
    ensures var v := Step(p, honest, w, e);
            Agreed(p, v) && (honest ==> HonestlyAgreed(p, v)) && v.server.challenge == w.server.challenge
  {
    hide Agreed, HonestlyAgreed;
    match e
    case ServerHears(bytes, full) => ServerHearsKeeps(p, honest, w, bytes, full);
    case ServerUpdates(late, ready) => ServerUpdatesKeeps(p, honest, w, late, ready);
    case ClientHears(answer) => ClientHearsKeeps(p, honest, w, answer);
    case ClientUpdates(timedOut, ready) => ClientUpdatesKeeps(p, honest, w, timedOut, ready);
  }

  /** Over any network: a client that thinks itself accepted was accepted, under the number it
      holds, and only after a join request with the library's version, the server's name and an
      accepted game version, heard while there was room, and behind it an echo of the
      server's own challenge. Between honest parties no echo is ever judged wrong. */
  lemma AcceptedOnlyAfterProof(
    p: Parties, honest: bool, challenge: nat, ws: seq<Link>, events: seq<Event>, i: nat)
    requires Run(p, honest, challenge, ws, events) && i < |ws|
    ensures ws[i].client.phase == ACCEPTED ==> ws[i].entered && ws[i].client.params == Some(ServerParams(p.game))
    ensures ws[i].inGame ==> ws[i].client.phase == ACCEPTED
    ensures ws[i].entered ==> Proved(p, ws[i].heard, challenge) && AcceptBytes(p.game) in ws[i].toClient
    ensures honest ==> ws[i].server.response != WRONG_CHALLENGE
    ensures ws[i].client.phase != REJECTED
  {
    hide Joined, Proved, ChallengeBytes, AcceptBytes, Run;
    RunKeeps(p, honest, challenge, ws, events, i);
  }

  // ---------------------------------------------------------------- when updates are due, and how it ends

  /** What makes a waiting client take an answer. */
  predicate Counts(answer: Bytes)
  {
    answer != [] && if answer[0] == SERVER_CHALLENGE then |answer| == 9 else |answer| > 11
  }

  /** For every answer at all: a challenge is nine bytes whose number is kept, an acceptance thirteen
      whose versions and player number are kept, anything else either a rejection or no answer. */
  lemma AnswerTakenIff(s: ClientHs, answer: Bytes)
    ensures var r := ClientReceive(s, answer);
            && (r.ok <==> s.phase == WAITING && Counts(answer))
            && (!r.ok ==> r.state == s)
            && (r.ok ==> r.state.timeouts == s.timeouts)
            && (r.ok && r.state.phase == CHALLENGED <==>
                s.phase == WAITING && |answer| == 9 && answer == ChallengeBytes(r.state.challenge))
            && (r.ok && r.state.phase == ACCEPTED <==>
                s.phase == WAITING && |answer| == 13 && r.state.params.Some? &&
                answer == [SERVER_ACCEPTED] + r.state.params.value.libVersion +
                          BigEndian(4, r.state.params.value.gameVersion) + BigEndian(2, r.state.params.value.playerId) &&
                |r.state.params.value.libVersion| == 6)
            && (r.ok ==> r.state.phase == CHALLENGED || r.state.phase == ACCEPTED || r.state.phase == REJECTED)
  {
    hide BigEndian, FromBigEndian;
    if |answer| == 9 {
      BigEndianSurjective(answer[1..9]);
      assert answer == [answer[0]] + answer[1..9];
    }
    if |answer| == 13 {
      BigEndianSurjective(answer[7..11]);
      BigEndianSurjective(answer[11..13]);
      assert answer == [answer[0]] + answer[1..7] + answer[7..11] + answer[11..13];
    }
  }

  /** What a waiting client does next is decided by the answer it takes, whoever sent it: a challenge is
      echoed, an acceptance leads into the game, anything else ends the attempt. */
  lemma AnswerDecides(name: Bytes, version: nat, s: ClientHs, answer: Bytes)
    requires s.phase == WAITING && Counts(answer)
    ensures var t := ClientReceive(s, answer).state;
            var u := ClientUpdate(name, version, t, false, true);
            && ClientNeeds(t)
            && u.sent == (if answer[0] == SERVER_CHALLENGE then [answer] else [])
            && (u.result == Continue <==> answer[0] == SERVER_CHALLENGE)
            && (u.result == Change <==> answer[0] == SERVER_ACCEPTED && |answer| == 13)
  {
    hide BigEndian, FromBigEndian;
    AnswerTakenIff(s, answer);
  }

  /** A packet has come to the server since its last challenge, or since the start. */
  ghost predicate Unanswered(ws: seq<Link>, events: seq<Event>, i: nat)
    requires i <= |events| < |ws|
  {
    exists j :: 0 <= j < i && Knocks(events[j]) && forall k :: j < k < i ==> !Challenges(ws[k], events[k])
  }

  predicate Knocks(e: Event)
  {
    e.ServerHears? && e.bytes != []
  }

  predicate Challenges(w: Link, e: Event)
  {
    e.ServerUpdates? && w.server.response == SERVER_CHALLENGE
  }

  /** The client has sent a packet of its own and taken no answer since. */
  ghost predicate Waits(ws: seq<Link>, events: seq<Event>, i: nat)
    requires i <= |events| < |ws|
  {
    exists j :: 0 <= j < i && Asks(ws[j], events[j]) && forall k :: j < k < i ==> !IsAnswer(events[k])
  }

  predicate Asks(w: Link, e: Event)
  {
    e.ClientUpdates? && !e.timedOut && e.clientReady && (w.client.phase == NOT_STARTED || w.client.phase == CHALLENGED)
  }

  predicate IsAnswer(e: Event)
  {
    e.ClientHears? && Counts(e.answer)
  }

  /** How often in a row, up to here, the client has updated timed out. */
  function TimedOutInARow(events: seq<Event>): nat
  {
    if events == [] then 0
    else
      var before, e := TimedOutInARow(events[..|events| - 1]), events[|events| - 1];
      if !e.ClientUpdates? then before else if e.timedOut then before + 1 else 0
  }

  lemma UnansweredTurn(ws: seq<Link>, events: seq<Event>, i: nat)
    requires i < |events| < |ws|
    ensures Unanswered(ws, events, i + 1) <==>
            Knocks(events[i]) || (Unanswered(ws, events, i) && !Challenges(ws[i], events[i]))
  {
    if Unanswered(ws, events, i) && !Challenges(ws[i], events[i]) {
      var j :| 0 <= j < i && Knocks(events[j]) && forall k :: j < k < i ==> !Challenges(ws[k], events[k]);
      assert Knocks(events[j]) && forall k :: j < k < i + 1 ==> !Challenges(ws[k], events[k]);
    }
  }

  lemma WaitsTurn(ws: seq<Link>, events: seq<Event>, i: nat)
    requires i < |events| < |ws|
    ensures Waits(ws, events, i + 1) <==> Asks(ws[i], events[i]) || (Waits(ws, events, i) && !IsAnswer(events[i]))
  {
    if Waits(ws, events, i) && !IsAnswer(events[i]) {
      var j :| 0 <= j < i && Asks(ws[j], events[j]) && forall k :: j < k < i ==> !IsAnswer(events[k]);
      assert Asks(ws[j], events[j]) && forall k :: j < k < i + 1 ==> !IsAnswer(events[k]);
    }
  }

  /** In every run an update is due for the server exactly when a packet has come since its last
      challenge, and for the client exactly when it is not waiting for an answer to a packet of its own. */
  lemma {:induction false} UpdateDueIff(
    p: Parties, honest: bool, challenge: nat, ws: seq<Link>, events: seq<Event>, i: nat)
    requires Run(p, honest, challenge, ws, events) && i < |ws|
    ensures !ws[i].entered ==> (ServerNeeds(ws[i].server) <==> Unanswered(ws, events, i))
    ensures ClientNeeds(ws[i].client) <==> !Waits(ws, events, i)
  {
    hide Agreed, HonestlyAgreed, Unanswered, Waits, Enabled, Step;
    if i == 0 {
      NothingSaid(ws, events);
    } else {
      UpdateDueIff(p, honest, challenge, ws, events, i - 1);
      var w, e := ws[i - 1], events[i - 1];
      assert Enabled(p, honest, w, e) && ws[i - 1 + 1] == Step(p, honest, w, e);
      RunKeeps(p, honest, challenge, ws, events, i - 1);
      UnansweredTurn(ws, events, i - 1);
      WaitsTurn(ws, events, i - 1);
      StepDue(p, honest, w, e);
    }
  }

  lemma NothingSaid(ws: seq<Link>, events: seq<Event>)
    requires |events| < |ws|
    ensures !Unanswered(ws, events, 0) && !Waits(ws, events, 0)
  {
  }

  lemma StepDue(p: Parties, honest: bool, w: Link, e: Event)
    requires Agreed(p, w) && Enabled(p, honest, w, e)
    ensures var v := Step(p, honest, w, e);
            && (!v.entered ==> (ServerNeeds(v.server) <==> Knocks(e) || (ServerNeeds(w.server) && !Challenges(w, e))))
            && (ClientNeeds(v.client) <==> !(Asks(w, e) || (!ClientNeeds(w.client) && !IsAnswer(e))))
            && (!v.entered ==> !w.entered)
  {
    hide Joined, Proved, ChallengeBytes, AcceptBytes, JoinBytes, JudgeJoin;
    if e.ClientHears? {
      AnswerTakenIff(w.client, e.answer);
    }
  }

  /** In every run the client's timeouts are counted in a row. */
  lemma {:induction false} TimeoutsCounted(
    p: Parties, honest: bool, challenge: nat, ws: seq<Link>, events: seq<Event>, i: nat)
    requires Run(p, honest, challenge, ws, events) && i < |ws|
    ensures ws[i].client.timeouts == TimedOutInARow(events[..i])
    ensures ws[i].client.timeouts <= 6 && (!ws[i].gaveUp ==> ws[i].client.timeouts <= 5)
  {
    hide Enabled, Step;
    if i > 0 {
      TimeoutsCounted(p, honest, challenge, ws, events, i - 1);
      var w, e := ws[i - 1], events[i - 1];
      assert Enabled(p, honest, w, e) && ws[i - 1 + 1] == Step(p, honest, w, e);
      assert events[..i][..i - 1] == events[..i - 1];
      StepCounts(p, honest, w, e);
    }
  }

  lemma StepCounts(p: Parties, honest: bool, w: Link, e: Event)
    requires Enabled(p, honest, w, e)
    ensures var v := Step(p, honest, w, e);
            && v.client.timeouts == (if !e.ClientUpdates? then w.client.timeouts
                                     else if e.timedOut then w.client.timeouts + 1 else 0)
            && (e.ClientUpdates? && e.timedOut ==> (v.gaveUp <==> w.client.timeouts >= 5))
            && (!e.ClientUpdates? ==> v.gaveUp == w.gaveUp)
            && (e.ClientUpdates? ==> !w.gaveUp)
  {
    hide ServerReceive, ServerUpdate, FromBigEndian;
  }

  /** In every run a client's update leads into the game exactly if the server's acceptance has come
      and it is not timed out, and gives up exactly if it is the sixth in a row to be timed out. */
  lemma ClientEndsIff(
    p: Parties, honest: bool, challenge: nat, ws: seq<Link>, events: seq<Event>, i: nat)
    requires Run(p, honest, challenge, ws, events) && i < |events| && events[i].ClientUpdates?
    ensures ws[i + 1].inGame <==> ws[i].client.phase == ACCEPTED && !events[i].timedOut
    ensures ws[i + 1].gaveUp <==> events[i].timedOut && TimedOutInARow(events[..i]) == 5
  {
    hide Joined, Proved, ChallengeBytes, AcceptBytes, JoinBytes;
    RunKeeps(p, honest, challenge, ws, events, i);
    TimeoutsCounted(p, honest, challenge, ws, events, i);
    assert Enabled(p, honest, ws[i], events[i]) && ws[i + 1] == Step(p, honest, ws[i], events[i]);
  }

  // ---------------------------------------------------------------- a handshake nobody disturbs

  function AfterJoin(p: Parties, w: Link, full: bool): Link
    requires Enabled(p, true, w, ClientUpdates(false, true))
    requires Enabled(p, true, Step(p, true, w, ClientUpdates(false, true)), ServerHears(JoinBytes(p.name, p.version), full))
  {
    Step(p, true, Step(p, true, w, ClientUpdates(false, true)), ServerHears(JoinBytes(p.name, p.version), full))
  }

  /** The client asks, the server answers: the server gives it up exactly when the request is wrong. */
  lemma JoinDecides(p: Parties, challenge: nat, full: bool)
    requires p.Valid() && challenge < SIZE_T
    ensures Enabled(p, true, Opening(challenge), ClientUpdates(false, true))
    ensures Enabled(p, true, Step(p, true, Opening(challenge), ClientUpdates(false, true)),
                    ServerHears(JoinBytes(p.name, p.version), full))
    ensures var w := AfterJoin(p, Opening(challenge), full);
            Enabled(p, true, w, ServerUpdates(false, true)) &&
            (Step(p, true, w, ServerUpdates(false, true)).dropped <==>
             !(p.name == p.game.name && p.version in p.game.accepts && !full)) &&
            (!Step(p, true, w, ServerUpdates(false, true)).dropped ==>
             w == Opening(challenge).(server := ServerHs(SERVER_CHALLENGE, challenge, true),
                                      client := ClientHs(WAITING, 0, 0, None),
                                      toServer := {JoinBytes(p.name, p.version)},
                                      heard := [Heard(JoinBytes(p.name, p.version), full)]))
  {
    hide JudgeJoin, ChallengeBytes, AcceptBytes, JoinBytes;
    JoinJudged(p.game, p.name, p.version, full);
    OneSent(JoinBytes(p.name, p.version));
  }

  lemma OneSent(m: Bytes)
    ensures AsSet([m]) == {m} && AsSet([]) == {}
  {
  }

  /** From there on every packet arriving in turn, the client ends accepted and the server done. */
  lemma ChallengeCompletes(p: Parties, w: Link)
    requires p.Valid() && w.server.challenge < SIZE_T && w.server.response == SERVER_CHALLENGE
    requires w.client.phase == WAITING && !w.entered && !w.dropped && !w.inGame && !w.gaveUp && ServerNeeds(w.server)
    ensures var w1 := Step(p, true, w, ServerUpdates(false, true));
            var c := ChallengeBytes(w.server.challenge);
            Enabled(p, true, w1, ClientHears(c)) &&
            var w2 := Step(p, true, Step(p, true, w1, ClientHears(c)), ClientUpdates(false, true));
            Enabled(p, true, w2, ServerHears(c, false)) &&
            var w3 := Step(p, true, w2, ServerHears(c, false));
            Enabled(p, true, w3, ServerUpdates(false, true)) &&
            var w4 := Step(p, true, w3, ServerUpdates(false, true));
            Enabled(p, true, w4, ClientHears(AcceptBytes(p.game))) &&
            var w5 := Step(p, true, w4, ClientHears(AcceptBytes(p.game)));
            Enabled(p, true, w5, ClientUpdates(false, true)) &&
            var w6 := Step(p, true, w5, ClientUpdates(false, true));
            w6.entered && w6.inGame && w6.client.params == Some(ServerParams(p.game))
  {
    hide ChallengeBytes, AcceptBytes, JoinBytes, JudgeJoin, FromBigEndian, BigEndian;
    var c := ChallengeBytes(w.server.challenge);
    ChallengeReadsBack(w.server.challenge);
    AcceptReadsBack(p.game);
    OneSent(c);
    OneSent(AcceptBytes(p.game));
  }
}
