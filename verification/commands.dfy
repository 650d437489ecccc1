/** The mutation and query resolvers of backend/src/schema.ts as pure
    transitions. A resolver takes the server state (the Redis lobby records
    and rosters plus the in-memory game registry) and the caller's session,
    and yields the next state, the next session, the payloads it published
    in order, and its reply or the error it threw. A resolver that throws
    after writing keeps its writes, so the state is carried on every path.
    The resolvers that reach one of the four defects of the code (joinLobby,
    leaveLobby, kickPlayer, makeTurn, writeChat) take a Variant: AsWritten
    follows the code as it is, Corrected the behaviour it evidently
    intends. */
module Commands {
  import opened Wrappers
  import opened Types
  import Board
  import Registry
  import Store
  import Chat
  import opened Events

  datatype Server = Server(
    lobbies: map<LobbyId, Store.LobbyRecord>,
    rosters: map<LobbyId, Store.PlayerHash>,
    games: Registry.Games)

  datatype Step<T> = Step(server: Server, session: Session, events: seq<Event>, reply: Result<T, Error>)

  /** The longest nickname joinLobby keeps. */
  const MaxNicknameLength: nat := 15

  /** The roster of a lobby; a hash that does not exist reads as empty. */
  function Roster(sv: Server, id: LobbyId): Store.PlayerHash {
    if id in sv.rosters then sv.rosters[id] else []
  }

  /** The admin field of a lobby record; absent when the record is. */
  function AdminOf(sv: Server, id: LobbyId): Option<Uid> {
    if id in sv.lobbies then sv.lobbies[id].admin else None
  }

  /** The lobby as re-read after a write: record fields and roster. */
  function View(sv: Server, id: LobbyId): LobbyView {
    LobbyView(if id in sv.lobbies then Some(sv.lobbies[id]) else None,
              Store.GetLobbyPlayers(Roster(sv, id)))
  }

  /** The caller as a Player. */
  function Caller(s: Session): Player
    requires s.uid.Some?
  {
    Player(s.uid.value, s.nickname)
  }

  /** At most the first `n` characters of `s`. */
  function Truncate(s: string, n: nat): (r: string)
    ensures |r| <= n && r <= s
    ensures |s| <= n ==> r == s
    ensures |s| > n ==> r == s[..n]
  {
    if |s| > n then s[..n] else s
  }

  /** removePlayer applied to the server: the player leaves the roster,
      the count drops by one, and in the corrected reading an admin who
      leaves a non-empty roster hands the role to its first entry. */
  function Remove(v: Variant, sv: Server, id: LobbyId, uid: Uid): (r: Server)
    ensures r.games == sv.games
    ensures Roster(r, id) == Store.Delete(Roster(sv, id), uid)
    ensures id in r.lobbies <==> id in sv.lobbies
    ensures id in sv.lobbies ==>
              r.lobbies[id] == sv.lobbies[id].(playerCount := sv.lobbies[id].playerCount - 1,
                                               admin := r.lobbies[id].admin)
    ensures id in sv.lobbies && (v.AsWritten? || sv.lobbies[id].admin != Some(uid) || |Roster(r, id)| == 0) ==>
              r.lobbies[id].admin == sv.lobbies[id].admin
    ensures id in sv.lobbies && v.Corrected? && sv.lobbies[id].admin == Some(uid) && |Roster(r, id)| > 0 ==>
              r.lobbies[id].admin == Some(Roster(r, id)[0].0)
    ensures forall other :: other != id ==>
              Roster(r, other) == Roster(sv, other)
              && (other in r.lobbies <==> other in sv.lobbies)
              && (other in sv.lobbies ==> r.lobbies[other] == sv.lobbies[other])
  {
    var removed := Store.Removal(v, if id in sv.lobbies then Some(sv.lobbies[id]) else None, Roster(sv, id), uid);
    sv.(lobbies := if removed.record.Some? then sv.lobbies[id := removed.record.value] else sv.lobbies,
        rosters := sv.rosters[id := removed.players])
  }

  /** createLobby: write a record with every default under a fresh id. The
      id generator is a parameter. */
  function CreateLobby(sv: Server, s: Session, freshId: LobbyId): (r: Step<Store.LobbyRecord>)
    ensures r.session == s && r.events == [] && r.reply.Ok?
    ensures r.reply.value.lobbyId == freshId && r.reply.value.state == GameState.Lobby
    ensures r.reply.value.maxPlayers == Store.DefaultMaxPlayers && r.reply.value.playerCount == 0
    ensures r.reply.value.rows == Store.DefaultRows && r.reply.value.cols == Store.DefaultCols
    ensures r.reply.value.connect == Store.DefaultConnect
    ensures freshId !in sv.lobbies ==> r.reply.value.admin.None? && r.reply.value.currentPlayer.None?
    ensures r.server.lobbies.Keys == sv.lobbies.Keys + {freshId}
    ensures r.server.lobbies[freshId] == r.reply.value
    ensures forall other :: other in sv.lobbies && other != freshId ==> r.server.lobbies[other] == sv.lobbies[other]
    ensures r.server.rosters == sv.rosters && r.server.games == sv.games
  {
    var rec := Store.CreateLobbyRecord(if freshId in sv.lobbies then Some(sv.lobbies[freshId]) else None, freshId);
    Step(sv.(lobbies := sv.lobbies[freshId := rec]), s, [], Ok(rec))
  }

  /** joinLobby: shorten the nickname, refuse a missing or full lobby,
      attach the session (issuing a uid if it has none) before refusing a
      caller already on the roster, then make the caller admin of an empty
      lobby, count them, append them to the roster and announce the join.
      The uid generator is a parameter. */
  function JoinLobby(v: Variant, sv: Server, s: Session, lobbyId: LobbyId, nickname: string, freshUid: Uid)
    : (r: Step<LobbyView>)
    ensures lobbyId !in sv.lobbies ==> r == Step(sv, s, [], Err(LobbyNotFound))
    ensures lobbyId in sv.lobbies && Store.Full(v, sv.lobbies[lobbyId]) ==> r == Step(sv, s, [], Err(LobbyFull))
    ensures var uid := if s.uid.Some? then s.uid.value else freshUid;
            lobbyId in sv.lobbies && !Store.Full(v, sv.lobbies[lobbyId]) ==>
              && r.session == SessionData(Some(uid), Truncate(nickname, MaxNicknameLength), Some(lobbyId))
              && (r.reply.Ok? <==> !Store.IsPlayerInLobby(Roster(sv, lobbyId), uid))
              && (Store.IsPlayerInLobby(Roster(sv, lobbyId), uid) ==> r.reply == Err(AlreadyInLobby))
    ensures r.reply.Err? ==> r.server == sv && r.events == []
    ensures r.reply.Ok? ==> lobbyId in sv.lobbies && lobbyId in r.server.lobbies
    ensures r.reply.Ok? ==>
              var uid := r.session.uid.value;
              var old_ := sv.lobbies[lobbyId];
              var new_ := r.server.lobbies[lobbyId];
              && Roster(r.server, lobbyId) == Roster(sv, lobbyId) + [(uid, r.session.nickname)]
              && new_ == old_.(playerCount := old_.playerCount + 1, admin := new_.admin)
              && (v.Corrected? ==> new_.playerCount <= new_.maxPlayers)
              && new_.admin == (if old_.playerCount <= 0 then Some(uid) else old_.admin)
              && r.server.games == sv.games
              && r.server.lobbies.Keys == sv.lobbies.Keys
              && (forall other :: other != lobbyId ==> Roster(r.server, other) == Roster(sv, other))
              && (forall other :: other in sv.lobbies && other != lobbyId ==> r.server.lobbies[other] == sv.lobbies[other])
              && r.reply.value == View(r.server, lobbyId)
              && r.events == [LobbyUpdate(lobbyId, PlayerJoin, Some(r.reply.value))]
  {
    var nick := Truncate(nickname, MaxNicknameLength);
    if lobbyId !in sv.lobbies then Step(sv, s, [], Err(LobbyNotFound))
    else
      var rec := sv.lobbies[lobbyId];
      if Store.Full(v, rec) then Step(sv, s, [], Err(LobbyFull))
      else
        var uid := if s.uid.Some? then s.uid.value else freshUid;
        var s' := SessionData(Some(uid), nick, Some(lobbyId));
        if Store.IsPlayerInLobby(Roster(sv, lobbyId), uid) then Step(sv, s', [], Err(AlreadyInLobby))
        else
          var withAdmin := if rec.playerCount <= 0 then rec.(admin := Some(uid)) else rec;
          var rec' := withAdmin.(playerCount := withAdmin.playerCount + 1);
          var sv' := sv.(lobbies := sv.lobbies[lobbyId := rec'],
                         rosters := sv.rosters[lobbyId := Roster(sv, lobbyId) + [(uid, nick)]]);
          var view := View(sv', lobbyId);
          Step(sv', s', [LobbyUpdate(lobbyId, PlayerJoin, Some(view))], Ok(view))
  }

  /** leaveLobby: remove the caller from the roster, detach the session and
      announce the departure with the lobby as re-read. */
  function LeaveLobby(v: Variant, sv: Server, s: Session): (r: Step<bool>)
    ensures s.lobbyId.None? ==> r == Step(sv, s, [], Err(NotInLobby))
    ensures s.lobbyId.Some? ==>
              var id := s.lobbyId.value;
              && r.reply == Ok(true)
              && r.session == s.(lobbyId := None)
              && Roster(r.server, id) == Store.Delete(Roster(sv, id), s.uid.value)
              && !Store.IsPlayerInLobby(Roster(r.server, id), s.uid.value)
              && r.server == Remove(v, sv, id, s.uid.value)
              && r.events == [LobbyUpdate(id, PlayerLeave, Some(View(r.server, id)))]
  {
    if s.lobbyId.None? then Step(sv, s, [], Err(NotInLobby))
    else
      var id := s.lobbyId.value;
      var sv' := Remove(v, sv, id, s.uid.value);
      Step(sv', s.(lobbyId := None), [LobbyUpdate(id, PlayerLeave, Some(View(sv', id)))], Ok(true))
  }

  /** kickPlayer: only the admin may remove a player, and not themself. */
  function KickPlayer(v: Variant, sv: Server, s: Session, other: Uid): (r: Step<bool>)
    ensures r.session == s
    ensures s.lobbyId.None? ==> r == Step(sv, s, [], Err(NotInLobby))
    ensures s.lobbyId.Some? && AdminOf(sv, s.lobbyId.value) != s.uid ==> r == Step(sv, s, [], Err(NotAdmin))
    ensures s.lobbyId.Some? && AdminOf(sv, s.lobbyId.value) == s.uid && other == s.uid.value ==>
              r == Step(sv, s, [], Err(KickSelf))
    ensures r.reply.Ok? <==> s.lobbyId.Some? && AdminOf(sv, s.lobbyId.value) == s.uid && other != s.uid.value
    ensures r.reply.Ok? ==>
              var id := s.lobbyId.value;
              && r.reply.value
              && !Store.IsPlayerInLobby(Roster(r.server, id), other)
              && r.server == Remove(v, sv, id, other)
              && r.events == [LobbyUpdate(id, PlayerKick, Some(View(r.server, id)))]
  {
    if s.lobbyId.None? then Step(sv, s, [], Err(NotInLobby))
    else
      var id := s.lobbyId.value;
      if AdminOf(sv, id) != s.uid then Step(sv, s, [], Err(NotAdmin))
      else if s.uid.value == other then Step(sv, s, [], Err(KickSelf))
      else
        var sv' := Remove(v, sv, id, other);
        Step(sv', s, [LobbyUpdate(id, PlayerKick, Some(View(sv', id)))], Ok(true))
  }

  /** startGame: only the admin, and not while a game runs. Installs a
      fresh board from the lobby settings and marks the lobby started and
      announces it before choosing the first player, so when the roster is
      empty the resolver throws with those writes already made. */
  function StartGame(sv: Server, s: Session): (r: Step<bool>)
    ensures r.session == s
    ensures s.lobbyId.None? ==> r == Step(sv, s, [], Err(NotInLobby))
    ensures s.lobbyId.Some? && AdminOf(sv, s.lobbyId.value) != s.uid ==> r == Step(sv, s, [], Err(NotAdmin))
    ensures (s.lobbyId.Some? && AdminOf(sv, s.lobbyId.value) == s.uid
             && sv.lobbies[s.lobbyId.value].state == GameStart) ==> r == Step(sv, s, [], Err(AlreadyStarted))
    ensures r.reply.Ok? <==>
              && s.lobbyId.Some? && AdminOf(sv, s.lobbyId.value) == s.uid
              && sv.lobbies[s.lobbyId.value].state != GameStart
              && |Roster(sv, s.lobbyId.value)| > 0
    ensures (s.lobbyId.Some? && AdminOf(sv, s.lobbyId.value) == s.uid
             && sv.lobbies[s.lobbyId.value].state != GameStart
             && |Roster(sv, s.lobbyId.value)| == 0) ==> r.reply == Err(NoPlayers)
    ensures r.reply.Ok? || r.reply == Err(NoPlayers) ==>
              var id := s.lobbyId.value;
              var rec := sv.lobbies[id];
              && r.server.games == Registry.NewGame(sv.games, id, rec.rows, rec.cols, rec.connect)
              && Board.Cells(r.server.games[id].board) == {}
              && r.server.rosters == sv.rosters
              && r.server.lobbies.Keys == sv.lobbies.Keys
              && r.server.lobbies[id].state == GameStart
              && |r.events| >= 1 && r.events[0] == LobbyUpdate(id, GameStarted, None)
    ensures r.reply == Err(NoPlayers) ==>
              var id := s.lobbyId.value;
              r.server.lobbies == sv.lobbies[id := sv.lobbies[id].(state := GameStart)] && |r.events| == 1
    ensures r.reply.Ok? ==>
              var id := s.lobbyId.value;
              var rec := sv.lobbies[id];
              var first := Store.NextPlayer(Store.GetLobbyPlayers(Roster(sv, id)), rec.currentPlayer);
              && Store.IsPlayerInLobby(Roster(sv, id), first.uid)
              && r.server.lobbies == sv.lobbies[id := rec.(state := GameStart, currentPlayer := Some(first.uid))]
              && r.events == [LobbyUpdate(id, GameStarted, None), GameUpdate(id, Turn, Some(first), None)]
  {
    if s.lobbyId.None? then Step(sv, s, [], Err(NotInLobby))
    else
      var id := s.lobbyId.value;
      if AdminOf(sv, id) != s.uid then Step(sv, s, [], Err(NotAdmin))
      else
        var rec := sv.lobbies[id];
        if rec.state == GameStart then Step(sv, s, [], Err(AlreadyStarted))
        else
          var games := Registry.NewGame(sv.games, id, rec.rows, rec.cols, rec.connect);
          var started := rec.(state := GameStart);
          var announce := LobbyUpdate(id, GameStarted, None);
          match Store.DetermineNextPlayer(started, Roster(sv, id))
          case Err(e) => Step(sv.(games := games, lobbies := sv.lobbies[id := started]), s, [announce], Err(e))
          case Ok(adv) =>
            Step(sv.(games := games, lobbies := sv.lobbies[id := adv.record]), s,
                 [announce, GameUpdate(id, Turn, Some(adv.player), None)], Ok(true))
  }

  /** stopGame: only the admin; drops the board whether or not a game
      runs, puts the lobby back to Lobby (keeping currentPlayer) and
      announces it. */
  function StopGame(sv: Server, s: Session): (r: Step<bool>)
    ensures r.session == s
    ensures s.lobbyId.None? ==> r == Step(sv, s, [], Err(NotInLobby))
    ensures s.lobbyId.Some? && AdminOf(sv, s.lobbyId.value) != s.uid ==> r == Step(sv, s, [], Err(NotAdmin))
    ensures r.reply.Ok? <==> s.lobbyId.Some? && AdminOf(sv, s.lobbyId.value) == s.uid
    ensures r.reply.Ok? ==>
              var id := s.lobbyId.value;
              && r.reply.value
              && id !in r.server.games
              && r.server.games == Registry.ClearGame(sv.games, id).games
              && r.server.lobbies == sv.lobbies[id := sv.lobbies[id].(state := GameState.Lobby)]
              && r.server.rosters == sv.rosters
              && r.events == [GameUpdate(id, GameState.Lobby, None, None)]
  {
    if s.lobbyId.None? then Step(sv, s, [], Err(NotInLobby))
    else
      var id := s.lobbyId.value;
      if AdminOf(sv, id) != s.uid then Step(sv, s, [], Err(NotAdmin))
      else
        var rec := sv.lobbies[id];
        var games := Registry.ClearGame(sv.games, id).games;
        Step(sv.(games := games, lobbies := sv.lobbies[id := rec.(state := GameState.Lobby)]), s,
             [GameUpdate(id, GameState.Lobby, None, None)], Ok(true))
  }

  /** makeTurn: only in an existing, started lobby and only for the
      current player. A placement the board refuses changes nothing. An
      accepted one is announced with the new board; a win ends the game
      and clears the turn, otherwise the turn passes to the next player on
      the roster. */
  function MakeTurn(v: Variant, sv: Server, s: Session, col: int): (r: Step<bool>)
    ensures r.session == s
    ensures r.reply.Err? && r.reply.error != NoPlayers ==> r.server == sv && r.events == []
    ensures s.lobbyId.None? ==> r.reply == Err(NotInLobby)
    ensures s.lobbyId.Some? && s.lobbyId.value !in sv.lobbies ==> r.reply == Err(LobbyNotFound)
    ensures s.lobbyId.Some? && s.lobbyId.value in sv.lobbies && sv.lobbies[s.lobbyId.value].state != GameStart ==>
              r.reply == Err(NotStarted)
    ensures (s.lobbyId.Some? && s.lobbyId.value in sv.lobbies && sv.lobbies[s.lobbyId.value].state == GameStart
             && sv.lobbies[s.lobbyId.value].currentPlayer != s.uid) ==> r.reply == Err(NotYourTurn)
    ensures (s.lobbyId.Some? && s.lobbyId.value in sv.lobbies && sv.lobbies[s.lobbyId.value].state == GameStart
             && sv.lobbies[s.lobbyId.value].currentPlayer == s.uid) ==>
              var placed := Registry.MakeTurn(v, sv.games, s.lobbyId.value, Caller(s), col);
              && ((r.reply.Ok? || r.reply == Err(NoPlayers)) <==> placed.Ok?)
              && (placed.Err? ==> r.reply == Err(placed.error))
    ensures r.reply.Ok? || r.reply == Err(NoPlayers) ==>
              var id := s.lobbyId.value;
              && id in sv.lobbies && sv.lobbies[id].state == GameStart && sv.lobbies[id].currentPlayer == s.uid
              && id in sv.games && id in r.server.games
              && Registry.MakeTurn(v, sv.games, id, Caller(s), col).Ok?
              && r.server.games == Registry.MakeTurn(v, sv.games, id, Caller(s), col).value.games
              && Board.Pushed(sv.games[id].board, r.server.games[id].board, Caller(s), col)
              && r.server.rosters == sv.rosters
              && |r.events| >= 1
              && r.events[0] == GameUpdate(id, Place, Some(Caller(s)), Some(r.server.games[id].board))
    ensures r.reply == Ok(true) ==>
              var id := s.lobbyId.value;
              && Board.Connected(r.server.games[id].board, s.uid.value, col,
                                 Board.Height(sv.games[id].board, col), sv.games[id].connect)
              && r.server.lobbies == sv.lobbies[id := sv.lobbies[id].(state := GameEnd, currentPlayer := None)]
              && |r.events| == 2 && r.events[1] == GameUpdate(id, GameEnd, Some(Caller(s)), None)
    ensures r.reply == Ok(false) || r.reply == Err(NoPlayers) ==>
              var id := s.lobbyId.value;
              !Board.Connected(r.server.games[id].board, s.uid.value, col,
                               Board.Height(sv.games[id].board, col), sv.games[id].connect)
    ensures r.reply == Ok(false) ==> |Roster(sv, s.lobbyId.value)| > 0
    ensures r.reply == Ok(false) ==>
              var id := s.lobbyId.value;
              var rec := sv.lobbies[id];
              var next := Store.NextPlayer(Store.GetLobbyPlayers(Roster(sv, id)), rec.currentPlayer);
              && Store.IsPlayerInLobby(Roster(sv, id), next.uid)
              && r.server.lobbies == sv.lobbies[id := rec.(currentPlayer := Some(next.uid))]
              && |r.events| == 2 && r.events[1] == GameUpdate(id, Turn, Some(next), None)
    ensures r.reply == Err(NoPlayers) ==>
              r.server.lobbies == sv.lobbies && |Roster(sv, s.lobbyId.value)| == 0 && |r.events| == 1
  {
    if s.lobbyId.None? then Step(sv, s, [], Err(NotInLobby))
    else
      var id := s.lobbyId.value;
      if id !in sv.lobbies then Step(sv, s, [], Err(LobbyNotFound))
      else
        var rec := sv.lobbies[id];
        if rec.state != GameStart then Step(sv, s, [], Err(NotStarted))
        else if rec.currentPlayer != s.uid then Step(sv, s, [], Err(NotYourTurn))
        else
          var player := Caller(s);
          match Registry.MakeTurn(v, sv.games, id, player, col)
          case Err(e) => Step(sv, s, [], Err(e))
          case Ok(turned) =>
            var placed := sv.(games := turned.games);
            var place := GameUpdate(id, Place, Some(player), Some(turned.games[id].board));
            if turned.won then
              Step(placed.(lobbies := sv.lobbies[id := rec.(state := GameEnd, currentPlayer := None)]), s,
                   [place, GameUpdate(id, GameEnd, Some(player), None)], Ok(true))
            else
              match Store.DetermineNextPlayer(rec, Roster(sv, id))
              case Err(e) => Step(placed, s, [place], Err(e))
              case Ok(adv) =>
                Step(placed.(lobbies := sv.lobbies[id := adv.record]), s,
                     [place, GameUpdate(id, Turn, Some(adv.player), None)], Ok(false))
  }

  /** updateLobby: only the admin; writes the four settings back through
      the store's updateLobby, which also resets the state to Lobby, and
      returns and announces the settings with the state as it was read. */
  function UpdateLobby(sv: Server, s: Session, rows: int, cols: int, maxPlayers: int, connect: int)
    : (r: Step<LobbyView>)
    ensures r.session == s
    ensures s.lobbyId.None? || AdminOf(sv, s.lobbyId.value) != s.uid ==> r == Step(sv, s, [], Err(NotAdmin))
    ensures r.reply.Ok? <==> s.lobbyId.Some? && AdminOf(sv, s.lobbyId.value) == s.uid
    ensures r.reply.Ok? ==>
              var id := s.lobbyId.value;
              var rec := sv.lobbies[id];
              var settled := rec.(rows := rows, cols := cols, maxPlayers := maxPlayers, connect := connect);
              && r.server.lobbies == sv.lobbies[id := settled.(state := GameState.Lobby)]
              && r.server.rosters == sv.rosters && r.server.games == sv.games
              && r.reply.value == LobbyView(Some(settled), Store.GetLobbyPlayers(Roster(sv, id)))
              && r.events == [LobbyUpdate(id, SettingsUpdate, Some(r.reply.value))]
  {
    if s.lobbyId.None? then Step(sv, s, [], Err(NotAdmin))
    else
      var id := s.lobbyId.value;
      if AdminOf(sv, id) != s.uid then Step(sv, s, [], Err(NotAdmin))
      else
        var settled := sv.lobbies[id].(rows := rows, cols := cols, maxPlayers := maxPlayers, connect := connect);
        var view := LobbyView(Some(settled), Store.GetLobbyPlayers(Roster(sv, id)));
        Step(sv.(lobbies := sv.lobbies[id := Store.UpdateLobby(settled)]), s,
             [LobbyUpdate(id, SettingsUpdate, Some(view))], Ok(view))
  }

  /** writeChat: publish the caller's message, sanitised (and, in the
      corrected reading, shortened), to the caller's lobby. Nothing is
      stored. */
  function WriteChat(v: Variant, sv: Server, s: Session, message: string): (r: Step<bool>)
    ensures r.server == sv && r.session == s
    ensures s.lobbyId.None? ==> r.reply == Err(NotInLobby) && r.events == []
    ensures s.lobbyId.Some? ==>
              && r.reply == Ok(true) && |r.events| == 1
              && r.events[0].ChatMessage? && r.events[0].lobbyId == s.lobbyId.value
              && r.events[0].author == Caller(s)
              && |r.events[0].message| == (if v.Corrected? && |message| > Chat.MaxMessageLength
                                           then Chat.MaxMessageLength else |message|)
              && (forall i :: 0 <= i < |r.events[0].message| ==>
                    r.events[0].message[i] == if Chat.Allowed(message[i]) then message[i] else Chat.Placeholder)
  {
    if s.lobbyId.None? then Step(sv, s, [], Err(NotInLobby))
    else Step(sv, s, [ChatMessage(s.lobbyId.value, Chat.Published(v, message), Caller(s))], Ok(true))
  }

  /** Whether the session is attached to a lobby whose roster holds it. */
  predicate OnRoster(sv: Server, s: Session) {
    s.lobbyId.Some? && Store.IsPlayerInLobby(Roster(sv, s.lobbyId.value), s.uid.value)
  }

  /** lobbyInfo: a caller not on its lobby's roster is detached and
      refused; otherwise the lobby, if its record exists. */
  function LobbyInfo(sv: Server, s: Session): (r: Step<LobbyView>)
    ensures r.server == sv && r.events == []
    ensures !OnRoster(sv, s) ==> r.session == s.(lobbyId := None) && r.reply == Err(NotInLobby)
    ensures OnRoster(sv, s) ==> r.session == s
    ensures r.reply.Ok? <==> OnRoster(sv, s) && s.lobbyId.value in sv.lobbies
    ensures OnRoster(sv, s) && s.lobbyId.value !in sv.lobbies ==> r.reply == Err(LobbyNotFound)
    ensures r.reply.Ok? ==> r.reply.value.record == Some(sv.lobbies[s.lobbyId.value])
                            && |r.reply.value.players| == |Roster(sv, s.lobbyId.value)|
    ensures r.reply.Ok? ==> r.reply.value == View(sv, s.lobbyId.value)
  {
    if !OnRoster(sv, s) then Step(sv, s.(lobbyId := None), [], Err(NotInLobby))
    else
      var id := s.lobbyId.value;
      if id !in sv.lobbies then Step(sv, s, [], Err(LobbyNotFound))
      else Step(sv, s, [], Ok(View(sv, id)))
  }

  /** gameInfo: the same roster check, then the lobby's board. */
  function GameInfo(sv: Server, s: Session): (r: Step<Board.Grid>)
    ensures r.server == sv && r.events == []
    ensures !OnRoster(sv, s) ==> r.session == s.(lobbyId := None) && r.reply == Err(NotInLobby)
    ensures r.reply.Ok? <==> OnRoster(sv, s) && s.lobbyId.value in sv.games
    ensures OnRoster(sv, s) && s.lobbyId.value !in sv.games ==> r.reply == Err(GameNotFound)
    ensures r.reply.Ok? ==> r.reply.value == sv.games[s.lobbyId.value].board
  {
    if !OnRoster(sv, s) then Step(sv, s.(lobbyId := None), [], Err(NotInLobby))
    else
      match Registry.GetGameBoard(sv.games, s.lobbyId.value)
      case Err(e) => Step(sv, s, [], Err(e))
      case Ok(b) => Step(sv, s, [], Ok(b))
  }
}
