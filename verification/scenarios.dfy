/** Concrete request sequences through the resolvers, in either reading
    of the code: none of them reaches a defect. */
module Scenarios {
  import opened Wrappers
  import opened Types
  import BoardProps
  import Store
  import opened Events
  import opened Commands
  import Invariants

  /** Two players join a fresh lobby: the first becomes admin, both are on
      the roster in joining order, and no turn is assigned yet. */
  lemma TwoJoin(v: Variant, a: Session, b: Session, id: LobbyId)
    requires a.uid.Some? && b.uid.Some? && a.uid != b.uid
    ensures
      var created := CreateLobby(Invariants.Empty, a, id);
      var joinedA := JoinLobby(v, created.server, a, id, "Ann", "unused");
      var joinedB := JoinLobby(v, joinedA.server, b, id, "Bob", "unused");
      && joinedA.reply.Ok? && joinedB.reply.Ok?
      && joinedA.session.uid == a.uid && joinedB.session.uid == b.uid
      && Roster(joinedB.server, id) == [(a.uid.value, "Ann"), (b.uid.value, "Bob")]
      && id in joinedB.server.lobbies
      && joinedB.server.lobbies[id].admin == a.uid
      && joinedB.server.lobbies[id].state == GameState.Lobby
      && joinedB.server.lobbies[id].currentPlayer.None?
  {
    var created := CreateLobby(Invariants.Empty, a, id);
    assert Roster(created.server, id) == [];
    var joinedA := JoinLobby(v, created.server, a, id, "Ann", "unused");
    assert !Store.Full(v, created.server.lobbies[id]);
    assert joinedA.reply.Ok?;
    assert Roster(joinedA.server, id) == [(a.uid.value, "Ann")];
    assert joinedA.server.lobbies[id].playerCount == 1;
    var joinedB := JoinLobby(v, joinedA.server, b, id, "Bob", "unused");
    assert !Store.Full(v, joinedA.server.lobbies[id]);
    assert !Store.IsPlayerInLobby(Roster(joinedA.server, id), b.uid.value);
  }

  /** The admin A of a lobby with roster [A, B] and no turn assigned
      starts the game: the first turn goes to A on an empty board. */
  lemma StartGivesFirstTurn(sv: Server, a: Session, b: Session, id: LobbyId)
    requires a.lobbyId == Some(id) && a.uid.Some? && b.uid.Some?
    requires Roster(sv, id) == [(a.uid.value, a.nickname), (b.uid.value, b.nickname)]
    requires id in sv.lobbies && sv.lobbies[id].admin == a.uid
    requires sv.lobbies[id].state != GameStart && sv.lobbies[id].currentPlayer.None?
    ensures var started := StartGame(sv, a);
            && started.reply == Ok(true)
            && |started.events| == 2 && started.events[1] == GameUpdate(id, Turn, Some(Caller(a)), None)
            && Roster(started.server, id) == Roster(sv, id)
            && id in started.server.lobbies
            && started.server.lobbies[id] == sv.lobbies[id].(state := GameStart, currentPlayer := a.uid)
            && id in started.server.games && started.server.games[id].board == map[]
            && started.server.games[id].rows == sv.lobbies[id].rows
            && started.server.games[id].cols == sv.lobbies[id].cols
            && started.server.games[id].connect == sv.lobbies[id].connect
  {
    var players := Store.GetLobbyPlayers(Roster(sv, id));
    assert players[0] == Caller(a);
  }

  /** With A to move in a started lobby with roster [A, B] and an empty
      board, B is refused with nothing changed, and A's first piece passes
      the turn to B. */
  lemma FirstMove(v: Variant, sv: Server, a: Session, b: Session, id: LobbyId, col: int)
    requires a.lobbyId == Some(id) && b.lobbyId == Some(id) && a.uid != b.uid
    requires Roster(sv, id) == [(a.uid.value, a.nickname), (b.uid.value, b.nickname)]
    requires id in sv.lobbies && sv.lobbies[id].state == GameStart && sv.lobbies[id].currentPlayer == a.uid
    requires id in sv.games && sv.games[id].board == map[]
    requires 0 <= col < sv.games[id].cols && 1 <= sv.games[id].rows && 1 < sv.games[id].connect
    ensures var early := MakeTurn(v, sv, b, col);
            early.reply == Err(NotYourTurn) && early.server == sv && early.events == []
    ensures var first := MakeTurn(v, sv, a, col);
            && first.reply == Ok(false)
            && |first.events| == 2 && first.events[1] == GameUpdate(id, Turn, Some(Caller(b)), None)
            && first.server.lobbies[id].currentPlayer == b.uid
  {
    BoardProps.LonePiece(sv.games[id], Caller(a), col);
    var players := Store.GetLobbyPlayers(Roster(sv, id));
    assert players[0] == Caller(a) && players[1] == Caller(b);
    assert Store.HoldsFirst(players, a.uid, 0);
  }

  /** The whole opening from an empty server: create, two joins, start;
      the second joiner moving first is refused, the admin's first move
      passes the turn on. */
  lemma Opening(v: Variant, a: Session, b: Session, id: LobbyId)
    requires a.uid.Some? && b.uid.Some? && a.uid != b.uid
    ensures
      var created := CreateLobby(Invariants.Empty, a, id);
      var joinedA := JoinLobby(v, created.server, a, id, "Ann", "unused");
      var joinedB := JoinLobby(v, joinedA.server, b, id, "Bob", "unused");
      var started := StartGame(joinedB.server, joinedA.session);
      && started.reply == Ok(true)
      && MakeTurn(v, started.server, joinedB.session, 0).reply == Err(NotYourTurn)
      && MakeTurn(v, started.server, joinedA.session, 0).reply == Ok(false)
  {
    TwoJoin(v, a, b, id);
    var created := CreateLobby(Invariants.Empty, a, id);
    var joinedA := JoinLobby(v, created.server, a, id, "Ann", "unused");
    var joinedB := JoinLobby(v, joinedA.server, b, id, "Bob", "unused");
    assert joinedA.session == SessionData(a.uid, "Ann", Some(id));
    assert joinedB.session == SessionData(b.uid, "Bob", Some(id));
    StartGivesFirstTurn(joinedB.server, joinedA.session, joinedB.session, id);
    var started := StartGame(joinedB.server, joinedA.session);
    FirstMove(v, started.server, joinedA.session, joinedB.session, id, 0);
  }
}
