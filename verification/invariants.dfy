/** What every resolver keeps true of the server state, and properties of
    sequences of resolver calls. */
module Invariants {
  import opened Wrappers
  import opened Types
  import Registry
  import Store
  import opened Commands

  /** Every lobby's roster is duplicate-free, no larger count than roster
      size is recorded, and a non-empty roster has its admin on it. */
  predicate RostersInv(sv: Server) {
    forall id :: id in sv.lobbies ==> Store.RosterInv(sv.lobbies[id], Roster(sv, id))
  }

  /** The roster invariant, and every board is well formed. */
  predicate Inv(sv: Server) {
    RostersInv(sv) && Registry.AllWellFormed(sv.games)
  }

  /** The server before any request. */
  const Empty: Server := Server(map[], map[], map[])

  lemma EmptyInv()
    ensures Inv(Empty)
  {
  }

  /** A record's invariant survives any change that leaves the roster,
      playerCount and admin alone. */
  lemma RosterInvFields(rec: Store.LobbyRecord, rec': Store.LobbyRecord, h: Store.PlayerHash)
    requires Store.RosterInv(rec, h)
    requires rec'.playerCount == rec.playerCount && rec'.admin == rec.admin
    ensures Store.RosterInv(rec', h)
  {
  }

  /** createLobby keeps the invariant for an id that carries no roster
      yet (a freshly generated id), or that reuses an existing lobby. */
  lemma CreateLobbyInv(sv: Server, s: Session, freshId: LobbyId)
    requires Inv(sv)
    requires freshId in sv.lobbies || Roster(sv, freshId) == []
    ensures Inv(CreateLobby(sv, s, freshId).server)
  {
    var sv' := CreateLobby(sv, s, freshId).server;
    forall id | id in sv'.lobbies
      ensures Store.RosterInv(sv'.lobbies[id], Roster(sv', id))
    {
      if id == freshId && freshId in sv.lobbies {
        assert Store.RosterInv(sv.lobbies[id], Roster(sv, id));
      }
    }
  }

  /** Appending a uid that is not on a duplicate-free roster keeps it
      duplicate-free, and every earlier member stays a member. */
  lemma AppendFresh(h: Store.PlayerHash, uid: Uid, nick: string)
    requires Store.Distinct(h) && !Store.IsPlayerInLobby(h, uid)
    ensures Store.Distinct(h + [(uid, nick)])
    ensures Store.IsPlayerInLobby(h + [(uid, nick)], uid)
    ensures forall u :: Store.IsPlayerInLobby(h, u) ==> Store.IsPlayerInLobby(h + [(uid, nick)], u)
  {
    var h' := h + [(uid, nick)];
    forall i, j | 0 <= i < j < |h'|
      ensures h'[i].0 != h'[j].0
    {
      if j == |h| {
        assert h'[i] == h[i];
      }
    }
    assert h'[|h|].0 == uid;
    forall u | Store.IsPlayerInLobby(h, u)
      ensures Store.IsPlayerInLobby(h', u)
    {
      var i :| 0 <= i < |h| && h[i].0 == u;
      assert h'[i] == h[i];
    }
  }

  /** joinLobby keeps the invariant in both readings: the fullness test
      only decides whether the join happens. */
  lemma JoinLobbyInv(v: Variant, sv: Server, s: Session, lobbyId: LobbyId, nickname: string, freshUid: Uid)
    requires Inv(sv)
    ensures Inv(JoinLobby(v, sv, s, lobbyId, nickname, freshUid).server)
  {
    var r := JoinLobby(v, sv, s, lobbyId, nickname, freshUid);
    if r.reply.Ok? {
      var h := Roster(sv, lobbyId);
      var uid := r.session.uid.value;
      assert Store.RosterInv(sv.lobbies[lobbyId], h);
      AppendFresh(h, uid, r.session.nickname);
      assert Store.RosterInv(r.server.lobbies[lobbyId], Roster(r.server, lobbyId));
      forall id | id in r.server.lobbies
        ensures Store.RosterInv(r.server.lobbies[id], Roster(r.server, id))
      {
        if id != lobbyId {
          assert Store.RosterInv(sv.lobbies[id], Roster(sv, id));
        }
      }
    }
  }

  /** When the player removed is not the admin, the two readings of
      removePlayer agree. */
  lemma RemoveAgrees(sv: Server, id: LobbyId, uid: Uid)
    requires AdminOf(sv, id) != Some(uid)
    ensures Remove(AsWritten, sv, id, uid) == Remove(Corrected, sv, id, uid)
  {
    if id in sv.lobbies {
      Store.RemovalAgrees(sv.lobbies[id], Roster(sv, id), uid);
    }
  }

  /** Removing a player, by leaving or by being kicked, keeps the
      invariant with the corrected handoff, and in both readings when the
      player removed is not the admin. */
  lemma RemoveInv(v: Variant, sv: Server, id: LobbyId, uid: Uid)
    requires Inv(sv)
    ensures v.Corrected? || AdminOf(sv, id) != Some(uid) ==> Inv(Remove(v, sv, id, uid))
    decreases if v.AsWritten? then 1 else 0
  {
    if v.AsWritten? && AdminOf(sv, id) != Some(uid) {
      RemoveAgrees(sv, id, uid);
      RemoveInv(Corrected, sv, id, uid);
    } else if v.Corrected? {
      var sv' := Remove(v, sv, id, uid);
      forall other | other in sv'.lobbies
        ensures Store.RosterInv(sv'.lobbies[other], Roster(sv', other))
      {
        assert Store.RosterInv(sv.lobbies[other], Roster(sv, other));
        if other == id {
          var removed := Store.RemovePlayer(Some(sv.lobbies[id]), Roster(sv, id), uid);
          assert sv'.lobbies[id] == removed.record.value;
        }
      }
    }
  }

  /** leaveLobby keeps the invariant with the corrected handoff, and in
      both readings when the caller is not the admin. */
  lemma LeaveLobbyInv(v: Variant, sv: Server, s: Session)
    requires Inv(sv)
    ensures v.Corrected? || s.lobbyId.None? || AdminOf(sv, s.lobbyId.value) != s.uid ==>
              Inv(LeaveLobby(v, sv, s).server)
  {
    if s.lobbyId.Some? {
      RemoveInv(v, sv, s.lobbyId.value, s.uid.value);
    }
  }

  /** As written, the admin leaving a lobby that others remain in breaks
      the invariant: the admin field still names the departed player.
      With the corrected handoff the same request keeps it. */
  lemma AdminLeaveBreaksInv(sv: Server, s: Session)
    requires Inv(sv)
    requires s.lobbyId.Some? && s.lobbyId.value in sv.lobbies
    requires AdminOf(sv, s.lobbyId.value) == s.uid && |Roster(sv, s.lobbyId.value)| >= 2
    ensures !Inv(LeaveLobby(AsWritten, sv, s).server)
    ensures Inv(LeaveLobby(Corrected, sv, s).server)
  {
    var id := s.lobbyId.value;
    var rec := sv.lobbies[id];
    var h := Roster(sv, id);
    assert Store.RosterInv(rec, h);
    Store.HandoffLost(rec, h, s.uid.value);
    var sv' := LeaveLobby(AsWritten, sv, s).server;
    assert sv'.lobbies[id] == Store.RemovePlayerAsWritten(Some(rec), h, s.uid.value).record.value;
    assert !Store.RosterInv(sv'.lobbies[id], Roster(sv', id));
    LeaveLobbyInv(Corrected, sv, s);
  }

  /** kickPlayer keeps the invariant in both readings: the admin cannot
      kick themself, so the handoff is never reached. */
  lemma KickPlayerInv(v: Variant, sv: Server, s: Session, other: Uid)
    requires Inv(sv)
    ensures Inv(KickPlayer(v, sv, s, other).server)
  {
    if KickPlayer(v, sv, s, other).reply.Ok? {
      RemoveInv(v, sv, s.lobbyId.value, other);
    }
  }

  lemma StartGameInv(sv: Server, s: Session)
    requires Inv(sv)
    ensures Inv(StartGame(sv, s).server)
  {
    var r := StartGame(sv, s);
    if r.reply.Ok? || r.reply == Err(NoPlayers) {
      var id := s.lobbyId.value;
      RosterInvFields(sv.lobbies[id], r.server.lobbies[id], Roster(sv, id));
    }
  }

  lemma StopGameInv(sv: Server, s: Session)
    requires Inv(sv)
    ensures Inv(StopGame(sv, s).server)
  {
    var r := StopGame(sv, s);
    if r.reply.Ok? {
      var id := s.lobbyId.value;
      RosterInvFields(sv.lobbies[id], r.server.lobbies[id], Roster(sv, id));
    }
  }

  /** makeTurn keeps the roster invariant in both readings, and every
      board well formed with the corrected bounds check. */
  lemma MakeTurnInv(v: Variant, sv: Server, s: Session, col: int)
    requires Inv(sv)
    ensures RostersInv(MakeTurn(v, sv, s, col).server)
    ensures v.Corrected? ==> Inv(MakeTurn(v, sv, s, col).server)
  {
    var r := MakeTurn(v, sv, s, col);
    if r.reply.Ok? || r.reply == Err(NoPlayers) {
      var id := s.lobbyId.value;
      RosterInvFields(sv.lobbies[id], r.server.lobbies[id], Roster(sv, id));
    }
  }

  /** As written, the current player's move into column `cols` is accepted
      and leaves a piece outside the board; the corrected check refuses it
      and changes nothing. */
  lemma MakeTurnOffBoard(sv: Server, s: Session)
    requires Inv(sv)
    requires s.lobbyId.Some? && s.lobbyId.value in sv.lobbies && s.lobbyId.value in sv.games
    requires sv.lobbies[s.lobbyId.value].state == GameStart && sv.lobbies[s.lobbyId.value].currentPlayer == s.uid
    requires sv.games[s.lobbyId.value].rows >= 1 && sv.games[s.lobbyId.value].cols >= 0
    ensures var cols := sv.games[s.lobbyId.value].cols;
            && MakeTurn(AsWritten, sv, s, cols).reply != Err(ColumnOutOfBounds)
            && !Inv(MakeTurn(AsWritten, sv, s, cols).server)
    ensures var cols := sv.games[s.lobbyId.value].cols;
            MakeTurn(Corrected, sv, s, cols) == Step(sv, s, [], Err(ColumnOutOfBounds))
  {
    var id := s.lobbyId.value;
    Registry.PlacesOffBoard(sv.games, id, Caller(s));
  }

  lemma UpdateLobbyInv(sv: Server, s: Session, rows: int, cols: int, maxPlayers: int, connect: int)
    requires Inv(sv)
    ensures Inv(UpdateLobby(sv, s, rows, cols, maxPlayers, connect).server)
  {
    var r := UpdateLobby(sv, s, rows, cols, maxPlayers, connect);
    if r.reply.Ok? {
      var id := s.lobbyId.value;
      RosterInvFields(sv.lobbies[id], r.server.lobbies[id], Roster(sv, id));
    }
  }

  /** stopGame twice is stopGame once: the second call succeeds too and
      changes nothing further. */
  lemma StopGameIdempotent(sv: Server, s: Session)
    ensures var first := StopGame(sv, s);
            var second := StopGame(first.server, s);
            second.reply == first.reply && second.server == first.server
  {
    var first := StopGame(sv, s);
    if first.reply.Ok? {
      var id := s.lobbyId.value;
      assert AdminOf(first.server, id) == AdminOf(sv, id);
    }
  }
}
