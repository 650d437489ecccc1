/** The lobby and roster operations of backend/src/redis.ts with the Redis
    calls abstracted to value updates: the hash `lobby:<id>` is a
    LobbyRecord, the hash `player:<id>` is the roster, an ordered sequence
    of (uid, nickname) entries in insertion order. */
module Store {
  import opened Wrappers
  import opened Types

  /** The fields of the hash `lobby:<id>`. `admin` and `currentPlayer` are
      absent until first written. */
  datatype LobbyRecord = LobbyRecord(
    lobbyId: LobbyId,
    maxPlayers: int,
    playerCount: int,
    rows: int,
    cols: int,
    connect: int,
    state: GameState,
    admin: Option<Uid>,
    currentPlayer: Option<Uid>)

  /** The hash `player:<id>`: uid to nickname, in insertion order. */
  type PlayerHash = seq<(Uid, string)>

  const DefaultMaxPlayers: int := 4
  const DefaultPlayerCount: int := 0
  const DefaultRows: int := 15
  const DefaultCols: int := 15
  const DefaultConnect: int := 4

  /** A hash never holds a key twice. */
  predicate Distinct(h: PlayerHash) {
    forall i, j :: 0 <= i < j < |h| ==> h[i].0 != h[j].0
  }

  /** initializeLobby: write every settings field and the state into the
      record; fields it does not write (admin, currentPlayer) keep whatever
      an existing record held. */
  function InitializeLobby(prior: Option<LobbyRecord>, lobbyId: LobbyId, maxPlayers: int, playerCount: int,
                           rows: int, cols: int, connect: int, state: GameState): (r: LobbyRecord)
    ensures r.lobbyId == lobbyId && r.maxPlayers == maxPlayers && r.playerCount == playerCount
    ensures r.rows == rows && r.cols == cols && r.connect == connect && r.state == state
    ensures prior.None? ==> r.admin.None? && r.currentPlayer.None?
    ensures prior.Some? ==> r.admin == prior.value.admin && r.currentPlayer == prior.value.currentPlayer
  {
    var admin := if prior.Some? then prior.value.admin else None;
    var current := if prior.Some? then prior.value.currentPlayer else None;
    LobbyRecord(lobbyId, maxPlayers, playerCount, rows, cols, connect, state, admin, current)
  }

  /** initializeLobby called with every default, as createLobby does. */
  function CreateLobbyRecord(prior: Option<LobbyRecord>, lobbyId: LobbyId): (r: LobbyRecord)
    ensures r.lobbyId == lobbyId
    ensures r.maxPlayers == 4 && r.playerCount == 0 && r.rows == 15 && r.cols == 15 && r.connect == 4
    ensures r.state == GameState.Lobby
    ensures prior.None? ==> r.admin.None? && r.currentPlayer.None?
  {
    InitializeLobby(prior, lobbyId, DefaultMaxPlayers, DefaultPlayerCount, DefaultRows, DefaultCols,
                    DefaultConnect, GameState.Lobby)
  }

  /** updateLobby: rewrite a record through initializeLobby, which leaves
      the settings and playerCount as they are, resets the state to Lobby
      through its default argument and keeps admin and currentPlayer. */
  function UpdateLobby(rec: LobbyRecord): (r: LobbyRecord)
    ensures r == rec.(state := GameState.Lobby)
  {
    InitializeLobby(Some(rec), rec.lobbyId, rec.maxPlayers, rec.playerCount, rec.rows, rec.cols,
                    rec.connect, GameState.Lobby)
  }

  /** getLobbyPlayer: one Player per roster entry, in roster order. */
  function GetLobbyPlayers(h: PlayerHash): (r: seq<Player>)
    ensures |r| == |h|
    ensures forall i :: 0 <= i < |h| ==> r[i].uid == h[i].0 && r[i].nickname == h[i].1
  {
    if |h| == 0 then [] else [Player(h[0].0, h[0].1)] + GetLobbyPlayers(h[1..])
  }

  /** isPlayerInLobby: hExists on the roster. */
  function IsPlayerInLobby(h: PlayerHash, uid: Uid): (r: bool)
    ensures r <==> exists i :: 0 <= i < |h| && h[i].0 == uid
  {
    if |h| == 0 then false
    else if h[0].0 == uid then true
    else
      assert forall i :: 1 <= i < |h| ==> h[i] == h[1..][i - 1];
      IsPlayerInLobby(h[1..], uid)
  }

  /** Array.prototype.findIndex on the uid: the first index holding `uid`,
      or -1. */
  function FindIndex(players: seq<Player>, uid: Uid): (r: int)
    ensures -1 <= r < |players|
    ensures r >= 0 ==> players[r].uid == uid
    ensures forall j :: 0 <= j < |players| && (r < 0 || j < r) ==> players[j].uid != uid
  {
    if |players| == 0 then -1
    else if players[0].uid == uid then 0
    else
      var k := FindIndex(players[1..], uid);
      assert forall j :: 1 <= j < |players| ==> players[j] == players[1..][j - 1];
      if k < 0 then -1 else k + 1
  }

  /** `current` names the player at index i, and no one before i. */
  predicate HoldsFirst(players: seq<Player>, current: Option<Uid>, i: int) {
    && 0 <= i < |players|
    && current == Some(players[i].uid)
    && forall j :: 0 <= j < i ==> players[j].uid != players[i].uid
  }

  /** The rotation inside determineNextPlayer: the first player when no
      current player is recorded, otherwise the player after the current
      one, wrapping around; a current player who has left gives index -1 and
      so the first player again. The source takes the index plus one
      modulo n; that index lies in [0, n], so the wrap is written as a
      comparison here and NextPlayerRemainder shows the two agree. */
  function NextPlayer(players: seq<Player>, current: Option<Uid>): (r: Player)
    requires |players| > 0
    ensures current.None? ==> r == players[0]
    ensures (current.Some? && forall j :: 0 <= j < |players| ==> players[j].uid != current.value)
              ==> r == players[0]
    ensures forall i :: HoldsFirst(players, current, i) ==>
              r == if i + 1 < |players| then players[i + 1] else players[0]
  {
    if current.Some? then
      var next := FindIndex(players, current.value) + 1;
      if next < |players| then players[next] else players[0]
    else
      players[0]
  }

  /** NextPlayer is the source's `players[(currentIndex + 1) % length]`.
      Both operands of `%` are non-negative there, so JavaScript's remainder
      agrees with Dafny's. */
  lemma NextPlayerRemainder(players: seq<Player>, uid: Uid)
    requires |players| > 0
    ensures NextPlayer(players, Some(uid)) == players[(FindIndex(players, uid) + 1) % |players|]
  {
    Wrap(FindIndex(players, uid) + 1, |players|);
  }

  /** The remainder of a number in [0, n] by n. */
  lemma Wrap(k: int, n: int)
    requires 0 <= k <= n && n > 0
    ensures k % n == if k < n then k else 0
  {
  }

  datatype Advanced = Advanced(record: LobbyRecord, player: Player)

  /** determineNextPlayer: pick the next player and store their uid as
      currentPlayer. On an empty roster the source dereferences `undefined`
      and throws a TypeError; here that is NoPlayers. */
  function DetermineNextPlayer(rec: LobbyRecord, h: PlayerHash): (r: Result<Advanced, Error>)
    ensures r.Err? <==> |h| == 0
    ensures r.Err? ==> r.error == NoPlayers
    ensures r.Ok? ==> IsPlayerInLobby(h, r.value.player.uid)
    ensures r.Ok? ==> r.value.record == rec.(currentPlayer := Some(r.value.player.uid))
    ensures r.Ok? ==> r.value.player == NextPlayer(GetLobbyPlayers(h), rec.currentPlayer)
  {
    var players := GetLobbyPlayers(h);
    if |players| == 0 then
      Err(NoPlayers)
    else
      var next := NextPlayer(players, rec.currentPlayer);
      var i :| 0 <= i < |players| && players[i] == next;
      assert h[i].0 == next.uid;
      Ok(Advanced(rec.(currentPlayer := Some(next.uid)), next))
  }

  /** hDel on the roster: drop the entry for `uid`, keep the others in order. */
  function Delete(h: PlayerHash, uid: Uid): (r: PlayerHash)
    ensures |r| <= |h|
    ensures forall e :: e in r <==> e in h && e.0 != uid
    ensures !IsPlayerInLobby(h, uid) ==> r == h
  {
    if |h| == 0 then []
    else if h[0].0 == uid then Delete(h[1..], uid)
    else [h[0]] + Delete(h[1..], uid)
  }

  /** On a duplicate-free roster hDel cuts out exactly the one entry of
      `uid`: the entries before and after it stay, in order. */
  lemma {:induction false} DeleteAt(h: PlayerHash, uid: Uid, i: int)
    requires Distinct(h) && 0 <= i < |h| && h[i].0 == uid
    ensures Delete(h, uid) == h[..i] + h[i + 1..]
  {
    var t := h[1..];
    if i == 0 {
      calc {
        Delete(h, uid);
        Delete(t, uid);
        { TailDistinct(h); OnRoster(t, uid); }
        t;
        { assert h[..0] == []; }
        h[..i] + h[i + 1..];
      }
    } else {
      calc {
        Delete(h, uid);
        { assert h[0].0 != h[i].0; }
        [h[0]] + Delete(t, uid);
        { TailDistinct(h); assert t[i - 1] == h[i]; DeleteAt(t, uid, i - 1); }
        [h[0]] + (t[..i - 1] + t[i..]);
        { assert h[..i] == [h[0]] + t[..i - 1]; assert h[i + 1..] == t[i..]; }
        h[..i] + h[i + 1..];
      }
    }
  }

  datatype Removed = Removed(record: Option<LobbyRecord>, players: PlayerHash)

  /** removePlayer as written. The admin handoff indexes the pending
      promise of the roster lookup instead of the list it resolves to, so
      the candidate new admin is always undefined and the admin field is
      never rewritten. A record that does not exist stays
      absent here (Redis would create a stray playerCount field that every
      existence check ignores). */
  function RemovePlayerAsWritten(rec: Option<LobbyRecord>, h: PlayerHash, uid: Uid): (r: Removed)
    ensures r.record.Some? <==> rec.Some?
    ensures rec.Some? ==> r.record.value == rec.value.(playerCount := rec.value.playerCount - 1)
    ensures r.players == Delete(h, uid)
  {
    var rec' := if rec.Some? then Some(rec.value.(playerCount := rec.value.playerCount - 1)) else None;
    Removed(rec', Delete(h, uid))
  }

  /** removePlayer with the handoff the code evidently intends: when the
      admin leaves, the earliest-joined remaining player becomes admin (if
      anyone remains). */
  function RemovePlayer(rec: Option<LobbyRecord>, h: PlayerHash, uid: Uid): (r: Removed)
    ensures r.record.Some? <==> rec.Some?
    ensures r.players == Delete(h, uid)
    ensures rec.Some? ==> r.record.value.playerCount == rec.value.playerCount - 1
    ensures rec.Some? ==> r.record.value.currentPlayer == rec.value.currentPlayer
    ensures rec.Some? && rec.value.admin == Some(uid) && |r.players| > 0 ==>
              r.record.value.admin == Some(r.players[0].0)
    ensures rec.Some? && (rec.value.admin != Some(uid) || |r.players| == 0) ==>
              r.record.value.admin == rec.value.admin
    ensures rec.Some? && RosterInv(rec.value, h) ==> RosterInv(r.record.value, r.players)
  {
    var h' := Delete(h, uid);
    if rec.None? then
      Removed(None, h')
    else
      var counted := rec.value.(playerCount := rec.value.playerCount - 1);
      var handedOff := if counted.admin == Some(uid) && |h'| > 0 then counted.(admin := Some(h'[0].0)) else counted;
      DeletePreserves(rec.value, h, uid);
      Removed(Some(handedOff), h')
  }

  /** removePlayer in the chosen reading. */
  function Removal(v: Variant, rec: Option<LobbyRecord>, h: PlayerHash, uid: Uid): (r: Removed)
    ensures r.record.Some? <==> rec.Some?
    ensures r.players == Delete(h, uid)
    ensures rec.Some? ==> r.record.value == rec.value.(playerCount := rec.value.playerCount - 1,
                                                       admin := r.record.value.admin)
    ensures rec.Some? && (v.AsWritten? || rec.value.admin != Some(uid) || |r.players| == 0) ==>
              r.record.value.admin == rec.value.admin
    ensures rec.Some? && v.Corrected? && rec.value.admin == Some(uid) && |r.players| > 0 ==>
              r.record.value.admin == Some(r.players[0].0)
  {
    if v.AsWritten? then RemovePlayerAsWritten(rec, h, uid) else RemovePlayer(rec, h, uid)
  }

  /** The two readings of removePlayer differ only when the admin leaves:
      removing anyone else gives the same record and roster either way. */
  lemma RemovalAgrees(rec: LobbyRecord, h: PlayerHash, uid: Uid)
    requires rec.admin != Some(uid)
    ensures Removal(AsWritten, Some(rec), h, uid) == Removal(Corrected, Some(rec), h, uid)
  {
  }

  /** What the lobby record and its roster keep true between commands: the
      roster has no duplicate uid, playerCount never exceeds the roster
      size (it is decremented even for a uid that was not there) and, while
      anyone is in the roster, the admin is one of them. */
  predicate RosterInv(rec: LobbyRecord, h: PlayerHash) {
    && Distinct(h)
    && rec.playerCount <= |h|
    && (|h| > 0 ==> rec.admin.Some? && IsPlayerInLobby(h, rec.admin.value))
  }

  /** A uid is on the roster iff some entry carries it. */
  lemma OnRoster(h: PlayerHash, u: Uid)
    ensures IsPlayerInLobby(h, u) <==> exists e :: e in h && e.0 == u
  {
    if IsPlayerInLobby(h, u) {
      var i :| 0 <= i < |h| && h[i].0 == u;
      assert h[i] in h;
    }
  }

  /** Deleting one uid keeps every other uid on the roster, and only those. */
  lemma DeleteKeeps(h: PlayerHash, uid: Uid)
    ensures forall u :: u != uid ==> (IsPlayerInLobby(Delete(h, uid), u) <==> IsPlayerInLobby(h, u))
    ensures !IsPlayerInLobby(Delete(h, uid), uid)
  {
    forall u
      ensures IsPlayerInLobby(Delete(h, uid), u) <==> (u != uid && IsPlayerInLobby(h, u))
    {
      OnRoster(Delete(h, uid), u);
      OnRoster(h, u);
    }
  }

  /** The tail of a duplicate-free roster is duplicate-free and does not
      hold the head's uid. */
  lemma TailDistinct(h: PlayerHash)
    requires Distinct(h) && |h| > 0
    ensures Distinct(h[1..])
    ensures forall e :: e in h[1..] ==> e.0 != h[0].0
  {
    var t := h[1..];
    forall i, j | 0 <= i < j < |t| ensures t[i].0 != t[j].0 {
      assert t[i] == h[i + 1] && t[j] == h[j + 1];
    }
    forall e | e in t ensures e.0 != h[0].0 {
      var k :| 0 <= k < |t| && t[k] == e;
      assert t[k] == h[k + 1];
    }
  }

  /** An entry whose uid the duplicate-free rest does not hold can go in
      front. */
  lemma ConsDistinct(x: (Uid, string), t: PlayerHash)
    requires Distinct(t) && forall e :: e in t ==> e.0 != x.0
    ensures Distinct([x] + t)
  {
    var d := [x] + t;
    forall i, j | 0 <= i < j < |d| ensures d[i].0 != d[j].0 {
      assert d[j] == t[j - 1];
      if i > 0 {
        assert d[i] == t[i - 1];
      } else {
        assert t[j - 1] in t;
      }
    }
  }

  /** Deleting from a duplicate-free roster removes exactly the one entry
      of `uid` if there is one and keeps the roster duplicate-free. */
  lemma {:induction false} DeleteDistinct(h: PlayerHash, uid: Uid)
    requires Distinct(h)
    ensures Distinct(Delete(h, uid))
    ensures |Delete(h, uid)| == if IsPlayerInLobby(h, uid) then |h| - 1 else |h|
  {
    if |h| > 0 {
      var t := h[1..];
      var dt := Delete(t, uid);
      assert Distinct(t) && forall e :: e in t ==> e.0 != h[0].0 by {
        TailDistinct(h);
      }
      assert Distinct(dt) && |dt| == if IsPlayerInLobby(t, uid) then |t| - 1 else |t| by {
        DeleteDistinct(t, uid);
      }
      assert IsPlayerInLobby(h, uid) <==> h[0].0 == uid || IsPlayerInLobby(t, uid) by {
        OnRoster(h, uid);
        OnRoster(t, uid);
        assert h == [h[0]] + t;
      }
      if h[0].0 == uid {
        assert !IsPlayerInLobby(t, uid) by {
          OnRoster(t, uid);
        }
        assert Delete(h, uid) == dt;
      } else {
        assert Delete(h, uid) == [h[0]] + dt;
        assert forall e :: e in dt ==> e.0 != h[0].0;
        ConsDistinct(h[0], dt);
      }
    }
  }

  lemma DeletePreserves(rec: LobbyRecord, h: PlayerHash, uid: Uid)
    ensures var h' := Delete(h, uid);
            var counted := rec.(playerCount := rec.playerCount - 1);
            var handedOff := if counted.admin == Some(uid) && |h'| > 0 then counted.(admin := Some(h'[0].0)) else counted;
            RosterInv(rec, h) ==> RosterInv(handedOff, h')
  {
    var h' := Delete(h, uid);
    if RosterInv(rec, h) {
      DeleteDistinct(h, uid);
      DeleteKeeps(h, uid);
      if |h'| > 0 {
        assert IsPlayerInLobby(h', h'[0].0);
      }
    }
  }

  /** The handoff as written loses the admin: when the admin leaves a
      roster of two or more, the admin field still names them although
      others remain, which the corrected RemovePlayer never allows. */
  lemma HandoffLost(rec: LobbyRecord, h: PlayerHash, uid: Uid)
    requires RosterInv(rec, h) && rec.admin == Some(uid) && |h| >= 2
    ensures var r := RemovePlayerAsWritten(Some(rec), h, uid);
            r.record.value.admin == Some(uid) && |r.players| > 0
            && !IsPlayerInLobby(r.players, uid) && !RosterInv(r.record.value, r.players)
    ensures RosterInv(RemovePlayer(Some(rec), h, uid).record.value, RemovePlayer(Some(rec), h, uid).players)
  {
    DeleteDistinct(h, uid);
    DeleteKeeps(h, uid);
  }

  // ---------------------------------------------------------------------
  // The fullness test of joinLobby. hGetAll returns every field as a
  // string, so `lobby.playerCount >= lobby.maxPlayers` compares decimal
  // strings lexicographically.

  function DigitChar(d: int): char
    requires 0 <= d <= 9
  {
    (d + 48) as char
  }

  /** The decimal digits of a non-negative integer, as String(n) gives them:
      at least one digit, and no leading zero unless n is 0. */
  function Digits(n: nat): (r: string)
    ensures |r| >= 1
    ensures forall i :: 0 <= i < |r| ==> '0' <= r[i] <= '9'
    ensures r[0] == '0' ==> n == 0
    decreases n
  {
    if n < 10 then [DigitChar(n)] else Digits(n / 10) + [DigitChar(n % 10)]
  }

  /** String(n) for an integer. */
  function DecimalString(n: int): (r: string)
    ensures |r| >= 1
    ensures n < 0 <==> r[0] == '-'
  {
    if n < 0 then "-" + Digits(-n) else Digits(n)
  }

  /** The number a string of decimal digits denotes (Number(s) on digits). */
  function DigitsValue(s: string): int
    decreases |s|
  {
    if |s| == 0 then 0 else DigitsValue(s[..|s| - 1]) * 10 + (s[|s| - 1] as int - 48)
  }

  /** Reading back the digits String(n) writes gives n. */
  lemma {:induction false} DigitsRoundTrip(n: nat)
    ensures DigitsValue(Digits(n)) == n
    decreases n
  {
    if n >= 10 {
      var s := Digits(n);
      DigitsRoundTrip(n / 10);
      assert s[..|s| - 1] == Digits(n / 10);
      assert s[|s| - 1] == DigitChar(n % 10);
    }
  }

  /** JavaScript's `<` on two strings: code-unit lexicographic order. */
  function LexLess(a: string, b: string): bool
    decreases |a|
  {
    if |a| == 0 then |b| > 0
    else if |b| == 0 then false
    else if a[0] != b[0] then a[0] < b[0]
    else LexLess(a[1..], b[1..])
  }

  /** No string sorts before itself. */
  lemma {:induction false} LexLessIrreflexive(a: string)
    ensures !LexLess(a, a)
    decreases |a|
  {
    if |a| > 0 {
      LexLessIrreflexive(a[1..]);
    }
  }

  /** String `<` is asymmetric and total: of two different strings
      exactly one sorts first. */
  lemma {:induction false} LexLessTotal(a: string, b: string)
    ensures a != b ==> LexLess(a, b) != LexLess(b, a)
    ensures !(LexLess(a, b) && LexLess(b, a))
    decreases |a|
  {
    if |a| > 0 && |b| > 0 && a[0] == b[0] {
      LexLessTotal(a[1..], b[1..]);
      if a != b {
        assert a == [a[0]] + a[1..] && b == [b[0]] + b[1..];
      }
    }
  }

  /** String `<` is transitive; with the two lemmas above it is a strict
      total order. */
  lemma {:induction false} LexLessTransitive(a: string, b: string, c: string)
    requires LexLess(a, b) && LexLess(b, c)
    ensures LexLess(a, c)
    decreases |a|
  {
    if |a| > 0 && a[0] == b[0] && b[0] == c[0] {
      LexLessTransitive(a[1..], b[1..], c[1..]);
    }
  }

  /** The fullness test as written: a string comparison. Equal counts
      still read as full. */
  function IsFullAsWritten(rec: LobbyRecord): (r: bool)
    ensures rec.playerCount == rec.maxPlayers ==> r
  {
    LexLessIrreflexive(DecimalString(rec.playerCount));
    !LexLess(DecimalString(rec.playerCount), DecimalString(rec.maxPlayers))
  }

  /** The fullness test as intended: a numeric comparison. */
  function IsFull(rec: LobbyRecord): bool {
    rec.playerCount >= rec.maxPlayers
  }

  /** The fullness test of joinLobby in the chosen reading. */
  function Full(v: Variant, rec: LobbyRecord): (r: bool)
    ensures v.Corrected? ==> (r <==> rec.playerCount >= rec.maxPlayers)
    ensures rec.playerCount == rec.maxPlayers ==> r
    ensures 0 <= rec.playerCount <= 9 && 0 <= rec.maxPlayers <= 9 ==> (r <==> rec.playerCount >= rec.maxPlayers)
  {
    var full := if v.AsWritten? then IsFullAsWritten(rec) else IsFull(rec);
    if 0 <= rec.playerCount <= 9 && 0 <= rec.maxPlayers <= 9 then
      SingleDigitsAgree(rec);
      full
    else
      full
  }

  /** With maxPlayers = 10 (inside the range the settings screen offers), a
      lobby holding two players already counts as full, because "2" sorts
      after "10". */
  lemma TwoOfTenCountsAsFull(rec: LobbyRecord)
    requires rec.playerCount == 2 && rec.maxPlayers == 10
    ensures IsFullAsWritten(rec) && !IsFull(rec)
  {
    assert DecimalString(2) == "2";
    assert Digits(10) == Digits(1) + [DigitChar(0)];
    assert DecimalString(10) == "10";
  }

  /** The other direction: a lobby of ten whose maxPlayers was lowered to
      9 is not full as written, because "10" sorts before "9". */
  lemma TenOfNineNotFull(rec: LobbyRecord)
    requires rec.playerCount == 10 && rec.maxPlayers == 9
    ensures !IsFullAsWritten(rec) && IsFull(rec)
  {
    assert Digits(10) == Digits(1) + [DigitChar(0)];
    assert DecimalString(10) == "10";
    assert DecimalString(9) == "9";
  }

  /** While both numbers are single non-negative digits the string
      comparison agrees with the numeric one, which is why the default
      settings never show the difference. */
  lemma SingleDigitsAgree(rec: LobbyRecord)
    requires 0 <= rec.playerCount <= 9 && 0 <= rec.maxPlayers <= 9
    ensures IsFullAsWritten(rec) == IsFull(rec)
  {
    var a := DigitChar(rec.playerCount);
    var b := DigitChar(rec.maxPlayers);
    assert LexLess([a], [b]) == (a < b) by {
      if a == b {
        assert [a][1..] == [];
        assert [b][1..] == [];
      }
    }
    assert DecimalString(rec.playerCount) == [DigitChar(rec.playerCount)];
    assert DigitChar(rec.playerCount) as int == rec.playerCount + 48;
    assert DigitChar(rec.maxPlayers) as int == rec.maxPlayers + 48;
    assert DecimalString(rec.maxPlayers) == [DigitChar(rec.maxPlayers)];
  }

  // ---------------------------------------------------------------------
  // Turn rotation over a whole game.

  /** currentPlayer after `k` calls of determineNextPlayer on a fixed roster. */
  function Turns(players: seq<Player>, current: Option<Uid>, k: nat): Option<Uid>
    requires |players| > 0
  {
    if k == 0 then current else Some(NextPlayer(players, Turns(players, current, k - 1)).uid)
  }

  /** No uid appears twice on the roster, as RosterInv keeps it. */
  predicate UniqueUids(players: seq<Player>) {
    forall a, b :: 0 <= a < b < |players| ==> players[a].uid != players[b].uid
  }

  /** On a duplicate-free roster, the player at index i is followed by the
      one at index i + 1, wrapping around. */
  lemma NextAfter(players: seq<Player>, i: int)
    requires 0 <= i < |players|
    requires UniqueUids(players)
    ensures NextPlayer(players, Some(players[i].uid)) == if i + 1 < |players| then players[i + 1] else players[0]
  {
    assert HoldsFirst(players, Some(players[i].uid), i);
  }

  /** From a fresh game (no currentPlayer), the first n turns go to the
      players in join order. */
  lemma {:induction false} FirstRound(players: seq<Player>, k: nat)
    requires k < |players|
    requires UniqueUids(players)
    ensures Turns(players, None, k + 1) == Some(players[k].uid)
  {
    if k > 0 {
      FirstRound(players, k - 1);
      NextAfter(players, k - 1);
      assert Turns(players, None, k + 1) == Some(NextPlayer(players, Turns(players, None, k)).uid);
    }
  }

  /** One more turn is one more call of the rotation. */
  lemma TurnsStep(players: seq<Player>, current: Option<Uid>, k: nat)
    requires |players| > 0
    ensures Turns(players, current, k + 1) == Some(NextPlayer(players, Turns(players, current, k)).uid)
  {
  }

  /** The roster index of the turn after `k` turns of a fresh game: the
      rotation read as indices, 0, 1, ..., n - 1, 0, 1, ... */
  function RoundIndex(n: nat, k: nat): (i: nat)
    requires n > 0
    ensures i < n
  {
    if k == 0 then 0
    else
      var prev := RoundIndex(n, k - 1);
      if prev + 1 < n then prev + 1 else 0
  }

  /** The turn after player i's turn is the next player's on the roster. */
  lemma TurnAfter(players: seq<Player>, k: nat)
    requires |players| > 0 && k > 0
    requires UniqueUids(players)
    requires Turns(players, None, k) == Some(players[RoundIndex(|players|, k - 1)].uid)
    ensures Turns(players, None, k + 1) == Some(players[RoundIndex(|players|, k)].uid)
  {
    var i := RoundIndex(|players|, k - 1);
    TurnsStep(players, None, k);
    NextAfter(players, i);
  }

  /** A fresh game opens with the first player on the roster. */
  lemma OpeningTurn(players: seq<Player>)
    requires |players| > 0
    ensures Turns(players, None, 1) == Some(players[RoundIndex(|players|, 0)].uid)
  {
    TurnsStep(players, None, 0);
  }

  /** On a duplicate-free roster the rotation visits the players in the
      order RoundIndex gives. */
  lemma {:induction false} TurnsFollowRoster(players: seq<Player>, k: nat)
    requires |players| > 0
    requires UniqueUids(players)
    ensures Turns(players, None, k + 1) == Some(players[RoundIndex(|players|, k)].uid)
  {
    if k == 0 {
      OpeningTurn(players);
    } else {
      TurnsFollowRoster(players, k - 1);
      TurnAfter(players, k);
    }
  }

  /** The first n indices are 0 .. n - 1. */
  lemma {:induction false} RoundIndexFirst(n: nat, k: nat)
    requires k < n
    ensures RoundIndex(n, k) == k
  {
    if k > 0 {
      RoundIndexFirst(n, k - 1);
    }
  }

  /** The index sequence repeats with period n. */
  lemma {:induction false} RoundIndexPeriodic(n: nat, k: nat)
    requires n > 0
    ensures RoundIndex(n, k + n) == RoundIndex(n, k)
  {
    if k == 0 {
      RoundIndexFirst(n, n - 1);
      assert RoundIndex(n, n) == 0;
    } else {
      RoundIndexPeriodic(n, k - 1);
      assert RoundIndex(n, k - 1 + n) == RoundIndex(n, k - 1);
    }
  }

  /** After n turns the rotation starts over: turn k + n goes to the same
      player as turn k, so no player is ever skipped or favoured. */
  lemma Periodic(players: seq<Player>, k: nat)
    requires |players| > 0
    requires UniqueUids(players)
    ensures Turns(players, None, k + |players| + 1) == Turns(players, None, k + 1)
  {
    var n := |players|;
    var i := RoundIndex(n, k);
    var p := Some(players[i].uid);
    assert Turns(players, None, k + n + 1) == p by {
      TurnsFollowRoster(players, k + n);
      RoundIndexPeriodic(n, k);
    }
    assert Turns(players, None, k + 1) == p by {
      TurnsFollowRoster(players, k);
    }
  }
}
