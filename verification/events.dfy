/** The three pub/sub channels of backend/src/schema.ts, the payloads the
    resolvers publish on them, and the per-subscriber filter that decides
    which payloads a connection receives. */
module Events {
  import opened Wrappers
  import opened Types
  import Board
  import Store

  /** A Lobby object as the resolvers return and publish it: the record
      fields (absent when the record does not exist) plus the roster. */
  datatype LobbyView = LobbyView(record: Option<Store.LobbyRecord>, players: seq<Player>)

  datatype Event =
    | GameUpdate(lobbyId: LobbyId, state: GameState, player: Option<Player>, board: Option<Board.Grid>)
    | LobbyUpdate(lobbyId: LobbyId, lobbyState: LobbyState, lobby: Option<LobbyView>)
    | ChatMessage(lobbyId: LobbyId, message: string, author: Player)

  datatype Channel = GameStateChannel | LobbyStateChannel | ChatMessageChannel

  /** The channel each payload kind is published on. */
  function ChannelOf(e: Event): Channel {
    match e
    case GameUpdate(_, _, _, _) => GameStateChannel
    case LobbyUpdate(_, _, _) => LobbyStateChannel
    case ChatMessage(_, _, _) => ChatMessageChannel
  }

  /** The subscription filter: a session without a lobby is refused (the
      game channel with its own message), otherwise the payload passes
      exactly when it belongs to the session's lobby. */
  function Filter(e: Event, s: Session): (r: Result<bool, Error>)
    ensures r.Err? <==> s.lobbyId.None?
    ensures r.Err? ==> r.error == if e.GameUpdate? then NotInGame else NotInLobby
    ensures r.Ok? ==> (r.value <==> s.lobbyId == Some(e.lobbyId))
  {
    if s.lobbyId.None? then Err(if e.GameUpdate? then NotInGame else NotInLobby)
    else Ok(e.lobbyId == s.lobbyId.value)
  }

  /** What a subscriber to channel `ch` receives from the published
      sequence `es`, in publication order; a refused filter ends the
      subscription with its error at the first payload on the channel. */
  function Deliver(ch: Channel, es: seq<Event>, s: Session): (r: Result<seq<Event>, Error>)
    ensures r.Err? <==> s.lobbyId.None? && exists i :: 0 <= i < |es| && ChannelOf(es[i]) == ch
    ensures r.Ok? ==> |r.value| <= |es|
  {
    if |es| == 0 then Ok([])
    else if ChannelOf(es[0]) != ch then
      var rest := Deliver(ch, es[1..], s);
      assert rest.Err? ==> exists i :: 0 <= i < |es| && ChannelOf(es[i]) == ch by {
        if rest.Err? {
          var i :| 0 <= i < |es[1..]| && ChannelOf(es[1..][i]) == ch;
          assert ChannelOf(es[i + 1]) == ch;
        }
      }
      rest
    else
      match Filter(es[0], s)
      case Err(e) => Err(e)
      case Ok(pass) =>
        var rest := Deliver(ch, es[1..], s);
        if rest.Err? then rest
        else Ok((if pass then [es[0]] else []) + rest.value)
  }

  /** One step of delivery to a session attached to a lobby: the head
      payload is kept exactly when it is on the channel and in the lobby. */
  lemma DeliverCons(ch: Channel, es: seq<Event>, s: Session)
    requires s.lobbyId.Some? && |es| > 0
    ensures Deliver(ch, es, s).Ok? && Deliver(ch, es[1..], s).Ok?
    ensures Deliver(ch, es, s).value ==
              (if ChannelOf(es[0]) == ch && s.lobbyId == Some(es[0].lobbyId) then [es[0]] else [])
              + Deliver(ch, es[1..], s).value
  {
    if ChannelOf(es[0]) != ch {
      assert Deliver(ch, es, s) == Deliver(ch, es[1..], s);
    }
  }

  /** Delivery is compositional: what is published first is delivered
      first, so each subscriber sees its lobby's payloads in publication
      order. */
  lemma {:induction false} DeliverAppend(ch: Channel, a: seq<Event>, b: seq<Event>, s: Session)
    requires s.lobbyId.Some?
    ensures Deliver(ch, a + b, s).Ok? && Deliver(ch, a, s).Ok? && Deliver(ch, b, s).Ok?
    ensures Deliver(ch, a + b, s).value == Deliver(ch, a, s).value + Deliver(ch, b, s).value
    decreases |a|
  {
    if |a| > 0 {
      var ab := a + b;
      assert ab[0] == a[0] && ab[1..] == a[1..] + b;
      DeliverAppend(ch, a[1..], b, s);
      DeliverCons(ch, ab, s);
      DeliverCons(ch, a, s);
      var head := if ChannelOf(a[0]) == ch && s.lobbyId == Some(a[0].lobbyId) then [a[0]] else [];
      var x, y := Deliver(ch, a[1..], s).value, Deliver(ch, b, s).value;
      assert head + (x + y) == (head + x) + y;
    } else {
      assert a + b == b;
      assert Deliver(ch, a, s) == Ok([]);
      assert Deliver(ch, b, s).Ok?;
      assert [] + Deliver(ch, b, s).value == Deliver(ch, b, s).value;
    }
  }

  /** A session attached to a lobby receives exactly the payloads
      published on the channel for that lobby. */
  lemma {:induction false} DeliverMembers(ch: Channel, es: seq<Event>, s: Session)
    requires s.lobbyId.Some?
    ensures Deliver(ch, es, s).Ok?
    ensures forall e :: e in Deliver(ch, es, s).value <==> e in es && ChannelOf(e) == ch && s.lobbyId == Some(e.lobbyId)
    decreases |es|
  {
    if |es| > 0 {
      DeliverCons(ch, es, s);
      DeliverMembers(ch, es[1..], s);
      assert forall e :: e in es <==> e == es[0] || e in es[1..];
    }
  }

  /** Two sessions attached to different lobbies never receive the same
      payload. */
  lemma Isolated(ch: Channel, es: seq<Event>, s1: Session, s2: Session, e: Event)
    requires s1.lobbyId.Some? && s2.lobbyId.Some? && s1.lobbyId != s2.lobbyId
    ensures !(e in Deliver(ch, es, s1).value && e in Deliver(ch, es, s2).value)
  {
    DeliverMembers(ch, es, s1);
    DeliverMembers(ch, es, s2);
  }
}
