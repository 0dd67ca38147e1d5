/**
  The WebSocket registry (backend/app/websocket_manager.py): a dictionary from
  game id to the list of that game's open connections, updated in place.
  Sockets are opaque ids; accepting and sending are I/O and are left out, so
  `Broadcast` returns the connections it would send to, in order.
*/
module Connections {
  import opened Wrappers
  import opened Lists

  datatype DisconnectError = NotConnected

  /** The registry after `connect`. */
  function Connected(active: map<int, seq<int>>, ws: int, gameId: int): map<int, seq<int>>
  {
    active[gameId := (if gameId in active then active[gameId] else []) + [ws]]
  }

  /** The registry after a `disconnect` that does not raise. */
  function Disconnected(active: map<int, seq<int>>, ws: int, gameId: int): map<int, seq<int>>
    requires gameId in active ==> ws in active[gameId]
  {
    if gameId !in active then active
    else
      var rest := RemoveFirst(active[gameId], ws);
      if rest == [] then active - {gameId} else active[gameId := rest]
  }

  class ConnectionManager {
    var active: map<int, seq<int>>

    /** No game id maps to an empty list. */
    ghost predicate Valid()
      reads this
    {
      forall g :: g in active ==> active[g] != []
    }

    constructor ()
      ensures active == map[] && Valid()
    {
      active := map[];
    }

    /** `connect`: the socket is appended to the game's list, created empty when the game is new. */
    method Connect(ws: int, gameId: int)
      requires Valid()
      modifies this
      ensures Valid()
      ensures active == Connected(old(active), ws, gameId)
      ensures gameId in active && |active[gameId]| == (if gameId in old(active) then |old(active)[gameId]| else 0) + 1
      ensures forall g :: g != gameId ==> (g in active <==> g in old(active))
      ensures forall g :: g in active && g != gameId ==> active[g] == old(active)[g]
    {
      if gameId !in active {
        active := active[gameId := []];
      }
      active := active[gameId := active[gameId] + [ws]];
    }

    /**
      `disconnect`: a no-op for an unknown game; raises, changing nothing, when
      the socket is not in the game's list; otherwise removes its first
      occurrence and drops the game once its list is empty.
    */
    method Disconnect(ws: int, gameId: int) returns (r: Result<(), DisconnectError>)
      requires Valid()
      modifies this
      ensures Valid()
      ensures r.Err? <==> gameId in old(active) && ws !in old(active)[gameId]
      ensures gameId !in old(active) || r.Err? ==> active == old(active)
      ensures r.Ok? ==> active == Disconnected(old(active), ws, gameId)
      ensures forall g :: g != gameId ==> (g in active <==> g in old(active))
      ensures forall g :: g in active && g != gameId ==> active[g] == old(active)[g]
    {
      if gameId in active {
        if ws !in active[gameId] {
          return Err(NotConnected);
        }
        var rest := RemoveFirst(active[gameId], ws);
        active := active[gameId := rest];
        if active[gameId] == [] {
          active := active - {gameId};
        }
      }
      return Ok(());
    }

    /** `broadcast`: the game's connections, each once and in list order; none for an unknown game. */
    method Broadcast(gameId: int) returns (sent: seq<int>)
      ensures gameId in active ==> sent == active[gameId]
      ensures gameId !in active ==> sent == []
    {
      sent := [];
      if gameId in active {
        var conns := active[gameId];
        var i := 0;
        while i < |conns|
          invariant 0 <= i <= |conns|
          invariant sent == conns[..i]
        {
          sent := sent + [conns[i]];
          i := i + 1;
        }
      }
    }
  }

  /**
    A disconnect undoes a connect of a socket the game did not already hold:
    the registry is as before, including the key of a game that had no connections.
  */
  lemma ConnectThenDisconnect(active: map<int, seq<int>>, ws: int, gameId: int)
    requires forall g :: g in active ==> active[g] != []
    requires gameId in active ==> ws !in active[gameId]
    ensures Disconnected(Connected(active, ws, gameId), ws, gameId) == active
  {
    if gameId in active {
      ReconnectKnownGame(active, ws, gameId);
    } else {
      ReconnectNewGame(active, ws, gameId);
    }
  }

  lemma ReconnectKnownGame(active: map<int, seq<int>>, ws: int, gameId: int)
    requires gameId in active && active[gameId] != [] && ws !in active[gameId]
    ensures Disconnected(Connected(active, ws, gameId), ws, gameId) == active
  {
    var l := active[gameId];
    RemoveFirstAppended(l, ws);
    var after := active[gameId := l + [ws]];
    assert RemoveFirst(after[gameId], ws) == l;
    assert Disconnected(after, ws, gameId) == after[gameId := l];
    assert after[gameId := l] == active;
  }

  lemma ReconnectNewGame(active: map<int, seq<int>>, ws: int, gameId: int)
    requires gameId !in active
    ensures Disconnected(Connected(active, ws, gameId), ws, gameId) == active
  {
    var after := active[gameId := [ws]];
    assert RemoveFirst(after[gameId], ws) == [];
    assert Disconnected(after, ws, gameId) == after - {gameId};
    assert after - {gameId} == active;
  }
}
