/** The join endpoint of the older router (app/routers/games.py). */
module AppGames {
  import opened Wrappers
  import opened Models
  import AppCrud

  /**
    `join_existing_game`: refused, changing nothing, by the first failing
    check; otherwise the user is seated by this version's `add_player_to_game`,
    and the game becomes in progress exactly when that row is the fourth.
  */
  method JoinExistingGame(game: Option<Game>, userId: int) returns (r: Result<Game, JoinError>)
    modifies Frame(game)
    ensures r.Err? <==> old(JoinRefusal(game, userId)).Some?
    ensures r.Err? ==> r.error == old(JoinRefusal(game, userId)).value
    ensures r.Err? && game.Some? ==> unchanged(game.value)
    ensures r.Ok? ==> game.Some? && r.value == game.value
    ensures r.Ok? ==> game.value.players == AppCrud.Added(old(game.value.players), userId)
    ensures r.Ok? ==>
      && game.value.status == (if |old(game.value.players)| + 1 == 4 then InProgress else old(game.value.status))
      && game.value.winnerId == old(game.value.winnerId)
  {
    var refusal := JoinRefusal(game, userId);
    if refusal.Some? {
      return Err(refusal.value);
    }
    AppCrud.AddPlayer(game.value, userId);
    return Ok(game.value);
  }

  /**
    An accepted join keeps the lobby roster (at most four users, one row each,
    seats `1..k`), and the new row takes the next seat.
  */
  lemma AcceptedJoinKeepsRoster(players: seq<Seat>, userId: int)
    requires LobbyRoster(players)
    requires |players| < 4 && !HasUser(players, userId)
    ensures LobbyRoster(AppCrud.Added(players, userId))
    ensures AppCrud.Added(players, userId)[|players|].seatNumber == |players| + 1
  {
    SeatingKeepsLobbyRoster(players, userId);
    PackedSeatsNext(players);
  }
}
