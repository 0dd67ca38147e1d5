/**
  The older lobby bookkeeping (app/crud.py): creating a game with its creator
  on seat 1, seating a player on the smallest free seat (with no duplicate
  check) and starting the game when the fourth player sits down.
*/
module AppCrud {
  import opened Wrappers
  import opened Models

  /** `create_game`: a new waiting game (id `id`, assigned by the database) whose creator sits on seat 1. */
  method CreateGame(id: int, userId: int) returns (g: Game)
    ensures fresh(g)
    ensures g.id == id && g.status == Waiting && g.winnerId == None
    ensures g.players == [Seat(userId, 1, 0)]
  {
    g := new Game(id);
    g.players := [Seat(userId, 1, 0)];
  }

  /** The player list after this version of `add_player_to_game`: always one row more. */
  function Added(players: seq<Seat>, userId: int): seq<Seat>
  {
    players + [Seat(userId, SmallestFreeSeat(SeatNumbers(players)), 0)]
  }

  /**
    `add_player_to_game`: a new row on the smallest free seat; the game becomes
    in progress exactly when that row is the fourth.
  */
  method AddPlayer(game: Game, userId: int)
    modifies game
    ensures game.players == Added(old(game.players), userId)
    ensures game.status == (if |old(game.players)| + 1 == 4 then InProgress else old(game.status))
    ensures game.winnerId == old(game.winnerId)
  {
    var seat := NextFreeSeat(SeatNumbers(game.players));
    var count := |game.players|;
    game.players := game.players + [Seat(userId, seat, 0)];
    if count + 1 == 4 {
      game.status := InProgress;
    }
  }

  /** Without a duplicate check, seating a user who already has a row gives that user two rows. */
  lemma AddedTwiceForSeatedUser(players: seq<Seat>, userId: int)
    requires HasUser(players, userId)
    ensures !DistinctUsers(Added(players, userId))
    ensures |Added(players, userId)| == |players| + 1
  {
    var i :| 0 <= i < |players| && players[i].userId == userId;
    var ps := Added(players, userId);
    assert ps[i].userId == ps[|players|].userId;
  }

  /**
    From the creator's game, three more users seated one after another take
    seats 2, 3 and 4.
  */
  lemma SeatsFillInOrder(a: int, b: int, c: int, d: int)
    requires a != b && a != c && a != d && b != c && b != d && c != d
    ensures Added(Added(Added([Seat(a, 1, 0)], b), c), d) ==
      [Seat(a, 1, 0), Seat(b, 2, 0), Seat(c, 3, 0), Seat(d, 4, 0)]
  {
    var p1 := [Seat(a, 1, 0)];
    assert SeatNumbers(p1) == SeatRange(1) by {
      assert p1[0].seatNumber == 1;
      assert SeatRange(1) == {1};
    }
    PackedSeatsNext(p1);
    var p2 := Added(p1, b);
    assert LobbyRoster(p1) && !HasUser(p1, b);
    SeatingKeepsLobbyRoster(p1, b);
    PackedSeatsNext(p2);
    var p3 := Added(p2, c);
    assert !HasUser(p2, c);
    SeatingKeepsLobbyRoster(p2, c);
    PackedSeatsNext(p3);
  }
}
