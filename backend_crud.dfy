/**
  The backend's lobby bookkeeping (backend/app/crud.py): seating a user,
  choosing the game `find_or_create_game` joins, and the in-place updates of a
  game's status, winner and a player's running total. The database session is
  left out; a `Game` object is the row as the session holds it.
*/
module BackendCrud {
  import opened Wrappers
  import opened Models

  /**
    The player list after the backend's `add_player_to_game`: unchanged when
    the user already has a row, otherwise one new row on the smallest free seat.
  */
  function Joined(players: seq<Seat>, userId: int): (r: seq<Seat>)
    ensures HasUser(r, userId) && players <= r
    ensures HasUser(players, userId) ==> r == players
    ensures !HasUser(players, userId) ==>
      && |r| == |players| + 1
      && r[|players|].userId == userId && r[|players|].totalScore == 0
      && r[|players|].seatNumber !in SeatNumbers(players)
      && forall k :: 1 <= k < r[|players|].seatNumber ==> k in SeatNumbers(players)
  {
    if HasUser(players, userId) then players
    else
      var r := players + [Seat(userId, SmallestFreeSeat(SeatNumbers(players)), 0)];
      assert r[|players|].userId == userId;
      r
  }

  /** `add_player_to_game`, with its duplicate check. */
  method AddPlayer(game: Game, userId: int)
    modifies game
    ensures game.players == Joined(old(game.players), userId)
    ensures game.status == old(game.status) && game.winnerId == old(game.winnerId)
  {
    if AnySeatOf(game.players, userId) {
      return;
    }
    var seat := NextFreeSeat(SeatNumbers(game.players));
    game.players := game.players + [Seat(userId, seat, 0)];
  }

  /** Joining twice is joining once: the duplicate check makes the second call a no-op. */
  lemma JoinedIdempotent(players: seq<Seat>, userId: int)
    ensures Joined(Joined(players, userId), userId) == Joined(players, userId)
  {
    if !HasUser(players, userId) {
      var ps := Joined(players, userId);
      assert ps[|players|].userId == userId;
    }
  }

  /**
    Seating keeps users and seats distinct, grows the list by at most one row,
    and the new seat is at most one more than the number of rows before.
  */
  lemma JoinedKeepsDistinct(players: seq<Seat>, userId: int)
    requires DistinctUsers(players) && DistinctSeats(players)
    ensures DistinctUsers(Joined(players, userId)) && DistinctSeats(Joined(players, userId))
    ensures HasUser(Joined(players, userId), userId)
    ensures |players| <= |Joined(players, userId)| <= |players| + 1
    ensures forall i :: |players| <= i < |Joined(players, userId)| ==>
      1 <= Joined(players, userId)[i].seatNumber <= |players| + 1
  {
    if !HasUser(players, userId) {
      var ps := Joined(players, userId);
      NewSeatIsDistinct(players, userId);
      SmallestFreeBound(SeatNumbers(players));
      SeatCountBound(players);
      forall i, j | 0 <= i < j < |ps| ensures ps[i].userId != ps[j].userId {
        if j == |players| {
          assert players[i].userId != userId;
        }
      }
      assert ps[|players|].userId == userId;
    }
  }

  /** There are no more distinct seat numbers than rows. */
  lemma {:induction false} SeatCountBound(players: seq<Seat>)
    ensures |SeatNumbers(players)| <= |players|
  {
    if players != [] {
      var init := players[..|players| - 1];
      SeatCountBound(init);
      assert SeatNumbers(players) == SeatNumbers(init) + {players[|players| - 1].seatNumber} by {
        forall x | x in SeatNumbers(players) ensures x in SeatNumbers(init) + {players[|players| - 1].seatNumber} {
          var i :| 0 <= i < |players| && players[i].seatNumber == x;
          if i < |init| {
            assert init[i].seatNumber == x;
          }
        }
        forall x | x in SeatNumbers(init) ensures x in SeatNumbers(players) {
          var i :| 0 <= i < |init| && init[i].seatNumber == x;
          assert players[i].seatNumber == x;
        }
      }
    }
  }

  /** `update_game_status`. */
  method UpdateGameStatus(game: Game, status: GameStatus)
    modifies game
    ensures game.status == status
    ensures game.players == old(game.players) && game.winnerId == old(game.winnerId)
  {
    game.status := status;
  }

  /** `end_game`: the game is finished and records its winner. */
  method EndGame(game: Game, winnerId: int)
    modifies game
    ensures game.status == Finished && game.winnerId == Some(winnerId)
    ensures game.players == old(game.players)
  {
    game.status := Finished;
    game.winnerId := Some(winnerId);
  }

  /** `update_player_total_score` on the game's row `i`: only that row's total moves, by exactly `scoreChange`. */
  method UpdatePlayerTotalScore(game: Game, i: nat, scoreChange: int)
    requires i < |game.players|
    modifies game
    ensures |game.players| == |old(game.players)|
    ensures game.players[i] == old(game.players[i]).(totalScore := old(game.players[i].totalScore) + scoreChange)
    ensures forall j :: 0 <= j < |game.players| && j != i ==> game.players[j] == old(game.players[j])
    ensures game.status == old(game.status) && game.winnerId == old(game.winnerId)
  {
    game.players := game.players[i := game.players[i].(totalScore := game.players[i].totalScore + scoreChange)];
  }

  /** The filter of `find_or_create_game`: waiting, fewer than four players, and the user not among them. */
  predicate Eligible(g: Game, userId: int)
    reads g
  {
    g.status == Waiting && !HasUser(g.players, userId) && |g.players| < 4
  }

  /** `eligible_games[0]`, as an index into `games`, or `None` when the list is empty. */
  function FirstEligible(games: seq<Game>, userId: int): (r: Option<nat>)
    reads set g | g in games
    ensures r.Some? ==> r.value < |games| && Eligible(games[r.value], userId)
    ensures r.Some? ==> forall i :: 0 <= i < r.value ==> !Eligible(games[i], userId)
    ensures r.None? ==> forall i :: 0 <= i < |games| ==> !Eligible(games[i], userId)
  {
    if games == [] then None
    else if Eligible(games[0], userId) then Some(0)
    else
      match FirstEligible(games[1..], userId)
      case None => None
      case Some(k) => Some(k + 1)
  }

  lemma EmptySeatsGiveSeatOne()
    ensures SmallestFreeSeat({}) == 1
  {
    SmallestFreeUnique({}, SmallestFreeSeat({}), 1);
  }

  /**
    `find_or_create_game`: the user joins the first eligible game, or a new
    game (id `newId`, assigned by the database) in which they take seat 1.
    No other game changes.
  */
  method FindOrCreateGame(games: seq<Game>, userId: int, newId: int) returns (g: Game)
    modifies set x | x in games
    ensures old(FirstEligible(games, userId)).Some? ==>
      var k := old(FirstEligible(games, userId)).value;
      g == games[k] &&
      g.players == old(g.players) + [Seat(userId, SmallestFreeSeat(SeatNumbers(old(g.players))), 0)] &&
      g.status == Waiting && g.winnerId == old(g.winnerId)
    ensures old(FirstEligible(games, userId)).None? ==>
      fresh(g) && g.id == newId && g.status == Waiting && g.winnerId == None && g.players == [Seat(userId, 1, 0)]
    ensures forall i :: 0 <= i < |games| && games[i] != g ==>
      games[i].players == old(games[i].players) && games[i].status == old(games[i].status) &&
      games[i].winnerId == old(games[i].winnerId)
  {
    var k := FirstEligible(games, userId);
    if k.Some? {
      g := games[k.value];
    } else {
      g := new Game(newId);
    }
    AddPlayer(g, userId);
    if k.None? {
      EmptySeatsGiveSeatOne();
    }
  }
}
