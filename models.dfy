/**
  The lobby's records (app/models.py, backend/app/models.py): a `Game` row
  whose status, winner and player list the CRUD functions update in place, and
  its `GamePlayer` rows, held here as `Seat` values in the game's player list.
  Also the rules both CRUD files share: the smallest free seat and the guard
  sequence of `join_existing_game`.
*/
module Models {
  import opened Wrappers

  datatype GameStatus = Waiting | InProgress | Finished

  /** A `GamePlayer` row: which user sits on which seat, and the running total. */
  datatype Seat = Seat(userId: int, seatNumber: int, totalScore: int)

  class Game {
    const id: int
    var status: GameStatus
    var winnerId: Option<int>
    var players: seq<Seat>

    /** `models.Game()` as committed: status defaults to waiting, no winner, no players. */
    constructor (id: int)
      ensures this.id == id
      ensures status == Waiting && winnerId == None && players == []
    {
      this.id := id;
      status := Waiting;
      winnerId := None;
      players := [];
    }
  }

  /** `{player.seat_number for player in game.players}`. */
  function SeatNumbers(players: seq<Seat>): set<int>
  {
    set i | 0 <= i < |players| :: players[i].seatNumber
  }

  /** Some row of `players` belongs to `userId`. */
  predicate HasUser(players: seq<Seat>, userId: int)
  {
    exists i :: 0 <= i < |players| && players[i].userId == userId
  }

  predicate DistinctSeats(players: seq<Seat>)
  {
    forall i, j :: 0 <= i < j < |players| ==> players[i].seatNumber != players[j].seatNumber
  }

  predicate DistinctUsers(players: seq<Seat>)
  {
    forall i, j :: 0 <= i < j < |players| ==> players[i].userId != players[j].userId
  }

  /**
    The roster a game reaches through the lobby: at most four rows, one per
    user, on distinct seats numbered from 1 up to the number of rows.
  */
  predicate LobbyRoster(players: seq<Seat>)
  {
    |players| <= 4 && DistinctUsers(players) && SeatNumbers(players) == SeatRange(|players|)
  }

  /** The seats `1..k`. */
  function SeatRange(k: int): (r: set<int>)
    ensures forall x :: x in r <==> 1 <= x <= k
    decreases k
  {
    if k <= 0 then {} else SeatRange(k - 1) + {k}
  }

  /** `s` is the least positive integer not in `taken`. */
  predicate IsSmallestFree(taken: set<int>, s: int)
  {
    1 <= s && s !in taken && forall x :: 1 <= x < s ==> x in taken
  }

  lemma {:induction false} SeatRangeCard(k: nat)
    ensures |SeatRange(k)| == k
  {
    if k > 0 {
      SeatRangeCard(k - 1);
      assert SeatRange(k) == SeatRange(k - 1) + {k};
    }
  }

  lemma SubsetCard(a: set<int>, b: set<int>)
    requires a <= b
    ensures |a| <= |b|
  {
    assert b == a + (b - a);
  }

  /** When `1..x` are all taken, there are at least `x` taken seats. */
  lemma TakenPrefix(taken: set<int>, x: nat)
    requires forall y :: 1 <= y <= x ==> y in taken
    ensures x <= |taken|
  {
    SeatRangeCard(x);
    SubsetCard(SeatRange(x), taken);
  }

  /** The seat the `while next_seat in current_seat_numbers` search stops at, starting from `x`. */
  function FreeFrom(taken: set<int>, x: int): (s: int)
    requires 1 <= x && forall y :: 1 <= y < x ==> y in taken
    ensures IsSmallestFree(taken, s)
    decreases |taken| + 1 - x
  {
    if x in taken then
      TakenPrefix(taken, x);
      FreeFrom(taken, x + 1)
    else x
  }

  /** The seat `add_player_to_game` hands out. */
  function SmallestFreeSeat(taken: set<int>): (s: int)
    ensures IsSmallestFree(taken, s)
  {
    FreeFrom(taken, 1)
  }

  /**
    The seat-search loop of both `add_player_to_game` versions: counts up from 1
    while the seat is taken.
  */
  method NextFreeSeat(taken: set<int>) returns (s: int)
    ensures s == SmallestFreeSeat(taken)
    ensures IsSmallestFree(taken, s)
  {
    s := 1;
    while s in taken
      invariant 1 <= s && forall y :: 1 <= y < s ==> y in taken
      invariant FreeFrom(taken, s) == SmallestFreeSeat(taken)
      decreases |taken| + 1 - s
    {
      TakenPrefix(taken, s);
      s := s + 1;
    }
  }

  /** There is only one smallest free seat. */
  lemma SmallestFreeUnique(taken: set<int>, s: int, t: int)
    requires IsSmallestFree(taken, s) && IsSmallestFree(taken, t)
    ensures s == t
  {
  }

  /** With `k` seats taken the new seat is at most `k + 1`. */
  lemma SmallestFreeBound(taken: set<int>)
    ensures SmallestFreeSeat(taken) <= |taken| + 1
  {
    var s := SmallestFreeSeat(taken);
    TakenPrefix(taken, s - 1);
  }

  /** The seat handed out is distinct from every existing seat. */
  lemma NewSeatIsDistinct(players: seq<Seat>, userId: int)
    requires DistinctSeats(players)
    ensures DistinctSeats(players + [Seat(userId, SmallestFreeSeat(SeatNumbers(players)), 0)])
  {
    var s := SmallestFreeSeat(SeatNumbers(players));
    var ps := players + [Seat(userId, s, 0)];
    forall i, j | 0 <= i < j < |ps| ensures ps[i].seatNumber != ps[j].seatNumber {
      if j == |players| {
        assert ps[i].seatNumber in SeatNumbers(players);
      }
    }
  }

  /** When seats `1..k` are exactly the taken ones, the new seat is `k + 1`. */
  lemma PackedSeatsNext(players: seq<Seat>)
    requires SeatNumbers(players) == SeatRange(|players|)
    ensures SmallestFreeSeat(SeatNumbers(players)) == |players| + 1
  {
    var k := |players|;
    assert IsSmallestFree(SeatRange(k), k + 1);
    SmallestFreeUnique(SeatNumbers(players), SmallestFreeSeat(SeatNumbers(players)), k + 1);
  }

  /**
    Seating a new user on the smallest free seat of a lobby roster with fewer
    than four rows gives a lobby roster again: its seats are `1..k+1`.
  */
  lemma SeatingKeepsLobbyRoster(players: seq<Seat>, userId: int)
    requires LobbyRoster(players) && |players| < 4 && !HasUser(players, userId)
    ensures LobbyRoster(players + [Seat(userId, SmallestFreeSeat(SeatNumbers(players)), 0)])
  {
    PackedSeatsNext(players);
    var ps := players + [Seat(userId, |players| + 1, 0)];
    assert SeatNumbers(ps) == SeatNumbers(players) + {|players| + 1} by {
      forall x | x in SeatNumbers(ps) ensures x in SeatNumbers(players) + {|players| + 1} {
        var i :| 0 <= i < |ps| && ps[i].seatNumber == x;
        if i < |players| {
          assert players[i].seatNumber == x;
        }
      }
      forall x | x in SeatNumbers(players) ensures x in SeatNumbers(ps) {
        var i :| 0 <= i < |players| && players[i].seatNumber == x;
        assert ps[i].seatNumber == x;
      }
      assert ps[|players|].seatNumber == |players| + 1;
    }
    assert SeatRange(|ps|) == SeatRange(|players|) + {|players| + 1};
    forall i, j | 0 <= i < j < |ps| ensures ps[i].userId != ps[j].userId {
      if j == |players| {
        assert players[i].userId != userId;
      }
    }
  }

  /** The reasons `join_existing_game` refuses a join, in the order it checks them. */
  datatype JoinError = GameNotFound | NotWaiting | GameFull | AlreadyInGame

  function StatusCode(e: JoinError): (code: int)
    ensures code == 404 <==> e == GameNotFound
    ensures code == 400 <==> e != GameNotFound
  {
    if e == GameNotFound then 404 else 400
  }

  function Frame(game: Option<Game>): set<object>
  {
    if game.Some? then {game.value} else {}
  }

  /**
    The guard sequence of `join_existing_game` (both router versions): the first
    failing check wins; `None` means the join goes ahead.
  */
  function JoinRefusal(game: Option<Game>, userId: int): (r: Option<JoinError>)
    reads Frame(game)
    ensures r == Some(GameNotFound) <==> game.None?
    ensures r == Some(NotWaiting) <==> game.Some? && game.value.status != Waiting
    ensures r == Some(GameFull) <==>
      game.Some? && game.value.status == Waiting && |game.value.players| >= 4
    ensures r == Some(AlreadyInGame) <==>
      game.Some? && game.value.status == Waiting && |game.value.players| < 4 && HasUser(game.value.players, userId)
    ensures r.None? <==>
      game.Some? && game.value.status == Waiting && |game.value.players| < 4 && !HasUser(game.value.players, userId)
  {
    if game.None? then Some(GameNotFound)
    else if game.value.status != Waiting then Some(NotWaiting)
    else if |game.value.players| >= 4 then Some(GameFull)
    else if AnySeatOf(game.value.players, userId) then Some(AlreadyInGame)
    else None
  }

  /** The `for player in game.players` search (or `any(...)`) for the user's row. */
  function AnySeatOf(players: seq<Seat>, userId: int): (r: bool)
    ensures r <==> HasUser(players, userId)
  {
    if players == [] then false
    else if players[0].userId == userId then true
    else
      var r := AnySeatOf(players[1..], userId);
      assert HasUser(players[1..], userId) ==> HasUser(players, userId) by {
        if HasUser(players[1..], userId) {
          var i :| 0 <= i < |players[1..]| && players[1..][i].userId == userId;
          assert players[i + 1].userId == userId;
        }
      }
      assert HasUser(players, userId) && players[0].userId != userId ==> HasUser(players[1..], userId) by {
        if HasUser(players, userId) && players[0].userId != userId {
          var i :| 0 <= i < |players| && players[i].userId == userId;
          assert players[1..][i - 1].userId == userId;
        }
      }
      r
  }

  /** `get_waiting_games`: the games whose status is waiting, in their order. */
  function WaitingGames(games: seq<Game>): (r: seq<Game>)
    reads set g | g in games
    ensures forall i :: 0 <= i < |r| ==> r[i] in games && r[i].status == Waiting
    ensures forall i :: 0 <= i < |games| && games[i].status == Waiting ==> games[i] in r
    ensures |r| <= |games|
  {
    if games == [] then []
    else
      var rest := WaitingGames(games[1..]);
      assert forall i :: 1 <= i < |games| ==> games[i] == games[1..][i - 1];
      if games[0].status == Waiting then [games[0]] + rest else rest
  }
}
