/**
  The older backend router (backend/app/routers/games.py): the join endpoint,
  the state the WebSocket endpoint writes when the fourth player connects, and
  its `play_card` message. The state hash is the `LegacyTable` class; the
  connection manager, broadcasts and Redis (de)serialisation are left out.
*/
module LegacyGames {
  import opened Wrappers
  import opened Cards
  import opened Models
  import opened Lists
  import opened GameRules
  import GameState
  import BackendCards
  import BackendCrud

  // ---------------------------------------------------------------------------
  // Joining
  // ---------------------------------------------------------------------------

  /**
    `join_existing_game`: refused, changing nothing, by the first failing
    check; otherwise the backend's `add_player_to_game` seats the user and
    the status and winner are left as they were.
  */
  method JoinExistingGame(game: Option<Game>, userId: int) returns (r: Result<Game, JoinError>)
    modifies Frame(game)
    ensures r.Err? <==> old(JoinRefusal(game, userId)).Some?
    ensures r.Err? ==> r.error == old(JoinRefusal(game, userId)).value
    ensures r.Err? && game.Some? ==> unchanged(game.value)
    ensures r.Ok? ==> game.Some? && r.value == game.value
    ensures r.Ok? ==> game.value.players == BackendCrud.Joined(old(game.value.players), userId)
    ensures r.Ok? ==> game.value.status == old(game.value.status) && game.value.winnerId == old(game.value.winnerId)
  {
    var refusal := JoinRefusal(game, userId);
    if refusal.Some? {
      return Err(refusal.value);
    }
    BackendCrud.AddPlayer(game.value, userId);
    return Ok(game.value);
  }

  /**
    A join this router accepts on a lobby roster appends the user's row on
    seat `k + 1`, with a zero total, and the roster stays a lobby roster.
  */
  lemma AcceptedJoinSeatsNext(players: seq<Seat>, userId: int)
    requires LobbyRoster(players)
    requires |players| < 4 && !HasUser(players, userId)
    ensures BackendCrud.Joined(players, userId) == players + [Seat(userId, |players| + 1, 0)]
    ensures LobbyRoster(BackendCrud.Joined(players, userId))
  {
    PackedSeatsNext(players);
    SeatingKeepsLobbyRoster(players, userId);
  }

  // ---------------------------------------------------------------------------
  // Seat order and the trick winner
  // ---------------------------------------------------------------------------

  /** The rows sorted by seat are the table's rows, so they hold the same users. */
  lemma SortedSameUsers(players: seq<Seat>)
    ensures forall u :: HasUser(SortBySeat(players), u) <==> HasUser(players, u)
  {
    var rows := SortBySeat(players);
    SortBySeatSorted(players);
    forall u ensures HasUser(rows, u) <==> HasUser(players, u) {
      if HasUser(rows, u) {
        var i :| 0 <= i < |rows| && rows[i].userId == u;
        assert rows[i] in multiset(players);
        var j :| 0 <= j < |players| && players[j] == rows[i];
      }
      if HasUser(players, u) {
        var j :| 0 <= j < |players| && players[j].userId == u;
        assert players[j] in multiset(rows);
        var i :| 0 <= i < |rows| && rows[i] == players[j];
      }
    }
  }

  /**
    The next turn of `play_card`: the player's index in the seat-sorted rows,
    plus one, modulo four; the user there is one of the table's.
  */
  function SeatOrderNext(players: seq<Seat>, playerId: int): (next: int)
    requires |players| == 4 && HasUser(players, playerId)
    ensures HasUser(players, next)
  {
    var rows := SortBySeat(players);
    SortedSameUsers(players);
    var i := FirstRowOf(rows, playerId).value;
    assert HasUser(rows, rows[(i + 1) % 4].userId);
    rows[(i + 1) % 4].userId
  }

  /**
    On a full table the index rotation names the same user as the seat rule
    of the newer router: the holder of seat `seat % 4 + 1`, who is another
    player and the one a pass to the left reaches.
  */
  lemma SeatOrderNextOnFullTable(players: seq<Seat>, playerId: int)
    requires FullTable(players) && HasUser(players, playerId)
    ensures NextSeatHolder(players, playerId).Some?
    ensures SeatOrderNext(players, playerId) == NextSeatHolder(players, playerId).value
    ensures SeatOrderNext(players, playerId) != playerId
    ensures Ok(SeatOrderNext(players, playerId)) == PassRecipient(playerId, Some(Left), players)
  {
    NextSeatOnFullTable(players, playerId);
    SortedIndexIsSeat(players, playerId);
    SortedSameUsers(players);
    var i := FirstRowOf(SortBySeat(players), playerId).value;
    FullTableSorted(players);
    assert players[FirstRowOf(players, playerId).value].seatNumber % 4 + 1 == (i + 1) % 4 + 1;
  }

  /** On a full table a user's index in the seat order is one less than the user's seat. */
  lemma SortedIndexIsSeat(players: seq<Seat>, playerId: int)
    requires FullTable(players) && HasUser(players, playerId)
    ensures HasUser(SortBySeat(players), playerId)
    ensures FirstRowOf(SortBySeat(players), playerId).value + 1 ==
      players[FirstRowOf(players, playerId).value].seatNumber
  {
    SortedSeatNumbers(players);
    SortedSameUsers(players);
    var rows := SortBySeat(players);
    var i := FirstRowOf(rows, playerId).value;
    var k := FirstRowOf(players, playerId).value;
    assert rows[i] in players;
    var j :| 0 <= j < 4 && players[j] == rows[i];
    assert players[j].userId == players[k].userId;
  }

  /** `raw_state.get("lead_suit") or trick_cards_obj[0].suit`. */
  function TrickLead(cards: seq<Card>, lead: Option<Suit>): (s: Suit)
    requires |cards| > 0
    ensures lead.Some? ==> s == lead.value
    ensures lead.None? ==> s == cards[0].suit && cards[WinnerIndex(cards, s)].suit == s
  {
    if lead.Some? then lead.value else cards[0].suit
  }

  /**
    The winner this router names: the player of the first entry whose token is
    that of the card `get_trick_winner` picks under the stored lead suit (the
    first card's suit when none is stored). When the stored lead is the first
    card's suit, or absent, it is the winner of the newer router's rule.
  */
  function TrickWinner(trick: seq<Play>, lead: Option<Suit>): (w: int)
    requires |trick| > 0 && AllParse(Tokens(trick))
    ensures var cards := ParseAll(Tokens(trick)).value;
      exists k :: 0 <= k < |trick| && trick[k].playerId == w &&
        cards[k] == cards[WinnerIndex(cards, TrickLead(cards, lead))]
    ensures lead.None? || lead == Some(ParseAll(Tokens(trick)).value[0].suit) ==> w == TrickTaker(trick)
  {
    var cards := ParseAll(Tokens(trick)).value;
    var k := WinnerIndex(cards, TrickLead(cards, lead));
    assert FromStr(trick[k].card) == Ok(cards[k]);
    var e := FirstPlayWith(trick, ToStr(cards[k])).value;
    assert FromStr(trick[e].card) == Ok(cards[e]);
    FromStrToStr(cards[k]);
    trick[e].playerId
  }

  /** A lead suit stored from the trick's first token is the suit of the first parsed card. */
  lemma StoredLeadIsFirst(trick: seq<Play>, lead: Option<Suit>)
    requires |trick| > 0 && AllParse(Tokens(trick))
    requires lead.Some? ==> FromStr(trick[0].card).Ok? && lead == Some(FromStr(trick[0].card).value.suit)
    ensures lead.None? || lead == Some(ParseAll(Tokens(trick)).value[0].suit)
  {
    if lead.Some? {
      assert FromStr(Tokens(trick)[0]) == Ok(ParseAll(Tokens(trick)).value[0]);
    }
  }

  /** The search by the winning card's token finds an entry, and it is the winner's. */
  lemma {:induction false} WinnerEntry(trick: seq<Play>, lead: Option<Suit>)
    requires |trick| > 0 && AllParse(Tokens(trick))
    ensures var cards := ParseAll(Tokens(trick)).value;
      var token := ToStr(cards[WinnerIndex(cards, TrickLead(cards, lead))]);
      && FirstPlayWith(trick, token).Some?
      && trick[FirstPlayWith(trick, token).value].playerId == TrickWinner(trick, lead)
  {
    var cards := ParseAll(Tokens(trick)).value;
    var k := WinnerIndex(cards, TrickLead(cards, lead));
    assert FromStr(trick[k].card) == Ok(cards[k]);
  }

  // ---------------------------------------------------------------------------
  // The state hash and `play_card`
  // ---------------------------------------------------------------------------

  /**
    The opening hash: user `i` in seat order holds the tokens of dealt hand
    `i` and a round score of zero, and nobody else has a hand or a score.
  */
  ghost predicate Opening(players: seq<Seat>, dealt: seq<seq<Card>>, hands: map<int, seq<string>>, scores: map<int, int>)
    requires |players| == 4 && |dealt| == 4
  {
    && (forall u :: u in hands <==> HasUser(players, u))
    && (forall u :: u in scores <==> HasUser(players, u))
    && forall i :: 0 <= i < 4 ==>
      var u := GameState.SeatOrderIds(players)[i];
      u in hands && hands[u] == GameState.CardTokens(dealt[i]) && u in scores && scores[u] == 0
  }

  /** The opening hash's turn, hands and round scores, keyed by the users in seat order. */
  method Deal(players: seq<Seat>, dealt: seq<seq<Card>>) returns (first: int, hands: map<int, seq<string>>, scores: map<int, int>)
    requires FullTable(players) && |dealt| == 4
    ensures first == GameState.SeatOrderIds(players)[0]
    ensures Opening(players, dealt, hands, scores)
  {
    var ids := GameState.SeatOrder(players);
    var tokens := [GameState.CardTokens(dealt[0]), GameState.CardTokens(dealt[1]),
                   GameState.CardTokens(dealt[2]), GameState.CardTokens(dealt[3])];
    first := ids[0];
    hands := GameState.ByUser(ids, tokens);
    scores := GameState.ByUser(ids, [0, 0, 0, 0]);
    OpeningByUser(players, dealt, ids, tokens, hands, scores);
  }

  /** Keying the dealt tokens and zero scores by the seat order gives the opening hash. */
  lemma OpeningByUser(players: seq<Seat>, dealt: seq<seq<Card>>, ids: seq<int>, tokens: seq<seq<string>>,
                      hands: map<int, seq<string>>, scores: map<int, int>)
    requires FullTable(players) && |dealt| == 4
    requires ids == GameState.SeatOrderIds(players) && |ids| == 4 && Distinct(ids)
    requires |tokens| == 4 && forall i :: 0 <= i < 4 ==> tokens[i] == GameState.CardTokens(dealt[i])
    requires hands == GameState.ByUser(ids, tokens) && scores == GameState.ByUser(ids, [0, 0, 0, 0])
    ensures Opening(players, dealt, hands, scores)
  {
    GameState.SeatOrderOfFullTable(players);
  }

  /** What a `play_card` message did: nothing, a handed-on turn, or a finished trick. */
  datatype Outcome = Ignored | NextTurn(next: int) | TrickWon(winner: int, points: int)

  /**
    Why a `play_card` message raised: before anything was written (the hand
    lookup, `remove`, the lead card's parse), or at the end of the trick
    after the hand and the trick were already written.
  */
  datatype LegacyError = Refused(e: PlayError) | TrickFailed(t: GameState.TrickEndError)

  class LegacyTable {
    var phase: GameState.Phase
    var turn: int
    var hands: map<int, seq<string>>
    var trick: seq<Play>
    /** `lead_suit`; `None` for the empty string. */
    var leadSuit: Option<Suit>
    var scores: map<int, int>

    /**
      Between messages the trick has at most three entries; the lead suit is
      stored exactly when the trick is not empty, and it is the suit of the
      trick's first card.
    */
    ghost predicate Valid()
      reads this
    {
      && |trick| < 4
      && (trick == [] ==> leadSuit.None?)
      && (trick != [] ==> FromStr(trick[0].card).Ok? && leadSuit == Some(FromStr(trick[0].card).value.suit))
    }

    /**
      The state written when the fourth player connects: the first user in
      seat order holds the turn, hand `i` goes to the user on seat `i + 1`,
      every round score is zero and the phase is passing.
    */
    constructor (players: seq<Seat>, dealt: seq<seq<Card>>)
      requires FullTable(players) && |dealt| == 4
      ensures Valid()
      ensures phase == GameState.Passing && trick == [] && leadSuit == None
      ensures turn == GameState.SeatOrderIds(players)[0]
      ensures Opening(players, dealt, hands, scores)
    {
      var first, h, s := Deal(players, dealt);
      phase := GameState.Passing;
      turn := first;
      hands := h;
      trick := [];
      leadSuit := None;
      scores := s;
    }

    /**
      The checks `play_card` makes before writing anything, in its order: a
      message outside the playing phase or from a player without the turn is
      ignored; a missing hand, a card not in the hand, and (only when no lead
      suit is stored) a card that does not parse raise. `None` means the play
      goes ahead.
    */
    function Screen(playerId: int, cardStr: string): (r: Option<Result<Outcome, LegacyError>>)
      reads this
      ensures r == Some(Ok(Ignored)) <==> phase != GameState.Playing || playerId != turn
      ensures r == Some(Err(Refused(NoHand))) <==>
        phase == GameState.Playing && playerId == turn && playerId !in hands
      ensures r == Some(Err(Refused(NotInHand))) <==>
        phase == GameState.Playing && playerId == turn && playerId in hands && cardStr !in hands[playerId]
      ensures (r.Some? && r.value.Err? && r.value.error.Refused? && r.value.error.e.BadCard?) <==>
        && phase == GameState.Playing && playerId == turn && playerId in hands && cardStr in hands[playerId]
        && leadSuit.None? && FromStr(cardStr).Err?
      ensures r.Some? && r.value.Err? && r.value.error.Refused? && r.value.error.e.BadCard? ==>
        r.value.error.e.e == FromStr(cardStr).error
      ensures r.None? <==>
        && phase == GameState.Playing && playerId == turn && playerId in hands && cardStr in hands[playerId]
        && (leadSuit.Some? || FromStr(cardStr).Ok?)
    {
      if phase != GameState.Playing || playerId != turn then Some(Ok(Ignored))
      else if playerId !in hands then Some(Err(Refused(NoHand)))
      else if cardStr !in hands[playerId] then Some(Err(Refused(NotInHand)))
      else if leadSuit.None? && FromStr(cardStr).Err? then Some(Err(Refused(BadCard(FromStr(cardStr).error))))
      else None
    }

    /** The lead suit after a play the screen lets through: the stored one, else the card's own suit. */
    function LeadAfter(cardStr: string): Option<Suit>
      reads this
      requires leadSuit.Some? || FromStr(cardStr).Ok?
    {
      if leadSuit.Some? then leadSuit else Some(FromStr(cardStr).value.suit)
    }

    /**
      The `play_card` message. A play the screen refuses changes nothing. A
      play it lets through leaves the hand once and joins the trick, and the
      lead suit is stored when none was. With fewer than four entries the
      turn moves one place along the seat order. At four entries the trick
      is scored under the lead suit stored before the play: the winner's
      round score grows by the trick's points, the trick and lead suit are
      cleared, and the winner leads. A token of the trick that does not parse,
      or a winner without a round score, raises with the hand and trick
      already written.
    */
    method PlayCard(playerId: int, cardStr: string, players: seq<Seat>) returns (r: Result<Outcome, LegacyError>)
      requires |players| == 4 && HasUser(players, playerId)
      modifies this
      ensures old(Screen(playerId, cardStr)).Some? ==> r == old(Screen(playerId, cardStr)).value && unchanged(this)
      ensures old(Screen(playerId, cardStr)).None? ==>
        && hands == old(hands)[playerId := RemoveFirst(old(hands[playerId]), cardStr)]
        && phase == old(phase)
      ensures old(Screen(playerId, cardStr)).None? && |old(trick)| + 1 < 4 ==>
        && r == Ok(NextTurn(SeatOrderNext(players, playerId)))
        && turn == SeatOrderNext(players, playerId)
        && trick == old(trick) + [Play(playerId, cardStr)]
        && leadSuit == old(LeadAfter(cardStr))
        && scores == old(scores)
      ensures && old(Screen(playerId, cardStr)).None? && |old(trick)| + 1 >= 4
              && !AllParse(Tokens(old(trick) + [Play(playerId, cardStr)])) ==>
        && r == Err(TrickFailed(GameState.BadToken(ParseAll(Tokens(old(trick) + [Play(playerId, cardStr)])).error)))
        && turn == old(turn)
        && trick == old(trick) + [Play(playerId, cardStr)]
        && leadSuit == old(LeadAfter(cardStr))
        && scores == old(scores)
      ensures && old(Screen(playerId, cardStr)).None? && |old(trick)| + 1 >= 4
              && AllParse(Tokens(old(trick) + [Play(playerId, cardStr)])) ==>
        var t := old(trick) + [Play(playerId, cardStr)];
        var w := TrickWinner(t, old(leadSuit));
        && (w !in old(scores) ==>
              && r == Err(TrickFailed(GameState.NoScore))
              && turn == old(turn) && trick == t && leadSuit == old(LeadAfter(cardStr)) && scores == old(scores))
        && (w in old(scores) ==>
              && r == Ok(TrickWon(w, GameState.TrickPoints(t)))
              && GameState.Awarded(old(scores), scores, w, GameState.TrickPoints(t))
              && trick == [] && leadSuit == None && turn == w)
      ensures old(Valid()) && r.Ok? ==> Valid()
      ensures old(Valid()) && r.Ok? && r.value.TrickWon? ==>
        |old(trick)| == 3 && r.value.winner == TrickTaker(old(trick) + [Play(playerId, cardStr)])
    {
      ghost var wasValid := Valid();
      var screen := Screen(playerId, cardStr);
      if screen.Some? {
        return screen.value;
      }
      var before := leadSuit;
      var lead := LeadAfter(cardStr);
      Record(playerId, cardStr, lead);
      if |trick| < 4 {
        r := PassTurn(playerId, players);
        return;
      }
      if wasValid && AllParse(Tokens(trick)) {
        StoredLeadIsFirst(trick, before);
      }
      r := EndTrick(before);
    }

    /** A trick still short of four entries: the turn moves one place along the seat order. */
    method PassTurn(playerId: int, players: seq<Seat>) returns (r: Result<Outcome, LegacyError>)
      requires |players| == 4 && HasUser(players, playerId)
      modifies this
      ensures r == Ok(NextTurn(SeatOrderNext(players, playerId))) && turn == SeatOrderNext(players, playerId)
      ensures hands == old(hands) && trick == old(trick) && leadSuit == old(leadSuit)
      ensures phase == old(phase) && scores == old(scores)
    {
      var next := SeatOrderNext(players, playerId);
      turn := next;
      return Ok(NextTurn(next));
    }

    /** The first write of an accepted play: the hand without the card, the trick with it, the lead suit. */
    method Record(playerId: int, cardStr: string, lead: Option<Suit>)
      requires playerId in hands && cardStr in hands[playerId]
      modifies this
      ensures hands == old(hands)[playerId := RemoveFirst(old(hands[playerId]), cardStr)]
      ensures trick == old(trick) + [Play(playerId, cardStr)] && leadSuit == lead
      ensures phase == old(phase) && turn == old(turn) && scores == old(scores)
    {
      hands := hands[playerId := RemoveFirst(hands[playerId], cardStr)];
      trick := trick + [Play(playerId, cardStr)];
      leadSuit := lead;
    }

    /**
      The trick-end branch under the lead suit read before the play: parse
      every token, find the winner's entry, add the points to the winner's
      round score, clear the trick and the lead suit, and hand the winner the
      turn. A raise changes nothing more.
    */
    method EndTrick(lead: Option<Suit>) returns (r: Result<Outcome, LegacyError>)
      requires |trick| > 0
      modifies this
      ensures !AllParse(Tokens(old(trick))) ==>
        r == Err(TrickFailed(GameState.BadToken(ParseAll(Tokens(old(trick))).error))) && unchanged(this)
      ensures AllParse(Tokens(old(trick))) && TrickWinner(old(trick), lead) !in old(scores) ==>
        r == Err(TrickFailed(GameState.NoScore)) && unchanged(this)
      ensures AllParse(Tokens(old(trick))) && TrickWinner(old(trick), lead) in old(scores) ==>
        && r == Ok(TrickWon(TrickWinner(old(trick), lead), GameState.TrickPoints(old(trick))))
        && GameState.Awarded(old(scores), scores, TrickWinner(old(trick), lead), GameState.TrickPoints(old(trick)))
        && trick == [] && leadSuit == None && turn == TrickWinner(old(trick), lead)
        && hands == old(hands) && phase == old(phase)
    {
      var parsed := ParseAll(Tokens(trick));
      if parsed.Err? {
        return Err(TrickFailed(GameState.BadToken(parsed.error)));
      }
      var cards := parsed.value;
      var best := BackendCards.GetTrickWinner(cards, TrickLead(cards, lead));
      WinnerEntry(trick, lead);
      var found := GameState.FindPlayer(trick, ToStr(best.value));
      var w := found.value;
      if w !in scores {
        return Err(TrickFailed(GameState.NoScore));
      }
      var points := GameState.TrickPoints(trick);
      Award(w, points);
      return Ok(TrickWon(w, points));
    }

    /** The trick-end write: the points to the winner, an empty trick, no lead suit, the winner's turn. */
    method Award(w: int, points: int)
      requires w in scores
      modifies this
      ensures GameState.Awarded(old(scores), scores, w, points)
      ensures trick == [] && leadSuit == None && turn == w
      ensures hands == old(hands) && phase == old(phase)
    {
      scores := scores[w := scores[w] + points];
      trick := [];
      leadSuit := None;
      turn := w;
    }
  }
}
