/**
  The round state of backend/app/routers/game.py (the `game:{id}:state`
  hash; its Redis encoding is left out) and the handlers that change it:
  `start_new_round`, the `play_card` and `pass_cards` events,
  `process_trick_end` and `process_round_end`. A handler that raises part way
  never reaches `set_game_state`, so on every error path the state is as
  before; the model makes its lookups first and changes the state last.
*/
module GameState {
  import opened Wrappers
  import opened Cards
  import opened Models
  import opened Lists
  import opened GameRules
  import StrOrder
  import BackendCards
  import BackendCrud

  datatype Phase = Passing | Playing

  /** What a `pass_cards` message did when it raised nothing. */
  datatype PassOutcome = Ignored | Recorded | Distributed

  datatype TrickEndError =
    | EmptyTrick              // `trick[0]` of an empty list
    | BadToken(e: CardError)  // a token of the trick did not parse
    | NoScore                 // `round_scores[str(winner_id)]` has no such key

  /** `[c.to_str() for c in hand]`. */
  function CardTokens(cs: seq<Card>): (ts: seq<string>)
    ensures |ts| == |cs| && forall i :: 0 <= i < |cs| ==> ts[i] == ToStr(cs[i])
  {
    seq(|cs|, i requires 0 <= i < |cs| => ToStr(cs[i]))
  }

  /** `[p.user_id for p in sorted(game.players, key=seat_number)]`. */
  function SeatOrderIds(players: seq<Seat>): (ids: seq<int>)
    ensures |ids| == |players|
  {
    var rows := SortBySeat(players);
    seq(|rows|, i requires 0 <= i < |rows| => rows[i].userId)
  }

  /** On a full table the seat order lists the users on seats 1, 2, 3 and 4, each once. */
  lemma SeatOrderOfFullTable(players: seq<Seat>)
    requires FullTable(players)
    ensures |SeatOrderIds(players)| == 4 && Distinct(SeatOrderIds(players))
    ensures forall i :: 0 <= i < 4 ==>
      SeatOrderIds(players)[i] == players[FirstRowAtSeat(players, i + 1).value].userId
    ensures forall u :: u in SeatOrderIds(players) <==> HasUser(players, u)
  {
    FullTableSorted(players);
    var ids := SeatOrderIds(players);
    var rows := SortBySeat(players);
    forall u ensures u in ids <==> HasUser(players, u) {
      if u in ids {
        var i :| 0 <= i < 4 && ids[i] == u;
        assert rows[i].userId == u;
      }
      if HasUser(players, u) {
        var i :| 0 <= i < 4 && rows[i].userId == u;
        assert ids[i] == u;
      }
    }
  }

  /** Dealt hand `j` as `hands_data` stores it: the tokens of the popped cards `i` with `i % 4 == j`, sorted. */
  function DealtHand(popped: seq<Card>, j: nat): seq<string>
  {
    StrOrder.Sort(CardTokens(BackendCards.Pick(popped, 4, j)))
  }

  /** `sorted([c.to_str() for c in hand])` for each hand, in order. */
  function SortedTokens(hands: seq<seq<Card>>): (hs: seq<seq<string>>)
    ensures |hs| == |hands|
  {
    if hands == [] then []
    else SortedTokens(hands[..|hands| - 1]) + [StrOrder.Sort(CardTokens(hands[|hands| - 1]))]
  }

  lemma {:induction false} SortedTokensAt(hands: seq<seq<Card>>, j: nat)
    requires j < |hands|
    ensures SortedTokens(hands)[j] == StrOrder.Sort(CardTokens(hands[j]))
  {
    if j < |hands| - 1 {
      SortedTokensAt(hands[..|hands| - 1], j);
    }
  }

  /** A dictionary built user by user: `ids[j]` maps to `vs[j]`. */
  function ByUser<T>(ids: seq<int>, vs: seq<T>): (m: map<int, T>)
    requires |ids| == 4 && |vs| == 4 && Distinct(ids)
    ensures forall u :: u in m <==> u in ids
    ensures forall j :: 0 <= j < 4 ==> m[ids[j]] == vs[j]
  {
    map[ids[0] := vs[0], ids[1] := vs[1], ids[2] := vs[2], ids[3] := vs[3]]
  }

  /** `hands_data`: user `order[j]` holds dealt hand `j`. */
  ghost predicate DealtTo(order: seq<int>, hands: map<int, seq<string>>, popped: seq<Card>)
  {
    && |order| == 4
    && (forall j :: 0 <= j < 4 ==> order[j] in hands)
    && (forall j {:trigger hands[order[j]]} :: 0 <= j < 4 ==> hands[order[j]] == DealtHand(popped, j))
  }

  /**
    A deal of the whole deck gives every user 13 sorted tokens, and some user
    holds the two of clubs, so the starter search finds one.
  */
  lemma DealtHandsStarter(order: seq<int>, hands: map<int, seq<string>>, popped: seq<Card>)
    requires DealtTo(order, hands, popped) && |popped| == 52
    requires multiset(popped) == multiset(FullDeck())
    ensures forall j :: 0 <= j < 4 ==> |hands[order[j]]| == 13 && StrOrder.IsSorted(hands[order[j]])
    ensures FirstHolder(order, hands, TwoOfClubsToken).Some?
  {
    forall j | 0 <= j < 4 ensures |hands[order[j]]| == 13 && StrOrder.IsSorted(hands[order[j]]) {
      BackendCards.StandardDeal(popped, j);
    }
    var j := TwoOfClubsHand(popped);
    assert TwoOfClubsToken in hands[order[j]];
  }

  /** The dealt hand that receives the two of clubs of a full deck. */
  lemma TwoOfClubsHand(popped: seq<Card>) returns (j: nat)
    requires |popped| == 52 && multiset(popped) == multiset(FullDeck())
    ensures j < 4 && TwoOfClubsToken in DealtHand(popped, j)
  {
    FullDeckAt(TwoOfClubs);
    assert TwoOfClubs in multiset(popped);
    var p :| 0 <= p < 52 && popped[p] == TwoOfClubs;
    var t := p / 4;
    j := p % 4;
    BackendCards.StandardDeal(popped, j);
    assert BackendCards.Pick(popped, 4, j)[t] == TwoOfClubs;
    var tokens := CardTokens(BackendCards.Pick(popped, 4, j));
    TwoOfClubsToken_IsItsToken();
    assert tokens[t] == TwoOfClubsToken;
    assert TwoOfClubsToken in multiset(tokens);
    assert TwoOfClubsToken in multiset(DealtHand(popped, j));
  }

  /** The starter search of `start_new_round`: the first user, in key order, whose hand holds the two of clubs. */
  method FindStarter(order: seq<int>, hands: map<int, seq<string>>) returns (starter: Option<int>)
    requires forall i :: 0 <= i < |order| ==> order[i] in hands
    ensures FirstHolder(order, hands, TwoOfClubsToken).None? ==> starter.None?
    ensures FirstHolder(order, hands, TwoOfClubsToken).Some? ==>
      starter == Some(order[FirstHolder(order, hands, TwoOfClubsToken).value])
  {
    starter := None;
    var i := 0;
    while i < |order|
      invariant 0 <= i <= |order|
      invariant forall j :: 0 <= j < i ==> TwoOfClubsToken !in hands[order[j]]
    {
      if TwoOfClubsToken in hands[order[i]] {
        starter := Some(order[i]);
        return;
      }
      i := i + 1;
    }
  }

  /** The winner search of `process_trick_end`: the player of the first entry carrying `token`. */
  method FindPlayer(trick: seq<Play>, token: string) returns (w: Option<int>)
    ensures FirstPlayWith(trick, token).None? ==> w.None?
    ensures FirstPlayWith(trick, token).Some? ==> w == Some(trick[FirstPlayWith(trick, token).value].playerId)
  {
    w := None;
    var i := 0;
    while i < |trick|
      invariant 0 <= i <= |trick|
      invariant forall j :: 0 <= j < i ==> trick[j].card != token
    {
      if trick[i].card == token {
        w := Some(trick[i].playerId);
        return;
      }
      i := i + 1;
    }
  }

  /** The shooter search of `process_round_end`: the first user, in key order, whose round score is 26. */
  method FindShooter(order: seq<int>, scores: map<int, int>) returns (shooter: Option<int>)
    requires forall i :: 0 <= i < |order| ==> order[i] in scores
    ensures ShooterIndex(order, scores).None? ==> shooter.None?
    ensures ShooterIndex(order, scores).Some? ==> shooter == Some(order[ShooterIndex(order, scores).value])
  {
    shooter := None;
    var i := 0;
    while i < |order|
      invariant 0 <= i <= |order|
      invariant forall j :: 0 <= j < i ==> scores[order[j]] != 26
    {
      if scores[order[i]] == 26 {
        shooter := Some(order[i]);
        return;
      }
      i := i + 1;
    }
  }

  /**
    `get_pass_recipient_id` as the loop it is: the sender's seat from the
    dictionary of rows, the seat arithmetic, then the search for the row on
    the target seat.
  */
  method RecipientSearch(senderId: int, direction: Option<Direction>, players: seq<Seat>)
    returns (r: Result<int, RecipientError>)
    ensures r == PassRecipient(senderId, direction, players)
  {
    var k := LastRowOf(players, senderId);
    if k.None? {
      return Err(UnknownSender);
    }
    if direction.None? {
      return Ok(senderId);
    }
    var target := RecipientSeat(direction.value, players[k.value].seatNumber, |players|);
    var i := 0;
    while i < |players|
      invariant 0 <= i <= |players|
      invariant forall j :: 0 <= j < i ==> players[j].seatNumber != target
    {
      if players[i].seatNumber == target {
        return Ok(players[i].userId);
      }
      i := i + 1;
    }
    return Ok(senderId);
  }

  /** When the distribution fails part way, the whole distribution fails with that error. */
  lemma {:induction false} DistributePrefixErr(senders: seq<int>, n: nat, passed: map<int, seq<string>>,
                                               hands: map<int, seq<string>>, dir: Direction, players: seq<Seat>)
    requires n <= |senders| && forall i :: 0 <= i < |senders| ==> senders[i] in passed
    requires Distribute(senders[..n], passed, hands, dir, players).Err?
    ensures Distribute(senders, passed, hands, dir, players) == Distribute(senders[..n], passed, hands, dir, players)
    decreases |senders| - n
  {
    if n < |senders| {
      var init := senders[..|senders| - 1];
      assert init[..n] == senders[..n];
      DistributePrefixErr(init, n, passed, hands, dir, players);
    } else {
      assert senders[..n] == senders;
    }
  }

  /** One more sender of the distribution: its recipient gets the passed tokens, or the distribution fails there. */
  lemma DistributeStep(senders: seq<int>, i: nat, passed: map<int, seq<string>>, hands: map<int, seq<string>>,
                       dir: Direction, players: seq<Seat>, h: map<int, seq<string>>)
    requires forall k :: 0 <= k < |senders| ==> senders[k] in passed
    requires i < |senders| && Distribute(senders[..i], passed, hands, dir, players) == Ok(h)
    ensures Distribute(senders[..i + 1], passed, hands, dir, players) ==
      match PassRecipient(senders[i], Some(dir), players)
      case Err(_) => Err(NoSender)
      case Ok(to) => if to !in h then Err(NoRecipientHand) else Ok(h[to := h[to] + passed[senders[i]]])
  {
    assert senders[..i + 1][..i] == senders[..i];
  }

  /** The distribution loop of `pass_cards`, proved against `Distribute`. */
  method DistributeLoop(order: seq<int>, passed: map<int, seq<string>>, hands: map<int, seq<string>>,
                        dir: Direction, players: seq<Seat>) returns (r: Result<map<int, seq<string>>, PassError>)
    requires forall i :: 0 <= i < |order| ==> order[i] in passed
    ensures r == Distribute(order, passed, hands, dir, players)
  {
    var h := hands;
    var i := 0;
    while i < |order|
      invariant 0 <= i <= |order|
      invariant Distribute(order[..i], passed, hands, dir, players) == Ok(h)
    {
      var next := DistributeOne(order, i, passed, hands, dir, players, h);
      if next.Err? {
        DistributePrefixErr(order, i + 1, passed, hands, dir, players);
        return next;
      }
      h := next.value;
      i := i + 1;
    }
    assert order[..i] == order;
    return Ok(h);
  }

  /** One pass of the loop body: the sender's recipient gets the tokens, or the lookup fails. */
  method DistributeOne(order: seq<int>, i: nat, passed: map<int, seq<string>>, hands: map<int, seq<string>>,
                       dir: Direction, players: seq<Seat>, h: map<int, seq<string>>)
    returns (next: Result<map<int, seq<string>>, PassError>)
    requires forall k :: 0 <= k < |order| ==> order[k] in passed
    requires i < |order| && Distribute(order[..i], passed, hands, dir, players) == Ok(h)
    ensures next == Distribute(order[..i + 1], passed, hands, dir, players)
  {
    DistributeStep(order, i, passed, hands, dir, players, h);
    var to := RecipientSearch(order[i], Some(dir), players);
    if to.Err? {
      return Err(NoSender);
    }
    if to.value !in h {
      return Err(NoRecipientHand);
    }
    return Ok(h[to.value := h[to.value] + passed[order[i]]]);
  }

  /** The loop that sorts every hand, in key order. */
  method SortEach(order: seq<int>, hands: map<int, seq<string>>) returns (sorted: map<int, seq<string>>)
    requires Distinct(order)
    requires forall i :: 0 <= i < |order| ==> order[i] in hands
    requires forall u :: u in hands <==> u in order
    ensures sorted == SortedHands(hands)
  {
    var m := SortLoop(order, hands);
    SortedHandsExt(m, hands);
    return m;
  }

  method SortLoop(order: seq<int>, hands: map<int, seq<string>>) returns (sorted: map<int, seq<string>>)
    requires Distinct(order)
    requires forall i :: 0 <= i < |order| ==> order[i] in hands
    requires forall u :: u in hands <==> u in order
    ensures forall u :: u in sorted <==> u in hands
    ensures forall u :: u in hands ==> sorted[u] == StrOrder.Sort(hands[u])
  {
    sorted := hands;
    var i := 0;
    while i < |order|
      invariant 0 <= i <= |order|
      invariant forall u :: u in sorted <==> u in hands
      invariant forall j :: 0 <= j < |order| ==> order[j] in sorted
      invariant forall j :: 0 <= j < i ==> sorted[order[j]] == StrOrder.Sort(hands[order[j]])
      invariant forall j :: i <= j < |order| ==> sorted[order[j]] == hands[order[j]]
    {
      var u := order[i];
      assert forall j :: 0 <= j < |order| && j != i ==> order[j] != u;
      sorted := sorted[u := StrOrder.Sort(hands[u])];
      i := i + 1;
    }
    forall u | u in hands ensures sorted[u] == StrOrder.Sort(hands[u]) {
      assert u in order;
      var j :| 0 <= j < |order| && order[j] == u;
    }
  }

  lemma SortedHandsExt(m: map<int, seq<string>>, hands: map<int, seq<string>>)
    requires forall u :: u in m <==> u in hands
    requires forall u :: u in hands ==> m[u] == StrOrder.Sort(hands[u])
    ensures m == SortedHands(hands)
  {
    var r := SortedHands(hands);
    assert forall u :: u in m.Keys <==> u in hands.Keys;
    assert m.Keys == hands.Keys == r.Keys;
    forall u | u in m ensures m[u] == r[u] {
    }
  }

  /** The round scores after a trick: the winner's score grows by the trick's points, no other changes. */
  predicate Awarded(before: map<int, int>, after: map<int, int>, w: int, points: int)
  {
    w in before && after == before[w := before[w] + points]
  }

  /** The points of a trick whose tokens parse. */
  function TrickPoints(trick: seq<Play>): (p: int)
    requires AllParse(Tokens(trick))
    ensures 0 <= p <= 13 * |trick|
    ensures p == 0 <==> forall i :: 0 <= i < |trick| ==>
      FromStr(trick[i].card).Ok? && FromStr(trick[i].card).value.suit != Hearts && FromStr(trick[i].card).value != QueenOfSpades
  {
    TotalPoints(ParseAll(Tokens(trick)).value)
  }

  /**
    The lookups of `process_trick_end`, in its order: the first entry, the
    parse of every token, the winning card, the entry carrying its token, and
    the winner's round score.
  */
  method TrickOutcome(trick: seq<Play>, scores: map<int, int>) returns (r: Result<int, TrickEndError>)
    ensures r == Err(EmptyTrick) <==> trick == []
    ensures trick != [] && !AllParse(Tokens(trick)) ==> r == Err(BadToken(ParseAll(Tokens(trick)).error))
    ensures trick != [] && AllParse(Tokens(trick)) ==> (r == Err(NoScore) <==> TrickTaker(trick) !in scores)
    ensures r.Ok? ==> trick != [] && AllParse(Tokens(trick)) && r.value == TrickTaker(trick) && r.value in scores
  {
    if trick == [] {
      return Err(EmptyTrick);
    }
    var parsed := ParseAll(Tokens(trick));
    if parsed.Err? {
      return Err(BadToken(parsed.error));
    }
    var cards := parsed.value;
    var best := BackendCards.GetTrickWinner(cards, cards[0].suit);
    TrickWinnerEntry(trick);
    var winner := FindPlayer(trick, ToStr(best.value));
    if winner.None? || winner.value !in scores {
      return Err(NoScore);
    }
    return Ok(winner.value);
  }

  /**
    A play moves one token from the player's hand to the trick: the tokens in
    the listed hands and the trick together are the same as before.
  */
  lemma PlayMovesCard(keys: seq<int>, hands: map<int, seq<string>>, u: int, c: string, trick: seq<Play>)
    requires Distinct(keys) && forall i :: 0 <= i < |keys| ==> keys[i] in hands
    requires u in keys && c in hands[u]
    ensures Pool(keys, hands[u := RemoveFirst(hands[u], c)]) + multiset(Tokens(trick + [Play(u, c)])) ==
            Pool(keys, hands) + multiset(Tokens(trick))
  {
    var left := RemoveFirst(hands[u], c);
    PoolUpdate(keys, hands, u, left);
    assert Tokens(trick + [Play(u, c)]) == Tokens(trick) + [c];
    assert multiset(hands[u]) == multiset(left) + multiset{c};
    var after, before := Pool(keys, hands[u := left]) + multiset{c}, Pool(keys, hands);
    forall x ensures after[x] == before[x] {
      assert (Pool(keys, hands[u := left]) + multiset(hands[u]))[x] == (before + multiset(left))[x];
    }
    assert after == before;
  }

  /** The change `process_round_end` makes to a user's total, with the shooter found by key order. */
  function ShooterOf(order: seq<int>, scores: map<int, int>): (s: Option<int>)
    requires forall i :: 0 <= i < |order| ==> order[i] in scores
    ensures s.Some? ==> s.value in scores && scores[s.value] == 26
    ensures s.None? ==> forall i :: 0 <= i < |order| ==> scores[order[i]] != 26
  {
    match ShooterIndex(order, scores)
    case None => None
    case Some(k) => Some(order[k])
  }

  /**
    `process_round_end` on the game's rows: every total moves by its
    `ScoreChange` (0 for a shooter, 26 for everyone else, otherwise the round
    score); once some total reaches 100 the game ends, won by the first row
    with the least total.
  */
  method ProcessRoundEnd(game: Game, order: seq<int>, scores: map<int, int>) returns (shooter: Option<int>, over: bool)
    requires forall i :: 0 <= i < |order| ==> order[i] in scores
    requires ShooterOf(order, scores).None? ==> forall i :: 0 <= i < |game.players| ==> game.players[i].userId in scores
    modifies game
    ensures shooter == ShooterOf(order, scores)
    ensures |game.players| == |old(game.players)|
    ensures forall i :: 0 <= i < |game.players| ==>
      game.players[i] == old(game.players[i]).(totalScore := old(game.players[i].totalScore) +
                                                 ScoreChange(shooter, scores, old(game.players[i].userId)))
    ensures over <==> GameOver(game.players)
    ensures over ==> game.status == Finished && game.winnerId == Some(game.players[MinTotalIndex(game.players)].userId)
    ensures !over ==> game.status == old(game.status) && game.winnerId == old(game.winnerId)
  {
    shooter := FindShooter(order, scores);
    var i := 0;
    while i < |game.players|
      invariant 0 <= i <= |game.players| && |game.players| == |old(game.players)|
      invariant forall j :: 0 <= j < i ==>
        game.players[j] == old(game.players[j]).(totalScore := old(game.players[j].totalScore) +
                                                   ScoreChange(shooter, scores, old(game.players[j].userId)))
      invariant forall j :: i <= j < |game.players| ==> game.players[j] == old(game.players[j])
      invariant game.status == old(game.status) && game.winnerId == old(game.winnerId)
    {
      var change := ScoreChange(shooter, scores, game.players[i].userId);
      BackendCrud.UpdatePlayerTotalScore(game, i, change);
      i := i + 1;
    }
    over := GameOver(game.players);
    if over {
      var winner := game.players[MinTotalIndex(game.players)];
      BackendCrud.EndGame(game, winner.userId);
    }
  }

  /** Every listed user has a pass entry once the two dictionaries share their keys. */
  lemma SameKeysListed(order: seq<int>, hands: map<int, seq<string>>, passed: map<int, seq<string>>)
    requires forall i :: 0 <= i < |order| ==> order[i] in hands
    requires forall v :: v in passed <==> v in hands
    ensures forall i :: 0 <= i < |order| ==> order[i] in passed
  {
    forall i | 0 <= i < |order| ensures order[i] in passed {
      var v := order[i];
      assert v in hands;
    }
  }

  /** What a `pass_cards` message yields: its outcome and the hands and pass entries it leaves. */
  datatype PassResult = PassResult(r: Result<PassOutcome, PassError>, hands: map<int, seq<string>>,
                                   passed: map<int, seq<string>>)

  /** The result `PassOutcomeOf` gives is the one the handler left. */
  predicate Passed(out: PassResult, r: Result<PassOutcome, PassError>, hands: map<int, seq<string>>,
                   passed: map<int, seq<string>>)
  {
    out.r == r && out.hands == hands && out.passed == passed
  }

  /**
    `pass_cards`, with the held-cards check it evidently intends. A message
    outside the passing phase, or from a user whose entry is missing or
    already filled, is ignored; a count other than three, or tokens that are
    not three distinct held cards, are refused. Otherwise the tokens are
    recorded and leave the hand; once every entry holds three, each sender's
    tokens go to the recipient and every hand is sorted. A missing
    `pass_direction` or a failed recipient lookup raises, and the handler
    stores nothing.
  */
  function PassOutcomeOf(order: seq<int>, hands: map<int, seq<string>>, passed: map<int, seq<string>>,
                         phase: Phase, dir: Option<Direction>, u: int, cards: seq<string>,
                         players: seq<Seat>): (out: PassResult)
    requires forall i :: 0 <= i < |order| ==> order[i] in hands
    requires forall v :: v in passed <==> v in hands
    ensures out.r == Ok(Ignored) <==> !(phase == Passing && u in passed && passed[u] == [])
    ensures phase == Passing && u in passed && passed[u] == [] && |cards| != 3 ==> out.r == Err(WrongCount)
    ensures out.r.Err? || out.r == Ok(Ignored) ==> out.hands == hands && out.passed == passed
    ensures out.r == Ok(Recorded) || out.r == Ok(Distributed) ==>
      && u in passed && passed[u] == [] && ValidPass(hands[u], cards)
      && out.passed == passed[u := cards]
      && (out.r == Ok(Distributed) <==> AllPassed(out.passed))
    ensures out.r == Ok(Recorded) ==> out.hands == hands[u := Filter(hands[u], cards)]
    ensures forall v :: v in out.hands <==> v in hands
    ensures forall v :: v in out.passed <==> v in passed
  {
    if !(phase == Passing && u in passed && passed[u] == []) then PassResult(Ok(Ignored), hands, passed)
    else if |cards| != 3 then PassResult(Err(WrongCount), hands, passed)
    else if !ValidPass(hands[u], cards) then PassResult(Err(NotHeld), hands, passed)
    else
      var passed' := passed[u := cards];
      var mid := hands[u := Filter(hands[u], cards)];
      if !AllPassed(passed') then PassResult(Ok(Recorded), mid, passed')
      else if dir.None? then PassResult(Err(NoDirection), hands, passed)
      else
        SameKeysListed(order, hands, passed');
        match Distribute(order, passed', mid, dir.value, players)
        case Err(e) => PassResult(Err(e), hands, passed)
        case Ok(h) => PassResult(Ok(Distributed), SortedHands(h), passed')
  }

  /** The steps of `pass_cards` on the state's values, proved against `PassOutcomeOf`. */
  method ApplyPass(order: seq<int>, hands: map<int, seq<string>>, passed: map<int, seq<string>>,
                   phase: Phase, dir: Option<Direction>, u: int, cards: seq<string>,
                   players: seq<Seat>) returns (out: PassResult)
    requires Distinct(order)
    requires forall i :: 0 <= i < |order| ==> order[i] in hands
    requires forall v :: v in hands <==> v in order
    requires forall v :: v in passed <==> v in hands
    ensures out == PassOutcomeOf(order, hands, passed, phase, dir, u, cards, players)
  {
    if !(phase == Passing && u in passed && passed[u] == []) {
      return PassResult(Ok(Ignored), hands, passed);
    }
    if |cards| != 3 {
      return PassResult(Err(WrongCount), hands, passed);
    }
    if !ValidPass(hands[u], cards) {
      return PassResult(Err(NotHeld), hands, passed);
    }
    var passed' := passed[u := cards];
    var mid := hands[u := Filter(hands[u], cards)];
    if !AllPassed(passed') {
      return PassResult(Ok(Recorded), mid, passed');
    }
    if dir.None? {
      return PassResult(Err(NoDirection), hands, passed);
    }
    var distributed := DistributeLoop(order, passed', mid, dir.value, players);
    if distributed.Err? {
      return PassResult(Err(distributed.error), hands, passed);
    }
    var sorted := SortEach(order, distributed.value);
    return PassResult(Ok(Distributed), sorted, passed');
  }

  /** The three dictionaries are keyed by exactly the users of `order`, each listed once. */
  ghost predicate KeysMatch(order: seq<int>, hands: map<int, seq<string>>, passed: map<int, seq<string>>,
                            scores: map<int, int>)
  {
    && Distinct(order)
    && (forall i :: 0 <= i < |order| ==> order[i] in hands)
    && (forall u :: u in hands <==> u in order)
    && (forall u :: u in passed <==> u in hands)
    && (forall u :: u in scores <==> u in hands)
  }

  lemma KeysMatchHands(order: seq<int>, hands: map<int, seq<string>>, passed: map<int, seq<string>>,
                       scores: map<int, int>, hands': map<int, seq<string>>)
    requires KeysMatch(order, hands, passed, scores)
    requires forall u :: u in hands' <==> u in hands
    ensures KeysMatch(order, hands', passed, scores)
  {
  }

  lemma KeysMatchHand(order: seq<int>, hands: map<int, seq<string>>, passed: map<int, seq<string>>,
                      scores: map<int, int>, u: int, h: seq<string>)
    requires KeysMatch(order, hands, passed, scores) && u in hands
    ensures KeysMatch(order, hands[u := h], passed, scores)
  {
  }

  lemma KeysMatchScore(order: seq<int>, hands: map<int, seq<string>>, passed: map<int, seq<string>>,
                       scores: map<int, int>, u: int, v: int)
    requires KeysMatch(order, hands, passed, scores) && u in scores
    ensures KeysMatch(order, hands, passed, scores[u := v])
  {
  }

  lemma KeysMatchPassed(order: seq<int>, hands: map<int, seq<string>>, passed: map<int, seq<string>>,
                        scores: map<int, int>, passed': map<int, seq<string>>)
    requires KeysMatch(order, hands, passed, scores)
    requires forall u :: u in passed' <==> u in passed
    ensures KeysMatch(order, hands, passed', scores)
  {
  }

  lemma KeysMatchScores(order: seq<int>, hands: map<int, seq<string>>, passed: map<int, seq<string>>,
                        scores: map<int, int>, scores': map<int, int>)
    requires KeysMatch(order, hands, passed, scores)
    requires forall u :: u in scores' <==> u in scores
    ensures KeysMatch(order, hands, passed, scores')
  {
  }

  /**
    The table `start_new_round` deals to the users of `order`, in seat order:
    user `order[j]` holds dealt hand `j`, every user has an empty pass entry
    and a round score of zero, and the first holder of the two of clubs, in
    seat order, leads (nobody when no hand holds it).
  */
  ghost predicate DealtTable(order: seq<int>, hands: map<int, seq<string>>, passed: map<int, seq<string>>,
                             scores: map<int, int>, turn: Option<int>, popped: seq<Card>)
  {
    && KeysMatch(order, hands, passed, scores)
    && |order| == 4
    && DealtTo(order, hands, popped)
    && (forall i :: 0 <= i < |order| ==>
          order[i] in passed && passed[order[i]] == [] && order[i] in scores && scores[order[i]] == 0)
    && (FirstHolder(order, hands, TwoOfClubsToken).None? ==> turn.None?)
    && (FirstHolder(order, hands, TwoOfClubsToken).Some? ==>
          turn == Some(order[FirstHolder(order, hands, TwoOfClubsToken).value]))
  }

  /** `user_ids` of `start_new_round`: the users sorted by seat number. */
  method SeatOrder(players: seq<Seat>) returns (ids: seq<int>)
    requires FullTable(players)
    ensures ids == SeatOrderIds(players) && |ids| == 4 && Distinct(ids)
  {
    SeatOrderOfFullTable(players);
    ids := SeatOrderIds(players);
  }

  /** `hands_data` of `start_new_round`: the deck dealt, each hand's tokens sorted, keyed by user. */
  method DealHands(ids: seq<int>, popped: seq<Card>) returns (h: map<int, seq<string>>)
    requires |ids| == 4 && Distinct(ids) && |popped| == 52
    ensures (forall u :: u in h <==> u in ids) && DealtTo(ids, h, popped)
  {
    var dealt := BackendCards.Deal(52, popped, 4, 13);
    var hs := SortedTokens(dealt.value);
    h := ByUser(ids, hs);
    forall j | 0 <= j < 4 ensures h[ids[j]] == DealtHand(popped, j) {
      SortedTokensAt(dealt.value, j);
    }
  }

  /** The deal of `start_new_round` to the users of `ids`, and the starter search. */
  method DealRound(ids: seq<int>, popped: seq<Card>)
    returns (h: map<int, seq<string>>, p: map<int, seq<string>>, s: map<int, int>, first: Option<int>)
    requires |ids| == 4 && Distinct(ids) && |popped| == 52
    ensures DealtTable(ids, h, p, s, first, popped)
  {
    h := DealHands(ids, popped);
    first := FindStarter(ids, h);
    p := ByUser(ids, [[], [], [], []]);
    s := ByUser(ids, [0, 0, 0, 0]);
    EmptyPassesZeroScores(ids, h, p, s);
  }

  /** The empty pass lists and zero scores of a new round are keyed like the hands. */
  lemma EmptyPassesZeroScores(ids: seq<int>, h: map<int, seq<string>>, p: map<int, seq<string>>, s: map<int, int>)
    requires |ids| == 4 && Distinct(ids) && forall u :: u in h <==> u in ids
    requires p == ByUser(ids, [[], [], [], []]) && s == ByUser(ids, [0, 0, 0, 0])
    ensures KeysMatch(ids, h, p, s)
    ensures forall i :: 0 <= i < |ids| ==> ids[i] in p && p[ids[i]] == [] && ids[i] in s && s[ids[i]] == 0
  {
  }

  class RoundState {
    var roundNumber: int
    /** The users in the order `start_new_round` inserted them: the key order of `hands`, `passed_cards` and `round_scores`. */
    var order: seq<int>
    var hands: map<int, seq<string>>
    var turn: Option<int>
    var starter: Option<int>
    var phase: Phase
    var passed: map<int, seq<string>>
    var trick: seq<Play>
    var leadSuit: Option<Suit>
    var scores: map<int, int>
    var heartsBroken: bool
    /** `pass_direction`; `None` while the key is absent. */
    var passDirection: Option<Direction>

    /** The three dictionaries are keyed by exactly the users of `order`, each listed once. */
    ghost predicate Valid()
      reads this
    {
      KeysMatch(order, hands, passed, scores)
    }

    /**
      The state `start_new_round` writes for round `round`: the dealt table of
      `DealtTable`, the holder of the two of clubs to lead, no trick, hearts
      unbroken, and the phase the round's pass direction calls for. A hold
      round leaves an earlier `pass_direction` in place, since the hash is
      merged rather than replaced.
    */
    ghost predicate FreshRound(round: int, players: seq<Seat>, popped: seq<Card>, oldDirection: Option<Direction>)
      reads this
    {
      && Valid()
      && roundNumber == round
      && order == SeatOrderIds(players)
      && DealtTable(order, hands, passed, scores, turn, popped)
      && starter == turn
      && trick == [] && leadSuit == None && !heartsBroken
      && phase == (if PassDirection(round).None? then Playing else Passing)
      && passDirection == (if PassDirection(round).None? then oldDirection else PassDirection(round))
    }

    /** `start_new_round` when the game has no state yet: round 1. */
    constructor (players: seq<Seat>, popped: seq<Card>)
      requires FullTable(players) && |popped| == 52
      ensures FreshRound(1, players, popped, None)
    {
      roundNumber := 0;
      order := [];
      hands := map[];
      turn := None;
      starter := None;
      phase := Passing;
      passed := map[];
      trick := [];
      leadSuit := None;
      scores := map[];
      heartsBroken := false;
      passDirection := None;
      new;
      Install(1, players, popped);
    }

    /** `start_new_round` on an existing state: the round number goes up by one. */
    method NextRound(players: seq<Seat>, popped: seq<Card>)
      requires FullTable(players) && |popped| == 52
      modifies this
      ensures FreshRound(old(roundNumber) + 1, players, popped, old(passDirection))
    {
      Install(roundNumber + 1, players, popped);
    }

    method Install(round: int, players: seq<Seat>, popped: seq<Card>)
      requires FullTable(players) && |popped| == 52
      modifies this
      ensures FreshRound(round, players, popped, old(passDirection))
    {
      var ids := SeatOrder(players);
      var h, p, s, first := DealRound(ids, popped);
      var direction := PassDirection(round);
      var ph := if direction.None? then Playing else Passing;
      var dir := if direction.None? then passDirection else direction;
      SetRound(round, ids, h, p, s, first, ph, dir);
    }

    /** The hash `start_new_round` stores, merged over the old one. */
    method SetRound(round: int, ids: seq<int>, h: map<int, seq<string>>, p: map<int, seq<string>>,
                    s: map<int, int>, first: Option<int>, ph: Phase, dir: Option<Direction>)
      modifies this
      ensures roundNumber == round && order == ids && hands == h && passed == p && scores == s
      ensures turn == first && starter == first && phase == ph && passDirection == dir
      ensures trick == [] && leadSuit == None && !heartsBroken
    {
      roundNumber := round;
      order := ids;
      hands := h;
      turn := first;
      starter := first;
      phase := ph;
      passed := p;
      trick := [];
      leadSuit := None;
      scores := s;
      heartsBroken := false;
      passDirection := dir;
    }

    /**
      The `play_card` event: `CheckPlay` decides acceptance; an accepted card
      leaves the hand once, joins the trick, sets the lead suit of an empty
      trick, breaks hearts when it is a heart or the queen of spades, and
      hands the turn to the next seat, or to nobody once the trick has four
      cards. A next seat nobody holds raises, changing nothing.
    */
    method PlayCard(playerId: int, cardStr: string, players: seq<Seat>) returns (r: Result<Card, PlayError>)
      requires Valid()
      modifies this
      ensures Valid()
      ensures old(CheckPlay(hands, turn, leadSuit, heartsBroken, playerId, cardStr)).Err? ==>
        r == old(CheckPlay(hands, turn, leadSuit, heartsBroken, playerId, cardStr))
      ensures r == Err(NoSeat) <==>
        old(CheckPlay(hands, turn, leadSuit, heartsBroken, playerId, cardStr)).Ok? &&
        |old(trick)| < 3 && NextSeatHolder(players, playerId).None?
      ensures r.Err? ==> unchanged(this)
      ensures r.Ok? ==>
        && old(CheckPlay(hands, turn, leadSuit, heartsBroken, playerId, cardStr)) == r
        && hands == old(hands)[playerId := RemoveFirst(old(hands[playerId]), cardStr)]
        && trick == old(trick) + [Play(playerId, cardStr)]
        && leadSuit == (if old(trick) == [] then Some(r.value.suit) else old(leadSuit))
        && heartsBroken == (old(heartsBroken) || r.value.suit == Hearts || r.value == QueenOfSpades)
        && turn == (if |trick| < 4 then NextSeatHolder(players, playerId) else None)
      ensures r.Ok? ==>
        && order == old(order) && passed == old(passed) && scores == old(scores)
        && starter == old(starter) && phase == old(phase) && roundNumber == old(roundNumber)
        && passDirection == old(passDirection)
    {
      var check := CheckPlay(hands, turn, leadSuit, heartsBroken, playerId, cardStr);
      if check.Err? {
        return check;
      }
      var card := check.value;
      var next: Option<int> := None;
      if |trick| + 1 < 4 {
        next := NextSeatHolder(players, playerId);
        if next.None? {
          return Err(NoSeat);
        }
      }
      TakeCard(playerId, cardStr, card, next);
      return Ok(card);
    }

    /** The writes of an accepted play, in the order `play_card` makes them. */
    method TakeCard(playerId: int, cardStr: string, card: Card, next: Option<int>)
      requires Valid() && playerId in hands && cardStr in hands[playerId]
      modifies this
      ensures Valid()
      ensures hands == old(hands)[playerId := RemoveFirst(old(hands[playerId]), cardStr)]
      ensures trick == old(trick) + [Play(playerId, cardStr)]
      ensures leadSuit == (if old(trick) == [] then Some(card.suit) else old(leadSuit))
      ensures heartsBroken == (old(heartsBroken) || card.suit == Hearts || card == QueenOfSpades)
      ensures turn == next
      ensures order == old(order)
      ensures passed == old(passed)
      ensures scores == old(scores)
      ensures starter == old(starter) && phase == old(phase) && roundNumber == old(roundNumber)
      ensures passDirection == old(passDirection)
    {
      var broken := heartsBroken;
      if card.suit == Hearts {
        broken := true;
      }
      // `to_str() == "Q♠"`, which holds exactly for this card (`QueenOfSpadesToken`)
      if card == QueenOfSpades {
        broken := true;
      }
      var lead := if trick == [] then Some(card.suit) else leadSuit;
      KeysMatchHand(order, hands, passed, scores, playerId, RemoveFirst(hands[playerId], cardStr));
      hands := hands[playerId := RemoveFirst(hands[playerId], cardStr)];
      heartsBroken := broken;
      leadSuit := lead;
      trick := trick + [Play(playerId, cardStr)];
      turn := next;
    }

    /**
      `process_trick_end`: the winner's round score grows by the trick's
      points, the trick and lead suit are cleared, and the winner leads next.
    */
    method ProcessTrickEnd() returns (r: Result<int, TrickEndError>)
      requires Valid()
      modifies this
      ensures Valid()
      ensures r == Err(EmptyTrick) <==> old(trick) == []
      ensures old(trick) != [] && !AllParse(Tokens(old(trick))) ==>
        r == Err(BadToken(ParseAll(Tokens(old(trick))).error))
      ensures old(trick) != [] && AllParse(Tokens(old(trick))) ==>
        (r == Err(NoScore) <==> TrickTaker(old(trick)) !in old(scores))
      ensures r.Err? ==> unchanged(this)
      ensures r.Ok? ==>
        && old(trick) != [] && AllParse(Tokens(old(trick))) && r.value == TrickTaker(old(trick))
        && Awarded(old(scores), scores, r.value, TrickPoints(old(trick)))
      ensures r.Ok? ==> trick == [] && leadSuit == None && turn == Some(r.value) && starter == Some(r.value)
      ensures r.Ok? ==> order == old(order) && hands == old(hands) && passed == old(passed) && phase == old(phase)
      ensures r.Ok? ==> heartsBroken == old(heartsBroken) && roundNumber == old(roundNumber)
      ensures r.Ok? ==> passDirection == old(passDirection)
    {
      r := TrickOutcome(trick, scores);
      if r.Ok? {
        AwardTrick(r.value, TrickPoints(trick));
      }
    }

    /** The writes of `process_trick_end`: the points to the winner, a fresh trick, the winner to lead. */
    method AwardTrick(w: int, points: int)
      requires Valid() && w in scores
      modifies this
      ensures Valid()
      ensures Awarded(old(scores), scores, w, points)
      ensures trick == [] && leadSuit == None && turn == Some(w) && starter == Some(w)
      ensures order == old(order) && hands == old(hands) && passed == old(passed) && phase == old(phase)
      ensures heartsBroken == old(heartsBroken) && roundNumber == old(roundNumber)
      ensures passDirection == old(passDirection)
    {
      KeysMatchScore(order, hands, passed, scores, w, scores[w] + points);
      scores := scores[w := scores[w] + points];
      trick := [];
      leadSuit := None;
      turn := Some(w);
      starter := Some(w);
    }

    /**
      The `pass_cards` event, with the held-cards check it evidently intends:
      the hands, the pass entries and the phase become those `PassOutcomeOf`
      gives; nothing else changes.
    */
    method PassCards(playerId: int, cards: seq<string>, players: seq<Seat>) returns (r: Result<PassOutcome, PassError>)
      requires Valid()
      modifies this
      ensures Valid()
      ensures Passed(old(PassOutcomeOf(order, hands, passed, phase, passDirection, playerId, cards, players)),
                     r, hands, passed)
      ensures phase == (if r == Ok(Distributed) then Playing else old(phase))
      ensures order == old(order) && scores == old(scores) && trick == old(trick) && leadSuit == old(leadSuit)
      ensures turn == old(turn) && starter == old(starter) && heartsBroken == old(heartsBroken)
      ensures roundNumber == old(roundNumber) && passDirection == old(passDirection)
    {
      var out := ApplyPass(order, hands, passed, phase, passDirection, playerId, cards, players);
      r := out.r;
      if r == Ok(Recorded) || r == Ok(Distributed) {
        KeysMatchHands(order, hands, passed, scores, out.hands);
        KeysMatchPassed(order, out.hands, passed, scores, out.passed);
        SetPass(out.hands, out.passed, if r == Ok(Distributed) then Playing else phase);
      }
    }

    /** The writes of an accepted pass. */
    method SetPass(h: map<int, seq<string>>, p: map<int, seq<string>>, ph: Phase)
      requires KeysMatch(order, h, p, scores)
      modifies this
      ensures Valid()
      ensures hands == h && passed == p && phase == ph
      ensures order == old(order) && scores == old(scores) && trick == old(trick) && leadSuit == old(leadSuit)
      ensures turn == old(turn) && starter == old(starter) && heartsBroken == old(heartsBroken)
      ensures roundNumber == old(roundNumber) && passDirection == old(passDirection)
    {
      hands := h;
      passed := p;
      phase := ph;
    }
  }

  /**
    Over the passing phase no card is created or lost: a recorded pass moves
    three tokens from a hand without duplicates to `passed_cards`, and the
    distribution moves every passed token into a hand, sorting keeping them.
  */
  lemma PassingConserves(keys: seq<int>, hands: map<int, seq<string>>, passed: map<int, seq<string>>,
                         u: int, cards: seq<string>, dir: Direction, players: seq<Seat>)
    requires Distinct(keys)
    requires forall i :: 0 <= i < |keys| ==> keys[i] in hands && keys[i] in passed
    requires forall v :: v in hands ==> v in keys
    requires u in keys && NoDups(hands[u]) && ValidPass(hands[u], cards) && passed[u] == []
    ensures Pool(keys, hands[u := Filter(hands[u], cards)]) + Pool(keys, passed[u := cards]) ==
            Pool(keys, hands) + Pool(keys, passed)
    ensures var mid := hands[u := Filter(hands[u], cards)];
      Distribute(keys, passed[u := cards], mid, dir, players).Ok? ==>
        Pool(keys, SortedHands(Distribute(keys, passed[u := cards], mid, dir, players).value)) ==
        Pool(keys, hands) + Pool(keys, passed)
  {
    var left := Filter(hands[u], cards);
    PassConserves(hands[u], cards);
    PoolUpdate(keys, hands, u, left);
    PoolUpdate(keys, passed, u, cards);
    var a, b := Pool(keys, hands[u := left]) + Pool(keys, passed[u := cards]), Pool(keys, hands) + Pool(keys, passed);
    forall x ensures a[x] == b[x] {
      assert (Pool(keys, hands[u := left]) + multiset(hands[u]))[x] == (Pool(keys, hands) + multiset(left))[x];
      assert (Pool(keys, passed[u := cards]) + multiset(passed[u]))[x] == (Pool(keys, passed) + multiset(cards))[x];
    }
    assert a == b;
    var mid := hands[u := left];
    if Distribute(keys, passed[u := cards], mid, dir, players).Ok? {
      var out := Distribute(keys, passed[u := cards], mid, dir, players).value;
      DistributeConserves(keys, keys, passed[u := cards], mid, dir, players);
      SortedHandsPool(keys, out);
    }
  }

  /**
    A recorded pass keeps every card either in a hand or in `passed_cards`,
    and the distribution puts every card back into a hand.
  */
  lemma PassOutcomeConserves(order: seq<int>, hands: map<int, seq<string>>, passed: map<int, seq<string>>,
                             phase: Phase, dir: Option<Direction>, u: int, cards: seq<string>, players: seq<Seat>)
    requires Distinct(order)
    requires forall i :: 0 <= i < |order| ==> order[i] in hands
    requires forall v :: v in hands <==> v in order
    requires forall v :: v in passed <==> v in hands
    requires u in hands ==> NoDups(hands[u])
    ensures var out := PassOutcomeOf(order, hands, passed, phase, dir, u, cards, players);
      out.r == Ok(Recorded) ==>
        Pool(order, out.hands) + Pool(order, out.passed) == Pool(order, hands) + Pool(order, passed)
    ensures var out := PassOutcomeOf(order, hands, passed, phase, dir, u, cards, players);
      out.r == Ok(Distributed) ==> Pool(order, out.hands) == Pool(order, hands) + Pool(order, passed)
  {
    var out := PassOutcomeOf(order, hands, passed, phase, dir, u, cards, players);
    if out.r == Ok(Recorded) {
      PassingConserves(order, hands, passed, u, cards, Left, players);
    } else if out.r == Ok(Distributed) {
      PassingConserves(order, hands, passed, u, cards, dir.value, players);
    }
  }
}
