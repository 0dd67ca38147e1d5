/**
  The pure rules of the server game (backend/app/routers/game.py): the pass
  direction of a round and the seat arithmetic that picks a pass recipient, the
  ordered legality check for playing a card, the pieces of trick-end and
  round-end scoring, and the per-player card counts the server reports.
*/
module GameRules {
  import opened Wrappers
  import opened Cards
  import opened Models
  import opened Lists
  import StrOrder

  // ---------------------------------------------------------------------------
  // Passing
  // ---------------------------------------------------------------------------

  datatype Direction = Left | Right | Across

  /**
    `get_pass_direction`: `(round_number - 1) % 4 + 1` looked up in
    `{1: left, 2: right, 3: across, 4: None}`. Python's `%` with a positive
    divisor is Dafny's `%`. The result repeats every four rounds.
  */
  function PassDirection(roundNumber: int): (d: Option<Direction>)
    ensures d == Some(Left) <==> roundNumber % 4 == 1
    ensures d == Some(Right) <==> roundNumber % 4 == 2
    ensures d == Some(Across) <==> roundNumber % 4 == 3
    ensures d == None <==> roundNumber % 4 == 0
  {
    var key := (roundNumber - 1) % 4 + 1;
    if key == 1 then Some(Left)
    else if key == 2 then Some(Right)
    else if key == 3 then Some(Across)
    else None
  }

  /** The first four rounds pass left, right, across, and hold; then the cycle repeats. */
  lemma PassDirectionCycle(roundNumber: int)
    ensures PassDirection(roundNumber + 4) == PassDirection(roundNumber)
    ensures PassDirection(1) == Some(Left) && PassDirection(2) == Some(Right)
    ensures PassDirection(3) == Some(Across) && PassDirection(4) == None
  {
  }

  /** The seat arithmetic of `get_pass_recipient_id` for `n` players. */
  function RecipientSeat(d: Direction, seat: int, n: nat): (r: int)
    requires n > 0
    ensures 1 <= r <= n
  {
    match d
    case Left => seat % n + 1
    case Right => (seat - 2 + n) % n + 1
    case Across => (seat + 1) % n + 1
  }

  /**
    At a table of four: left is the next seat round the table, right undoes
    left, across undoes itself, and no direction sends a seat to itself.
  */
  lemma FourSeatArithmetic(seat: int)
    requires 1 <= seat <= 4
    ensures RecipientSeat(Left, seat, 4) == (if seat == 4 then 1 else seat + 1)
    ensures RecipientSeat(Right, RecipientSeat(Left, seat, 4), 4) == seat
    ensures RecipientSeat(Left, RecipientSeat(Right, seat, 4), 4) == seat
    ensures RecipientSeat(Across, RecipientSeat(Across, seat, 4), 4) == seat
    ensures forall d :: RecipientSeat(d, seat, 4) != seat
  {
    assert seat == 1 || seat == 2 || seat == 3 || seat == 4;
  }

  /** The index of the last row of `userId`: the one `{p.user_id: p for p in players}` keeps. */
  function LastRowOf(players: seq<Seat>, userId: int): (k: Option<nat>)
    ensures k.Some? ==> k.value < |players| && players[k.value].userId == userId
    ensures k.Some? ==> forall j :: k.value < j < |players| ==> players[j].userId != userId
    ensures k.None? <==> !HasUser(players, userId)
  {
    if players == [] then None
    else if players[|players| - 1].userId == userId then Some(|players| - 1)
    else
      var k := LastRowOf(players[..|players| - 1], userId);
      assert forall j :: 0 <= j < |players| - 1 ==> players[..|players| - 1][j] == players[j];
      k
  }

  /** The index of the first row of `userId`: `[p for p in players if p.user_id == uid][0]`. */
  function FirstRowOf(players: seq<Seat>, userId: int): (k: Option<nat>)
    ensures k.Some? ==> k.value < |players| && players[k.value].userId == userId
    ensures k.Some? ==> forall j :: 0 <= j < k.value ==> players[j].userId != userId
    ensures k.None? <==> !HasUser(players, userId)
  {
    if players == [] then None
    else if players[0].userId == userId then Some(0)
    else
      var k := FirstRowOf(players[1..], userId);
      assert forall j :: 1 <= j < |players| ==> players[1..][j - 1] == players[j];
      if k.Some? then Some(k.value + 1) else None
  }

  /** The index of the first row on `seat`. */
  function FirstRowAtSeat(players: seq<Seat>, seat: int): (k: Option<nat>)
    ensures k.Some? ==> k.value < |players| && players[k.value].seatNumber == seat
    ensures k.Some? ==> forall j :: 0 <= j < k.value ==> players[j].seatNumber != seat
    ensures k.None? <==> seat !in SeatNumbers(players)
  {
    if players == [] then None
    else if players[0].seatNumber == seat then Some(0)
    else
      var k := FirstRowAtSeat(players[1..], seat);
      assert forall j :: 1 <= j < |players| ==> players[1..][j - 1] == players[j];
      assert seat in SeatNumbers(players[1..]) <==> seat in SeatNumbers(players) by {
        if seat in SeatNumbers(players) {
          var j :| 0 <= j < |players| && players[j].seatNumber == seat;
          assert players[1..][j - 1].seatNumber == seat;
        }
      }
      if k.Some? then Some(k.value + 1) else None
  }

  datatype RecipientError = UnknownSender

  /**
    `get_pass_recipient_id`: a sender without a row raises (the dictionary
    lookup); an unknown direction, or a target seat nobody holds, yields the
    sender; otherwise the user on the target seat.
  */
  function PassRecipient(senderId: int, direction: Option<Direction>, players: seq<Seat>): (r: Result<int, RecipientError>)
    ensures r.Err? <==> !HasUser(players, senderId)
    ensures r.Ok? && direction.None? ==> r.value == senderId
    ensures r.Ok? && r.value != senderId ==> HasUser(players, r.value)
    ensures r.Ok? && direction.Some? ==>
      var target := RecipientSeat(direction.value, players[LastRowOf(players, senderId).value].seatNumber, |players|);
      && (target !in SeatNumbers(players) ==> r.value == senderId)
      && (target in SeatNumbers(players) ==> r.value == players[FirstRowAtSeat(players, target).value].userId)
  {
    match LastRowOf(players, senderId)
    case None => Err(UnknownSender)
    case Some(k) =>
      if direction.None? then Ok(senderId)
      else
        var target := RecipientSeat(direction.value, players[k].seatNumber, |players|);
        match FirstRowAtSeat(players, target)
        case None => Ok(senderId)
        case Some(j) => Ok(players[j].userId)
  }

  /** A table of four as the lobby fills it: four users, one row each, on seats 1..4. */
  predicate FullTable(players: seq<Seat>)
  {
    LobbyRoster(players) && |players| == 4
  }

  /** On a full table the seats are exactly 1..4, one row each. */
  lemma FullTableSeats(players: seq<Seat>)
    requires FullTable(players)
    ensures forall i :: 0 <= i < 4 ==> 1 <= players[i].seatNumber <= 4
    ensures DistinctSeats(players)
    ensures forall s :: 1 <= s <= 4 ==> FirstRowAtSeat(players, s).Some?
  {
    forall i | 0 <= i < 4 ensures 1 <= players[i].seatNumber <= 4 {
      assert players[i].seatNumber in SeatNumbers(players);
    }
    SeatRangeCard(4);
    DistinctSeatsByCount(players);
  }

  /** Four rows covering four seat numbers have no two rows on one seat. */
  lemma DistinctSeatsByCount(players: seq<Seat>)
    requires |players| == 4 && |SeatNumbers(players)| == 4
    ensures DistinctSeats(players)
  {
    forall i, j | 0 <= i < j < 4 ensures players[i].seatNumber != players[j].seatNumber {
      if players[i].seatNumber == players[j].seatNumber {
        var others := set k | 0 <= k < 4 && k != j :: players[k].seatNumber;
        assert SeatNumbers(players) == others;
        CardImage(players, j);
      }
    }
  }

  /** The seats of three rows number at most three. */
  lemma CardImage(players: seq<Seat>, j: nat)
    requires |players| == 4 && j < 4
    ensures |set k | 0 <= k < 4 && k != j :: players[k].seatNumber| <= 3
  {
    var a, b, c := if j == 0 then 1 else 0, if j <= 1 then 2 else 1, if j <= 2 then 3 else 2;
    var s := set k | 0 <= k < 4 && k != j :: players[k].seatNumber;
    assert s == {players[a].seatNumber, players[b].seatNumber, players[c].seatNumber};
  }

  /** The seat of a seated user on a full table (their only row). */
  function SeatOf(players: seq<Seat>, userId: int): int
    requires HasUser(players, userId)
  {
    players[LastRowOf(players, userId).value].seatNumber
  }

  /**
    On a full table each of the three directions gives another seated user, the
    one on the seat the arithmetic names.
  */
  lemma RecipientOnFullTable(players: seq<Seat>, senderId: int, d: Direction)
    requires FullTable(players) && HasUser(players, senderId)
    ensures PassRecipient(senderId, Some(d), players).Ok?
    ensures var r := PassRecipient(senderId, Some(d), players).value;
      r != senderId && HasUser(players, r) &&
      SeatOf(players, r) == RecipientSeat(d, SeatOf(players, senderId), 4)
  {
    FullTableSeats(players);
    var k := LastRowOf(players, senderId).value;
    var seat := players[k].seatNumber;
    FourSeatArithmetic(seat);
    var target := RecipientSeat(d, seat, 4);
    var j := FirstRowAtSeat(players, target).value;
    assert j != k;
    var r := players[j].userId;
    assert r != senderId by {
      if j < k { assert players[j].userId != players[k].userId; }
      else { assert players[k].userId != players[j].userId; }
    }
    assert HasUser(players, r);
    assert LastRowOf(players, r).value == j;
  }

  /** Passing right undoes passing left, on a full table. */
  lemma LeftThenRight(players: seq<Seat>, senderId: int)
    requires FullTable(players) && HasUser(players, senderId)
    ensures PassRecipient(senderId, Some(Left), players).Ok?
    ensures PassRecipient(PassRecipient(senderId, Some(Left), players).value, Some(Right), players) == Ok(senderId)
  {
    Undo(players, senderId, Left, Right);
  }

  /** Passing across twice comes back to the sender, on a full table. */
  lemma AcrossTwice(players: seq<Seat>, senderId: int)
    requires FullTable(players) && HasUser(players, senderId)
    ensures PassRecipient(senderId, Some(Across), players).Ok?
    ensures PassRecipient(PassRecipient(senderId, Some(Across), players).value, Some(Across), players) == Ok(senderId)
  {
    Undo(players, senderId, Across, Across);
  }

  /** When direction `e` undoes direction `d` on seats, it undoes it on users. */
  lemma Undo(players: seq<Seat>, senderId: int, d: Direction, e: Direction)
    requires FullTable(players) && HasUser(players, senderId)
    requires (d, e) == (Left, Right) || (d, e) == (Across, Across)
    ensures PassRecipient(senderId, Some(d), players).Ok?
    ensures PassRecipient(PassRecipient(senderId, Some(d), players).value, Some(e), players) == Ok(senderId)
  {
    var s := SeatOf(players, senderId);
    RecipientOnFullTable(players, senderId, d);
    var r := PassRecipient(senderId, Some(d), players).value;
    assert SeatOf(players, r) == RecipientSeat(d, s, 4);
    RecipientOnFullTable(players, r, e);
    var back := PassRecipient(r, Some(e), players).value;
    assert SeatOf(players, back) == RecipientSeat(e, RecipientSeat(d, s, 4), 4);
    assert 1 <= s <= 4 by {
      FullTableSeats(players);
    }
    FourSeatArithmetic(s);
    SameSeatSameUser(players, back, senderId);
  }

  /** On a full table a seat identifies its user. */
  lemma SameSeatSameUser(players: seq<Seat>, a: int, b: int)
    requires FullTable(players) && HasUser(players, a) && HasUser(players, b)
    requires SeatOf(players, a) == SeatOf(players, b)
    ensures a == b
  {
    FullTableSeats(players);
  }

  // ---------------------------------------------------------------------------
  // Playing a card
  // ---------------------------------------------------------------------------

  /** The token of the two of clubs, which `play_card` compares against. */
  const TwoOfClubsToken: string := "2♣"

  lemma TwoOfClubsToken_IsItsToken()
    ensures ToStr(TwoOfClubs) == TwoOfClubsToken
    ensures FromStr(TwoOfClubsToken) == Ok(TwoOfClubs)
  {
    FromStrToStr(TwoOfClubs);
  }

  datatype PlayError =
    | NoHand                    // `state["hands"][str(player_id)]` has no such key
    | BadCard(e: CardError)     // `Card.from_str(card_str)` raised
    | NotYourTurn
    | NotInHand
    | MustLeadTwoOfClubs
    | MustFollowSuit
    | HeartsNotBroken
    | NoPointsOnFirstTrick
    | BadHandCard(e: CardError) // a token of the hand did not parse inside `any(...)`
    | NoSeat                    // the seat lookups for the next turn found no row

  predicate AllParse(tokens: seq<string>)
  {
    forall i :: 0 <= i < |tokens| ==> FromStr(tokens[i]).Ok?
  }

  /** The two tests `play_card` runs over the hand with `any(...)`. */
  datatype CardTest = OfSuit(suit: Suit) | NoPoints

  predicate Passes(t: CardTest, c: Card)
  {
    match t
    case OfSuit(s) => c.suit == s
    case NoPoints => Points(c) == 0
  }

  /** Some token of the hand parses to a card that passes `t`. */
  predicate HandHas(hand: seq<string>, t: CardTest)
  {
    exists i :: 0 <= i < |hand| && FromStr(hand[i]).Ok? && Passes(t, FromStr(hand[i]).value)
  }

  /**
    `any(test(Card.from_str(c)) for c in hand)`: stops at the first passing
    card, and raises at a token before it that does not parse.
  */
  function AnyCard(hand: seq<string>, t: CardTest): (r: Result<bool, CardError>)
    ensures r == Ok(true) ==> HandHas(hand, t)
    ensures r == Ok(false) ==> AllParse(hand) && !HandHas(hand, t)
    ensures AllParse(hand) ==> r == Ok(HandHas(hand, t))
  {
    if hand == [] then Ok(false)
    else
      match FromStr(hand[0])
      case Err(e) => Err(e)
      case Ok(c) =>
        if Passes(t, c) then Ok(true)
        else
          AnyCardTail(hand, t);
          AnyCard(hand[1..], t)
  }

  /** Past a first token that parses, the whole list parses exactly when the rest does. */
  lemma AllParseTail(tokens: seq<string>)
    requires tokens != [] && FromStr(tokens[0]).Ok?
    ensures AllParse(tokens) <==> AllParse(tokens[1..])
  {
    if AllParse(tokens[1..]) {
      forall i | 0 <= i < |tokens| ensures FromStr(tokens[i]).Ok? {
        if i > 0 {
          assert tokens[i] == tokens[1..][i - 1];
        }
      }
    }
    if AllParse(tokens) {
      forall i | 0 <= i < |tokens[1..]| ensures FromStr(tokens[1..][i]).Ok? {
        assert tokens[1..][i] == tokens[i + 1];
      }
    }
  }

  /** Past a first card that parses and fails `t`, both hand predicates are decided by the rest. */
  lemma AnyCardTail(hand: seq<string>, t: CardTest)
    requires hand != [] && FromStr(hand[0]).Ok? && !Passes(t, FromStr(hand[0]).value)
    ensures AllParse(hand) <==> AllParse(hand[1..])
    ensures HandHas(hand, t) <==> HandHas(hand[1..], t)
  {
    AllParseTail(hand);
    if HandHas(hand[1..], t) {
      var i :| 0 <= i < |hand[1..]| && FromStr(hand[1..][i]).Ok? && Passes(t, FromStr(hand[1..][i]).value);
      assert hand[i + 1] == hand[1..][i];
    }
    if HandHas(hand, t) {
      var i :| 0 <= i < |hand| && FromStr(hand[i]).Ok? && Passes(t, FromStr(hand[i]).value);
      assert i != 0;
      assert hand[1..][i - 1] == hand[i];
    }
  }

  /**
    The rules of Hearts that `play_card` enforces, stated on their own: on the
    first trick (a hand of 13) with nothing led, whoever holds the two of clubs
    leads it; a card off the lead suit needs a hand without that suit; hearts
    are led only once broken; and a point card on the first trick needs a hand
    without any card worth nothing.
  */
  predicate FollowsRules(hand: seq<string>, leadSuit: Option<Suit>, heartsBroken: bool, card: Card, cardStr: string)
  {
    var firstTrick := |hand| == 13;
    && (firstTrick && leadSuit.None? && TwoOfClubsToken in hand ==> cardStr == TwoOfClubsToken)
    && (leadSuit.Some? && card.suit != leadSuit.value ==> !HandHas(hand, OfSuit(leadSuit.value)))
    && (leadSuit.None? && card.suit == Hearts ==> heartsBroken)
    && (firstTrick && leadSuit.Some? && Points(card) > 0 ==> !HandHas(hand, NoPoints))
  }

  /**
    The validation of `play_card`: the hand lookup and the parse of the card
    come first (both raise), then the checks in order, the first failing one
    deciding the refusal. `Ok(card)` means the play is accepted.
  */
  function CheckPlay(hands: map<int, seq<string>>, turn: Option<int>, leadSuit: Option<Suit>,
                     heartsBroken: bool, playerId: int, cardStr: string): (r: Result<Card, PlayError>)
    ensures r == Err(NoHand) <==> playerId !in hands
    ensures r != Err(NoSeat)
    ensures playerId in hands && FromStr(cardStr).Err? ==> r == Err(BadCard(FromStr(cardStr).error))
    ensures playerId in hands && FromStr(cardStr).Ok? && turn != Some(playerId) ==> r == Err(NotYourTurn)
    ensures playerId in hands && FromStr(cardStr).Ok? && turn == Some(playerId) && cardStr !in hands[playerId] ==>
      r == Err(NotInHand)
    ensures r.Ok? ==> playerId in hands && FromStr(cardStr) == Ok(r.value) && turn == Some(playerId) && cardStr in hands[playerId]
    ensures r.Ok? ==> FollowsRules(hands[playerId], leadSuit, heartsBroken, r.value, cardStr)
    ensures playerId in hands && AllParse(hands[playerId]) ==>
      (r.Ok? <==> FromStr(cardStr).Ok? && turn == Some(playerId) && cardStr in hands[playerId] &&
                  FollowsRules(hands[playerId], leadSuit, heartsBroken, FromStr(cardStr).value, cardStr))
  {
    if playerId !in hands then Err(NoHand)
    else
      var hand := hands[playerId];
      match FromStr(cardStr)
      case Err(e) => Err(BadCard(e))
      case Ok(card) =>
        if turn != Some(playerId) then Err(NotYourTurn)
        else if cardStr !in hand then Err(NotInHand)
        else RuleCheck(hand, leadSuit, heartsBroken, card, cardStr)
  }

  /** The four rule checks of `play_card`, as its `if`/`elif` chain orders them. */
  function RuleCheck(hand: seq<string>, leadSuit: Option<Suit>, heartsBroken: bool, card: Card, cardStr: string): (r: Result<Card, PlayError>)
    ensures r.Ok? ==> r.value == card && FollowsRules(hand, leadSuit, heartsBroken, card, cardStr)
    ensures r != Err(NoSeat) && r != Err(NoHand)
    ensures AllParse(hand) && FollowsRules(hand, leadSuit, heartsBroken, card, cardStr) ==> r == Ok(card)
  {
    var firstTrick := |hand| == 13;
    var offSuit := if leadSuit.Some? && card.suit != leadSuit.value then AnyCard(hand, OfSuit(leadSuit.value)) else Ok(false);
    var pointsOnFirst := if firstTrick && leadSuit.Some? && Points(card) > 0 then AnyCard(hand, NoPoints) else Ok(false);
    if firstTrick && leadSuit.None? && cardStr != TwoOfClubsToken && TwoOfClubsToken in hand then
      Err(MustLeadTwoOfClubs)
    else if offSuit.Err? then Err(BadHandCard(offSuit.error))
    else if offSuit.value then Err(MustFollowSuit)
    else if leadSuit.None? && card.suit == Hearts && !heartsBroken then
      Err(HeartsNotBroken)
    else if pointsOnFirst.Err? then Err(BadHandCard(pointsOnFirst.error))
    else if pointsOnFirst.value then Err(NoPointsOnFirstTrick)
    else Ok(card)
  }

  /**
    The refusals come in the order of the checks: each names a rule the play
    breaks, and every earlier rule is kept.
  */
  lemma RuleCheckOrder(hand: seq<string>, leadSuit: Option<Suit>, heartsBroken: bool, card: Card, cardStr: string)
    ensures var r := RuleCheck(hand, leadSuit, heartsBroken, card, cardStr);
      && (r == Err(MustLeadTwoOfClubs) <==>
            |hand| == 13 && leadSuit.None? && cardStr != TwoOfClubsToken && TwoOfClubsToken in hand)
      && (r == Err(MustFollowSuit) ==>
            !(|hand| == 13 && leadSuit.None? && cardStr != TwoOfClubsToken && TwoOfClubsToken in hand) &&
            leadSuit.Some? && card.suit != leadSuit.value && HandHas(hand, OfSuit(leadSuit.value)))
      && (r == Err(HeartsNotBroken) ==>
            !(|hand| == 13 && leadSuit.None? && cardStr != TwoOfClubsToken && TwoOfClubsToken in hand) &&
            leadSuit.None? && card.suit == Hearts && !heartsBroken)
      && (r == Err(NoPointsOnFirstTrick) ==>
            |hand| == 13 && leadSuit.Some? && Points(card) > 0 && HandHas(hand, NoPoints) &&
            (card.suit != leadSuit.value ==> !HandHas(hand, OfSuit(leadSuit.value))))
  {
  }

  // ---------------------------------------------------------------------------
  // Tricks
  // ---------------------------------------------------------------------------

  /** An entry of `current_trick`: who played which token. */
  datatype Play = Play(playerId: int, card: string)

  function Tokens(trick: seq<Play>): (ts: seq<string>)
    ensures |ts| == |trick| && forall i :: 0 <= i < |trick| ==> ts[i] == trick[i].card
  {
    seq(|trick|, i requires 0 <= i < |trick| => trick[i].card)
  }

  /** `[Card.from_str(t) for t in tokens]`: raises at the first token that does not parse. */
  function ParseAll(tokens: seq<string>): (r: Result<seq<Card>, CardError>)
    ensures r.Ok? <==> AllParse(tokens)
    ensures r.Ok? ==> |r.value| == |tokens| && forall i :: 0 <= i < |tokens| ==> FromStr(tokens[i]) == Ok(r.value[i])
  {
    if tokens == [] then Ok([])
    else
      match FromStr(tokens[0])
      case Err(e) => Err(e)
      case Ok(c) =>
        match ParseAll(tokens[1..])
        case Err(e) =>
          AllParseTail(tokens);
          Err(e)
        case Ok(cs) =>
          AllParseTail(tokens);
          assert forall i :: 1 <= i < |tokens| ==> tokens[i] == tokens[1..][i - 1];
          Ok([c] + cs)
  }

  /** The index of the first entry whose token is `token`: the search for the winner's entry. */
  function FirstPlayWith(trick: seq<Play>, token: string): (k: Option<nat>)
    ensures k.Some? ==> k.value < |trick| && trick[k.value].card == token
    ensures k.Some? ==> forall j :: 0 <= j < k.value ==> trick[j].card != token
    ensures k.None? ==> forall j :: 0 <= j < |trick| ==> trick[j].card != token
  {
    if trick == [] then None
    else if trick[0].card == token then Some(0)
    else
      var k := FirstPlayWith(trick[1..], token);
      assert forall j :: 1 <= j < |trick| ==> trick[1..][j - 1] == trick[j];
      if k.Some? then Some(k.value + 1) else None
  }

  predicate DistinctTokens(trick: seq<Play>)
  {
    forall i, j :: 0 <= i < j < |trick| ==> trick[i].card != trick[j].card
  }

  /**
    The winner's entry of a trick whose tokens parse: the search by token finds
    an entry at or before the winning card's, and exactly that entry when no
    token is played twice. Its card has the lead suit and the highest value of
    that suit.
  */
  lemma TrickWinnerEntry(trick: seq<Play>)
    requires |trick| > 0 && AllParse(Tokens(trick))
    ensures var cards := ParseAll(Tokens(trick)).value;
      var k := WinnerIndex(cards, cards[0].suit);
      && FirstPlayWith(trick, ToStr(cards[k])).Some?
      && FirstPlayWith(trick, ToStr(cards[k])).value <= k
      && (DistinctTokens(trick) ==> FirstPlayWith(trick, ToStr(cards[k])).value == k)
      && cards[k].suit == cards[0].suit
      && (forall j :: 0 <= j < |cards| && cards[j].suit == cards[0].suit ==> cards[j].value <= cards[k].value)
  {
    var cards := ParseAll(Tokens(trick)).value;
    var k := WinnerIndex(cards, cards[0].suit);
    assert FromStr(trick[k].card) == Ok(cards[k]);
    assert ToStr(cards[k]) == trick[k].card;
    WinnerIsHighestOfLead(cards, cards[0].suit);
  }

  /** The card of entry `k` has the lead (first) card's suit and no lead-suit card beats it. */
  predicate TakesTrick(trick: seq<Play>, k: nat)
    requires |trick| > 0 && AllParse(Tokens(trick)) && k < |trick|
  {
    var cards := ParseAll(Tokens(trick)).value;
    && cards[k].suit == cards[0].suit
    && forall j :: 0 <= j < |cards| && cards[j].suit == cards[0].suit ==> cards[j].value <= cards[k].value
  }

  /**
    The winner `process_trick_end` names: the player of the first entry whose
    token is that of the card `get_trick_winner` picks, with the first card's
    suit as the lead. That entry's card takes the trick, and when no token is
    played twice it is the winning card's own entry.
  */
  function TrickTaker(trick: seq<Play>): (w: int)
    requires |trick| > 0 && AllParse(Tokens(trick))
    ensures exists k :: 0 <= k < |trick| && trick[k].playerId == w && TakesTrick(trick, k)
    ensures DistinctTokens(trick) ==>
      var cards := ParseAll(Tokens(trick)).value;
      w == trick[WinnerIndex(cards, cards[0].suit)].playerId
  {
    var cards := ParseAll(Tokens(trick)).value;
    var k := WinnerIndex(cards, cards[0].suit);
    TrickWinnerEntry(trick);
    var e := FirstPlayWith(trick, ToStr(cards[k])).value;
    assert FromStr(trick[e].card) == Ok(cards[e]);
    FromStrToStr(cards[k]);
    assert cards[e] == cards[k];
    assert TakesTrick(trick, e);
    trick[e].playerId
  }

  /** The test `play_card` uses for the queen of spades: its token is "Q♠". */
  lemma QueenOfSpadesToken(c: Card)
    ensures ToStr(c) == "Q♠" <==> c == QueenOfSpades
  {
    assert ToStr(QueenOfSpades) == "Q♠";
    if ToStr(c) == "Q♠" {
      ToStrInjective(c, QueenOfSpades);
    }
  }

  // ---------------------------------------------------------------------------
  // Round end
  // ---------------------------------------------------------------------------

  /** The index, in the dictionary's order, of the first player whose round score is 26. */
  function ShooterIndex(order: seq<int>, scores: map<int, int>): (k: Option<nat>)
    requires forall i :: 0 <= i < |order| ==> order[i] in scores
    ensures k.Some? ==> k.value < |order| && scores[order[k.value]] == 26
    ensures k.Some? ==> forall j :: 0 <= j < k.value ==> scores[order[j]] != 26
    ensures k.None? ==> forall j :: 0 <= j < |order| ==> scores[order[j]] != 26
  {
    if order == [] then None
    else if scores[order[0]] == 26 then Some(0)
    else
      var k := ShooterIndex(order[1..], scores);
      assert forall j :: 1 <= j < |order| ==> order[1..][j - 1] == order[j];
      if k.Some? then Some(k.value + 1) else None
  }

  /** The change to a player's total: 0 for a shooter, 26 for everyone else, otherwise the round score. */
  function ScoreChange(shooter: Option<int>, scores: map<int, int>, userId: int): (change: int)
    requires shooter.None? ==> userId in scores
    ensures shooter.Some? ==> (change == 0 <==> userId == shooter.value) && (change == 0 || change == 26)
    ensures shooter.None? ==> change == scores[userId]
  {
    if shooter.Some? then (if userId == shooter.value then 0 else 26) else scores[userId]
  }

  /** The sum of the changes over the rows of a game. */
  function SumChanges(players: seq<Seat>, shooter: Option<int>, scores: map<int, int>): int
    requires shooter.None? ==> forall i :: 0 <= i < |players| ==> players[i].userId in scores
  {
    if players == [] then 0
    else SumChanges(players[..|players| - 1], shooter, scores) + ScoreChange(shooter, scores, players[|players| - 1].userId)
  }

  function SumScores(players: seq<Seat>, scores: map<int, int>): int
    requires forall i :: 0 <= i < |players| ==> players[i].userId in scores
  {
    if players == [] then 0
    else SumScores(players[..|players| - 1], scores) + scores[players[|players| - 1].userId]
  }

  /**
    What a round adds to the totals: without a shooter, exactly the round
    scores; with a seated shooter, 26 for each of the other players.
  */
  lemma {:induction false} RoundChanges(players: seq<Seat>, shooter: Option<int>, scores: map<int, int>)
    requires DistinctUsers(players)
    requires shooter.None? ==> forall i :: 0 <= i < |players| ==> players[i].userId in scores
    ensures shooter.None? ==> SumChanges(players, shooter, scores) == SumScores(players, scores)
    ensures shooter.Some? && HasUser(players, shooter.value) ==> SumChanges(players, shooter, scores) == 26 * (|players| - 1)
    ensures shooter.Some? && !HasUser(players, shooter.value) ==> SumChanges(players, shooter, scores) == 26 * |players|
  {
    if players != [] {
      var init := players[..|players| - 1];
      var last := players[|players| - 1];
      assert forall i :: 0 <= i < |init| ==> init[i] == players[i];
      RoundChanges(init, shooter, scores);
      if shooter.Some? {
        if last.userId == shooter.value {
          assert !HasUser(init, shooter.value);
        } else {
          assert HasUser(init, shooter.value) <==> HasUser(players, shooter.value) by {
            if HasUser(players, shooter.value) {
              var i :| 0 <= i < |players| && players[i].userId == shooter.value;
              assert i < |init| && init[i].userId == shooter.value;
            }
          }
        }
      }
    }
  }

  /** `any(p.total_score >= 100 for p in game.players)`. */
  function GameOver(players: seq<Seat>): (r: bool)
    ensures r <==> exists i :: 0 <= i < |players| && players[i].totalScore >= 100
  {
    if players == [] then false
    else if players[0].totalScore >= 100 then true
    else
      var r := GameOver(players[1..]);
      assert forall i :: 1 <= i < |players| ==> players[i] == players[1..][i - 1];
      r
  }

  /** `min(game.players, key=total_score)`: the first row with the least total. */
  function MinTotalIndex(players: seq<Seat>): (k: nat)
    requires players != []
    ensures k < |players|
    ensures forall j :: 0 <= j < |players| ==> players[k].totalScore <= players[j].totalScore
    ensures forall j :: 0 <= j < k ==> players[j].totalScore > players[k].totalScore
  {
    if |players| == 1 then 0
    else
      var init := players[..|players| - 1];
      var k := MinTotalIndex(init);
      assert forall j :: 0 <= j < |init| ==> init[j] == players[j];
      if players[|players| - 1].totalScore < players[k].totalScore then |players| - 1 else k
  }

  // ---------------------------------------------------------------------------
  // Card counts and the cards in play
  // ---------------------------------------------------------------------------

  /**
    The `card_count` of each row in `get_game_data_as_dict`: absent without a
    state or with an empty `hands`; otherwise the size of the user's hand, 0
    when the user has none.
  */
  method CardCounts(players: seq<Seat>, hands: Option<map<int, seq<string>>>) returns (counts: seq<Option<nat>>)
    ensures |counts| == |players|
    ensures hands.None? || hands.value == map[] ==> forall i :: 0 <= i < |players| ==> counts[i].None?
    ensures hands.Some? && hands.value != map[] ==> forall i :: 0 <= i < |players| ==>
      counts[i] == Some(if players[i].userId in hands.value then |hands.value[players[i].userId]| else 0)
  {
    counts := [];
    var i := 0;
    while i < |players|
      invariant 0 <= i <= |players| && |counts| == i
      invariant hands.None? || hands.value == map[] ==> forall j :: 0 <= j < i ==> counts[j].None?
      invariant hands.Some? && hands.value != map[] ==> forall j :: 0 <= j < i ==>
        counts[j] == Some(if players[j].userId in hands.value then |hands.value[players[j].userId]| else 0)
    {
      var count: Option<nat> := None;
      if hands.Some? && hands.value != map[] {
        var uid := players[i].userId;
        count := Some(if uid in hands.value then |hands.value[uid]| else 0);
      }
      counts := counts + [count];
      i := i + 1;
    }
  }

  /** All tokens held in the hands of `keys`, with multiplicity. */
  function Pool(keys: seq<int>, hands: map<int, seq<string>>): multiset<string>
    requires forall i :: 0 <= i < |keys| ==> keys[i] in hands
  {
    if keys == [] then multiset{}
    else Pool(keys[..|keys| - 1], hands) + multiset(hands[keys[|keys| - 1]])
  }

  predicate Distinct(keys: seq<int>)
  {
    forall i, j :: 0 <= i < j < |keys| ==> keys[i] != keys[j]
  }

  /** Replacing one listed hand changes the pool by exactly that hand's difference. */
  lemma {:induction false} PoolUpdate(keys: seq<int>, hands: map<int, seq<string>>, u: int, h: seq<string>)
    requires forall i :: 0 <= i < |keys| ==> keys[i] in hands
    requires Distinct(keys) && u in keys
    ensures Pool(keys, hands[u := h]) + multiset(hands[u]) == Pool(keys, hands) + multiset(h)
  {
    var init := keys[..|keys| - 1];
    var last := keys[|keys| - 1];
    assert forall i :: 0 <= i < |init| ==> init[i] == keys[i];
    assert Distinct(init);
    assert Pool(keys, hands) == Pool(init, hands) + multiset(hands[last]);
    assert Pool(keys, hands[u := h]) == Pool(init, hands[u := h]) + multiset(hands[u := h][last]);
    if last == u {
      assert u !in init;
      PoolOutside(init, hands, u, h);
    } else {
      assert u in init by {
        var i :| 0 <= i < |keys| && keys[i] == u;
        assert i < |init|;
      }
      PoolUpdate(init, hands, u, h);
      var rest, rest' := Pool(init, hands), Pool(init, hands[u := h]);
      assert hands[u := h][last] == hands[last];
      assert rest' + multiset(hands[u]) == rest + multiset(h);
      assert Pool(keys, hands[u := h]) + multiset(hands[u]) == (rest' + multiset(hands[u])) + multiset(hands[last]);
    }
  }

  /** Changing a hand that is not listed leaves the pool alone. */
  lemma {:induction false} PoolOutside(keys: seq<int>, hands: map<int, seq<string>>, u: int, h: seq<string>)
    requires forall i :: 0 <= i < |keys| ==> keys[i] in hands
    requires u !in keys
    ensures Pool(keys, hands[u := h]) == Pool(keys, hands)
  {
    if keys != [] {
      var init := keys[..|keys| - 1];
      assert forall i :: 0 <= i < |init| ==> init[i] == keys[i];
      assert u !in init;
      PoolOutside(init, hands, u, h);
    }
  }

  // ---------------------------------------------------------------------------
  // Seat order and the next turn
  // ---------------------------------------------------------------------------

  predicate SeatSorted(rows: seq<Seat>)
  {
    forall i, j :: 0 <= i < j < |rows| ==> rows[i].seatNumber <= rows[j].seatNumber
  }

  /** Inserts `x` after every row whose seat is not greater than its own. */
  function InsertBySeat(x: Seat, rows: seq<Seat>): (r: seq<Seat>)
    ensures |r| == |rows| + 1
  {
    if rows == [] || x.seatNumber < rows[0].seatNumber then [x] + rows
    else [rows[0]] + InsertBySeat(x, rows[1..])
  }

  /** Inserting adds exactly the row `x`. */
  lemma {:induction false} InsertBySeatAdds(x: Seat, rows: seq<Seat>)
    ensures multiset(InsertBySeat(x, rows)) == multiset(rows) + multiset{x}
  {
    if rows != [] && x.seatNumber >= rows[0].seatNumber {
      InsertBySeatAdds(x, rows[1..]);
      assert rows == [rows[0]] + rows[1..];
    }
  }

  /** The inserted rows start with `x` or with the first of the old rows. */
  lemma InsertBySeatHead(x: Seat, rows: seq<Seat>)
    ensures InsertBySeat(x, rows)[0] == x || (rows != [] && InsertBySeat(x, rows)[0] == rows[0])
  {
  }

  /** Inserting into rows sorted by seat keeps them sorted. */
  lemma {:induction false} InsertBySeatSorted(x: Seat, rows: seq<Seat>)
    requires SeatSorted(rows)
    ensures SeatSorted(InsertBySeat(x, rows))
  {
    var r := InsertBySeat(x, rows);
    if rows == [] || x.seatNumber < rows[0].seatNumber {
      forall i, j | 0 <= i < j < |r| ensures r[i].seatNumber <= r[j].seatNumber {
        if i > 0 {
          assert r[i] == rows[i - 1] && r[j] == rows[j - 1];
        } else {
          assert r[j] == rows[j - 1];
        }
      }
    } else {
      var tail := rows[1..];
      assert SeatSorted(tail) by {
        forall i, j | 0 <= i < j < |tail| ensures tail[i].seatNumber <= tail[j].seatNumber {
          assert tail[i] == rows[i + 1] && tail[j] == rows[j + 1];
        }
      }
      InsertBySeatSorted(x, tail);
      InsertBySeatHead(x, tail);
      var rest := InsertBySeat(x, tail);
      assert r == [rows[0]] + rest;
      assert rows[0].seatNumber <= rest[0].seatNumber by {
        if tail != [] {
          assert rows[0].seatNumber <= rows[1].seatNumber;
        }
      }
      forall i, j | 0 <= i < j < |r| ensures r[i].seatNumber <= r[j].seatNumber {
        if i > 0 {
          assert r[i] == rest[i - 1] && r[j] == rest[j - 1];
        } else if j > 1 {
          assert r[j] == rest[j - 1];
          assert rest[0].seatNumber <= rest[j - 1].seatNumber;
        }
      }
    }
  }

  /** `sorted(game.players, key=lambda p: p.seat_number)`, stable like Python's sort. */
  function SortBySeat(rows: seq<Seat>): (r: seq<Seat>)
    ensures |r| == |rows|
  {
    if rows == [] then []
    else InsertBySeat(rows[|rows| - 1], SortBySeat(rows[..|rows| - 1]))
  }

  /** The seat order is sorted by seat and holds the same rows. */
  lemma {:induction false} SortBySeatSorted(rows: seq<Seat>)
    ensures SeatSorted(SortBySeat(rows)) && multiset(SortBySeat(rows)) == multiset(rows)
  {
    if rows != [] {
      var init := rows[..|rows| - 1];
      SortBySeatSorted(init);
      InsertBySeatSorted(rows[|rows| - 1], SortBySeat(init));
      InsertBySeatAdds(rows[|rows| - 1], SortBySeat(init));
      assert rows == init + [rows[|rows| - 1]];
    }
  }

  /**
    On a full table the seat order puts the row of seat `i + 1` at index `i`,
    and it holds the same four users.
  */
  lemma FullTableSorted(players: seq<Seat>)
    requires FullTable(players)
    ensures |SortBySeat(players)| == 4
    ensures forall i :: 0 <= i < 4 ==> SortBySeat(players)[i] == players[FirstRowAtSeat(players, i + 1).value]
    ensures DistinctUsers(SortBySeat(players))
    ensures forall u :: HasUser(SortBySeat(players), u) <==> HasUser(players, u)
  {
    var r := SortBySeat(players);
    SortedSeatNumbers(players);
    FullTableSeats(players);
    forall i | 0 <= i < 4 ensures r[i] == players[FirstRowAtSeat(players, i + 1).value] {
      var j :| 0 <= j < 4 && players[j] == r[i];
      var k := FirstRowAtSeat(players, i + 1).value;
      assert players[j].seatNumber == players[k].seatNumber;
    }
    forall i, j | 0 <= i < j < 4 ensures r[i].userId != r[j].userId {
      var a := FirstRowAtSeat(players, i + 1).value;
      var b := FirstRowAtSeat(players, j + 1).value;
      assert a != b;
    }
    forall u ensures HasUser(r, u) <==> HasUser(players, u) {
      if HasUser(players, u) {
        var j :| 0 <= j < 4 && players[j].userId == u;
        assert r[players[j].seatNumber - 1].userId == u;
      }
    }
  }

  /** The seat order of a full table has four rows of the table, on seats 1, 2, 3 and 4. */
  lemma SortedSeatNumbers(players: seq<Seat>)
    requires FullTable(players)
    ensures |SortBySeat(players)| == 4
    ensures forall i :: 0 <= i < 4 ==> SortBySeat(players)[i] in players
    ensures forall i :: 0 <= i < 4 ==> SortBySeat(players)[i].seatNumber == i + 1
  {
    var r := SortBySeat(players);
    SortBySeatSorted(players);
    forall i | 0 <= i < 4 ensures r[i] in players {
      assert r[i] in multiset(r);
    }
    FullTableSeats(players);
    forall s | 1 <= s <= 4 ensures s in SeatNumbers(r) {
      var j := FirstRowAtSeat(players, s).value;
      assert players[j] in multiset(r);
    }
    forall i | 0 <= i < 4 ensures 1 <= r[i].seatNumber <= 4 {
      var j :| 0 <= j < 4 && players[j] == r[i];
    }
    SortedFourSeats(r);
  }

  /** Four rows sorted by seat, with seats in 1..4 and every seat present, have seat `i + 1` at index `i`. */
  lemma SortedFourSeats(r: seq<Seat>)
    requires |r| == 4 && SeatSorted(r)
    requires forall i :: 0 <= i < 4 ==> 1 <= r[i].seatNumber <= 4
    requires forall s :: 1 <= s <= 4 ==> s in SeatNumbers(r)
    ensures forall i :: 0 <= i < 4 ==> r[i].seatNumber == i + 1
  {
    assert 1 in SeatNumbers(r) && 2 in SeatNumbers(r) && 3 in SeatNumbers(r) && 4 in SeatNumbers(r);
    var a :| 0 <= a < 4 && r[a].seatNumber == 1;
    var b :| 0 <= b < 4 && r[b].seatNumber == 2;
    var c :| 0 <= c < 4 && r[c].seatNumber == 3;
    var d :| 0 <= d < 4 && r[d].seatNumber == 4;
    assert r[0].seatNumber <= r[a].seatNumber;
    assert r[d].seatNumber <= r[3].seatNumber;
  }

  /**
    The next turn in `play_card`: the user on seat `seat % 4 + 1`, after the
    player's own (first) row; `None` when either list comprehension is empty.
  */
  function NextSeatHolder(players: seq<Seat>, playerId: int): (r: Option<int>)
    ensures r.Some? ==> HasUser(players, playerId) && HasUser(players, r.value)
  {
    match FirstRowOf(players, playerId)
    case None => None
    case Some(k) =>
      match FirstRowAtSeat(players, players[k].seatNumber % 4 + 1)
      case None => None
      case Some(j) => Some(players[j].userId)
  }

  /**
    On a full table the next turn always exists, is another player, and is the
    user a pass to the left reaches.
  */
  lemma NextSeatOnFullTable(players: seq<Seat>, playerId: int)
    requires FullTable(players) && HasUser(players, playerId)
    ensures NextSeatHolder(players, playerId).Some?
    ensures NextSeatHolder(players, playerId).value != playerId
    ensures Ok(NextSeatHolder(players, playerId).value) == PassRecipient(playerId, Some(Left), players)
  {
    FullTableSeats(players);
    var k := FirstRowOf(players, playerId).value;
    var l := LastRowOf(players, playerId).value;
    assert k == l by {
      assert DistinctUsers(players);
      assert players[k].userId == players[l].userId;
    }
    var seat := players[k].seatNumber;
    FourSeatArithmetic(seat);
    var target := seat % 4 + 1;
    assert target == RecipientSeat(Left, players[l].seatNumber, |players|);
    var j := FirstRowAtSeat(players, target).value;
    assert j != k by { assert players[j].seatNumber != players[k].seatNumber; }
    assert NextSeatHolder(players, playerId) == Some(players[j].userId);
    assert players[j].userId != playerId by {
      assert DistinctUsers(players);
    }
  }

  /**
    On a full table four turns in a row visit four different players and come
    back to the first: each player plays once per trick.
  */
  lemma FourTurnsComeBack(players: seq<Seat>, p: int, t1: int, t2: int, t3: int, t4: int)
    requires FullTable(players) && HasUser(players, p)
    requires NextSeatHolder(players, p) == Some(t1) && NextSeatHolder(players, t1) == Some(t2)
    requires NextSeatHolder(players, t2) == Some(t3) && NextSeatHolder(players, t3) == Some(t4)
    ensures t4 == p
    ensures p != t1 && p != t2 && p != t3 && t1 != t2 && t1 != t3 && t2 != t3
  {
    FullTableSeats(players);
    var s0 := SeatOf(players, p);
    NextSeatOnFullTable(players, p);
    RecipientOnFullTable(players, p, Left);
    NextSeatOnFullTable(players, t1);
    RecipientOnFullTable(players, t1, Left);
    NextSeatOnFullTable(players, t2);
    RecipientOnFullTable(players, t2, Left);
    NextSeatOnFullTable(players, t3);
    RecipientOnFullTable(players, t3, Left);
    var s1, s2, s3, s4 := SeatOf(players, t1), SeatOf(players, t2), SeatOf(players, t3), SeatOf(players, t4);
    assert 1 <= s0 <= 4;
    FourSeatArithmetic(s0);
    FourSeatArithmetic(s1);
    FourSeatArithmetic(s2);
    FourSeatArithmetic(s3);
    assert s4 == s0;
    SameSeatSameUser(players, t4, p);
  }

  // ---------------------------------------------------------------------------
  // Passing three cards
  // ---------------------------------------------------------------------------

  datatype PassError =
    | WrongCount       // "You must pass exactly 3 cards."
    | NotHeld          // the three tokens are not three distinct cards of the hand
    | NoDirection      // `state["pass_direction"]` has no such key
    | NoSender         // `get_pass_recipient_id` found no row for a sender
    | NoRecipientHand  // `state["hands"][str(recipient_id)]` has no such key

  /** `all(len(v) == 3 for v in passed_cards.values())`: the test that starts the distribution. */
  predicate AllPassed(passed: map<int, seq<string>>)
    ensures AllPassed(passed) <==> forall v :: v in passed.Values ==> |v| == 3
  {
    assert forall u :: u in passed ==> passed[u] in passed.Values;
    assert (forall u :: u in passed ==> |passed[u]| == 3) ==> forall v :: v in passed.Values ==> |v| == 3 by {
      forall v | v in passed.Values && forall u :: u in passed ==> |passed[u]| == 3
        ensures |v| == 3
      {
        var u := KeyOf(passed, v);
      }
    }
    forall u :: u in passed ==> |passed[u]| == 3
  }

  /** The check `pass_cards` omits: three distinct tokens, each one held by the sender. */
  predicate ValidPass(hand: seq<string>, cards: seq<string>)
  {
    |cards| == 3 && NoDups(cards) && forall i :: 0 <= i < |cards| ==> cards[i] in hand
  }

  /**
    With that check, the filtered hand and the three passed tokens are exactly
    the hand before: a pass moves cards and neither creates nor destroys one.
  */
  lemma PassConserves(hand: seq<string>, cards: seq<string>)
    requires NoDups(hand) && ValidPass(hand, cards)
    ensures multiset(Filter(hand, cards)) + multiset(cards) == multiset(hand)
    ensures |Filter(hand, cards)| == |hand| - 3
  {
    FilterKeepSplit(hand, cards);
    KeepNoDups(hand, cards);
    var k := Keep(hand, cards);
    forall x ensures multiset(k)[x] == multiset(cards)[x] {
      NoDupsCount(k, x);
      NoDupsCount(cards, x);
      if x in cards {
        var i :| 0 <= i < |cards| && cards[i] == x;
        var m :| 0 <= m < |hand| && hand[m] == x;
        assert hand[m] in k;
      }
    }
    assert multiset(k) == multiset(cards);
    assert |multiset(Filter(hand, cards))| + 3 == |multiset(hand)|;
  }

  /**
    As written, `pass_cards` accepts any three tokens: passing a held card
    three times removes one card from the hand and passes three, so two cards
    appear from nowhere.
  */
  lemma PassAsWrittenDuplicates()
    ensures var hand := ["2♣", "3♣"];
      var cards := ["2♣", "2♣", "2♣"];
      |cards| == 3 && !ValidPass(hand, cards) &&
      Filter(hand, cards) == ["3♣"] &&
      multiset(Filter(hand, cards)) + multiset(cards) != multiset(hand)
  {
    var hand := ["2♣", "3♣"];
    var cards := ["2♣", "2♣", "2♣"];
    assert cards[0] == cards[1];
    assert "3♣" !in cards;
    assert Filter(hand, cards) == Filter(hand[1..], cards);
    assert (multiset(Filter(hand, cards)) + multiset(cards))["2♣"] == 3;
  }

  /**
    As written, `pass_cards` also accepts tokens the sender does not hold:
    the hand keeps all its cards and three others are passed.
  */
  lemma PassAsWrittenForges()
    ensures var hand := ["2♣", "3♣", "4♣"];
      var cards := ["A♠", "K♠", "Q♠"];
      |cards| == 3 && !ValidPass(hand, cards) &&
      Filter(hand, cards) == hand &&
      |Filter(hand, cards)| + |cards| == |hand| + 3
  {
    var hand := ["2♣", "3♣", "4♣"];
    var cards := ["A♠", "K♠", "Q♠"];
    assert "2♣" !in cards && "3♣" !in cards && "4♣" !in cards;
    assert hand[0] !in cards && hand[1] !in cards && hand[2] !in cards;
    assert Filter(hand, cards) == [hand[0]] + Filter(hand[1..], cards);
    assert Filter(hand[1..], cards) == [hand[1]] + Filter(hand[2..], cards);
    assert Filter(hand[2..], cards) == [hand[2]] + Filter(hand[3..], cards);
    assert hand[3..] == [];
    assert cards[0] !in hand;
  }

  /**
    The distribution loop of `pass_cards`: for each sender in turn, its passed
    tokens are appended to the recipient's hand. A sender without a row, or a
    recipient without a hand, raises.
  */
  function Distribute(senders: seq<int>, passed: map<int, seq<string>>, hands: map<int, seq<string>>,
                      dir: Direction, players: seq<Seat>): (r: Result<map<int, seq<string>>, PassError>)
    requires forall i :: 0 <= i < |senders| ==> senders[i] in passed
    ensures r.Ok? ==> forall u :: u in r.value <==> u in hands
    ensures r.Err? ==> r.error == NoSender || r.error == NoRecipientHand
  {
    if senders == [] then Ok(hands)
    else
      match Distribute(senders[..|senders| - 1], passed, hands, dir, players)
      case Err(e) => Err(e)
      case Ok(h) =>
        var sender := senders[|senders| - 1];
        match PassRecipient(sender, Some(dir), players)
        case Err(_) => Err(NoSender)
        case Ok(to) =>
          if to !in h then Err(NoRecipientHand)
          else Ok(h[to := h[to] + passed[sender]])
  }

  /**
    The distribution moves every passed token into a hand: the hands listed in
    `keys` afterwards hold what they held before plus everything passed.
  */
  lemma {:induction false} DistributeConserves(keys: seq<int>, senders: seq<int>, passed: map<int, seq<string>>,
                                               hands: map<int, seq<string>>, dir: Direction, players: seq<Seat>)
    requires Distinct(keys) && forall i :: 0 <= i < |keys| ==> keys[i] in hands
    requires forall u :: u in hands ==> u in keys
    requires forall i :: 0 <= i < |senders| ==> senders[i] in passed
    requires Distribute(senders, passed, hands, dir, players).Ok?
    ensures Pool(keys, Distribute(senders, passed, hands, dir, players).value) == Pool(keys, hands) + Pool(senders, passed)
  {
    if senders != [] {
      var init := senders[..|senders| - 1];
      var sender := senders[|senders| - 1];
      assert forall i :: 0 <= i < |init| ==> init[i] == senders[i];
      DistributeConserves(keys, init, passed, hands, dir, players);
      var h := Distribute(init, passed, hands, dir, players).value;
      var to := PassRecipient(sender, Some(dir), players).value;
      assert to in h;
      PoolExtend(keys, h, to, passed[sender]);
    }
  }

  /** Appending to one listed hand adds exactly the appended tokens to the pool. */
  lemma PoolExtend(keys: seq<int>, h: map<int, seq<string>>, to: int, extra: seq<string>)
    requires Distinct(keys) && forall i :: 0 <= i < |keys| ==> keys[i] in h
    requires to in keys
    ensures Pool(keys, h[to := h[to] + extra]) == Pool(keys, h) + multiset(extra)
  {
    var moved := h[to] + extra;
    PoolUpdate(keys, h, to, moved);
    assert multiset(moved) == multiset(h[to]) + multiset(extra);
    var after, before := Pool(keys, h[to := moved]), Pool(keys, h) + multiset(extra);
    assert after + multiset(h[to]) == before + multiset(h[to]);
    forall x ensures after[x] == before[x] {
      assert (after + multiset(h[to]))[x] == (before + multiset(h[to]))[x];
    }
    assert after == before;
  }

  /** `for uid in state["hands"]: state["hands"][uid] = sorted(...)`. */
  function SortedHands(hands: map<int, seq<string>>): (r: map<int, seq<string>>)
    ensures r.Keys == hands.Keys
  {
    map u | u in hands :: StrOrder.Sort(hands[u])
  }

  /** Every hand comes out in ascending order with the same cards. */
  lemma SortedHandsSorted(hands: map<int, seq<string>>)
    ensures forall u :: u in SortedHands(hands) ==>
      StrOrder.IsSorted(SortedHands(hands)[u]) && multiset(SortedHands(hands)[u]) == multiset(hands[u])
  {
  }

  /** Sorting every hand keeps the cards in them. */
  lemma {:induction false} SortedHandsPool(keys: seq<int>, hands: map<int, seq<string>>)
    requires forall i :: 0 <= i < |keys| ==> keys[i] in hands
    ensures Pool(keys, SortedHands(hands)) == Pool(keys, hands)
  {
    if keys != [] {
      var init := keys[..|keys| - 1];
      assert forall i :: 0 <= i < |init| ==> init[i] == keys[i];
      SortedHandsPool(init, hands);
      var last := keys[|keys| - 1];
      assert multiset(SortedHands(hands)[last]) == multiset(hands[last]);
    }
  }

  // ---------------------------------------------------------------------------
  // A new round
  // ---------------------------------------------------------------------------

  /** The position of the first user, in `keys` order, whose hand holds `token`. */
  function FirstHolder(keys: seq<int>, hands: map<int, seq<string>>, token: string): (k: Option<nat>)
    requires forall i :: 0 <= i < |keys| ==> keys[i] in hands
    ensures k.Some? ==> k.value < |keys| && token in hands[keys[k.value]]
    ensures k.Some? ==> forall j :: 0 <= j < k.value ==> token !in hands[keys[j]]
    ensures k.None? ==> forall j :: 0 <= j < |keys| ==> token !in hands[keys[j]]
  {
    if keys == [] then None
    else if token in hands[keys[0]] then Some(0)
    else
      var k := FirstHolder(keys[1..], hands, token);
      assert forall j :: 1 <= j < |keys| ==> keys[1..][j - 1] == keys[j];
      if k.Some? then Some(k.value + 1) else None
  }
}
