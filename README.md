# Hearts backend: a verified model

This project models the server side of a four-player Hearts game. The
backend is a FastAPI service. Lobby data lives in SQL: games, the players
seated at them and their running totals. The state of the round in play is
a Redis hash, driven by WebSocket messages. The model covers:

- **Cards** (`Cards`, `BackendCards`, `AppCards`):
  - the card value with its suit, rank and points;
  - its two-character token such as `"10♥"` and the parsing of a token;
  - card equality and its hash key;
  - the 52-card deck;
  - the two dealing procedures: the Redis set pop, and the list pop of the older app;
  - `get_trick_winner`.
- **Lobby** (`Models`, `BackendCrud`, `AppCrud`, `AppGames`, `LegacyGames`):
  - the `Game` row with its list of seated players;
  - the smallest-free-seat search;
  - `add_player_to_game` in both versions: the backend version refuses a duplicate, the app version flips the status at four;
  - `find_or_create_game`, `update_game_status`, `end_game` and `update_player_total_score`;
  - the join endpoint's refusals and their HTTP codes.
- **Game rules** (`GameRules`, `StrOrder`):
  - the pass direction of a round and the recipient of a pass;
  - validation of a played card: turn, holding the card, two of clubs, following suit, hearts broken, no points on the first trick;
  - the winner and points of a trick;
  - shooting the moon and the round's score changes;
  - the end of the game and its winner;
  - the per-player card counts;
  - Python's string order, used to sort hands.
- **Round state** (`GameState.RoundState`): the Redis hash of
  `backend/app/routers/game.py`, as a class whose methods are the server's
  events:
  - `start_new_round` (constructor, `NextRound`);
  - `pass_cards` (`PassCards`);
  - `play_card` (`PlayCard`);
  - `process_trick_end` (`ProcessTrickEnd`);
  - `process_round_end` (`ProcessRoundEnd`, on the SQL `Game`).
- **Older router** (`LegacyGames.LegacyTable`): the state that
  `backend/app/routers/games.py` writes when the fourth player connects, and
  its `play_card` message, including the partial writes that are left
  behind when the trick end raises.
- **Connection registry** (`Connections.ConnectionManager`): the map from
  game id to open sockets.

`Lists` and `Wrappers` hold generic helpers: `Option`/`Result`, first index,
remove-first and filter.

The main properties proved are these:

- Token parsing inverts printing.
- The deck is every card exactly once and carries 26 points.
- Dealing hands out the popped cards round-robin, and conserves the deck.
- The trick winner holds the highest card of the lead suit.
- Passing left then right, or across twice, returns to the sender.
- A pass, once the held-cards check is added, conserves the 52 tokens. This goes through the recorded step and the redistribution, with every hand re-sorted.
- A play moves exactly one token from a hand into the trick.
- A round deals 13 sorted cards to each seat and finds the holder of the two of clubs.
- Round score changes total 26 per non-shooter, or the round's points.
- Disconnecting undoes connecting.

## Model

| member | source | states |
|---|---|---|
| Cards.SuitFromName | backend/app/game_logic/cards.py:8-17 | a suit name is accepted exactly when it is one of the four keys of `SUITS`, and it names that suit |
| Cards.SuitFromGlyph | backend/app/game_logic/cards.py:8-9 | `SUIT_MAP_REV` maps a glyph back to the suit printed with it, and no suit prints an unknown glyph |
| Cards.RankValue | backend/app/game_logic/cards.py:10-19 | a rank string is accepted exactly when it is a key of `RANKS`, and the value found prints back as that rank |
| Cards.RankValueOfName | backend/app/game_logic/cards.py:10-13 | every value 2..14 has a rank whose lookup gives it back |
| Cards.RankNameInjective | backend/app/game_logic/cards.py:10-13 | two values with the same rank name are equal |
| Cards.NewCard | backend/app/game_logic/cards.py:15-30 | the constructor accepts exactly the known suit and rank names; the suit is checked first, then the rank; the card built prints as the given names |
| Cards.Points | backend/app/game_logic/cards.py:25-30 | a heart scores 1, the queen of spades 13, every other card 0 |
| Cards.ToStr | backend/app/game_logic/cards.py:32-33 | a token is a rank name followed by one suit glyph |
| Cards.FromStr | backend/app/game_logic/cards.py:35-44 | short strings and unknown glyphs are refused with their own errors, and every accepted string prints back unchanged |
| Cards.FromStrToStr | backend/app/game_logic/cards.py:32-44 | parsing the token of a card gives that card back |
| Cards.ToStrInjective | backend/app/game_logic/cards.py:32-33 | distinct cards have distinct tokens |
| Cards.SameCard | backend/app/game_logic/cards.py:49-50 | `__eq__` (same suit and rank) is equality of card values |
| Cards.HashKey | backend/app/game_logic/cards.py:49-53 | the hash key agrees with `__eq__`: a card shares its key exactly with the cards equal to it |
| Cards.FullDeckAt | backend/app/game_logic/cards.py:63-65 | the deck built suit by suit, rank by rank has 52 cards, with each card at its suit-and-rank position |
| Cards.FullDeckIsEveryCardOnce | backend/app/game_logic/cards.py:63-65 | the deck holds every card, and each card once |
| Cards.SuitPoints | backend/app/game_logic/cards.py:25-30 | hearts carry 13 points, spades 13 (the queen), diamonds and clubs none |
| Cards.FullDeckPoints | backend/app/game_logic/cards.py:25-30 | the whole deck carries 26 points |
| Cards.TotalPoints | backend/app/routers/games.py:128 | the sum of `points` is at most 13 per card, and zero exactly when no card is a heart or the queen of spades |
| Cards.WinnerIndex | backend/app/game_logic/cards.py:88-97 | the winning position lies in the trick and is the first card or a card of the lead suit |
| Cards.WinnerIsHighestOfLead | backend/app/game_logic/cards.py:88-97 | when the lead suit is the first card's, the winner has the lead suit and beats or ties every lead-suit card; the earliest card wins a tie |
| BackendCards.DeckTokenList | backend/app/game_logic/cards.py:63-65 | `_create_deck` adds 52 tokens |
| BackendCards.DeckTokensAreTheDeck | backend/app/game_logic/cards.py:63-65 | the Redis deck set has 52 members; each parses, and each card's token is one of them |
| BackendCards.Deal | backend/app/game_logic/cards.py:67-79 | `deal` raises exactly when the deck has too few cards; otherwise player `j` gets the popped cards at positions `j, j+n, j+2n, …` |
| BackendCards.PickShape | backend/app/game_logic/cards.py:75-77 | with four players, each hand has one card per round of four pops, the `t`-th being pop `4t+j` |
| BackendCards.Pick | backend/app/game_logic/cards.py:75-77 | a hand index outside the table gets no cards |
| BackendCards.PickTakesResidue | backend/app/game_logic/cards.py:75-77 | hand `j` holds exactly the cards at the positions `i` with `i % n == j` |
| BackendCards.StandardDeal | backend/app/game_logic/cards.py:67-79 | the default deal of 52 cards gives each of four players 13 cards, the `t`-th being pop `4t+j` |
| BackendCards.GetTrickWinner | backend/app/game_logic/cards.py:88-97 | the loop raises exactly on an empty trick and otherwise returns the card at `WinnerIndex` |
| AppCards.Deck.constructor | app/game_logic/cards.py:39-43 | a new deck is the 52 cards in suit-then-rank order |
| AppCards.Deck.Deal | app/game_logic/cards.py:48-56 | raises, changing nothing, exactly when too few cards remain; otherwise player `j`'s card `i` is the card at index `L-1-(n*i+j)`, the deck loses its last `n*k` cards, and hands plus deck are a permutation of the old deck |
| AppCards.Deck.DealRounds | app/game_logic/cards.py:52-55 | `k` passes of `n` pops leave the deck's prefix and deal the popped cards in turn, conserving the multiset |
| AppCards.Deck.DealPass | app/game_logic/cards.py:54-55 | one pass gives each player the next popped card and keeps the deal invariant |
| AppCards.Deck.GiveNext | app/game_logic/cards.py:55 | one `hands[j].append(self.cards.pop())` moves the last card of the deck to hand `j` |
| AppCards.Deck.Pop | app/game_logic/cards.py:55 | `pop` returns the last card and removes it |
| AppCards.GetTrickWinner | app/game_logic/cards.py:62-73 | the app version, with its extra `elif … continue`, picks the same card as `WinnerIndex` and raises exactly on an empty trick |
| Models.Game.constructor | backend/app/models.py:26-36 | a new game is waiting, with no winner and no players |
| Models.SmallestFreeSeat | backend/app/crud.py:55-58 | the chosen seat is the smallest positive number not yet taken |
| Models.NextFreeSeat | backend/app/crud.py:55-58 | the `while next_seat in current_seat_numbers` loop ends on the smallest free seat |
| Models.SmallestFreeUnique | backend/app/crud.py:55-58 | the smallest free seat is unique |
| Models.SmallestFreeBound | backend/app/crud.py:55-58 | the search never passes one more than the number of taken seats |
| Models.NewSeatIsDistinct | backend/app/crud.py:55-60 | the seat given to a new row differs from every seat at the table, which meets the `_game_seat_uc` constraint |
| Models.PackedSeatsNext | backend/app/crud.py:55-58 | when seats 1..k are taken, the next player sits at k+1 |
| Models.SeatingKeepsLobbyRoster | backend/app/routers/games.py:33-41 | seating a new user at a table of fewer than four keeps the users distinct and the seats packed 1..k |
| Models.JoinRefusal | backend/app/routers/games.py:33-40 | the join checks in order: game missing, not waiting, four players, user already seated; each refusal holds exactly when its check is the first to fail |
| Models.StatusCode | backend/app/routers/games.py:33-40 | a missing game is a 404 and every other refusal a 400 |
| Models.AnySeatOf | backend/app/routers/games.py:39 | the `any(p.user_id == …)` scan is true exactly when the user has a row |
| Models.WaitingGames | backend/app/crud.py:36-37 | the result is exactly the waiting games |
| BackendCrud.AddPlayer | backend/app/crud.py:46-64 | a seated user leaves the roster as it is; otherwise a row on the smallest free seat with a zero total is appended; status and winner do not change |
| BackendCrud.Joined | backend/app/crud.py:46-64 | the user ends up seated; a seated user leaves the rows as they were; a new user gets one appended row with a zero total on a free seat, every lower seat being taken |
| BackendCrud.JoinedIdempotent | backend/app/crud.py:48-53 | adding the same user twice is the same as adding them once |
| BackendCrud.JoinedKeepsDistinct | backend/app/crud.py:46-64 | adding keeps users and seats distinct, seats the user, and adds at most one row |
| BackendCrud.UpdateGameStatus | backend/app/crud.py:66-71 | only the status changes |
| BackendCrud.EndGame | backend/app/crud.py:89-94 | the game becomes finished with the given winner; the players are unchanged |
| BackendCrud.UpdatePlayerTotalScore | backend/app/crud.py:114-119 | only that row's total changes, by the score change |
| BackendCrud.FirstEligible | backend/app/crud.py:75-83 | finds the first waiting game with fewer than four players that lacks the user, or reports that none exists |
| BackendCrud.EmptySeatsGiveSeatOne | backend/app/crud.py:55-58 | the first player of a freshly created game sits at seat 1 |
| BackendCrud.FindOrCreateGame | backend/app/crud.py:73-87 | joins the first eligible game, keeping its status and winner, or a new empty game when none exists; every other game is untouched |
| AppCrud.CreateGame | app/crud.py:32-47 | a new waiting game with its creator at seat 1 |
| AppCrud.AddPlayer | app/crud.py:55-74 | appends the user on the smallest free seat; the status becomes in-progress exactly when the table reaches four |
| AppCrud.AddedTwiceForSeatedUser | app/crud.py:55-74 | the function has no duplicate check of its own: the roster it would commit for a seated user lists that user twice, a row the `_game_user_uc` constraint then refuses |
| AppCrud.SeatsFillInOrder | app/crud.py:55-70 | four distinct users joining a new game take seats 1, 2, 3, 4 |
| AppGames.JoinExistingGame | app/routers/games.py:23-41 | refused, changing nothing, by the first failing check; otherwise the app's `add_player_to_game` adds the user, and the game becomes in progress exactly when that row is the fourth; the winner is untouched |
| AppGames.AcceptedJoinKeepsRoster | app/routers/games.py:33-40 | an accepted join keeps the roster distinct and packed, the new row on seat k+1 |
| Lists.RemoveFirst | backend/app/routers/game.py:377 | `list.remove`: one fewer element, the multiset less one `x`, and the elements before and after the first `x` kept in order |
| Lists.Filter | backend/app/routers/game.py:320 | the comprehension keeps exactly the elements not in `drop`, and no more elements than it was given |
| StrOrder.LessIrreflexive | backend/app/routers/game.py:332 | Python's string order used by `sorted` is irreflexive |
| StrOrder.LessTotal | backend/app/routers/game.py:332 | any two distinct strings are ordered one way or the other |
| StrOrder.LessAsymmetric | backend/app/routers/game.py:332 | the order is asymmetric |
| StrOrder.LessTransitive | backend/app/routers/game.py:332 | the order is transitive |
| StrOrder.Less | backend/app/routers/game.py:332 | Python's `<` on `str`: `a` is a proper prefix of `b`, or has the smaller code point where they first differ |
| StrOrder.Sort | backend/app/routers/game.py:332 | `sorted` returns an ordered permutation of its input |
| Connections.ConnectionManager.constructor | backend/app/websocket_manager.py:5-6 | the registry starts empty |
| Connections.ConnectionManager.Connect | backend/app/websocket_manager.py:8-12 | the socket is appended to its game's list, which is created when missing; the other games are unchanged |
| Connections.ConnectionManager.Disconnect | backend/app/websocket_manager.py:14-18 | removing a socket the game's list lacks raises; otherwise the first occurrence goes and an emptied game is deleted; the other games are unchanged |
| Connections.ConnectionManager.Broadcast | backend/app/websocket_manager.py:23-26 | messages go to the game's sockets in order, and to none for an unknown game |
| Connections.ConnectThenDisconnect | backend/app/websocket_manager.py:8-18 | disconnecting a socket just connected restores the registry |
| Connections.ReconnectKnownGame | backend/app/websocket_manager.py:8-18 | the same round trip for a game that already had sockets |
| Connections.ReconnectNewGame | backend/app/websocket_manager.py:8-18 | the same round trip for a game that had none |
| GameRules.PassDirection | backend/app/routers/game.py:78-81 | rounds cycle left, right, across, hold by round number mod 4 |
| GameRules.PassDirectionCycle | backend/app/routers/game.py:78-81 | the direction repeats every four rounds, starting left on round 1 |
| GameRules.RecipientSeat | backend/app/routers/game.py:89-94 | the recipient seat is a seat of the table |
| GameRules.FourSeatArithmetic | backend/app/routers/game.py:89-94 | at four seats left is the next seat; right undoes left and left undoes right; across twice is the identity; no direction points at the sender's own seat |
| GameRules.LastRowOf | backend/app/routers/game.py:85-86 | `player_map` keeps the last row of a user: the index found is that user's, and no later row is |
| GameRules.FirstRowOf | backend/app/routers/games.py:110 | the `next(i for …)` scan finds the user's first row, and none exactly when the user is absent |
| GameRules.FirstRowAtSeat | backend/app/routers/game.py:98-100 | the first row on the recipient seat, and none exactly when nobody sits there |
| GameRules.PassRecipient | backend/app/routers/game.py:83-101 | an unknown sender raises; with no direction the sender is returned; otherwise the result is the user on the first row of the seat the direction names from the sender's (last) row, or the sender when nobody sits there |
| GameRules.RecipientOnFullTable | backend/app/routers/game.py:83-101 | at a full table the recipient is another seated user, sitting on the seat the direction's arithmetic names |
| GameRules.LeftThenRight | backend/app/routers/game.py:89-92 | at a full table, the right-hand recipient of the left-hand recipient is the sender |
| GameRules.AcrossTwice | backend/app/routers/game.py:93-94 | at a full table, passing across twice returns to the sender |
| GameRules.Undo | backend/app/routers/game.py:89-94 | both inverse pairs stated as one lemma |
| GameRules.SameSeatSameUser | backend/app/models.py:50-53 | at a full table a seat determines its user |
| GameRules.TwoOfClubsToken_IsItsToken | backend/app/routers/game.py:359 | the literal `'2♣'` is the token of the two of clubs |
| GameRules.AnyCard | backend/app/routers/game.py:362-369 | the `any(Card.from_str(c)… for c in hand)` scans: true only when a card passes, false only after every token parsed and none passed; a hand of valid tokens never raises |
| GameRules.RuleCheck | backend/app/routers/game.py:355-370 | accepts exactly the plays that follow the four rules, over a hand of valid tokens |
| GameRules.RuleCheckOrder | backend/app/routers/game.py:359-370 | the refusals come in the source's order: two of clubs, follow suit, hearts unbroken, points on the first trick |
| GameRules.CheckPlay | backend/app/routers/game.py:341-370 | no hand raises; a bad token raises; then not your turn, card not in hand, the rules; an accepted card is held by the player whose turn it is |
| GameRules.ParseAll | backend/app/routers/game.py:158 | parsing a trick succeeds exactly when every token parses, card by card |
| GameRules.FirstPlayWith | backend/app/routers/game.py:161-165 | finds the first trick entry with a given token |
| GameRules.TrickWinnerEntry | backend/app/routers/game.py:158-165 | the winning card's token is found in the trick, at or before the winner's position (at it when tokens are distinct), and it is the highest lead-suit card |
| GameRules.TrickTaker | backend/app/routers/game.py:153-165 | the named winner played a card that takes the trick, and with distinct tokens is the player at `WinnerIndex` |
| GameRules.QueenOfSpadesToken | backend/app/routers/game.py:379 | the `to_str() == "Q♠"` test is true exactly for the queen of spades |
| GameRules.ShooterIndex | backend/app/routers/game.py:204-210 | the first user in key order with 26 points, or none |
| GameRules.ScoreChange | backend/app/routers/game.py:215-222 | with a shooter, the change is 0 exactly for the shooter and 26 for everyone else; without one, it is the player's round score |
| GameRules.RoundChanges | backend/app/routers/game.py:213-226 | without a shooter the changes total the round's points; with a seated shooter they total 26 times the other players; a shooter not at the table costs everyone 26 |
| GameRules.GameOver | backend/app/routers/game.py:231 | the game ends exactly when some player has at least 100 |
| GameRules.MinTotalIndex | backend/app/routers/game.py:233 | `min` by total picks a lowest total, and the first of several |
| GameRules.CardCounts | backend/app/routers/game.py:26-45 | without a state or with empty `hands` no row has a count; otherwise each row's count is its hand's size, 0 without a hand |
| GameRules.SortBySeat | backend/app/routers/game.py:117 | `sorted(game.players, key=seat_number)` has as many rows as the table |
| GameRules.SortBySeatSorted | backend/app/routers/game.py:117 | `sorted(game.players, key=seat_number)` is ordered by seat and a permutation of the rows |
| GameRules.FullTableSorted | backend/app/routers/game.py:117-118 | at a full table the sorted rows are the rows of seats 1..4, with the same distinct users |
| GameRules.SortedSeatNumbers | backend/app/routers/game.py:117 | at a full table, sorted row `i` sits at seat `i+1` |
| GameRules.NextSeatHolder | backend/app/routers/game.py:388-390 | the lookups succeed only for a seated player and return a seated user |
| GameRules.NextSeatOnFullTable | backend/app/routers/game.py:387-391 | at a full table the next turn goes to another player, the left-hand recipient |
| GameRules.FourTurnsComeBack | backend/app/routers/game.py:387-391 | at a full table four turns in a row visit four different players and return to the first |
| GameRules.AllPassed | backend/app/routers/game.py:322 | true exactly when every value of `passed_cards` holds three tokens |
| GameRules.PassConserves | backend/app/routers/game.py:319-320 | with the held-cards check, removing three distinct held tokens and passing them conserves the hand's multiset |
| GameRules.PassAsWrittenDuplicates | backend/app/routers/game.py:314-320 | as written, passing one held token three times is accepted and does not conserve the cards |
| GameRules.PassAsWrittenForges | backend/app/routers/game.py:314-320 | as written, passing three tokens that are not held keeps the whole hand and creates three cards |
| GameRules.Distribute | backend/app/routers/game.py:326-329 | the distribution keeps the set of hands, or raises for a missing sender or recipient hand |
| GameRules.DistributeConserves | backend/app/routers/game.py:326-329 | a completed distribution adds exactly the passed tokens to the hands |
| GameRules.SortedHands | backend/app/routers/game.py:332 | sorting keeps the hands' keys |
| GameRules.SortedHandsSorted | backend/app/routers/game.py:332 | every hand becomes an ordered permutation of itself |
| GameRules.SortedHandsPool | backend/app/routers/game.py:332 | sorting the hands keeps the pool of tokens |
| GameRules.FirstHolder | backend/app/routers/game.py:121-125 | the first user in key order whose hand holds a token, or none |
| GameState.SeatOrderOfFullTable | backend/app/routers/game.py:117-118 | at a full table the user ids in seat order are four distinct users, exactly the seated ones, in seat order |
| GameState.DealtHandsStarter | backend/app/routers/game.py:115-125 | dealing a permutation of the deck gives each seat 13 sorted tokens, and some hand holds the two of clubs |
| GameState.TwoOfClubsHand | backend/app/routers/game.py:115-123 | some seat is dealt the two of clubs |
| GameState.FindStarter | backend/app/routers/game.py:121-125 | the loop finds the first holder of `2♣`, or none |
| GameState.FindPlayer | backend/app/routers/game.py:161-165 | the loop returns the player of the first entry with the winning token |
| GameState.FindShooter | backend/app/routers/game.py:204-210 | the loop returns the first user with 26 points |
| GameState.ShooterOf | backend/app/routers/game.py:204-210 | a shooter has 26 points; with none, nobody in key order has 26 |
| GameState.RecipientSearch | backend/app/routers/game.py:83-101 | the imperative lookup agrees with `PassRecipient` |
| GameState.DistributeLoop | backend/app/routers/game.py:326-329 | the loop agrees with `Distribute` |
| GameState.SortEach | backend/app/routers/game.py:332 | the loop sorts every hand, as `SortedHands` |
| GameState.SortLoop | backend/app/routers/game.py:332 | each hand is replaced by its sorted version; no keys change |
| GameState.TrickOutcome | backend/app/routers/game.py:153-168 | an empty trick raises; a bad token raises with its parse error; a winner without a score raises; otherwise the winner is `TrickTaker` |
| GameState.TrickPoints | backend/app/routers/game.py:167 | a trick's points are at most 13 per card, and zero exactly when it holds no heart and not the queen of spades |
| GameState.PlayMovesCard | backend/app/routers/game.py:377-384 | a play moves one token from the hand to the trick, keeping hands plus trick |
| GameState.ProcessRoundEnd | backend/app/routers/game.py:203-234 | lines 203-234 as evidently intended, past the `create_round` call at line 201: each total changes by the round change for its player; the game ends exactly when some total reaches 100, with the lowest total as winner |
| GameState.PassOutcomeOf | backend/app/routers/game.py:310-339 | ignored outside passing or for a filled entry; a wrong count is refused; unheld cards are refused; a recorded pass removes the cards; the last pass distributes; errors change nothing |
| GameState.ApplyPass | backend/app/routers/game.py:310-332 | the steps of `pass_cards` agree with `PassOutcomeOf` |
| GameState.SeatOrder | backend/app/routers/game.py:117-118 | returns the user ids in seat order |
| GameState.DealHands | backend/app/routers/game.py:115-119 | keys each seat's sorted, dealt tokens by user |
| GameState.DealRound | backend/app/routers/game.py:115-138 | the dealt table: sorted hands, empty passes, zero scores, and the two of clubs' holder to lead |
| GameState.RoundState.constructor | backend/app/routers/game.py:107-151 | round 1: the dealt table, empty trick, hearts unbroken, passing left |
| GameState.RoundState.NextRound | backend/app/routers/game.py:110-151 | the round number goes up by one; a hold round starts in the playing phase and keeps the old `pass_direction` |
| GameState.RoundState.Install | backend/app/routers/game.py:113-149 | writes the fresh round for the given number |
| GameState.RoundState.SetRound | backend/app/routers/game.py:127-149 | writes every field of the new round hash |
| GameState.RoundState.PlayCard | backend/app/routers/game.py:341-395 | a refused play is returned unchanged; otherwise the card leaves the hand once, joins the trick, sets the lead and breaks hearts; the turn passes to the next seat, or to nobody at four cards; a missing next seat raises, changing nothing |
| GameState.RoundState.TakeCard | backend/app/routers/game.py:377-393 | the writes of an accepted play, with nothing else changed |
| GameState.RoundState.ProcessTrickEnd | backend/app/routers/game.py:153-176 | errors change nothing; otherwise the trick's points go to `TrickTaker`, the trick and lead are cleared, and the winner leads |
| GameState.RoundState.AwardTrick | backend/app/routers/game.py:167-174 | only the winner's score changes, by the points; the trick is reset |
| GameState.RoundState.PassCards | backend/app/routers/game.py:310-339 | the new hands, passes and outcome are those of `PassOutcomeOf`; the phase becomes playing exactly on distribution |
| GameState.RoundState.SetPass | backend/app/routers/game.py:319-333 | writes the hands, passes and phase |
| GameState.PassingConserves | backend/app/routers/game.py:319-332 | a checked pass keeps hands plus passes; a completed distribution with sorting puts them all back in the hands |
| GameState.PassOutcomeConserves | backend/app/routers/game.py:310-339 | every recorded or distributed outcome of `pass_cards` conserves the tokens |
| LegacyGames.JoinExistingGame | backend/app/routers/games.py:30-42 | refused, changing nothing, by the first failing check; otherwise the backend's `add_player_to_game` seats the user, status and winner unchanged |
| LegacyGames.AcceptedJoinSeatsNext | backend/app/routers/games.py:33-41 | an accepted join appends the user on seat k+1 with a zero total and keeps the roster packed |
| LegacyGames.SortedSameUsers | backend/app/routers/games.py:59 | sorting by seat keeps the same users |
| LegacyGames.SeatOrderNext | backend/app/routers/games.py:110-116 | the next turn goes to a seated user |
| LegacyGames.SeatOrderNextOnFullTable | backend/app/routers/games.py:110-116 | at a full table the next index in seat order is the next seat's holder: another player, the left-hand recipient |
| LegacyGames.SortedIndexIsSeat | backend/app/routers/games.py:110 | a user's index in seat order is their seat number minus one |
| LegacyGames.TrickWinner | backend/app/routers/games.py:122-125 | the winner played the card `get_trick_winner` picks under the stored or first-card lead; without a stored lead it is `TrickTaker` |
| LegacyGames.TrickLead | backend/app/routers/games.py:123 | a stored lead suit wins over the first card's suit; without one, the winning card follows the first card's suit |
| LegacyGames.WinnerEntry | backend/app/routers/games.py:124-125 | the `next(…)` scan finds the winning token in the trick |
| LegacyGames.Deal | backend/app/routers/games.py:59-73 | the first seat leads; hands are the dealt tokens keyed by users in seat order; scores are zero |
| LegacyGames.LegacyTable.constructor | backend/app/routers/games.py:55-74 | the opening hash: passing phase, empty trick, no lead, first seat to play |
| LegacyGames.LegacyTable.Screen | backend/app/routers/games.py:93-106 | ignored outside playing or out of turn; no hand raises, an unheld card raises, an unparsable first card raises; otherwise proceed |
| LegacyGames.LegacyTable.PlayCard | backend/app/routers/games.py:93-135 | refusals change nothing; a play removes the card and extends the trick; before four cards the turn passes in seat order; at four the winner gains the points and leads, or the trick end raises after the first write |
| LegacyGames.LegacyTable.PassTurn | backend/app/routers/games.py:112-115 | with fewer than four entries the turn moves one place along the seat order and nothing else changes |
| LegacyGames.LegacyTable.Record | backend/app/routers/games.py:101-108 | the first write: hand, trick and lead suit |
| LegacyGames.LegacyTable.EndTrick | backend/app/routers/games.py:121-135 | a bad token or a winner without a score raises; otherwise the winner gets the points, the trick is cleared, the winner leads |
| LegacyGames.LegacyTable.Award | backend/app/routers/games.py:127-135 | only the winner's score changes; the trick and lead are cleared |

## Left out

- Redis and JSON (de)serialisation. State fields are typed values, and user-id keys are integers rather than strings. One consequence: after a save and reload, a `lead_suit` of `None` becomes the string `"None"`, which is truthy. That would disable the two-of-clubs and hearts-lead rules between saves. The model keeps `None`.
- Randomness. The popped Redis members (`spop`) and the shuffled deck are parameters: `popped` in `GameState`, `dealt` in `LegacyGames`.
- WebSocket I/O. This covers accepting, receiving, sending, broadcasts and personal messages, the `asyncio.sleep` pauses, logging and the broadcast payloads built by `get_game_data_as_dict`. Only its `card_count` is modelled.
- SQLAlchemy sessions, commits and refreshes. A refresh is modelled as the in-memory row. `Round` and `RoundScore` rows, authentication, security, configuration and `main.py` are not part of this model.
- AppCrud.AddPlayer: appends the row unconditionally. The `IntegrityError` that the `_game_user_uc` constraint (app/models.py:51) raises at the commit (app/crud.py:72) for a second row of the same user is not modelled. Its only caller refuses seated users first (`Models.JoinRefusal`).
- Roster preconditions such as `FullTable`, and score keys for the table's users. The lobby is what guarantees these: four joins and the unique constraints at backend/app/models.py:50-53, with the state built from `game.players` at backend/app/routers/game.py:117-136.
- The older router requires that the sender is seated. This follows from its connection guard at backend/app/routers/games.py:47 and the four-player start at line 55.
- Sorting by seat is modelled as an insertion sort. Python's `sorted` is stable, but seats are distinct at a full table, so the order is the same.
- GameState.RoundState.TakeCard: the queen-of-spades test is stated on card equality. The source compares tokens with `"Q♠"`; GameRules.QueenOfSpadesToken proves the two agree.
- BackendCards.StandardDeal: stated for the default four players and 13 cards. BackendCards.Deal covers any player count.
- Calls that do not match their definitions are left out:
  - `manager.get_websocket` at backend/app/routers/games.py:77, which the manager does not define;
  - `crud.create_game(db=db, user=…)` at line 22 against the one-argument definition at backend/app/crud.py:39;
  - `crud.create_round(db, game_id=game_id, round_number=…)` at backend/app/routers/game.py:201 against `create_round(db, game_id)` at backend/app/crud.py:97. As written, the extra keyword raises `TypeError` before any total changes, so `process_round_end` never ends a game or reaches the next round. `GameState.ProcessRoundEnd` models lines 203-234 as evidently intended;
  - `connect` and `disconnect` called with a user id the manager does not take. As written, `manager.connect(websocket, game_id, current_user.id)` (backend/app/routers/game.py:284, backend/app/routers/games.py:51) passes one argument more than `connect(self, websocket, game_id)` (backend/app/websocket_manager.py:8) accepts. The call raises `TypeError` before the socket is accepted, so neither WebSocket handler reaches the message loop that `RoundState` and `LegacyTable` model. The model describes the handlers as evidently intended to run.
- The older router's end-of-round branch is left out. It is a bare `pass` at backend/app/routers/games.py:140-142. The `winner_player_index` broadcast (line 137) is left out with it.
- The older router skips a message when the state hash is missing (line 91). The model assumes the hash exists once the table has opened.
- The older router never sets the phase to `playing`: no handler leaves `passing`. The model keeps that behaviour, so its plays are ignored until something outside this router changes the phase.

## Findings

| source | as written | input that shows it | evidently intended | confidence | as-written member | corrected member |
|---|---|---|---|---|---|---|
| backend/app/routers/game.py:314-320 | `pass_cards` checks only that three tokens were sent, then filters them out of the hand | hand `["2♣","3♣"]` passing `["2♣","2♣","2♣"]` leaves `["3♣"]` and passes three cards; hand `["2♣","3♣","4♣"]` passing `["A♠","K♠","Q♠"]` keeps the whole hand | the three tokens are distinct cards the sender holds, so the 52 cards are conserved | not executed | GameRules.PassAsWrittenDuplicates | GameRules.PassConserves |
