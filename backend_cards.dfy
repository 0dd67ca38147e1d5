/**
  The backend's `Deck` and `get_trick_winner` (backend/app/game_logic/cards.py).
  The deck itself lives in a Redis set; here it is the set of tokens
  `_create_deck` adds, its size, and the cards a random `spop` returned, all
  passed in as values. What is modelled is the round-robin loop of `deal` and
  the loop of `get_trick_winner`.
*/
module BackendCards {
  import opened Wrappers
  import opened Cards

  datatype DealError = NotEnoughCards
  datatype TrickError = EmptyTrick

  /** The tokens `_create_deck` adds to the deck's Redis set, in the order it lists them. */
  function DeckTokenList(): (ts: seq<string>)
    ensures |ts| == 52
  {
    FullDeckIsEveryCardOnce();
    seq(52, i requires 0 <= i < 52 => ToStr(FullDeck()[i]))
  }

  function DeckTokens(): set<string>
  {
    set i | 0 <= i < 52 :: DeckTokenList()[i]
  }

  /** A list without repeats has as many distinct elements as entries. */
  lemma {:induction false} DistinctCardinality(s: seq<string>)
    requires forall i, j :: 0 <= i < j < |s| ==> s[i] != s[j]
    ensures |set i | 0 <= i < |s| :: s[i]| == |s|
  {
    if s != [] {
      var rest := s[..|s| - 1];
      DistinctCardinality(rest);
      var a := set i | 0 <= i < |rest| :: rest[i];
      var b := set i | 0 <= i < |s| :: s[i];
      assert b == a + {s[|s| - 1]};
      assert s[|s| - 1] !in a;
    }
  }

  /**
    After `_create_deck` the Redis set holds 52 tokens, each the token of a card,
    so `deal` can parse every token it pops.
  */
  lemma DeckTokensAreTheDeck()
    ensures |DeckTokens()| == 52
    ensures forall t :: t in DeckTokens() ==> FromStr(t).Ok?
    ensures forall c: Card :: ToStr(c) in DeckTokens()
  {
    var ts := DeckTokenList();
    FullDeckIsEveryCardOnce();
    forall i, j | 0 <= i < j < 52 ensures ts[i] != ts[j] {
      if ts[i] == ts[j] {
        ToStrInjective(FullDeck()[i], FullDeck()[j]);
      }
    }
    DistinctCardinality(ts);
    forall t | t in DeckTokens() ensures FromStr(t).Ok? {
      var i :| 0 <= i < 52 && ts[i] == t;
      FromStrToStr(FullDeck()[i]);
    }
    forall c: Card ensures ToStr(c) in DeckTokens() {
      FullDeckAt(c);
      var i := 13 * SuitIndex(c.suit) + c.value - 2;
      assert ts[i] == ToStr(c);
    }
  }

  /**
    The cards among the first `len` of `s` at positions `j`, `j + n`, `j + 2n`,
    ...: hand `j` after `len` passes of the loop of `deal`.
  */
  function PickPrefix(s: seq<Card>, n: nat, j: nat, len: nat): (hand: seq<Card>)
    requires n > 0 && len <= |s|
    ensures j >= n ==> hand == []
  {
    if len == 0 then []
    else PickPrefix(s, n, j, len - 1) + (if (len - 1) % n == j then [s[len - 1]] else [])
  }

  /** The hand the loop of `deal` fills for player `j`: every card of `s` at a position `j` modulo `n`. */
  function Pick(s: seq<Card>, n: nat, j: nat): (hand: seq<Card>)
    requires n > 0
    ensures j >= n ==> hand == []
  {
    PickPrefix(s, n, j, |s|)
  }

  /**
    Hand `j` holds exactly the cards at the positions `i` with `i % n == j`:
    each of them is in it, and each of its cards is one of them.
  */
  lemma PickTakesResidue(s: seq<Card>, n: nat, j: nat)
    requires n > 0
    ensures forall i :: 0 <= i < |s| && i % n == j ==> s[i] in Pick(s, n, j)
    ensures forall c :: c in Pick(s, n, j) ==> exists i :: 0 <= i < |s| && i % n == j && s[i] == c
  {
    PrefixTakesResidue(s, n, j, |s|);
  }

  lemma {:induction false} PrefixTakesResidue(s: seq<Card>, n: nat, j: nat, len: nat)
    requires n > 0 && len <= |s|
    ensures forall i :: 0 <= i < len && i % n == j ==> s[i] in PickPrefix(s, n, j, len)
    ensures forall c :: c in PickPrefix(s, n, j, len) ==> exists i :: 0 <= i < len && i % n == j && s[i] == c
  {
    if len > 0 {
      PrefixTakesResidue(s, n, j, len - 1);
    }
  }

  /**
    `Deck.deal`: refuses when the deck holds fewer than `numPlayers * cardsPerPlayer`
    cards; otherwise the popped cards are dealt round robin, card `i` into hand `i mod numPlayers`.
  */
  method Deal(deckCount: nat, popped: seq<Card>, numPlayers: nat, cardsPerPlayer: nat)
    returns (r: Result<seq<seq<Card>>, DealError>)
    requires deckCount >= numPlayers * cardsPerPlayer ==> |popped| == numPlayers * cardsPerPlayer
    ensures r.Err? <==> deckCount < numPlayers * cardsPerPlayer
    ensures r.Ok? ==> |r.value| == numPlayers
    ensures r.Ok? ==> forall j :: 0 <= j < numPlayers ==> r.value[j] == Pick(popped, numPlayers, j)
  {
    var total := numPlayers * cardsPerPlayer;
    if deckCount < total {
      return Err(NotEnoughCards);
    }
    var hands: seq<seq<Card>> := seq(numPlayers, _ => []);
    var i := 0;
    while i < |popped|
      invariant 0 <= i <= |popped|
      invariant |hands| == numPlayers
      invariant i > 0 ==> numPlayers > 0
      invariant forall j :: 0 <= j < numPlayers ==> hands[j] == PickPrefix(popped, numPlayers, j, i)
    {
      var j := i % numPlayers;
      hands := hands[j := hands[j] + [popped[i]]];
      i := i + 1;
    }
    return Ok(hands);
  }

  /** Within round `k` of a four-player deal, hand `j` gains the card at `4 * k + j` once position `j` is passed. */
  lemma {:induction false} PickWithinRound(s: seq<Card>, k: nat, m: nat, j: nat)
    requires j < 4 && m <= 4 && 4 * k + m <= |s|
    ensures PickPrefix(s, 4, j, 4 * k + m) == PickPrefix(s, 4, j, 4 * k) + (if j < m then [s[4 * k + j]] else [])
  {
    if m > 0 {
      PickWithinRound(s, k, m - 1, j);
      assert (4 * k + (m - 1)) % 4 == m - 1;
    }
  }

  /** Dealing `4 * k` cards to four players gives every hand `k` cards: hand `j`'s card `t` is card `4 * t + j`. */
  lemma {:induction false} PickShape(s: seq<Card>, k: nat, j: nat)
    requires j < 4 && 4 * k <= |s|
    ensures |PickPrefix(s, 4, j, 4 * k)| == k
    ensures forall t :: 0 <= t < k ==> PickPrefix(s, 4, j, 4 * k)[t] == s[4 * t + j]
  {
    if k > 0 {
      PickShape(s, k - 1, j);
      PickWithinRound(s, k - 1, 4, j);
      var p := PickPrefix(s, 4, j, 4 * k);
      var q := PickPrefix(s, 4, j, 4 * (k - 1));
      assert p == q + [s[4 * (k - 1) + j]];
      forall t | 0 <= t < k ensures p[t] == s[4 * t + j] {
        if t < k - 1 {
          assert p[t] == q[t];
        }
      }
    }
  }

  /** The game's deal: 52 cards to 4 players gives each 13, player `j` getting cards `j`, `j + 4`, ... */
  lemma StandardDeal(popped: seq<Card>, j: nat)
    requires |popped| == 52 && j < 4
    ensures |Pick(popped, 4, j)| == 13
    ensures forall t :: 0 <= t < 13 ==> Pick(popped, 4, j)[t] == popped[4 * t + j]
  {
    PickShape(popped, 13, j);
  }

  /**
    `get_trick_winner`: raises on an empty list; otherwise the first card is held
    and a later card replaces it only with the lead suit and a strictly higher value.
  */
  method GetTrickWinner(played: seq<Card>, leadSuit: Suit) returns (r: Result<Card, TrickError>)
    ensures r.Err? <==> played == []
    ensures r.Ok? ==> r.value == played[WinnerIndex(played, leadSuit)]
  {
    if played == [] {
      return Err(EmptyTrick);
    }
    var highest := played[0];
    ghost var k := 0;
    var i := 1;
    while i < |played|
      invariant 1 <= i <= |played|
      invariant k == WinnerIndex(played[..i], leadSuit) && highest == played[k]
    {
      var card := played[i];
      assert played[..i + 1][..i] == played[..i];
      if card.suit == leadSuit && card.value > highest.value {
        highest := card;
        k := i;
      }
      i := i + 1;
    }
    assert played[..i] == played;
    return Ok(highest);
  }
}
