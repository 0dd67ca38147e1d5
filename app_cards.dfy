/**
  The older in-memory deck (app/game_logic/cards.py): a `Deck` object whose
  `cards` list `deal` drains with `pop()` from the end, and its own copy of
  `get_trick_winner`. The card type itself is `Cards.Card`, identical in both
  versions of the file.
*/
module AppCards {
  import opened Wrappers
  import opened Cards
  import BackendCards

  datatype DealError = NotEnoughCards

  /** All cards of a list of hands, counted with multiplicity. */
  function HandsMultiset(hands: seq<seq<Card>>): multiset<Card>
  {
    if hands == [] then multiset{} else multiset(hands[0]) + HandsMultiset(hands[1..])
  }

  /** Appending a card to one hand adds exactly that card to the cards held. */
  lemma {:induction false} HandsMultisetAppend(hands: seq<seq<Card>>, j: nat, c: Card)
    requires j < |hands|
    ensures HandsMultiset(hands[j := hands[j] + [c]]) == HandsMultiset(hands) + multiset{c}
  {
    var h' := hands[j := hands[j] + [c]];
    if j == 0 {
      assert h'[1..] == hands[1..];
    } else {
      HandsMultisetAppend(hands[1..], j - 1, c);
      assert h'[1..] == hands[1..][j - 1 := hands[1..][j - 1] + [c]];
    }
  }

  lemma EmptyHandsMultiset(n: nat)
    ensures HandsMultiset(seq(n, _ => [])) == multiset{}
  {
    if n > 0 {
      var hs: seq<seq<Card>> := seq(n, _ => []);
      EmptyHandsMultiset(n - 1);
      assert hs[1..] == seq(n - 1, _ => []);
    }
  }

  /** Card `t` of `hand` is the card at index `L - 1 - (n * t + m)` of `orig`, of length `L`. */
  ghost predicate HandPopped(hand: seq<Card>, orig: seq<Card>, n: nat, m: nat)
  {
    forall t :: 0 <= t < |hand| ==>
      0 <= |orig| - 1 - (n * t + m) < |orig| && hand[t] == orig[|orig| - 1 - (n * t + m)]
  }

  /**
    Every hand `m` was filled in the order in which `deal` pops the original
    deck `orig`: card `t` of hand `m` is the `n * t + m`-th card popped.
  */
  ghost predicate PoppedInTurn(hands: seq<seq<Card>>, orig: seq<Card>, n: nat)
  {
    forall m :: 0 <= m < |hands| ==> HandPopped(hands[m], orig, n, m)
  }

  /** Appending the next popped card to hand `j` keeps the pop order. */
  lemma PoppedInTurnAppend(hands: seq<seq<Card>>, orig: seq<Card>, n: nat, j: nat, c: Card)
    requires PoppedInTurn(hands, orig, n)
    requires j < |hands|
    requires 0 <= |orig| - 1 - (n * |hands[j]| + j) < |orig|
    requires c == orig[|orig| - 1 - (n * |hands[j]| + j)]
    ensures PoppedInTurn(hands[j := hands[j] + [c]], orig, n)
  {
    var h := hands[j] + [c];
    assert HandPopped(hands[j], orig, n, j);
    forall t | 0 <= t < |h|
      ensures 0 <= |orig| - 1 - (n * t + j) < |orig| && h[t] == orig[|orig| - 1 - (n * t + j)]
    {
      if t < |hands[j]| {
        assert h[t] == hands[j][t];
      }
    }
    assert HandPopped(h, orig, n, j);
  }

  /** Moving one element from one multiset to another keeps their sum. */
  lemma MoveOne<T>(a: multiset<T>, a': multiset<T>, b: multiset<T>, b': multiset<T>, x: T)
    requires a' + multiset{x} == a && b' == b + multiset{x}
    ensures a' + b' == a + b
  {
  }

  /** `s` is the first `len` cards of `orig`. */
  ghost predicate PrefixOf(s: seq<Card>, orig: seq<Card>, len: int)
  {
    0 <= len <= |orig| && |s| == len && forall x :: 0 <= x < len ==> s[x] == orig[x]
  }

  lemma PrefixIsTake(s: seq<Card>, orig: seq<Card>, len: int)
    requires PrefixOf(s, orig, len)
    ensures s == orig[..len]
  {
  }

  /** The count of dealt cards after one more pass: kept apart so the loop's proof stays linear. */
  lemma {:induction false} MulSucc(n: nat, x: int)
    ensures n * (x + 1) == n * x + n
  {
  }

  /** More passes deal more cards. */
  lemma {:induction false} MulMonotone(n: nat, x: int, y: int)
    requires x <= y
    ensures n * x <= n * y
    decreases n
  {
    if n > 0 {
      MulMonotone(n - 1, x, y);
      assert n * x == (n - 1) * x + x;
      assert n * y == (n - 1) * y + y;
    }
  }

  class Deck {
    var cards: seq<Card>

    /** `Deck()`: the 52 cards of `_create_deck`, in suit-then-rank order. */
    constructor ()
      ensures cards == FullDeck()
    {
      cards := FullDeck();
    }

    /** `len(deck)`. */
    function Count(): nat
      reads this
    {
      |cards|
    }

    /**
      `Deck.deal`: raises, changing nothing, when the deck is too small;
      otherwise `cardsPerPlayer` passes each pop one card from the end of the
      list for every player in turn. In pass `i`, player `j` receives the card at
      original index `L - 1 - (n * i + j)`; the hands and the rest of the deck are
      a permutation of the original deck.
    */
    method Deal(numPlayers: nat, cardsPerPlayer: nat) returns (r: Result<seq<seq<Card>>, DealError>)
      modifies this
      ensures r.Err? <==> numPlayers * cardsPerPlayer > |old(cards)|
      ensures r.Err? ==> cards == old(cards)
      ensures r.Ok? ==> |r.value| == numPlayers
      ensures r.Ok? ==> cards == old(cards)[..|old(cards)| - numPlayers * cardsPerPlayer]
      ensures r.Ok? ==> forall j :: 0 <= j < numPlayers ==> |r.value[j]| == cardsPerPlayer
      ensures r.Ok? ==> PoppedInTurn(r.value, old(cards), numPlayers)
      ensures r.Ok? ==> multiset(cards) + HandsMultiset(r.value) == multiset(old(cards))
    {
      if numPlayers * cardsPerPlayer > |cards| {
        return Err(NotEnoughCards);
      }
      var hands := DealRounds(numPlayers, cardsPerPlayer);
      return Ok(hands);
    }

    /** The two loops of `deal`, once the size check has passed. */
    method DealRounds(n: nat, k: nat) returns (hands: seq<seq<Card>>)
      modifies this
      requires n * k <= |cards|
      ensures |hands| == n
      ensures cards == old(cards)[..|old(cards)| - n * k]
      ensures forall j :: 0 <= j < n ==> |hands[j]| == k
      ensures PoppedInTurn(hands, old(cards), n)
      ensures multiset(cards) + HandsMultiset(hands) == multiset(old(cards))
    {
      ghost var orig := cards;
      hands := seq(n, _ => []);
      EmptyHandsMultiset(n);
      ghost var done := 0;
      var i := 0;
      while i < k
        invariant 0 <= i <= k
        invariant |hands| == n
        invariant done == n * i && done <= n * k
        invariant PrefixOf(cards, orig, |orig| - done)
        invariant forall j :: 0 <= j < n ==> |hands[j]| == i
        invariant PoppedInTurn(hands, orig, n)
        invariant multiset(cards) + HandsMultiset(hands) == multiset(orig)
      {
        MulSucc(n, i);
        MulMonotone(n, i + 1, k);
        hands := DealPass(hands, orig, i, done);
        done := done + n;
        i := i + 1;
      }
      PrefixIsTake(cards, orig, |orig| - n * k);
    }

    /** `self.cards.pop()`: removes and returns the last card. */
    method Pop() returns (c: Card)
      modifies this
      requires cards != []
      ensures c == old(cards)[|old(cards)| - 1]
      ensures cards == old(cards)[..|old(cards)| - 1]
      ensures multiset(cards) + multiset{c} == multiset(old(cards))
    {
      c := cards[|cards| - 1];
      assert cards == cards[..|cards| - 1] + [c];
      cards := cards[..|cards| - 1];
    }

    /** `hands[j].append(self.cards.pop())`: the card popped goes to hand `j`. */
    method GiveNext(held: seq<seq<Card>>, j: nat, ghost orig: seq<Card>, ghost base: nat) returns (held': seq<seq<Card>>)
      modifies this
      requires j < |held| && PoppedInTurn(held, orig, |held|)
      requires base == |held| * |held[j]| && base + j < |orig|
      requires PrefixOf(cards, orig, |orig| - (base + j))
      ensures held' == held[j := held[j] + [old(cards)[|old(cards)| - 1]]]
      ensures cards == old(cards)[..|old(cards)| - 1]
      ensures PoppedInTurn(held', orig, |held|)
      ensures multiset(cards) + HandsMultiset(held') == multiset(old(cards)) + HandsMultiset(held)
    {
      ghost var before := cards;
      var c := Pop();
      HandsMultisetAppend(held, j, c);
      PoppedInTurnAppend(held, orig, |held|, j, c);
      held' := held[j := held[j] + [c]];
      MoveOne(multiset(before), multiset(cards), HandsMultiset(held), HandsMultiset(held'), c);
    }

    /** One pass of the inner loop of `deal`: every player in turn gets the card popped from the end. */
    method DealPass(hands: seq<seq<Card>>, ghost orig: seq<Card>, i: nat, ghost base: nat) returns (hands': seq<seq<Card>>)
      modifies this
      requires base == |hands| * i
      requires base + |hands| <= |orig|
      requires PrefixOf(cards, orig, |orig| - base)
      requires forall j :: 0 <= j < |hands| ==> |hands[j]| == i
      requires PoppedInTurn(hands, orig, |hands|)
      requires multiset(cards) + HandsMultiset(hands) == multiset(orig)
      ensures |hands'| == |hands|
      ensures PrefixOf(cards, orig, |orig| - (base + |hands|))
      ensures forall j :: 0 <= j < |hands| ==> |hands'[j]| == i + 1
      ensures PoppedInTurn(hands', orig, |hands|)
      ensures multiset(cards) + HandsMultiset(hands') == multiset(orig)
    {
      var n := |hands|;
      hands' := hands;
      var j := 0;
      while j < n
        invariant 0 <= j <= n
        invariant |hands'| == n
        invariant PrefixOf(cards, orig, |orig| - (base + j))
        invariant forall m :: 0 <= m < j ==> |hands'[m]| == i + 1
        invariant forall m :: j <= m < n ==> |hands'[m]| == i
        invariant PoppedInTurn(hands', orig, n)
        invariant multiset(cards) + HandsMultiset(hands') == multiset(orig)
      {
        hands' := GiveNext(hands', j, orig, base);
        j := j + 1;
      }
    }
  }

  /**
    The app version of `get_trick_winner`. Its extra `elif` only continues the
    loop, so it computes the same winner as the backend version.
  */
  method GetTrickWinner(played: seq<Card>, leadSuit: Suit) returns (r: Result<Card, BackendCards.TrickError>)
    ensures r.Err? <==> played == []
    ensures r.Ok? ==> r.value == played[WinnerIndex(played, leadSuit)]
  {
    if played == [] {
      return Err(BackendCards.EmptyTrick);
    }
    var highest := played[0];
    ghost var k := 0;
    var i := 1;
    while i < |played|
      invariant 1 <= i <= |played|
      invariant k == WinnerIndex(played[..i], leadSuit) && highest == played[k]
    {
      var card := played[i];
      assert played[..i + 1][..i] == played[..i];
      if card.suit == leadSuit && card.value > highest.value {
        highest := card;
        k := i;
      } else if highest.suit != leadSuit && card.suit != leadSuit {
        // `continue`: nothing changes
      }
      i := i + 1;
    }
    assert played[..i] == played;
    return Ok(highest);
  }
}
