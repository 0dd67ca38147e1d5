/**
  The card value type shared by both versions of `cards.py`: suit and rank
  validation, penalty points, the `rank+glyph` token format, the ordered
  52-card deck and the trick-winner rule (as a specification function; the two
  loops that compute it live in BackendCards and AppCards).
*/
module Cards {
  import opened Wrappers

  datatype Suit = Hearts | Diamonds | Clubs | Spades

  /** The numeric value of a rank: 2..10, J = 11, Q = 12, K = 13, A = 14. */
  type Value = v: int | 2 <= v <= 14 witness 2

  /** A card is its suit and its value; the rank string is `RankName(value)`. */
  datatype Card = Card(suit: Suit, value: Value)

  datatype CardError = InvalidSuit | InvalidRank | InvalidFormat | InvalidSymbol

  /** The keys of `Card.SUITS`, in the dictionary's order. */
  const SuitNames: seq<string> := ["Hearts", "Diamonds", "Clubs", "Spades"]

  /** The keys of `Card.RANKS`, in the dictionary's order; the value of `RankNames[i]` is `i + 2`. */
  const RankNames: seq<string> := ["2", "3", "4", "5", "6", "7", "8", "9", "10", "J", "Q", "K", "A"]

  const QueenOfSpades := Card(Spades, 12)
  const TwoOfClubs := Card(Clubs, 2)

  function SuitName(s: Suit): string
  {
    match s
    case Hearts => "Hearts"
    case Diamonds => "Diamonds"
    case Clubs => "Clubs"
    case Spades => "Spades"
  }

  /** The glyph `Card.SUITS` maps each suit name to. */
  function Glyph(s: Suit): char
  {
    match s
    case Hearts => '♥'
    case Diamonds => '♦'
    case Clubs => '♣'
    case Spades => '♠'
  }

  function RankName(v: Value): string
  {
    RankNames[v - 2]
  }

  /** `Card.SUITS` lookup by name. */
  function SuitFromName(name: string): (r: Option<Suit>)
    ensures r.Some? <==> name in SuitNames
    ensures r.Some? ==> SuitName(r.value) == name
  {
    if name == "Hearts" then Some(Hearts)
    else if name == "Diamonds" then Some(Diamonds)
    else if name == "Clubs" then Some(Clubs)
    else if name == "Spades" then Some(Spades)
    else None
  }

  /** `Card.SUIT_MAP_REV` lookup by glyph. */
  function SuitFromGlyph(g: char): (r: Option<Suit>)
    ensures r.Some? ==> Glyph(r.value) == g
    ensures r.None? ==> forall s: Suit :: Glyph(s) != g
  {
    if g == '♥' then Some(Hearts)
    else if g == '♦' then Some(Diamonds)
    else if g == '♣' then Some(Clubs)
    else if g == '♠' then Some(Spades)
    else None
  }

  /** `Card.RANKS` lookup. */
  function RankValue(rank: string): (r: Option<Value>)
    ensures r.Some? <==> rank in RankNames
    ensures r.Some? ==> RankName(r.value) == rank
  {
    if rank == "2" then Some(2)
    else if rank == "3" then Some(3)
    else if rank == "4" then Some(4)
    else if rank == "5" then Some(5)
    else if rank == "6" then Some(6)
    else if rank == "7" then Some(7)
    else if rank == "8" then Some(8)
    else if rank == "9" then Some(9)
    else if rank == "10" then Some(10)
    else if rank == "J" then Some(11)
    else if rank == "Q" then Some(12)
    else if rank == "K" then Some(13)
    else if rank == "A" then Some(14)
    else None
  }

  /** Looking up the name of a value gives the value back. */
  lemma RankValueOfName(v: Value)
    ensures RankValue(RankName(v)) == Some(v)
  {
    if v == 2 {} else if v == 3 {} else if v == 4 {} else if v == 5 {}
    else if v == 6 {} else if v == 7 {} else if v == 8 {} else if v == 9 {}
    else if v == 10 {} else if v == 11 {} else if v == 12 {} else if v == 13 {}
  }

  /** The rank names are pairwise distinct, so a rank name determines its value. */
  lemma RankNameInjective(v: Value, w: Value)
    requires RankName(v) == RankName(w)
    ensures v == w
  {
    RankValueOfName(v);
    RankValueOfName(w);
  }

  /** `Card.__init__`: the suit is checked before the rank; `value` is the rank's number. */
  function NewCard(suit: string, rank: string): (r: Result<Card, CardError>)
    ensures r.Ok? <==> suit in SuitNames && rank in RankNames
    ensures suit !in SuitNames ==> r == Err(InvalidSuit)
    ensures suit in SuitNames && rank !in RankNames ==> r == Err(InvalidRank)
    ensures r.Ok? ==> SuitName(r.value.suit) == suit && RankName(r.value.value) == rank
  {
    match SuitFromName(suit)
    case None => Err(InvalidSuit)
    case Some(s) =>
      match RankValue(rank)
      case None => Err(InvalidRank)
      case Some(v) => Ok(Card(s, v))
  }

  /** `Card.points`: every heart is worth 1, the queen of spades 13, every other card 0. */
  function Points(c: Card): (p: nat)
    ensures p == 1 <==> c.suit == Hearts
    ensures p == 13 <==> c == QueenOfSpades
    ensures p == 0 <==> c.suit != Hearts && c != QueenOfSpades
  {
    if c.suit == Hearts then 1
    else if c.suit == Spades && c.value == 12 then 13
    else 0
  }

  /** `Card.to_str` (and the app version's `__repr__`): the rank name followed by the suit glyph. */
  function ToStr(c: Card): (t: string)
    ensures |t| >= 2 && t[|t| - 1] == Glyph(c.suit)
    ensures t[..|t| - 1] in RankNames
  {
    RankName(c.value) + [Glyph(c.suit)]
  }

  /**
    `Card.from_str`: strings shorter than two characters and strings whose last
    character is not a suit glyph are refused; otherwise the constructor decides.
    Every accepted string is the canonical token of the card it yields.
  */
  function FromStr(s: string): (r: Result<Card, CardError>)
    ensures |s| < 2 ==> r == Err(InvalidFormat)
    ensures |s| >= 2 && SuitFromGlyph(s[|s| - 1]).None? ==> r == Err(InvalidSymbol)
    ensures r.Ok? ==> ToStr(r.value) == s
  {
    if |s| < 2 then Err(InvalidFormat)
    else
      match SuitFromGlyph(s[|s| - 1])
      case None => Err(InvalidSymbol)
      case Some(suit) =>
        var r := NewCard(SuitName(suit), s[..|s| - 1]);
        assert r.Ok? ==> r.value.suit == suit;
        assert s == s[..|s| - 1] + [s[|s| - 1]];
        r
  }

  /** Parsing the token of a card gives the card back. */
  lemma FromStrToStr(c: Card)
    ensures FromStr(ToStr(c)) == Ok(c)
  {
    var t := ToStr(c);
    assert t[..|t| - 1] == RankName(c.value);
    assert SuitFromGlyph(Glyph(c.suit)) == Some(c.suit);
    var r := FromStr(t);
    assert r == NewCard(SuitName(c.suit), RankName(c.value));
    assert RankName(c.value) in RankNames;
    assert r.Ok?;
    RankNameInjective(r.value.value, c.value);
  }

  /** Distinct cards have distinct tokens. */
  lemma ToStrInjective(a: Card, b: Card)
    requires ToStr(a) == ToStr(b)
    ensures a == b
  {
    FromStrToStr(a);
    FromStrToStr(b);
  }

  /** `Card.__eq__`: two cards are equal when their suit names and rank names are. */
  function SameCard(a: Card, b: Card): (r: bool)
    ensures r <==> a == b
  {
    if SuitName(a.suit) == SuitName(b.suit) && RankName(a.value) == RankName(b.value) then
      RankNameInjective(a.value, b.value);
      true
    else
      false
  }

  /**
    `Card.__hash__` hashes the pair (suit name, rank name): a card shares its
    key exactly with the cards `__eq__` calls equal to it.
  */
  function HashKey(c: Card): (k: (string, string))
    ensures forall d: Card :: (SuitName(d.suit), RankName(d.value)) == k <==> SameCard(c, d)
  {
    (SuitName(c.suit), RankName(c.value))
  }

  // ---------------------------------------------------------------------------
  // The deck
  // ---------------------------------------------------------------------------

  /** The thirteen cards of one suit, in rank order. */
  function SuitCards(s: Suit): (r: seq<Card>)
    ensures |r| == 13
  {
    seq(13, i requires 0 <= i < 13 => Card(s, i + 2))
  }

  /** `[Card(suit, rank) for suit in SUITS for rank in RANKS]`: suits outer, ranks inner. */
  function FullDeck(): seq<Card>
  {
    SuitCards(Hearts) + SuitCards(Diamonds) + SuitCards(Clubs) + SuitCards(Spades)
  }

  function SuitIndex(s: Suit): nat
  {
    match s
    case Hearts => 0
    case Diamonds => 1
    case Clubs => 2
    case Spades => 3
  }

  /** Where each card sits in the ordered deck. */
  lemma FullDeckAt(c: Card)
    ensures |FullDeck()| == 52
    ensures FullDeck()[13 * SuitIndex(c.suit) + c.value - 2] == c
  {
    var d := FullDeck();
    var k := 13 * SuitIndex(c.suit) + c.value - 2;
    match c.suit
    case Hearts => assert d[k] == SuitCards(Hearts)[k];
    case Diamonds => assert d[k] == SuitCards(Diamonds)[k - 13];
    case Clubs => assert d[k] == SuitCards(Clubs)[k - 26];
    case Spades => assert d[k] == SuitCards(Spades)[k - 39];
  }

  /** `_create_deck` yields 52 pairwise-distinct cards, one for every (suit, rank). */
  lemma FullDeckIsEveryCardOnce()
    ensures |FullDeck()| == 52
    ensures forall c: Card :: c in FullDeck()
    ensures forall i, j :: 0 <= i < j < 52 ==> FullDeck()[i] != FullDeck()[j]
  {
    var d := FullDeck();
    forall c: Card ensures c in d {
      FullDeckAt(c);
    }
    forall i, j | 0 <= i < j < 52 ensures d[i] != d[j] {
      var ci, cj := d[i], d[j];
      FullDeckAt(ci);
      FullDeckAt(cj);
      // a card's position is determined by the card, so equal cards would share it
      assert 13 * SuitIndex(ci.suit) + ci.value - 2 == i by {
        assert i < 13 || i < 26 || i < 39 || i < 52;
      }
      assert 13 * SuitIndex(cj.suit) + cj.value - 2 == j by {
        assert j < 13 || j < 26 || j < 39 || j < 52;
      }
    }
  }

  /** The sum of `points` over a list of cards. */
  function TotalPoints(cs: seq<Card>): (t: nat)
    ensures t <= 13 * |cs|
    ensures t == 0 <==> forall i :: 0 <= i < |cs| ==> cs[i].suit != Hearts && cs[i] != QueenOfSpades
  {
    if cs == [] then 0
    else
      assert forall i :: 1 <= i < |cs| ==> cs[i] == cs[1..][i - 1];
      Points(cs[0]) + TotalPoints(cs[1..])
  }

  lemma {:induction false} TotalPointsAppend(a: seq<Card>, b: seq<Card>)
    ensures TotalPoints(a + b) == TotalPoints(a) + TotalPoints(b)
  {
    if a == [] {
      assert a + b == b;
    } else {
      assert (a + b)[1..] == a[1..] + b;
      TotalPointsAppend(a[1..], b);
    }
  }

  /** A list whose cards all carry `p` points totals `p` times its length. */
  lemma {:induction false} TotalPointsUniform(cs: seq<Card>, p: nat)
    requires forall i :: 0 <= i < |cs| ==> Points(cs[i]) == p
    ensures TotalPoints(cs) == p * |cs|
  {
    if cs != [] {
      TotalPointsUniform(cs[1..], p);
    }
  }

  /** Thirteen hearts make 13 points, the spades hold the queen's 13, the other suits none. */
  lemma SuitPoints(s: Suit)
    ensures TotalPoints(SuitCards(s)) == if s == Hearts || s == Spades then 13 else 0
  {
    var cs := SuitCards(s);
    if s != Spades {
      TotalPointsUniform(cs, if s == Hearts then 1 else 0);
    } else {
      var low, high := cs[..10], cs[11..];
      assert cs == low + [QueenOfSpades] + high;
      TotalPointsUniform(low, 0);
      TotalPointsUniform(high, 0);
      TotalPointsAppend(low, [QueenOfSpades]);
      TotalPointsAppend(low + [QueenOfSpades], high);
    }
  }

  /** The whole deck carries 26 penalty points: 13 hearts and the queen of spades. */
  lemma FullDeckPoints()
    ensures TotalPoints(FullDeck()) == 26
  {
    var h, di, cl, sp := SuitCards(Hearts), SuitCards(Diamonds), SuitCards(Clubs), SuitCards(Spades);
    SuitPoints(Hearts);
    SuitPoints(Diamonds);
    SuitPoints(Clubs);
    SuitPoints(Spades);
    TotalPointsAppend(h, di);
    TotalPointsAppend(h + di, cl);
    TotalPointsAppend(h + di + cl, sp);
  }

  // ---------------------------------------------------------------------------
  // Trick winner
  // ---------------------------------------------------------------------------

  /**
    The index of the card `get_trick_winner` returns: start from the first card
    and move to a later card only when it has the lead suit and a strictly
    greater value than the card held so far.
  */
  function WinnerIndex(played: seq<Card>, lead: Suit): (k: nat)
    requires |played| > 0
    ensures k < |played|
    ensures k == 0 || played[k].suit == lead
    decreases |played|
  {
    if |played| == 1 then 0
    else
      var k := WinnerIndex(played[..|played| - 1], lead);
      var last := played[|played| - 1];
      if last.suit == lead && last.value > played[k].value then |played| - 1 else k
  }

  /**
    When the lead suit is the first card's suit, the winner has the lead suit,
    beats or ties every lead-suit card, and strictly beats every lead-suit card
    before it: among equal values the earliest wins.
  */
  lemma {:induction false} WinnerIsHighestOfLead(played: seq<Card>, lead: Suit)
    requires |played| > 0 && played[0].suit == lead
    ensures var k := WinnerIndex(played, lead);
      && played[k].suit == lead
      && (forall j :: 0 <= j < |played| && played[j].suit == lead ==> played[j].value <= played[k].value)
      && (forall j :: 0 <= j < k && played[j].suit == lead ==> played[j].value < played[k].value)
  {
    if |played| > 1 {
      var init := played[..|played| - 1];
      WinnerIsHighestOfLead(init, lead);
      var k0 := WinnerIndex(init, lead);
      assert forall j :: 0 <= j < |init| ==> init[j] == played[j];
    }
  }
}
