/** The card domain shared by every other module: suits, ranks, cards, decks,
    the ordered 52-card deck, and the facts about duplicates and multisets
    that the deck shuffle and the card-selection state machine rely on. */
module Cards {

  /** An empty or filled value; a board or hole slot is an `Option<Card>`. */
  datatype Option<+T> = None | Some(value: T)

  /** Hearts, diamonds, clubs and spades. */
  datatype Suit = Hearts | Diamonds | Clubs | Spades

  /** Ranks 2..14, where 11 is the jack, 12 the queen, 13 the king, 14 the ace. */
  type Rank = r: int | 2 <= r <= 14 witness 2

  /** Equality is structural: same rank and same suit. */
  datatype Card = Card(rank: Rank, suit: Suit)

  type Deck = seq<Card>

  /** The suits in the order the deck builder visits them. */
  const AllSuits: seq<Suit> := [Hearts, Diamonds, Clubs, Spades]

  /** The ranks in the order the deck builder visits them. */
  const AllRanks: seq<Rank> := [2, 3, 4, 5, 6, 7, 8, 9, 10, 11, 12, 13, 14]

  /** Position of a suit in `AllSuits`. */
  function SuitIndex(s: Suit): (i: nat)
    ensures i < 4 && AllSuits[i] == s
  {
    match s
    case Hearts => 0
    case Diamonds => 1
    case Clubs => 2
    case Spades => 3
  }

  /** The card at position `k` of the unshuffled deck. */
  function CardAt(k: nat): Card
    requires k < 52
  {
    Card(k % 13 + 2, AllSuits[k / 13])
  }

  /** The unshuffled deck: suit by suit, ranks ascending within a suit. */
  function OrderedDeck(): Deck
  {
    seq(52, k requires 0 <= k < 52 => CardAt(k))
  }

  /** No element occurs twice. */
  predicate Distinct<T(==)>(s: seq<T>)
  {
    forall i, j :: 0 <= i < j < |s| ==> s[i] != s[j]
  }

  /** Every card has exactly one place in the unshuffled deck, namely the
      block of its suit at the offset of its rank. */
  lemma OrderedDeckPosition(c: Card)
    ensures |OrderedDeck()| == 52
    ensures OrderedDeck()[13 * SuitIndex(c.suit) + c.rank - 2] == c
  {
    var k := 13 * SuitIndex(c.suit) + c.rank - 2;
    assert k / 13 == SuitIndex(c.suit) && k % 13 == c.rank - 2;
  }

  /** The unshuffled deck holds every card. */
  lemma OrderedDeckComplete()
    ensures forall c: Card :: c in OrderedDeck()
  {
    forall c: Card
      ensures c in OrderedDeck()
    {
      OrderedDeckPosition(c);
    }
  }

  /** The unshuffled deck holds no card twice. */
  lemma OrderedDeckDistinct()
    ensures Distinct(OrderedDeck())
  {
    var d := OrderedDeck();
    forall i, j | 0 <= i < j < |d|
      ensures d[i] != d[j]
    {
      assert i == 13 * (i / 13) + i % 13 && j == 13 * (j / 13) + j % 13;
      if i / 13 == j / 13 {
        assert d[i].rank != d[j].rank;
      } else {
        assert d[i].suit == AllSuits[i / 13] != AllSuits[j / 13] == d[j].suit;
      }
    }
  }

  /** A sequence is duplicate-free exactly when no element has multiplicity
      above one. */
  lemma {:induction false} DistinctIffMultiplicity<T>(s: seq<T>)
    ensures Distinct(s) <==> forall x :: multiset(s)[x] <= 1
  {
    if s != [] {
      var t := s[1..];
      assert s == [s[0]] + t;
      DistinctIffMultiplicity(t);
      if Distinct(s) {
        assert Distinct(t) by {
          forall i, j | 0 <= i < j < |t| ensures t[i] != t[j] {
            assert s[i + 1] != s[j + 1];
          }
        }
        assert s[0] !in t by {
          forall j | 0 <= j < |t| ensures t[j] != s[0] {
            assert t[j] == s[j + 1] != s[0];
          }
        }
        forall x ensures multiset(s)[x] <= 1 {
          assert multiset(s)[x] == multiset([s[0]])[x] + multiset(t)[x];
        }
      }
      if forall x :: multiset(s)[x] <= 1 {
        forall x ensures multiset(t)[x] <= 1 {
          assert multiset(s)[x] == multiset([s[0]])[x] + multiset(t)[x];
        }
        assert s[0] !in t by {
          assert multiset(s)[s[0]] == 1 + multiset(t)[s[0]];
        }
        forall i, j | 0 <= i < j < |s| ensures s[i] != s[j] {
          if i == 0 {
            assert s[j] == t[j - 1];
          } else {
            assert s[i] == t[i - 1] && s[j] == t[j - 1];
          }
        }
      }
    }
  }

  /** Each card occurs exactly once in the unshuffled deck. */
  lemma OrderedDeckMultiplicity(c: Card)
    ensures multiset(OrderedDeck())[c] == 1
  {
    OrderedDeckComplete();
    OrderedDeckDistinct();
    DistinctIffMultiplicity(OrderedDeck());
    assert c in OrderedDeck();
    assert multiset(OrderedDeck())[c] > 0;
  }

  /** Anything with the multiset of the unshuffled deck is a full deck:
      52 cards, one of each (rank, suit) pair, none repeated. */
  lemma PermutationIsFullDeck(s: Deck)
    requires multiset(s) == multiset(OrderedDeck())
    ensures |s| == 52
    ensures Distinct(s)
    ensures forall c: Card :: c in s
  {
    assert |s| == |multiset(s)| == |multiset(OrderedDeck())| == 52;
    forall x ensures multiset(s)[x] <= 1 {
      OrderedDeckMultiplicity(x);
    }
    DistinctIffMultiplicity(s);
    forall c: Card ensures c in s {
      OrderedDeckMultiplicity(c);
    }
  }
}
