/** The poker math of the library module: building and shuffling the deck,
    the percentage pot odds, the target-hand outs counter and the
    rule-of-4-and-2 equity estimate. */
module Poker {
  import opened Cards

  /** The ten hand categories, weakest first. */
  datatype HandRanking =
    | HighCard | Pair | TwoPair | ThreeOfAKind | Straight
    | Flush | FullHouse | FourOfAKind | StraightFlush | RoyalFlush

  function Min(a: int, b: int): int
  {
    if a <= b then a else b
  }

  // ---------------------------------------------------------------------
  // Deck generation

  /** Builds the unshuffled deck with the source's two nested loops: for each
      suit in turn, one card of every rank in ascending order. */
  method BuildUnshuffledDeck() returns (d: Deck)
    ensures d == OrderedDeck()
  {
    d := [];
    for si := 0 to |AllSuits|
      invariant |d| == 13 * si
      invariant forall k :: 0 <= k < |d| ==> d[k] == CardAt(k)
    {
      for ri := 0 to |AllRanks|
        invariant |d| == 13 * si + ri
        invariant forall k :: 0 <= k < |d| ==> d[k] == CardAt(k)
      {
        ghost var k := 13 * si + ri;
        assert k / 13 == si && k % 13 == ri;
        d := d + [Card(AllRanks[ri], AllSuits[si])];
      }
    }
  }

  /** `Math.floor(u * n)`: the index that a `Math.random()` result `u` in
      [0, 1) selects among `n` cards. */
  function RandomIndex(u: real, n: nat): (i: nat)
    requires 0.0 <= u < 1.0 && 0 < n
    ensures i < n
  {
    var x := u * n as real;
    assert n as real - x == (1.0 - u) * n as real;
    assert (1.0 - u) * n as real > 0.0;
    assert 0.0 <= x < n as real;
    x.Floor
  }

  /** The selected index is the integer part of `u * n`. */
  lemma RandomIndexIsFloor(u: real, n: nat)
    requires 0.0 <= u < 1.0 && 0 < n
    ensures RandomIndex(u, n) as real <= u * n as real < RandomIndex(u, n) as real + 1.0
  {
  }

  /** Every index below `n` is selected by some random result, so the index
      choices a shuffle can see are exactly those below the number of cards
      left. */
  lemma EveryIndexReachable(k: nat, n: nat)
    requires k < n
    ensures 0.0 <= k as real / n as real < 1.0
    ensures RandomIndex(k as real / n as real, n) == k
  {
    assert (k as real / n as real) * n as real == k as real;
  }

  /** The index choices of a shuffle of `n` cards: choice `k` is made among
      the `n - k` cards still unshuffled. */
  predicate ValidChoices(choices: seq<nat>, n: nat)
  {
    n <= |choices| && forall k :: 0 <= k < n ==> choices[k] < n - k
  }

  /** After `k` steps, the remaining choices fit the remaining cards. */
  lemma ValidChoicesSuffix(choices: seq<nat>, n: nat, k: nat)
    requires ValidChoices(choices, n) && k <= n
    ensures ValidChoices(choices[k..], n - k)
  {
    forall j | 0 <= j < n - k ensures choices[k..][j] < n - k - j {
      assert choices[k..][j] == choices[k + j];
    }
  }

  /** `splice(i, 1)`: the sequence without its element at `i`. */
  function RemoveAt<T>(s: seq<T>, i: nat): (r: seq<T>)
    requires i < |s|
    ensures |r| == |s| - 1
    ensures multiset(r) + multiset{s[i]} == multiset(s)
    ensures forall k :: 0 <= k < i ==> r[k] == s[k]
    ensures forall k :: i <= k < |r| ==> r[k] == s[k + 1]
  {
    assert s == s[..i] + [s[i]] + s[i + 1..];
    s[..i] + s[i + 1..]
  }

  /** The shuffle as a recursive definition: choice `k` removes the card at
      that index from the unshuffled cards, and it becomes the next card of
      the result. */
  function Shuffle(unshuffled: Deck, choices: seq<nat>): Deck
    requires ValidChoices(choices, |unshuffled|)
    decreases |unshuffled|
  {
    if unshuffled == [] then []
    else
      ValidChoicesSuffix(choices, |unshuffled|, 1);
      [unshuffled[choices[0]]] + Shuffle(RemoveAt(unshuffled, choices[0]), choices[1..])
  }

  /** Whatever the choices, the shuffle only reorders its input. */
  lemma {:induction false} ShuffleIsPermutation(unshuffled: Deck, choices: seq<nat>)
    requires ValidChoices(choices, |unshuffled|)
    ensures multiset(Shuffle(unshuffled, choices)) == multiset(unshuffled)
    decreases |unshuffled|
  {
    if unshuffled != [] {
      ValidChoicesSuffix(choices, |unshuffled|, 1);
      ShuffleIsPermutation(RemoveAt(unshuffled, choices[0]), choices[1..]);
    }
  }

  /** One step of the shuffle: moving the chosen card to the shuffled cards
      does not change the final result. */
  lemma ShuffleStep(shuffled: Deck, unshuffled: Deck, choices: seq<nat>)
    requires 0 < |unshuffled| && ValidChoices(choices, |unshuffled|)
    ensures choices[0] < |unshuffled|
    ensures ValidChoices(choices[1..], |unshuffled| - 1)
    ensures (shuffled + [unshuffled[choices[0]]]) + Shuffle(RemoveAt(unshuffled, choices[0]), choices[1..])
      == shuffled + Shuffle(unshuffled, choices)
  {
    ValidChoicesSuffix(choices, |unshuffled|, 1);
    var card := unshuffled[choices[0]];
    var rest := Shuffle(RemoveAt(unshuffled, choices[0]), choices[1..]);
    assert (shuffled + [card]) + rest == shuffled + ([card] + rest);
  }

  /** `generateDeck`: builds the unshuffled deck and moves one randomly chosen
      card at a time to the shuffled deck until none is left. `choices[k]` is
      the value of `Math.floor(Math.random() * unshuffledDeck.length)` in
      round `k`. The result is always a full deck, one card of each
      (rank, suit) pair. */
  method GenerateDeck(choices: seq<nat>) returns (shuffledDeck: Deck)
    requires ValidChoices(choices, 52)
    ensures shuffledDeck == Shuffle(OrderedDeck(), choices)
    ensures multiset(shuffledDeck) == multiset(OrderedDeck())
    ensures |shuffledDeck| == 52 && Distinct(shuffledDeck)
    ensures forall c: Card :: c in shuffledDeck
  {
    var unshuffledDeck := BuildUnshuffledDeck();
    ghost var result := Shuffle(unshuffledDeck, choices);
    var pending := choices;
    shuffledDeck := [];
    while |unshuffledDeck| > 0
      invariant |shuffledDeck| + |unshuffledDeck| == 52
      invariant ValidChoices(pending, |unshuffledDeck|)
      invariant multiset(shuffledDeck) + multiset(unshuffledDeck) == multiset(OrderedDeck())
      invariant shuffledDeck + Shuffle(unshuffledDeck, pending) == result
      decreases |unshuffledDeck|
    {
      ShuffleStep(shuffledDeck, unshuffledDeck, pending);
      var cardIndex := pending[0];
      var card := unshuffledDeck[cardIndex];
      var rest := RemoveAt(unshuffledDeck, cardIndex);
      assert multiset(shuffledDeck + [card]) == multiset(shuffledDeck) + multiset{card};
      shuffledDeck := shuffledDeck + [card];
      unshuffledDeck := rest;
      pending := pending[1..];
    }
    assert shuffledDeck + Shuffle(unshuffledDeck, pending) == shuffledDeck;
    PermutationIsFullDeck(shuffledDeck);
  }

  // ---------------------------------------------------------------------
  // Pot odds and equity

  /** `calculatePotOdds`: the call as a percentage of the pot after calling;
      0 when there is nothing to call or the pot is negative. */
  function PotOdds(potAmount: real, callAmount: real): (r: real)
    ensures callAmount <= 0.0 || potAmount < 0.0 ==> r == 0.0
    ensures callAmount > 0.0 && potAmount >= 0.0 ==>
      0.0 < r <= 100.0 && r * (potAmount + callAmount) == 100.0 * callAmount
    ensures r == 100.0 <==> callAmount > 0.0 && potAmount == 0.0
  {
    if callAmount <= 0.0 || potAmount < 0.0 then 0.0
    else (callAmount / (potAmount + callAmount)) * 100.0
  }

  /** A call of 50 into a pot of 100 is a third of the final pot. */
  lemma PotOddsExample()
    ensures PotOdds(100.0, 50.0) == 100.0 / 3.0
  {
  }

  /** For a fixed call, a larger pot never makes the price worse. */
  lemma PotOddsAntitoneInPot(pot1: real, pot2: real, callAmount: real)
    requires 0.0 <= pot1 <= pot2
    ensures PotOdds(pot2, callAmount) <= PotOdds(pot1, callAmount)
  {
    if callAmount > 0.0 {
      var r1, r2 := PotOdds(pot1, callAmount), PotOdds(pot2, callAmount);
      assert r1 * (pot1 + callAmount) == r2 * (pot2 + callAmount);
      assert (r1 - r2) * (pot1 + callAmount) == r2 * (pot2 - pot1);
      assert r2 * (pot2 - pot1) >= 0.0;
    }
  }

  /** The "rule of 4 and 2" multiplier: 4 with two cards to come, else 2. */
  function EquityMultiplier(cardsToSee: int): int
  {
    if cardsToSee == 2 then 4 else if cardsToSee == 1 then 2 else 2
  }

  /** `calculateEquity`: outs times the multiplier, capped at 100; 0 when
      there are no outs or no cards to come. */
  function Equity(outs: int, cardsToSee: int): (r: int)
    ensures 0 <= r <= 100
    ensures r > 0 <==> outs > 0 && cardsToSee > 0
    ensures cardsToSee == 2 && 0 <= outs <= 25 ==> r == 4 * outs
    ensures cardsToSee > 0 && cardsToSee != 2 && 0 <= outs <= 50 ==> r == 2 * outs
    ensures cardsToSee == 2 && outs >= 25 ==> r == 100
    ensures cardsToSee > 0 && outs >= 50 ==> r == 100
  {
    if outs <= 0 || cardsToSee <= 0 then 0
    else Min(outs * EquityMultiplier(cardsToSee), 100)
  }

  /** Nine outs on the flop (two cards to come) are worth 36 percent. */
  lemma EquityExample()
    ensures Equity(9, 2) == 36
    ensures Equity(9, 1) == 18
  {
  }

  /** More outs never lower the estimate. */
  lemma EquityMonotoneInOuts(outs1: int, outs2: int, cardsToSee: int)
    requires outs1 <= outs2
    ensures Equity(outs1, cardsToSee) <= Equity(outs2, cardsToSee)
  {
    if outs1 > 0 && cardsToSee > 0 {
      var m := EquityMultiplier(cardsToSee);
      assert outs1 * m <= outs2 * m;
    }
  }

  // ---------------------------------------------------------------------
  // Outs

  /** How many of `cards` have rank `r`: the entry of the source's rank-count
      map, with a missing entry read as 0. */
  function RankCount(cards: seq<Card>, r: Rank): (n: nat)
    ensures n <= |cards|
    ensures n > 0 <==> exists c :: c in cards && c.rank == r
  {
    if cards == [] then 0
    else (if cards[0].rank == r then 1 else 0) + RankCount(cards[1..], r)
  }

  /** The "Pair" branch of the loop over hole cards: 3 outs for each hole card
      whose rank appears fewer than twice among the known cards. */
  function PairOuts(hole: seq<Card>, known: seq<Card>): (n: nat)
    ensures n % 3 == 0 && n <= 3 * |hole|
  {
    if hole == [] then 0
    else (if RankCount(known, hole[0].rank) < 2 then 3 else 0) + PairOuts(hole[1..], known)
  }

  /** The "Three of a Kind" branch of the loop over hole cards: 2 outs for each
      hole card whose rank appears once or twice among the known cards. */
  function TripsOuts(hole: seq<Card>, known: seq<Card>): (n: nat)
    ensures n % 2 == 0 && n <= 2 * |hole|
  {
    if hole == [] then 0
    else
      var count := RankCount(known, hole[0].rank);
      (if count == 2 then 2 else if count == 1 then 2 else 0) + TripsOuts(hole[1..], known)
  }

  /** The outs before the clamp: only "Pair" and "Three of a Kind" are
      computed, every other target falls back to 6. */
  function RawOuts(hole: seq<Card>, board: seq<Card>, target: HandRanking): nat
  {
    match target
    case Pair => PairOuts(hole, hole + board)
    case ThreeOfAKind => TripsOuts(hole, hole + board)
    case _ => 6
  }

  /** The setup `countOuts` accepts: exactly two hole cards and a board that
      is empty or has at least a complete flop. */
  predicate ValidSetup(hole: seq<Card>, board: seq<Card>)
  {
    |hole| == 2 && !(0 < |board| < 3)
  }

  /** `countOuts`: 0 for an invalid setup, otherwise the outs of the target
      clamped to the size of the remaining deck. */
  function CountOuts(hole: seq<Card>, board: seq<Card>, target: HandRanking, remainingDeck: Deck): (r: nat)
    ensures r <= |remainingDeck|
    ensures !ValidSetup(hole, board) ==> r == 0
    ensures ValidSetup(hole, board) && target == Pair ==> r <= 6 && (r % 3 == 0 || r == |remainingDeck|)
    ensures ValidSetup(hole, board) && target == ThreeOfAKind ==> r <= 4 && (r % 2 == 0 || r == |remainingDeck|)
    ensures ValidSetup(hole, board) && target != Pair && target != ThreeOfAKind ==> r == Min(6, |remainingDeck|)
  {
    if |hole| != 2 then 0
    else if |board| > 0 && |board| < 3 then 0
    else Min(RawOuts(hole, board, target), |remainingDeck|)
  }

  /** A hole card is one of the known cards, so its rank is counted at least once. */
  lemma HoleRankCounted(hole: seq<Card>, board: seq<Card>, i: nat)
    requires i < |hole|
    ensures RankCount(hole + board, hole[i].rank) >= 1
  {
    assert (hole + board)[i] == hole[i];
  }

  /** 1 if the condition holds, else 0. */
  function Indicator(b: bool): nat
  {
    if b then 1 else 0
  }

  /** For "Pair", the outs are 3 per hole card whose rank is not yet paired
      among the known cards, before the clamp. */
  lemma CountOutsPair(hole: seq<Card>, board: seq<Card>, remainingDeck: Deck)
    requires ValidSetup(hole, board)
    ensures var known := hole + board;
      CountOuts(hole, board, Pair, remainingDeck)
      == Min(3 * (Indicator(RankCount(known, hole[0].rank) < 2)
                  + Indicator(RankCount(known, hole[1].rank) < 2)),
             |remainingDeck|)
  {
    var known := hole + board;
    var tail := hole[1..];
    assert tail[0] == hole[1] && tail[1..] == [];
    assert PairOuts(tail, known) == (if RankCount(known, hole[1].rank) < 2 then 3 else 0);
  }

  /** A pocket pair already is a pair: no outs toward "Pair". */
  lemma PocketPairHasNoPairOuts(hole: seq<Card>, board: seq<Card>, remainingDeck: Deck)
    requires ValidSetup(hole, board)
    requires hole[0].rank == hole[1].rank
    ensures CountOuts(hole, board, Pair, remainingDeck) == 0
  {
    var known := hole + board;
    assert known == [hole[0], hole[1]] + board;
    assert known[1..] == [hole[1]] + board;
    assert RankCount(known, hole[0].rank) >= 2;
    CountOutsPair(hole, board, remainingDeck);
  }

  /** For "Three of a Kind", the outs are 2 per hole card whose rank appears at
      most twice among the known cards, before the clamp. */
  lemma CountOutsTrips(hole: seq<Card>, board: seq<Card>, remainingDeck: Deck)
    requires ValidSetup(hole, board)
    ensures var known := hole + board;
      CountOuts(hole, board, ThreeOfAKind, remainingDeck)
      == Min(2 * (Indicator(RankCount(known, hole[0].rank) <= 2)
                  + Indicator(RankCount(known, hole[1].rank) <= 2)),
             |remainingDeck|)
  {
    var known := hole + board;
    var tail := hole[1..];
    HoleRankCounted(hole, board, 0);
    HoleRankCounted(hole, board, 1);
    assert tail[0] == hole[1] && tail[1..] == [];
    assert TripsOuts(tail, known) == (if RankCount(known, hole[1].rank) <= 2 then 2 else 0);
  }

  /** With a pocket pair and no card of its rank on the board, each hole card is
      credited separately, so "Three of a Kind" gets 4 outs although only two
      cards of that rank are left. */
  lemma PocketPairTripsOuts(hole: seq<Card>, board: seq<Card>, remainingDeck: Deck)
    requires ValidSetup(hole, board)
    requires hole[0].rank == hole[1].rank
    requires forall c :: c in board ==> c.rank != hole[0].rank
    requires |remainingDeck| >= 4
    ensures CountOuts(hole, board, ThreeOfAKind, remainingDeck) == 4
  {
    var known := hole + board;
    assert known == [hole[0], hole[1]] + board;
    assert known[1..] == [hole[1]] + board;
    assert known[1..][1..] == board;
    assert RankCount(board, hole[0].rank) == 0;
    CountOutsTrips(hole, board, remainingDeck);
  }

  /** Only the size of the remaining deck matters, never which cards are in it. */
  lemma CountOutsDependsOnDeckSizeOnly(hole: seq<Card>, board: seq<Card>, target: HandRanking, deck1: Deck, deck2: Deck)
    requires |deck1| == |deck2|
    ensures CountOuts(hole, board, target, deck1) == CountOuts(hole, board, target, deck2)
  {
  }
}
