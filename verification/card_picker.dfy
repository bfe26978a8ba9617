/** The card picker: which suits and ranks the remaining deck still offers,
    and the two-step selection (a suit, then a rank) that emits one card. */
module CardPicker {
  import opened Cards

  /** `availableCards`: the suits present in the deck and, for each of them,
      the ranks present in that suit. */
  datatype Available = Available(suits: set<Suit>, ranksBySuit: map<Suit, set<Rank>>)

  /** One step of the reduce over the deck: the card's suit gets an entry on
      its first card, and the card's rank is added to that entry. */
  function AddToRanks(acc: map<Suit, set<Rank>>, card: Card): map<Suit, set<Rank>>
  {
    if card.suit in acc then acc[card.suit := acc[card.suit] + {card.rank}]
    else acc[card.suit := {card.rank}]
  }

  /** The reduce over the deck, left to right, from the empty record. */
  function RanksBySuit(deck: Deck): (m: map<Suit, set<Rank>>)
    ensures forall s :: s in m <==> exists c :: c in deck && c.suit == s
    ensures forall s, r :: s in m ==> (r in m[s] <==> Card(r, s) in deck)
  {
    if deck == [] then map[]
    else
      var init := deck[..|deck| - 1];
      assert deck == init + [deck[|deck| - 1]];
      AddToRanks(RanksBySuit(init), deck[|deck| - 1])
  }

  /** The availability record computed from the deck. Its suits are the keys
      of its rank map, and a (rank, suit) pair is offered exactly when that
      card is still in the deck. */
  function AvailableCards(deck: Deck): (a: Available)
    ensures a.suits == a.ranksBySuit.Keys
    ensures forall s :: s in a.suits <==> exists c :: c in deck && c.suit == s
    ensures forall s, r :: Card(r, s) in deck <==> s in a.suits && r in a.ranksBySuit[s]
  {
    var m := RanksBySuit(deck);
    var suits := set c | c in deck :: c.suit;
    assert suits == m.Keys by {
      forall s ensures s in suits <==> s in m {
        if s in m {
          var c :| c in deck && c.suit == s;
          assert s in suits;
        }
      }
    }
    Available(suits, m)
  }

  /** The picker's own state: whether its dialog is open and which suit, if
      any, has been chosen. */
  datatype PickerState = PickerState(isOpen: bool, selectedSuit: Option<Suit>)

  /** A picker starts closed with no suit chosen. */
  const InitialPicker := PickerState(false, None)

  /** A chosen suit is one that the deck still holds; the source reads
      `ranksBySuit[selectedSuit]` and relies on this entry existing. */
  predicate PickerInvariant(deck: Deck, st: PickerState)
  {
    st.selectedSuit.Some? ==> exists c :: c in deck && c.suit == st.selectedSuit.value
  }

  /** Pressing the face-down card opens the dialog and forgets any earlier suit. */
  function Open(st: PickerState): (r: PickerState)
    ensures r.isOpen && r.selectedSuit.None?
  {
    PickerState(true, None)
  }

  /** A close request or a press on the backdrop closes the dialog and
      forgets the suit. */
  function Dismiss(st: PickerState): (r: PickerState)
    ensures !r.isOpen && r.selectedSuit.None?
  {
    PickerState(false, None)
  }

  /** `handleSuitSelect`: a suit is accepted only if the deck still holds a
      card of it; otherwise nothing changes. */
  function SelectSuit(deck: Deck, st: PickerState, suit: Suit): (r: PickerState)
    ensures r.isOpen == st.isOpen
    ensures (exists c :: c in deck && c.suit == suit) ==> r.selectedSuit == Some(suit)
    ensures !(exists c :: c in deck && c.suit == suit) ==> r == st
  {
    if suit in AvailableCards(deck).suits then st.(selectedSuit := Some(suit)) else st
  }

  /** The picker state after a rank press, and the card handed to the
      parent, if any. */
  datatype RankOutcome = RankOutcome(state: PickerState, emitted: Option<Card>)

  /** `handleRankSelect`: with a suit chosen and the (rank, suit) card still in
      the deck, that card is handed to the parent and the dialog closes;
      otherwise nothing happens. */
  function SelectRank(deck: Deck, st: PickerState, rank: Rank): (r: RankOutcome)
    requires PickerInvariant(deck, st)
    ensures r.emitted.Some? <==> st.selectedSuit.Some? && Card(rank, st.selectedSuit.value) in deck
    ensures r.emitted.Some? ==> r.emitted.value in deck
    ensures r.emitted.Some? ==> r.emitted == Some(Card(rank, st.selectedSuit.value))
    ensures r.emitted.Some? ==> !r.state.isOpen && r.state.selectedSuit == st.selectedSuit
    ensures r.emitted.None? ==> r.state == st
  {
    var available := AvailableCards(deck);
    match st.selectedSuit
    case None => RankOutcome(st, None)
    case Some(suit) =>
      if rank in available.ranksBySuit[suit] then
        RankOutcome(st.(isOpen := false), Some(Card(rank, suit)))
      else RankOutcome(st, None)
  }

  /** Every transition of the picker keeps its chosen suit one the deck holds. */
  lemma PickerInvariantPreserved(deck: Deck, st: PickerState, suit: Suit, rank: Rank)
    requires PickerInvariant(deck, st)
    ensures PickerInvariant(deck, InitialPicker)
    ensures PickerInvariant(deck, Open(st))
    ensures PickerInvariant(deck, Dismiss(st))
    ensures PickerInvariant(deck, SelectSuit(deck, st, suit))
    ensures PickerInvariant(deck, SelectRank(deck, st, rank).state)
  {
  }

  /** Every card of the deck can be picked: open the dialog, choose its suit,
      then its rank. With `SelectRank`'s contract, the cards a picker can
      emit are exactly the cards of the deck. */
  lemma EveryDeckCardCanBePicked(deck: Deck, st: PickerState, card: Card)
    requires card in deck
    ensures var chosen := SelectSuit(deck, Open(st), card.suit);
      PickerInvariant(deck, chosen)
      && SelectRank(deck, chosen, card.rank) == RankOutcome(chosen.(isOpen := false), Some(card))
  {
  }
}
