/** The board setup: a remaining deck, four board slots (three flop, one
    turn) and two hole slots. Picking a card moves it from the deck into an
    empty slot; returning a card moves it from its slot back to the end of
    the deck. Every reachable table partitions the 52 cards. */
module BoardSetup {
  import opened Cards
  import CardPicker

  /** A slot on the table: hole slot 0..1 or board slot 0..3 (3 is the turn). */
  datatype Slot = Hole(index: nat) | Board(index: nat)

  predicate ValidSlot(slot: Slot)
  {
    match slot
    case Hole(i) => i < 2
    case Board(i) => i < 4
  }

  /** The component's state: the remaining deck and the slot contents. */
  datatype Table = Table(deck: Deck, board: seq<Option<Card>>, hole: seq<Option<Card>>)

  predicate WellShaped(t: Table)
  {
    |t.board| == 4 && |t.hole| == 2
  }

  /** The content of a slot. */
  function SlotContent(t: Table, slot: Slot): Option<Card>
    requires WellShaped(t) && ValidSlot(slot)
  {
    match slot
    case Hole(i) => t.hole[i]
    case Board(i) => t.board[i]
  }

  /** The table with one slot overwritten and everything else kept. */
  function SetSlot(t: Table, slot: Slot, v: Option<Card>): (r: Table)
    requires WellShaped(t) && ValidSlot(slot)
    ensures WellShaped(r) && r.deck == t.deck
    ensures SlotContent(r, slot) == v
    ensures forall other | ValidSlot(other) && other != slot :: SlotContent(r, other) == SlotContent(t, other)
  {
    match slot
    case Hole(i) => t.(hole := t.hole[i := v])
    case Board(i) => t.(board := t.board[i := v])
  }

  /** A fresh table: the given (shuffled) deck and every slot empty. */
  function InitialTable(deck: Deck): (t: Table)
    ensures WellShaped(t) && t.deck == deck
    ensures forall slot | ValidSlot(slot) :: SlotContent(t, slot) == None
  {
    Table(deck, [None, None, None, None], [None, None])
  }

  /** `filter(Boolean)`: the cards of the filled slots, in slot order. */
  function Filled(slots: seq<Option<Card>>): (r: seq<Card>)
    ensures |r| <= |slots|
    ensures forall c :: c in r <==> Some(c) in slots
  {
    if slots == [] then []
    else
      assert slots == [slots[0]] + slots[1..];
      (if slots[0].Some? then [slots[0].value] else []) + Filled(slots[1..])
  }

  /** `filter(Boolean)` works slot by slot: the filled cards of two runs of
      slots are those of the first run followed by those of the second, so
      the cards keep their slot order and their multiplicity. */
  lemma {:induction false} FilledConcat(a: seq<Option<Card>>, b: seq<Option<Card>>)
    ensures Filled(a + b) == Filled(a) + Filled(b)
  {
    if a != [] {
      assert (a + b)[0] == a[0];
      assert (a + b)[1..] == a[1..] + b;
      FilledConcat(a[1..], b);
    } else {
      assert a + b == b;
    }
  }

  /** A single slot contributes its card when filled and nothing when empty. */
  lemma FilledSingle(slot: Option<Card>)
    ensures Filled([slot]) == (if slot.Some? then [slot.value] else [])
  {
  }

  /** The cards reported as selected: filled board slots, then filled hole slots. */
  function Selected(t: Table): seq<Card>
  {
    Filled(t.board) + Filled(t.hole)
  }

  /** What the parent is told: the selected cards and the remaining deck. */
  datatype Notification = Notification(selected: seq<Card>, unselected: Deck)

  /** `notifyChange`: nothing without a listener; otherwise the filled board
      cards followed by the filled hole cards, and the next deck. */
  function NotifyChange(hasListener: bool, next: Table): (n: Option<Notification>)
    ensures n.Some? <==> hasListener
    ensures n.Some? ==> n.value.unselected == next.deck
    ensures n.Some? ==> |n.value.selected| == |Filled(next.board)| + |Filled(next.hole)|
    ensures n.Some? ==> n.value.selected[..|Filled(next.board)|] == Filled(next.board)
    ensures n.Some? ==> n.value.selected[|Filled(next.board)|..] == Filled(next.hole)
    ensures n.Some? ==> forall c :: c in n.value.selected <==> Some(c) in next.board || Some(c) in next.hole
  {
    if hasListener then Some(Notification(Selected(next), next.deck)) else None
  }

  /** `deck.filter(c => !(c.rank === card.rank && c.suit === card.suit))`:
      every copy of `card` is dropped, every other card is kept. */
  function RemoveCard(deck: Deck, card: Card): (r: Deck)
    ensures forall c :: c in r <==> c in deck && c != card
    ensures forall c :: multiset(r)[c] == if c == card then 0 else multiset(deck)[c]
  {
    if deck == [] then []
    else
      assert deck == [deck[0]] + deck[1..];
      (if deck[0] == card then [] else [deck[0]]) + RemoveCard(deck[1..], card)
  }

  /** Removing a card the deck does not hold changes nothing. */
  lemma {:induction false} RemoveAbsentCard(deck: Deck, card: Card)
    requires card !in deck
    ensures RemoveCard(deck, card) == deck
  {
    if deck != [] {
      RemoveAbsentCard(deck[1..], card);
      assert deck == [deck[0]] + deck[1..];
    }
  }

  /** One step of the filter: the first card is kept unless it is `card`. */
  lemma {:induction false} RemoveCardCons(x: Card, rest: Deck, card: Card)
    ensures RemoveCard([x] + rest, card) == (if x == card then [] else [x]) + RemoveCard(rest, card)
  {
  }

  /** The inductive step of `RemoveCardConcat`: putting one card in front of
      the first run keeps the equation. */
  lemma {:induction false} RemoveCardConcatStep(x: Card, rest: Deck, b: Deck, card: Card)
    requires RemoveCard(rest + b, card) == RemoveCard(rest, card) + RemoveCard(b, card)
    ensures RemoveCard([x] + rest + b, card) == RemoveCard([x] + rest, card) + RemoveCard(b, card)
  {
    var rr, rb := RemoveCard(rest, card), RemoveCard(b, card);
    assert [x] + rest + b == [x] + (rest + b);
    RemoveCardCons(x, rest + b, card);
    RemoveCardCons(x, rest, card);
    if x != card {
      assert [x] + (rr + rb) == ([x] + rr) + rb;
    }
  }

  /** The filter works card by card, so removing a card from two runs of
      cards is removing it from each run and joining the results: every
      other card keeps its order, whatever the deck holds. */
  lemma {:induction false} RemoveCardConcat(a: Deck, b: Deck, card: Card)
    ensures RemoveCard(a + b, card) == RemoveCard(a, card) + RemoveCard(b, card)
  {
    if a == [] {
      assert a + b == b;
    } else {
      RemoveCardConcat(a[1..], b, card);
      assert a == [a[0]] + a[1..];
      RemoveCardConcatStep(a[0], a[1..], b, card);
    }
  }

  /** Removing a card held once closes the gap: the cards before and after it
      keep their order. */
  lemma {:induction false} RemoveCardKeepsOrder(before: Deck, card: Card, after: Deck)
    requires card !in before && card !in after
    ensures RemoveCard(before + [card] + after, card) == before + after
  {
    if before == [] {
      assert before + [card] + after == [card] + after;
      assert ([card] + after)[1..] == after;
      RemoveAbsentCard(after, card);
    } else {
      var deck := before + [card] + after;
      assert deck[0] == before[0];
      assert deck[1..] == before[1..] + [card] + after;
      RemoveCardKeepsOrder(before[1..], card, after);
      assert before == [before[0]] + before[1..];
    }
  }

  /** The table after a change, and what the parent was told about it. */
  datatype Change = Change(table: Table, notification: Option<Notification>)

  /** `handleCardPicked`: the card leaves the deck and fills the slot; no
      other slot changes, and the parent is told about the new table. */
  function HandleCardPicked(t: Table, slot: Slot, card: Card, hasListener: bool): (r: Change)
    requires WellShaped(t) && ValidSlot(slot)
    ensures WellShaped(r.table)
    ensures r.table.deck == RemoveCard(t.deck, card)
    ensures SlotContent(r.table, slot) == Some(card)
    ensures forall other | ValidSlot(other) && other != slot :: SlotContent(r.table, other) == SlotContent(t, other)
    ensures slot.Hole? ==> r.table.board == t.board
    ensures slot.Board? ==> r.table.hole == t.hole
    ensures r.notification == NotifyChange(hasListener, r.table)
  {
    var nextDeck := RemoveCard(t.deck, card);
    var next := SetSlot(t.(deck := nextDeck), slot, Some(card));
    Change(next, NotifyChange(hasListener, next))
  }

  /** `returnCard`: the card goes to the end of the deck and its slot is
      emptied; no other slot changes, and the parent is told. */
  function ReturnCard(t: Table, card: Card, slot: Slot, hasListener: bool): (r: Change)
    requires WellShaped(t) && ValidSlot(slot)
    ensures WellShaped(r.table)
    ensures |r.table.deck| == |t.deck| + 1
    ensures r.table.deck[..|t.deck|] == t.deck && r.table.deck[|t.deck|..] == [card]
    ensures SlotContent(r.table, slot) == None
    ensures forall other | ValidSlot(other) && other != slot :: SlotContent(r.table, other) == SlotContent(t, other)
    ensures slot.Hole? ==> r.table.board == t.board
    ensures slot.Board? ==> r.table.hole == t.hole
    ensures r.notification == NotifyChange(hasListener, r.table)
  {
    var nextDeck := t.deck + [card];
    var next := SetSlot(t.(deck := nextDeck), slot, None);
    Change(next, NotifyChange(hasListener, next))
  }

  /** The three flop slots are filled. */
  predicate FlopComplete(t: Table)
    requires WellShaped(t)
  {
    t.board[0].Some? && t.board[1].Some? && t.board[2].Some?
  }

  /** Whether the slot shows a picker: only an empty slot does, and the turn
      slot stays locked until the flop is complete. */
  predicate OffersPicker(t: Table, slot: Slot)
    requires WellShaped(t) && ValidSlot(slot)
  {
    SlotContent(t, slot).None? && (slot == Board(3) ==> FlopComplete(t))
  }

  /** The turn slot is the only one whose picker depends on other slots. */
  lemma OffersPickerCases(t: Table, slot: Slot)
    requires WellShaped(t) && ValidSlot(slot)
    ensures OffersPicker(t, slot) ==> SlotContent(t, slot).None?
    ensures slot != Board(3) ==> (OffersPicker(t, slot) <==> SlotContent(t, slot).None?)
    ensures slot == Board(3) ==>
      (OffersPicker(t, slot) <==> t.board[3].None? && forall i :: 0 <= i < 3 ==> t.board[i].Some?)
  {
  }

  /** The turn slot stays locked while a flop slot is empty; once the three
      flop cards are picked into an empty board, it shows a picker. */
  lemma FlopUnlocksTurn(t: Table, c0: Card, c1: Card, c2: Card)
    requires WellShaped(t) && forall i :: 0 <= i < 4 ==> t.board[i].None?
    requires c0 in t.deck && c1 in t.deck && c2 in t.deck
    requires c0 != c1 && c0 != c2 && c1 != c2
    ensures !OffersPicker(t, Board(3))
    ensures var t1 := HandleCardPicked(t, Board(0), c0, false).table;
      var t2 := HandleCardPicked(t1, Board(1), c1, false).table;
      var t3 := HandleCardPicked(t2, Board(2), c2, false).table;
      OffersPicker(t, Board(0)) && c0 in t.deck
      && OffersPicker(t1, Board(1)) && c1 in t1.deck && !OffersPicker(t1, Board(3))
      && OffersPicker(t2, Board(2)) && c2 in t2.deck && !OffersPicker(t2, Board(3))
      && OffersPicker(t3, Board(3))
  {
  }

  /** A user action on the table. */
  datatype Event = PickEvent(slot: Slot, card: Card) | ReturnEvent(slot: Slot)

  /** What the screen lets the user do: pick a card the picker can emit (one
      in the deck) into a slot that shows a picker, or press a filled slot to
      return its card. */
  predicate Enabled(t: Table, e: Event)
  {
    WellShaped(t) && ValidSlot(e.slot) &&
    match e
    case PickEvent(slot, card) => OffersPicker(t, slot) && card in t.deck
    case ReturnEvent(slot) => SlotContent(t, slot).Some?
  }

  /** The table after an enabled action. */
  function Step(t: Table, e: Event, hasListener: bool): Change
    requires Enabled(t, e)
  {
    match e
    case PickEvent(slot, card) => HandleCardPicked(t, slot, card, hasListener)
    case ReturnEvent(slot) => ReturnCard(t, SlotContent(t, slot).value, slot, hasListener)
  }

  /** The table after a sequence of actions, or `None` if one of them is not
      on offer at the time. */
  function Run(t: Table, events: seq<Event>, hasListener: bool): Option<Table>
    decreases |events|
  {
    if events == [] then Some(t)
    else if Enabled(t, events[0]) then Run(Step(t, events[0], hasListener).table, events[1..], hasListener)
    else None
  }

  /** The deck and the selected cards together are the 52-card deck, each card
      exactly once. */
  predicate Partition(t: Table)
  {
    WellShaped(t) && multiset(t.deck) + multiset(Selected(t)) == multiset(OrderedDeck())
  }

  /** A partitioned table holds every card exactly once between its deck and
      its slots. */
  lemma PartitionIsFullDeck(t: Table)
    requires Partition(t)
    ensures |t.deck| + |Selected(t)| == 52
    ensures Distinct(t.deck + Selected(t))
    ensures forall c: Card :: c in t.deck <==> c !in Selected(t)
  {
    var all := t.deck + Selected(t);
    assert multiset(all) == multiset(OrderedDeck());
    PermutationIsFullDeck(all);
    forall c: Card ensures c in t.deck <==> c !in Selected(t) {
      OrderedDeckMultiplicity(c);
      assert multiset(t.deck)[c] + multiset(Selected(t))[c] == 1;
    }
  }

  /** Filling an empty slot adds exactly its card to the filled cards. */
  lemma {:induction false} FillSlot(slots: seq<Option<Card>>, i: nat, card: Card)
    requires i < |slots| && slots[i].None?
    ensures multiset(Filled(slots[i := Some(card)])) == multiset(Filled(slots)) + multiset{card}
  {
    var next := slots[i := Some(card)];
    if i == 0 {
      assert next[1..] == slots[1..];
      assert Filled(next) == [card] + Filled(slots[1..]);
      assert Filled(slots) == Filled(slots[1..]);
    } else {
      var tail := slots[1..][i - 1 := Some(card)];
      assert next[0] == slots[0] && next[1..] == tail;
      FillSlot(slots[1..], i - 1, card);
      var head := if slots[0].Some? then [slots[0].value] else [];
      assert Filled(next) == head + Filled(tail);
      assert Filled(slots) == head + Filled(slots[1..]);
    }
  }

  /** Emptying a filled slot removes exactly its card from the filled cards. */
  lemma {:induction false} ClearSlot(slots: seq<Option<Card>>, i: nat)
    requires i < |slots| && slots[i].Some?
    ensures multiset(Filled(slots[i := None])) + multiset{slots[i].value} == multiset(Filled(slots))
  {
    var next := slots[i := None];
    if i == 0 {
      assert next[1..] == slots[1..];
      assert Filled(next) == Filled(slots[1..]);
      assert Filled(slots) == [slots[0].value] + Filled(slots[1..]);
    } else {
      var tail := slots[1..][i - 1 := None];
      assert next[0] == slots[0] && next[1..] == tail;
      ClearSlot(slots[1..], i - 1);
      var head := if slots[0].Some? then [slots[0].value] else [];
      assert Filled(next) == head + Filled(tail);
      assert Filled(slots) == head + Filled(slots[1..]);
    }
  }

  /** Filling an empty slot of the table adds exactly its card to the
      selected cards. */
  lemma SelectedAfterFill(t: Table, slot: Slot, card: Card, deck: Deck)
    requires WellShaped(t) && ValidSlot(slot) && SlotContent(t, slot).None?
    ensures multiset(Selected(SetSlot(t.(deck := deck), slot, Some(card))))
         == multiset(Selected(t)) + multiset{card}
  {
    match slot
    case Hole(i) => FillSlot(t.hole, i, card);
    case Board(i) => FillSlot(t.board, i, card);
  }

  /** Emptying a filled slot of the table removes exactly its card from the
      selected cards. */
  lemma SelectedAfterClear(t: Table, slot: Slot, deck: Deck)
    requires WellShaped(t) && ValidSlot(slot) && SlotContent(t, slot).Some?
    ensures multiset(Selected(SetSlot(t.(deck := deck), slot, None))) + multiset{SlotContent(t, slot).value}
         == multiset(Selected(t))
  {
    match slot
    case Hole(i) => ClearSlot(t.hole, i);
    case Board(i) => ClearSlot(t.board, i);
  }

  /** Removing a card the deck holds once takes away exactly that card. */
  lemma RemoveHeldOnce(deck: Deck, card: Card)
    requires multiset(deck)[card] == 1
    ensures multiset(RemoveCard(deck, card)) + multiset{card} == multiset(deck)
  {
  }

  /** Picking a deck card into a slot that offers a picker keeps the partition. */
  lemma PickPreservesPartition(t: Table, slot: Slot, card: Card, hasListener: bool)
    requires Partition(t) && ValidSlot(slot)
    requires OffersPicker(t, slot) && card in t.deck
    ensures Partition(HandleCardPicked(t, slot, card, hasListener).table)
  {
    var r := HandleCardPicked(t, slot, card, hasListener).table;
    OrderedDeckMultiplicity(card);
    assert multiset(t.deck)[card] + multiset(Selected(t))[card] == 1;
    RemoveHeldOnce(t.deck, card);
    SelectedAfterFill(t, slot, card, r.deck);
    assert multiset(r.deck) + multiset(Selected(r)) == multiset(t.deck) + multiset(Selected(t));
  }

  /** Returning a slot's own card keeps the partition. */
  lemma ReturnPreservesPartition(t: Table, slot: Slot, hasListener: bool)
    requires Partition(t) && ValidSlot(slot)
    requires SlotContent(t, slot).Some?
    ensures Partition(ReturnCard(t, SlotContent(t, slot).value, slot, hasListener).table)
  {
    var card := SlotContent(t, slot).value;
    var r := ReturnCard(t, card, slot, hasListener).table;
    assert r.deck == t.deck + [card];
    SelectedAfterClear(t, slot, r.deck);
    assert multiset(r.deck) + multiset(Selected(r)) == multiset(t.deck) + multiset(Selected(t));
  }

  /** On a partitioned table, picking the card at position `j` of the deck
      closes the gap: the cards before and after it keep their order. */
  lemma PickKeepsDeckOrder(t: Table, slot: Slot, j: nat, hasListener: bool)
    requires Partition(t) && ValidSlot(slot) && j < |t.deck|
    ensures HandleCardPicked(t, slot, t.deck[j], hasListener).table.deck == t.deck[..j] + t.deck[j + 1..]
  {
    var card := t.deck[j];
    PartitionIsFullDeck(t);
    assert (t.deck + Selected(t))[..|t.deck|] == t.deck;
    assert t.deck == t.deck[..j] + [card] + t.deck[j + 1..];
    forall i | 0 <= i < |t.deck| && i != j ensures t.deck[i] != card {
      assert (t.deck + Selected(t))[i] == t.deck[i];
      assert (t.deck + Selected(t))[j] == card;
    }
    RemoveCardKeepsOrder(t.deck[..j], card, t.deck[j + 1..]);
  }

  /** Every action the screen offers keeps the partition. */
  lemma StepPreservesPartition(t: Table, e: Event, hasListener: bool)
    requires Partition(t) && Enabled(t, e)
    ensures Partition(Step(t, e, hasListener).table)
  {
    match e
    case PickEvent(slot, card) => PickPreservesPartition(t, slot, card, hasListener);
    case ReturnEvent(slot) => ReturnPreservesPartition(t, slot, hasListener);
  }

  /** A freshly generated deck with every slot empty is partitioned. */
  lemma InitialPartition(deck: Deck)
    requires multiset(deck) == multiset(OrderedDeck())
    ensures Partition(InitialTable(deck))
  {
    var t := InitialTable(deck);
    assert Filled(t.board) == [] && Filled(t.hole) == [];
  }

  /** Every table reachable from a partitioned one by offered actions is
      partitioned: deck plus filled slots is always the full deck, with no
      card duplicated or lost. */
  lemma {:induction false} RunPreservesPartition(t: Table, events: seq<Event>, hasListener: bool)
    requires Partition(t)
    requires Run(t, events, hasListener).Some?
    ensures Partition(Run(t, events, hasListener).value)
    decreases |events|
  {
    if events != [] {
      StepPreservesPartition(t, events[0], hasListener);
      RunPreservesPartition(Step(t, events[0], hasListener).table, events[1..], hasListener);
    }
  }

  /** A card the picker emits for a slot that shows the picker is an enabled
      pick: the picker and the table agree on which cards can be picked. */
  lemma PickerEmissionIsEnabled(t: Table, slot: Slot, st: CardPicker.PickerState, rank: Rank)
    requires WellShaped(t) && ValidSlot(slot) && OffersPicker(t, slot)
    requires CardPicker.PickerInvariant(t.deck, st)
    requires CardPicker.SelectRank(t.deck, st, rank).emitted.Some?
    ensures Enabled(t, PickEvent(slot, CardPicker.SelectRank(t.deck, st, rank).emitted.value))
  {
  }
}
