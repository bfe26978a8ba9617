# Poker card model and board setup, in Dafny

This project models the logic of a poker training app: its card and deck
types, the deck shuffle, the pot-odds, outs and equity formulas, and the
card-selection state machine behind the board-setup screen and its card
picker. The screens and the storage layer are not modelled.

- `cards.dfy` (module `Cards`): `Suit`, `Rank` (2..14), `Card`, `Deck`,
  `Option`, the ordered 52-card deck and facts about duplicate-free
  sequences and multisets.
- `poker.dfy` (module `Poker`, the library file `libs/poker.ts`):
  `generateDeck` as a nested build loop and a splice-out shuffle driven by
  explicit index choices, `calculatePotOdds`, `countOuts` and
  `calculateEquity`.
- `card_picker.dfy` (module `CardPicker`, `components/card-picker.tsx`): the
  `availableCards` record, the suit and rank handlers, and the open, close
  and dismiss resets.
- `board_setup.dfy` (module `BoardSetup`, `components/board-setup.tsx`):
  the table (remaining deck, four board slots, two hole slots), the
  `handleCardPicked`, `returnCard` and `notifyChange` transitions, the rule
  that the turn slot is locked until the flop is complete, and the invariant
  that the deck plus the filled slots are always the 52 cards, each exactly
  once.

The random source is a parameter. `GenerateDeck` takes a sequence of index
choices, one per round of the shuffle: choice k is the value of
`Math.floor(Math.random() * unshuffledDeck.length)` in round k, so it lies
below 52 - k. `RandomIndex` models that expression for a random result in
[0, 1). It always gives such an index, and every such index comes from some
random result. The optional `onChange`
listener is a boolean parameter. A user action on the screen is an `Event`.
A pick is enabled only for a slot that shows a picker, and only for a card
the picker can emit, which is a card of the current deck. A return is
enabled only for a filled slot, and it returns that slot's own card.

`countOuts` computes only the "Pair" and "Three of a Kind" targets; every
other target gives `min(6, remaining deck size)`.

`countOuts` counts each hole card separately. So for "Three of a Kind", a
pocket pair with no card of its rank on the board gets 4 outs, although only
two cards of that rank are left. `Poker.PocketPairTripsOuts` states this.
The loop credits each hole card separately, so a rank held twice in the
hole is counted twice, although the comment on that branch says two cards
are left. The model keeps the code as written.

## Model

| member | source | states |
|---|---|---|
| `Cards.OrderedDeckComplete` | libs/poker.ts:16-25 | every (rank, suit) card occurs in the unshuffled deck |
| `Cards.OrderedDeckDistinct` | libs/poker.ts:16-25 | the unshuffled deck holds no card twice |
| `Cards.OrderedDeckPosition` | libs/poker.ts:21-25 | the unshuffled deck has 52 cards, and card (r, s) sits at 13 * (index of s) + r - 2, because suits are the outer loop and ranks the inner one |
| `Poker.BuildUnshuffledDeck` | libs/poker.ts:20-25 | the nested suit/rank loops build exactly the ordered 52-card deck |
| `Poker.RandomIndex` | libs/poker.ts:33 | `Math.floor(u * n)` for a random result u in [0, 1) is an index below n |
| `Poker.RandomIndexIsFloor` | libs/poker.ts:33 | the selected index is the integer part of u * n |
| `Poker.EveryIndexReachable` | libs/poker.ts:33 | every index below n is selected by some random result in [0, 1), so the valid index choices are exactly those below the number of cards left |
| `Poker.RemoveAt` | libs/poker.ts:34 | `splice(i, 1)` shortens the deck by one and removes exactly the element at i. The elements before i keep their positions and the elements after i move down by one, so the order that the next round's index selects from is preserved |
| `Poker.ShuffleIsPermutation` | libs/poker.ts:28-35 | for any valid index choices, the splice-out shuffle returns a permutation of its input |
| `Poker.ShuffleStep` | libs/poker.ts:33-34 | moving the chosen card from the unshuffled cards to the end of the shuffled cards leaves the final shuffle unchanged, and the remaining choices fit the remaining cards |
| `Poker.GenerateDeck` | libs/poker.ts:15-38 | the shuffle loop terminates. Its result is the shuffle of the ordered deck by the given index choices, has the ordered deck's multiset, has 52 cards with no duplicate, and contains every card. Loop invariant: shuffled plus unshuffled is always the full deck |
| `Poker.PotOdds` | libs/poker.ts:54-57 | 0 when the call is non-positive or the pot negative. Otherwise the result r lies in (0, 100] and satisfies r * (pot + call) == 100 * call. It is exactly 100 only when the pot is empty |
| `Poker.PotOddsExample` | libs/poker.ts:54-57 | a call of 50 into a pot of 100 gives 100/3 percent |
| `Poker.PotOddsAntitoneInPot` | libs/poker.ts:54-57 | for a fixed call, a larger non-negative pot never raises the pot-odds percentage |
| `Poker.Equity` | libs/poker.ts:102-107 | the result is in [0, 100] and is positive exactly when outs and cards to see are both positive. With two cards to come it is 4 * outs up to 25 outs, then 100. With any other positive count it is 2 * outs up to 50 outs, then 100 |
| `Poker.EquityExample` | libs/poker.ts:102-107 | 9 outs with two cards to come give 36; with one card to come they give 18 |
| `Poker.EquityMonotoneInOuts` | libs/poker.ts:102-107 | for fixed cards to see, more outs never lower the equity |
| `Poker.RankCount` | libs/poker.ts:73-76 | the rank-count map entry is at most the number of known cards, and it is positive exactly when some known card has that rank |
| `Poker.PairOuts` | libs/poker.ts:77-81 | the "Pair" loop over hole cards yields a multiple of 3, at most 3 per hole card |
| `Poker.TripsOuts` | libs/poker.ts:89-93 | the "Three of a Kind" loop over hole cards yields a multiple of 2, at most 2 per hole card |
| `Poker.CountOuts` | libs/poker.ts:60-99 | the result never exceeds the remaining deck size. It is 0 unless there are exactly 2 hole cards and the board has 0 or at least 3 cards. "Pair" gives at most 6, a multiple of 3 or the clamp. "Three of a Kind" gives at most 4, a multiple of 2 or the clamp. Every other target gives min(6, remaining) |
| `Poker.HoleRankCounted` | libs/poker.ts:67 | each hole card is among the known cards, so its rank count is at least 1 |
| `Poker.CountOutsPair` | libs/poker.ts:71-82 | for "Pair", the result is min(3 * the number of hole cards whose rank appears fewer than twice among the known cards, remaining) |
| `Poker.PocketPairHasNoPairOuts` | libs/poker.ts:77-81 | a pocket pair has 0 outs toward "Pair" |
| `Poker.CountOutsTrips` | libs/poker.ts:83-94 | for "Three of a Kind", the result is min(2 * the number of hole cards whose rank appears at most twice among the known cards, remaining) |
| `Poker.PocketPairTripsOuts` | libs/poker.ts:89-93 | a pocket pair with no board card of its rank gets 4 "Three of a Kind" outs when at least 4 cards remain |
| `Poker.CountOutsDependsOnDeckSizeOnly` | libs/poker.ts:98 | only the size of the remaining deck affects the count, never its contents |
| `CardPicker.RanksBySuit` | components/card-picker.tsx:13-17 | the reduce creates an entry exactly for the suits present in the deck. Rank r is in suit s's entry exactly when card (r, s) is in the deck |
| `CardPicker.AvailableCards` | components/card-picker.tsx:11-19 | the available suits are exactly the suits of deck cards and equal the rank map's keys. A (rank, suit) pair is available exactly when that card is in the deck |
| `CardPicker.Open` | components/card-picker.tsx:50-53 | opening the picker shows the dialog with no suit chosen |
| `CardPicker.Dismiss` | components/card-picker.tsx:62-72 | a close request or a backdrop press hides the dialog and forgets the suit |
| `CardPicker.SelectSuit` | components/card-picker.tsx:24-28 | a suit with a card left in the deck becomes the chosen suit. Any other suit leaves the state unchanged. The open flag never changes |
| `CardPicker.SelectRank` | components/card-picker.tsx:30-35 | a card is emitted exactly when a suit is chosen and (rank, suit) is in the deck. The emitted card is that card, a member of the deck, and the dialog closes. Otherwise nothing changes |
| `CardPicker.PickerInvariantPreserved` | components/card-picker.tsx:24-35 | every handler keeps the chosen suit one the deck holds, so `ranksBySuit[selectedSuit]` always exists |
| `CardPicker.EveryDeckCardCanBePicked` | components/card-picker.tsx:24-35 | every deck card is emitted by opening, choosing its suit and then its rank. So the cards the picker can emit are exactly the deck's cards |
| `BoardSetup.InitialTable` | components/board-setup.tsx:17-27 | the screen starts with the generated deck and all four board slots and both hole slots empty |
| `BoardSetup.Filled` | components/board-setup.tsx:37-38 | `filter(Boolean)` keeps exactly the cards of the filled slots |
| `BoardSetup.FilledConcat` | components/board-setup.tsx:37-38 | `filter(Boolean)` over two runs of slots is the first run's cards followed by the second's, so the filled cards keep their slot order and multiplicity |
| `BoardSetup.FilledSingle` | components/board-setup.tsx:37-38 | one slot contributes its card when filled and nothing when empty; with `FilledConcat` this determines the filtered cards for every slot array |
| `BoardSetup.NotifyChange` | components/board-setup.tsx:30-41 | with a listener, the report is the filled board cards followed by the filled hole cards, together with the next deck. Without a listener there is no report |
| `BoardSetup.RemoveCard` | components/board-setup.tsx:45-47 | the filter drops every copy of the picked card and keeps every other card with its multiplicity |
| `BoardSetup.RemoveCardConcat` | components/board-setup.tsx:45-47 | filtering a card out of two runs of cards is filtering each run and joining the results, so every other card keeps its order for any deck |
| `BoardSetup.RemoveAbsentCard` | components/board-setup.tsx:45-47 | filtering out a card the deck does not hold leaves the deck unchanged |
| `BoardSetup.RemoveCardKeepsOrder` | components/board-setup.tsx:45-47 | filtering out a card held once leaves the cards before and after it in their original order |
| `BoardSetup.HandleCardPicked` | components/board-setup.tsx:43-61 | the next deck is the filtered deck. Only the chosen slot changes, and it holds the card. A hole pick leaves the board unchanged and a board pick leaves the hole unchanged. The listener receives the new table |
| `BoardSetup.ReturnCard` | components/board-setup.tsx:63-78 | the next deck is the old deck with the card appended at the end. Only the chosen slot changes, and it becomes empty. The listener receives the new table |
| `BoardSetup.OffersPickerCases` | components/board-setup.tsx:130-143 | only empty slots offer a picker. The turn slot offers one exactly when it is empty and all three flop slots are filled |
| `BoardSetup.OffersPicker` | components/board-setup.tsx:109-113 | only an empty slot shows a picker; the turn slot also needs all three flop slots filled (lines 132-138 and 163-167 for the turn and hole slots) |
| `BoardSetup.FlopUnlocksTurn` | components/board-setup.tsx:130-143 | on an empty board the turn slot is locked, stays locked after the first and second flop picks, and shows a picker once the three flop cards are picked |
| `BoardSetup.Enabled` | components/board-setup.tsx:109-117 | the actions the screen offers: pick a card of the current deck into a slot that shows a picker, or return a filled slot's own card (lines 132-147 and 163-171 for the turn and hole slots) |
| `BoardSetup.PartitionIsFullDeck` | components/board-setup.tsx:43-78 | on a partitioned table, the deck and the selected cards number 52, repeat no card, and every card is in exactly one of them |
| `BoardSetup.PickPreservesPartition` | components/board-setup.tsx:43-61 | picking a deck card into a slot that offers a picker keeps the partition |
| `BoardSetup.ReturnPreservesPartition` | components/board-setup.tsx:63-78 | returning a filled slot's card keeps the partition |
| `BoardSetup.PickKeepsDeckOrder` | components/board-setup.tsx:45-47 | on a partitioned table, picking the card at deck position j leaves deck[..j] + deck[j+1..] |
| `BoardSetup.StepPreservesPartition` | components/board-setup.tsx:99-179 | every action the screen offers keeps the partition |
| `BoardSetup.InitialPartition` | components/board-setup.tsx:18 | a generated deck with all slots empty is partitioned |
| `BoardSetup.RunPreservesPartition` | components/board-setup.tsx:43-78 | after any sequence of offered actions, the deck and the filled slots together hold the 52 cards, each exactly once |
| `BoardSetup.PickerEmissionIsEnabled` | components/board-setup.tsx:109-113 | a card the picker emits for a slot that shows a picker is an enabled pick |

## Left out

- `Math.random()` is not modelled. The shuffle takes an explicit sequence of index choices instead.
- Poker.GenerateDeck: proves that the output is a permutation for every valid sequence of index choices, and that every index can be drawn. It does not prove that every permutation is equally likely, because that needs a probability model.
- Poker.PotOdds: uses exact real arithmetic, not IEEE doubles. NaN, infinite and rounded results are not modelled.
- Poker.Equity: takes integer outs and cards to see. The TypeScript parameter type is `number`; fractional, NaN or infinite arguments are not modelled.
- Poker.CountOuts: the target is the ten-value `HandRanking` enumeration. Any other string would fall through to the default `min(6, remaining deck size)` in the source. The model has no such inputs.
- `PokerCalcResult` is an interface without logic and has no model.
- BoardSetup.HandleCardPicked: requires a slot index in range (hole 0..1, board 0..3), because the screen only creates handlers for those indices. A JavaScript write beyond the array end would extend it instead.
- BoardSetup.ReturnCard: requires a slot index in range, for the same reason.
- CardPicker.SelectRank: requires that the chosen suit still has a card in the deck. The source reads `ranksBySuit[selectedSuit]` and would throw otherwise. `CardPicker.PickerInvariantPreserved` shows that no handler breaks this.
- The picker's handlers do not check `isOpen`, and neither does the model. The dialog's buttons are only visible while it is open, and that visibility is part of the rendering.
- React state plumbing is not modelled: `useState`, `useMemo`, closures over stale state, and re-rendering. Each handler acts on the latest table.
- The JSX rendering, card glyphs, colours and styling are not modelled. The only parts kept are which slot shows a picker, a locked turn slot or a returnable card.
- The storage layer, the result and cash-entry components, the hand picker and the navigation screens are not modelled. They have no card logic, or they only display placeholders.
