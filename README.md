# Memory game — a Dafny model

`memorygame.py` is a Tkinter card-matching game. The player picks a number
of card sets n (1 to 20) and presses "New Game". This deals 2n face-down
cards holding the values 0 .. n-1 twice each. Clicking a covered card turns
it up. Every two clicks make a turn. A pair of equal values stays up and
its text is recoloured shortly after. A pair of different values is turned
down again by the next accepted click. When every card is up, a
congratulation dialog reports the number of sets and of turns.

The model keeps the integer state machine under the canvas calls:

- `Settings`: the layout constants (10 cards per row, at most 20 sets,
  50 × 100 pixel cells, 3 pixel display offset).
- `Cards`: the card record (number, value) and its grid position.
- `Deck`: the list `range(n) * 2` and the deal that pops values from the end
  of the shuffled list.
- `Layout`: the click-to-card formula and the canvas-size arithmetic, with
  the round trip between a card's cover rectangle and the card a click
  selects.
- `History`: a declarative account of the board. From the list of guesses
  alone it derives which cards are uncovered. These are the matched pairs
  plus the cards of the current turn. It also states the condition that
  every guess was made on a covered card.
- `Game`: the `Application` class. Each card's cover is a flag in
  `visible: array<bool>`, indexed by card number. The class also holds the
  deck, the guess list and the "Turns:" label. Its methods are `NewGame`
  and `Click`, plus the win check. The class invariant `Valid` ties the
  flags to `History.Uncovered`, which is what lets the win be proved to
  mean "all pairs matched".
- `Scenario`: one complete three-set game, stated on the guess history.

Deferred toolkit calls (`after(500, …)` for the recolour, `after(50, …)` for
the dialog) are returned by `Click` as a list of `Deferred` requests. The
shuffle result is a parameter of `NewGame`. Its only requirement is that it
is a permutation of `range(n) * 2`.

The model follows the code: a mismatched pair is not turned down when the second card
of the turn is clicked. It stays up until the next accepted click, which
turns it down while it reveals the new card (memorygame.py:157-163).
`Scenario.ThreeSetGame` shows this: after guesses 0 3 1 2, cards 1 and 2
are still up.

## Model

| member | source | states |
|---|---|---|
| Cards.Card.CalcXPosition | memorygame.py:33-34 | the x position lies in the offset plus one row of cells, on a cell boundary, in column `number mod 10` |
| Cards.Card.CalcYPosition | memorygame.py:36-37 | the y position is on a cell boundary, in row `number div 10`, and not above the offset for a card number of at least 0 |
| Layout.CardIndexAt | memorygame.py:142-143 | the selected card's column is `(x-3) div 50 mod 10`, and inside the board's width its row is `(y-3) div 100` |
| Layout.ClickRoundTrip | memorygame.py:142-143 | every point of a card's cover rectangle lies on the cover and selects that card |
| Layout.ClickLandsOnCover | memorygame.py:142-143 | a click right of the left margin, below the top margin and within the board's width selects a card whose cover contains the click |
| Layout.LeftMarginSelectsPreviousRow | memorygame.py:142-143 | a click in the 3-pixel strip left of row r ≥ 1 selects the last card of row r-1, whose cover is elsewhere |
| Layout.OnCover | memorygame.py:49-57 | for a card number of at least 0, a point lies on the card's cover rectangle exactly when it is below and right of the display offset and its shifted grid cell is the card's column and row |
| Layout.CanvasWidth | memorygame.py:124-126 | the width minus the offset is a whole number of cells: as many columns as cards, but at most one full row of 10 |
| Layout.CanvasHeight | memorygame.py:127-130 | the height minus the offset is a whole number of cells: the fewest rows of 10 that hold every card |
| Layout.CoverFitsCanvas | memorygame.py:124-130 | every card's cover rectangle lies inside the canvas computed for the deck |
| Layout.CanvasIsTight | memorygame.py:124-130 | the right edge of the first row's last card and the bottom edge of the last card touch the canvas border |
| Deck.Range | memorygame.py:116 | `range(n)` has n elements and element j is j |
| Deck.Numbers | memorygame.py:116 | `range(n) * 2` has 2n elements |
| Deck.RangeOccurrences | memorygame.py:116 | each value of [0, n) occurs once in `range(n)`, and no other value occurs |
| Deck.NumbersOccurrences | memorygame.py:116 | each value of [0, n) occurs twice in `range(n) * 2`, and no other value occurs |
| Deck.Deal | memorygame.py:118-121 | the dealt deck has one card per shuffled value; card i has number i and, after i pops, takes the last element of what is left of the shuffled list |
| Deck.DealKeepsValues | memorygame.py:118-121 | dealing by popping keeps the multiset of values of the shuffled list |
| Deck.DealtDeckIsPaired | memorygame.py:113-121 | a deck dealt from a shuffle of `range(n) * 2` has 2n cards, card i has number i, and each value of [0, n) occurs exactly twice |
| Game.DealCards | memorygame.py:118-121 | the dealing loop builds the deck `Deal` describes: card i has number i and the value i places from the end of the shuffled list |
| History.CurrentTurn | memorygame.py:150-152 | the last accepted guess is always among the cards of the current turn |
| History.Recovered | memorygame.py:157-163 | only a guess that opens a turn (3rd, 5th, …) re-covers cards; it re-covers the previous pair exactly when its values differ; an even guess re-covers nothing |
| History.GuessKeepsWellFormed | memorygame.py:147-150 | appending a guess on a covered card keeps every guess of the history made on a covered card |
| History.OpeningGuess | memorygame.py:157-163 | an odd guess uncovers the new card and removes the previous pair exactly when it did not match; the new card is never re-covered |
| History.ClosingGuess | memorygame.py:164-169 | an even guess uncovers the new card and covers nothing |
| History.UncoveredAfterGuess | memorygame.py:150-169 | after one accepted guess the uncovered cards are the previous ones plus the guessed card, minus the re-covered pair |
| History.ShownAfterGuess | memorygame.py:150-169 | cover flags that agree with the history still agree after the flag updates of one accepted guess |
| History.PairIsTwoCards | memorygame.py:147-150 | the two guesses of a completed turn are different cards |
| History.MatchedPartner | memorygame.py:164-165 | every matched card has a different matched card with the same value |
| History.AllUncoveredMeansAllMatched | memorygame.py:172-174 | on a deck holding each value twice, when every card is uncovered every card is matched and the last turn is complete |
| History.UncoveredIsMatched | memorygame.py:172-174 | on a deck holding each value twice with every card uncovered, any given card is matched |
| Game.VisibleCount | memorygame.py:173-174 | the count of shown cards is at most the number of cards, and equals it exactly when every card shows |
| Game.Highlights | memorygame.py:164-169 | recolour requests are made exactly for an even guess whose two cards have equal values: the new card, then its partner |
| Game.HighlightsAreNewMatches | memorygame.py:164-169 | on a well-formed history, a turn-closing guess requests the recolour of a card exactly when that card was newly matched by this turn |
| Game.Application.constructor | memorygame.py:88 | before the first game the state is valid, with no cards, no guesses and "Turns: 0" |
| Game.Application.IsVisible | memorygame.py:59-61 | a card shows exactly when the guess history leaves it uncovered |
| Game.Application.SetVisible | memorygame.py:63-67 | sets one card's flag and leaves every other flag unchanged |
| Game.Application.NewGame | memorygame.py:103-134 | the state is valid; 2n cards dealt from the shuffle, each value of [0, n) twice; no guesses, "Turns: 0", every card covered; canvas sized for the deck |
| Game.Application.CheckWin | memorygame.py:172-181 | a win request exactly when every card shows, reporting the number of sets and half the number of guesses |
| Game.Application.WinMeansAllMatched | memorygame.py:172-181 | when the win check fires, every card is in a matched pair and the number of guesses is even |
| Game.Application.AcceptGuess | memorygame.py:150-163 | keeps the invariant; appends the card to the guesses, shows it, sets the turn label to half the guesses from the second guess on, and changes no other flag except re-covering the previous unmatched pair on an odd guess |
| Game.Application.Click | memorygame.py:136-170 | keeps the invariant; a click outside the deck or on a shown card changes nothing and requests nothing; otherwise it accepts the guess, and from the second guess on it returns the recolour requests followed by the win request |
| Scenario.DealtFromShuffle | memorygame.py:116-121 | the shuffled list 2 1 0 2 1 0 is a permutation of `range(3) * 2` and deals the deck 0 1 2 0 1 2 |
| Scenario.MatchesAlongTheGame | memorygame.py:157-169 | the matched cards after each guess of the sample game |
| Scenario.ThreeSetGame | memorygame.py:150-169 | in the sample game the unmatched pair stays up until the next accepted click, every guess is on a covered card, and all six cards end matched |
| Scenario.EarlyGuessesOnCovered | memorygame.py:147-150 | the first four guesses of the sample game are on covered cards |
| Scenario.LateGuessesOnCovered | memorygame.py:147-150 | the last four guesses of the sample game are on covered cards |

## Left out

- Drawing: canvas text and rectangles, fonts, colours, the frame, labels, buttons and grid layout (memorygame.py:39-57, 80-101, 132-134). These are toolkit calls. A card's cover state is a boolean flag, and the turn label is the integer it shows.
- `changeTextColor` and the `after` timers: `Click` returns the recolour and win-dialog requests as `Deferred` values and does not model their delays or their execution. The model also does not capture that a pending request of an earlier game can still fire after "New Game".
- `random.shuffle`: the shuffled list is a parameter of `NewGame`, required to be a permutation of `range(n) * 2`.
- The option menu and the `int(...)` parse of its string: the number of sets is a parameter of `NewGame` in 1 .. 20.
- Start-up, the event loop and "Quit" (memorygame.py:184-187). The constructor models the application before its first game: it has no cards, and a click then changes nothing. The canvas size before the first game is the toolkit's default; the model uses the size for zero cards.
- Game.Application.NewGame: clearing the canvas and rebinding the click handler are toolkit calls and are not modelled.
