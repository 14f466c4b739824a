/**
 * The game controller: the application object that deals a new game and
 * handles clicks on the board. Drawing is left out; each card's cover is a
 * flag in `visible` (true when the cover is hidden and the value shows).
 */
module Game {
  import opened Settings
  import opened Cards
  import opened Deck
  import opened Layout
  import opened History

  /** A deferred request handed to the toolkit's timer. */
  datatype Deferred =
    | Recolor(card: int)                 // show a matched card's value in black after 500 ms
    | ShowWin(sets: int, turns: int)     // congratulation dialog after 50 ms

  /** The number of shown cards (cards whose cover is hidden). */
  function VisibleCount(covers: seq<bool>): (count: nat)
    ensures count <= |covers|
    ensures count == |covers| <==> forall i :: 0 <= i < |covers| ==> covers[i]
  {
    if covers == [] then 0
    else VisibleCount(covers[..|covers| - 1]) + (if covers[|covers| - 1] then 1 else 0)
  }

  /** The recolor requests of a guess that completes a pair of equal values: the new card, then its partner. */
  function Highlights(deck: seq<Card>, guesses: seq<int>): (r: seq<Deferred>)
    requires InRange(guesses, |deck|)
    ensures r != [] <==> |guesses| >= 2 && |guesses| % 2 == 0
                         && deck[guesses[|guesses| - 2]].value == deck[guesses[|guesses| - 1]].value
    ensures r != [] ==> r == [Recolor(guesses[|guesses| - 1]), Recolor(guesses[|guesses| - 2])]
  {
    var n := |guesses|;
    if n >= 2 && n % 2 == 0 && deck[guesses[n - 2]].value == deck[guesses[n - 1]].value
    then [Recolor(guesses[n - 1]), Recolor(guesses[n - 2])]
    else []
  }

  /**
   * The recolour requests of a turn-closing guess name exactly the cards
   * that guess newly matched: a highlighted card was covered before the
   * turn, so it was not matched yet.
   */
  lemma HighlightsAreNewMatches(deck: seq<Card>, guesses: seq<int>, c: int)
    requires WellFormed(deck, guesses)
    requires |guesses| >= 2 && |guesses| % 2 == 0
    ensures Recolor(c) in Highlights(deck, guesses)
        <==> c in MatchedCards(deck, guesses) - MatchedCards(deck, guesses[..|guesses| - 2])
  {
    var n := |guesses|;
    PairIsTwoCards(deck, guesses);
    assert GuessedCovered(deck, guesses, n - 2);
    assert GuessedCovered(deck, guesses, n - 1);
    assert guesses[..n - 1][..n - 2] == guesses[..n - 2];
    assert MatchedCards(deck, guesses[..n - 1]) == MatchedCards(deck, guesses[..n - 2]);
  }

  /**
   * The dealing loop of a new game: card `i` gets number `i` and the value
   * popped from the end of what remains of the shuffled list.
   */
  method DealCards(shuffled: seq<int>) returns (cards: seq<Card>)
    ensures cards == Deal(shuffled)
  {
    var numbers := shuffled;
    cards := [];
    for card := 0 to |shuffled|
      invariant numbers == shuffled[..|shuffled| - card]
      invariant |cards| == card
      invariant forall j :: 0 <= j < card ==> cards[j] == Card(j, shuffled[|shuffled| - 1 - j])
    {
      var value := numbers[|numbers| - 1];
      numbers := numbers[..|numbers| - 1];
      cards := cards + [Card(card, value)];
    }
  }

  class Application {
    var totalcardsets: int
    var totalcards: int
    var deck: seq<Card>
    /** visible[i]: the cover of card i is hidden, so its value shows. */
    var visible: array<bool>
    var guesses: seq<int>
    /** The number shown on the "Turns:" label. */
    var turns: int
    var canvasWidth: int
    var canvasHeight: int

    /**
     * The game invariant: a deck of 2n cards in order, holding each value
     * of [0, n) twice; a guess history of covered cards; the turn label at
     * half the number of guesses; and a card shows exactly when the history
     * says so.
     */
    ghost predicate Valid()
      reads this, visible
    {
      && 0 <= totalcardsets <= MaxSets
      && totalcards == 2 * totalcardsets
      && |deck| == totalcards
      && visible.Length == totalcards
      && (forall i :: 0 <= i < totalcards ==> deck[i].number == i)
      && multiset(Values(deck)) == multiset(Numbers(totalcardsets))
      && WellFormed(deck, guesses)
      && turns == |guesses| / 2
      && Agrees(deck, guesses, visible[..])
    }

    /** The application before its first game: no cards, "Turns: 0". */
    constructor ()
      ensures Valid()
      ensures totalcardsets == 0 && deck == [] && guesses == [] && turns == 0
    {
      totalcardsets, totalcards := 0, 0;
      deck := [];
      visible := new bool[0];
      guesses := [];
      turns := 0;
      canvasWidth, canvasHeight := CanvasWidth(0), CanvasHeight(0);
    }

    /** Is card `card` showing? By the invariant, exactly when the history uncovers it. */
    function IsVisible(card: int): (shown: bool)
      reads this, visible
      requires Valid() && 0 <= card < totalcards
      ensures shown <==> card in Uncovered(deck, guesses)
    {
      assert visible[..][card] == visible[card];
      visible[card]
    }

    /** Hide (state true) or restore (state false) the cover of one card. */
    method SetVisible(card: int, state: bool)
      requires 0 <= card < visible.Length
      modifies visible
      ensures visible[card] == state
      ensures forall i :: 0 <= i < visible.Length && i != card ==> visible[i] == old(visible[i])
    {
      visible[card] := state;
    }

    /**
     * Start a game with `sets` pairs. `shuffled` is the shuffled list
     * `range(sets) * 2`; cards take their values by popping from its end.
     */
    method NewGame(sets: int, shuffled: seq<int>)
      requires 1 <= sets <= MaxSets
      requires multiset(shuffled) == multiset(Numbers(sets))
      modifies this
      ensures Valid() && fresh(visible)
      ensures totalcardsets == sets && totalcards == 2 * sets
      ensures deck == Deal(shuffled)
      ensures forall v :: multiset(Values(deck))[v] == if 0 <= v < sets then 2 else 0
      ensures guesses == [] && turns == 0
      ensures forall i :: 0 <= i < totalcards ==> !visible[i]
      ensures canvasWidth == CanvasWidth(totalcards) && canvasHeight == CanvasHeight(totalcards)
    {
      turns := 0;
      guesses := [];
      totalcardsets := sets;
      totalcards := sets * 2;
      DealtDeckIsPaired(sets, shuffled);
      deck := DealCards(shuffled);
      visible := new bool[totalcards](_ => false);
      assert Uncovered(deck, guesses) == {};
      assert WellFormed(deck, guesses);
      canvasWidth := CanvasWidth(totalcards);
      canvasHeight := CanvasHeight(totalcards);
    }

    /**
     * The win check: the congratulation request, with the number of sets
     * and of turns, exactly when every card shows.
     */
    function CheckWin(): (requests: seq<Deferred>)
      reads this, visible
      requires Valid()
      ensures requests != [] <==> forall i :: 0 <= i < totalcards ==> visible[i]
      ensures requests != [] ==> requests == [ShowWin(totalcardsets, |guesses| / 2)]
    {
      if VisibleCount(visible[..]) == totalcards then
        [ShowWin(totalcardsets, |guesses| / 2)]
      else []
    }

    /** A won game is all matched pairs: every card is in one, and the last turn is complete. */
    lemma WinMeansAllMatched()
      requires Valid() && CheckWin() != []
      ensures |guesses| % 2 == 0
      ensures forall i :: 0 <= i < totalcards ==> i in MatchedCards(deck, guesses)
    {
      AllUncoveredMeansAllMatched(deck, totalcardsets, guesses);
    }

    /**
     * The part of a click that accepts a guess on covered card `card`: the
     * guess is recorded and the card shown; from the second guess on the
     * turn label shows the number of completed turns, and a guess that opens
     * a turn re-covers the previous pair if its values differ.
     */
    method AcceptGuess(card: int)
      requires Valid() && 0 <= card < totalcards && !visible[card]
      modifies this`guesses, this`turns, visible
      ensures Valid()
      ensures guesses == old(guesses) + [card]
      ensures turns == if |guesses| < 2 then old(turns) else |guesses| / 2
      ensures visible[card]
      ensures forall i :: 0 <= i < totalcards && i != card ==>
                visible[i] == (old(visible[i]) && i !in Recovered(deck, guesses))
    {
      ghost var before := visible[..];
      guesses := guesses + [card];
      SetVisible(card, true);
      var n := |guesses|;
      if n >= 2 {
        turns := n / 2;
        if n % 2 == 1 && deck[guesses[n - 3]].value != deck[guesses[n - 2]].value {
          SetVisible(guesses[n - 3], false);
          SetVisible(guesses[n - 2], false);
        }
      }
      ShownAfterGuess(deck, old(guesses), card, before, visible[..]);
    }

    /**
     * Handle a click at canvas point (x, y). A click off the cards or on a
     * showing card changes nothing. Otherwise the guess is accepted; a guess
     * that completes a pair of equal values requests the recolor of both
     * cards; from the second guess on the win check runs.
     */
    method Click(x: int, y: int) returns (requests: seq<Deferred>)
      requires Valid()
      modifies this`guesses, this`turns, visible
      ensures Valid()
      ensures var card := CardIndexAt(x, y);
        if 0 <= card < totalcards && !old(visible[card]) then
          && guesses == old(guesses) + [card]
          && turns == (if |guesses| < 2 then old(turns) else |guesses| / 2)
          && visible[card]
          && (forall i :: 0 <= i < totalcards && i != card ==>
                visible[i] == (old(visible[i]) && i !in Recovered(deck, guesses)))
          && requests == (if |guesses| < 2 then [] else Highlights(deck, guesses) + CheckWin())
        else
          && guesses == old(guesses)
          && turns == old(turns)
          && visible[..] == old(visible[..])
          && requests == []
    {
      var card := CardIndexAt(x, y);
      if !(0 <= card < totalcards) {
        return [];
      }
      if IsVisible(card) {
        return [];
      }
      AcceptGuess(card);
      var n := |guesses|;
      if n < 2 {
        return [];
      }
      requests := [];
      if n % 2 == 0 && deck[guesses[n - 2]].value == deck[card].value {
        requests := [Recolor(card), Recolor(guesses[n - 2])];
      }
      requests := requests + CheckWin();
    }
  }
}
