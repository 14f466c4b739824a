/**
 * A whole game of three sets on the deck dealt as 0 1 2 0 1 2, stated on
 * the guess history: which cards show after each click, and the win.
 */
module Scenario {
  import opened Cards
  import opened Deck
  import opened History

  /** The deck dealt from the shuffled list [2, 1, 0, 2, 1, 0]. */
  const Dealt := [Card(0, 0), Card(1, 1), Card(2, 2), Card(3, 0), Card(4, 1), Card(5, 2)]

  /** The cards clicked, in order, by the player of the game below. */
  const Guesses := [0, 3, 1, 2, 4, 1, 2, 5]

  lemma DealtFromShuffle()
    ensures multiset([2, 1, 0, 2, 1, 0]) == multiset(Numbers(3))
    ensures Deal([2, 1, 0, 2, 1, 0]) == Dealt
  {
    ShuffledNumbers();
  }

  lemma ShuffledNumbers()
    ensures multiset([2, 1, 0, 2, 1, 0]) == multiset(Numbers(3))
  {
    assert Range(3) == [0, 1, 2];
  }

  /** The matched cards after each guess of the game below: pairs (0, 3), then (4, 1), then (2, 5). */
  lemma MatchesAlongTheGame()
    ensures MatchedCards(Dealt, [0, 3]) == {0, 3}
    ensures MatchedCards(Dealt, [0, 3, 1]) == {0, 3}
    ensures MatchedCards(Dealt, [0, 3, 1, 2]) == {0, 3}
    ensures MatchedCards(Dealt, [0, 3, 1, 2, 4]) == {0, 3}
    ensures MatchedCards(Dealt, [0, 3, 1, 2, 4, 1]) == {0, 1, 3, 4}
    ensures MatchedCards(Dealt, [0, 3, 1, 2, 4, 1, 2]) == {0, 1, 3, 4}
    ensures MatchedCards(Dealt, [0, 3, 1, 2, 4, 1, 2, 5]) == {0, 1, 2, 3, 4, 5}
  {
    assert [0, 3, 1][..2] == [0, 3];
    assert [0, 3, 1, 2][..2] == [0, 3];
    assert [0, 3, 1, 2, 4][..4] == [0, 3, 1, 2];
    assert [0, 3, 1, 2, 4, 1][..4] == [0, 3, 1, 2];
    assert [0, 3, 1, 2, 4, 1, 2][..6] == [0, 3, 1, 2, 4, 1];
    assert [0, 3, 1, 2, 4, 1, 2, 5][..6] == [0, 3, 1, 2, 4, 1];
  }

  /**
   * Cards 0 and 3 match; cards 1 and 2 do not, yet stay shown until the
   * next accepted click (so a second click on card 1 is refused); card 4
   * re-covers them; 4 and 1 match, then 2 and 5. Every guess was on a
   * covered card, and all six cards end up matched after eight guesses,
   * that is four turns.
   */
  lemma ThreeSetGame()
    ensures Uncovered(Dealt, [0, 3]) == {0, 3}
    ensures Uncovered(Dealt, [0, 3, 1, 2]) == {0, 1, 2, 3}
    ensures Uncovered(Dealt, [0, 3, 1, 2, 4]) == {0, 3, 4}
    ensures Uncovered(Dealt, [0, 3, 1, 2, 4, 1]) == {0, 1, 3, 4}
    ensures WellFormed(Dealt, [0, 3, 1, 2, 4, 1, 2, 5])
    ensures MatchedCards(Dealt, [0, 3, 1, 2, 4, 1, 2, 5]) == {0, 1, 2, 3, 4, 5}
  {
    MatchesAlongTheGame();
    EarlyGuessesOnCovered();
    LateGuessesOnCovered();
  }

  /** Guesses 0 to 3 of the game were made on covered cards. */
  lemma EarlyGuessesOnCovered()
    ensures forall j :: 0 <= j < 4 ==> GuessedCovered(Dealt, Guesses, j)
  {
    MatchesAlongTheGame();
    assert Guesses[..0] == [] && Guesses[..1] == [0] && Guesses[..2] == [0, 3] && Guesses[..3] == [0, 3, 1];
    assert Uncovered(Dealt, [0, 3, 1]) == {0, 1, 3};
  }

  /** Guesses 4 to 7 of the game were made on covered cards. */
  lemma LateGuessesOnCovered()
    ensures forall j :: 4 <= j < 8 ==> GuessedCovered(Dealt, Guesses, j)
  {
    MatchesAlongTheGame();
    assert Guesses[..4] == [0, 3, 1, 2] && Guesses[..5] == [0, 3, 1, 2, 4];
    assert Guesses[..6] == [0, 3, 1, 2, 4, 1] && Guesses[..7] == [0, 3, 1, 2, 4, 1, 2];
    assert Uncovered(Dealt, [0, 3, 1, 2, 4, 1, 2]) == {0, 1, 2, 3, 4};
  }
}
