/**
 * What the guess history implies about the board. A card is uncovered
 * exactly when it belongs to a completed pair of equal values, or to the
 * current turn (the last guess when their number is odd, the last two
 * guesses when it is even: a mismatched pair stays uncovered until the next
 * accepted click).
 */
module History {
  import opened Cards
  import opened Deck

  /** Every guess names a card of a deck of `total` cards. */
  predicate InRange(guesses: seq<int>, total: int)
  {
    forall j :: 0 <= j < |guesses| ==> 0 <= guesses[j] < total
  }

  /** The cards of completed pairs (guesses 2k and 2k+1) that show equal values. */
  function MatchedCards(deck: seq<Card>, guesses: seq<int>): (r: set<int>)
    requires InRange(guesses, |deck|)
    decreases |guesses|
  {
    if |guesses| < 2 then {}
    else if |guesses| % 2 == 1 then MatchedCards(deck, guesses[..|guesses| - 1])
    else
      var a, b := guesses[|guesses| - 2], guesses[|guesses| - 1];
      MatchedCards(deck, guesses[..|guesses| - 2]) + (if deck[a].value == deck[b].value then {a, b} else {})
  }

  /** The guesses of the turn in progress, or of the turn just completed. */
  function CurrentTurn(guesses: seq<int>): (r: set<int>)
    ensures |guesses| > 0 ==> guesses[|guesses| - 1] in r
  {
    if |guesses| == 0 then {}
    else if |guesses| % 2 == 1 then {guesses[|guesses| - 1]}
    else {guesses[|guesses| - 2], guesses[|guesses| - 1]}
  }

  /** The cards the history leaves uncovered. */
  function Uncovered(deck: seq<Card>, guesses: seq<int>): (r: set<int>)
    requires InRange(guesses, |deck|)
  {
    MatchedCards(deck, guesses) + CurrentTurn(guesses)
  }

  /** Guess `j` was made on a card that was covered at the time. */
  predicate GuessedCovered(deck: seq<Card>, guesses: seq<int>, j: int)
  {
    && 0 <= j < |guesses|
    && InRange(guesses[..j], |deck|)
    && guesses[j] !in Uncovered(deck, guesses[..j])
  }

  /** Every guess was made on a card that was covered at the time. */
  predicate WellFormed(deck: seq<Card>, guesses: seq<int>)
  {
    && InRange(guesses, |deck|)
    && forall j :: 0 <= j < |guesses| ==> GuessedCovered(deck, guesses, j)
  }

  /** The pair re-covered by the guess that opens a new turn: the previous pair, if its values differ. */
  function Recovered(deck: seq<Card>, guesses: seq<int>): (r: set<int>)
    requires InRange(guesses, |deck|)
    ensures |guesses| % 2 == 0 ==> r == {}
    ensures var n := |guesses|;
            n >= 3 && n % 2 == 1 ==> (r != {} <==> deck[guesses[n - 3]].value != deck[guesses[n - 2]].value)
    ensures var n := |guesses|;
            forall c :: c in r ==> n >= 3 && (c == guesses[n - 3] || c == guesses[n - 2])
    ensures r == {} || (|guesses| >= 3 && r == {guesses[|guesses| - 3], guesses[|guesses| - 2]})
  {
    var n := |guesses|;
    if n >= 3 && n % 2 == 1 && deck[guesses[n - 3]].value != deck[guesses[n - 2]].value
    then {guesses[n - 3], guesses[n - 2]}
    else {}
  }

  lemma PrefixWellFormed(deck: seq<Card>, guesses: seq<int>, m: int)
    requires WellFormed(deck, guesses) && 0 <= m <= |guesses|
    ensures WellFormed(deck, guesses[..m])
  {
    forall j | 0 <= j < m
      ensures GuessedCovered(deck, guesses[..m], j)
    {
      assert GuessedCovered(deck, guesses, j);
      assert guesses[..m][..j] == guesses[..j];
    }
  }

  /** A guess on a covered card keeps the history well formed. */
  lemma GuessKeepsWellFormed(deck: seq<Card>, guesses: seq<int>, card: int)
    requires WellFormed(deck, guesses)
    requires 0 <= card < |deck|
    requires card !in Uncovered(deck, guesses)
    ensures WellFormed(deck, guesses + [card])
  {
    var g := guesses + [card];
    forall j | 0 <= j < |g|
      ensures GuessedCovered(deck, g, j)
    {
      if j < |guesses| {
        assert GuessedCovered(deck, guesses, j);
        assert g[..j] == guesses[..j];
      } else {
        assert g[..j] == guesses;
      }
    }
  }

  /**
   * The effect of one accepted guess on the uncovered cards: the guessed
   * card is added and, when the guess opens a new turn, the previous pair is
   * removed if it did not match. The guessed card itself is never removed.
   */
  lemma UncoveredAfterGuess(deck: seq<Card>, guesses: seq<int>, card: int)
    requires WellFormed(deck, guesses)
    requires 0 <= card < |deck|
    requires card !in Uncovered(deck, guesses)
    ensures card !in Recovered(deck, guesses + [card])
    ensures Uncovered(deck, guesses + [card])
         == (Uncovered(deck, guesses) + {card}) - Recovered(deck, guesses + [card])
  {
    if |guesses| % 2 == 0 {
      OpeningGuess(deck, guesses, card);
    } else {
      ClosingGuess(deck, guesses, card);
    }
  }

  /** The cover flags `shown` of a deck agree with what the history uncovers. */
  predicate Agrees(deck: seq<Card>, guesses: seq<int>, shown: seq<bool>)
    requires InRange(guesses, |deck|)
  {
    |shown| == |deck| && forall i :: 0 <= i < |deck| ==> (shown[i] <==> i in Uncovered(deck, guesses))
  }

  /**
   * Cover flags that agree with a history still agree with it after one
   * accepted guess, when the guessed card is shown and the re-covered pair hidden.
   */
  lemma ShownAfterGuess(deck: seq<Card>, guesses: seq<int>, card: int, before: seq<bool>, after: seq<bool>)
    requires WellFormed(deck, guesses) && Agrees(deck, guesses, before)
    requires 0 <= card < |deck| && !before[card]
    requires |after| == |deck|
    requires forall i :: 0 <= i < |deck| ==>
               after[i] == (i == card || (before[i] && i !in Recovered(deck, guesses + [card])))
    ensures WellFormed(deck, guesses + [card])
    ensures Agrees(deck, guesses + [card], after)
  {
    UncoveredAfterGuess(deck, guesses, card);
    GuessKeepsWellFormed(deck, guesses, card);
  }

  /** A guess that opens a turn re-covers the previous pair exactly when it did not match. */
  lemma OpeningGuess(deck: seq<Card>, guesses: seq<int>, card: int)
    requires WellFormed(deck, guesses) && |guesses| % 2 == 0
    requires 0 <= card < |deck|
    requires card !in Uncovered(deck, guesses)
    ensures card !in Recovered(deck, guesses + [card])
    ensures Uncovered(deck, guesses + [card])
         == (Uncovered(deck, guesses) + {card}) - Recovered(deck, guesses + [card])
  {
    var g := guesses + [card];
    var n := |guesses|;
    assert g[..n] == guesses;
    assert MatchedCards(deck, g) == MatchedCards(deck, guesses);
    assert CurrentTurn(g) == {card};
    if n >= 2 {
      var a, b := guesses[n - 2], guesses[n - 1];
      assert g[n - 2] == a && g[n - 1] == b;
      assert CurrentTurn(guesses) == {a, b};
      if deck[a].value != deck[b].value {
        var before := guesses[..n - 2];
        assert Recovered(deck, g) == {a, b};
        assert MatchedCards(deck, guesses) == MatchedCards(deck, before);
        // Guess n-2 was made on a covered card.
        assert GuessedCovered(deck, guesses, n - 2);
        assert a !in MatchedCards(deck, guesses);
        // Guess n-1 was made on a covered card; the history before it has odd length.
        assert GuessedCovered(deck, guesses, n - 1);
        assert guesses[..n - 1][..n - 2] == before;
        assert MatchedCards(deck, guesses[..n - 1]) == MatchedCards(deck, before);
        assert b !in MatchedCards(deck, guesses);
      } else {
        assert Recovered(deck, g) == {};
        assert {a, b} <= MatchedCards(deck, guesses);
      }
    }
  }

  /** A guess that closes a turn re-covers nothing; it adds the pair to the matched cards when the values agree. */
  lemma ClosingGuess(deck: seq<Card>, guesses: seq<int>, card: int)
    requires WellFormed(deck, guesses) && |guesses| % 2 == 1
    requires 0 <= card < |deck|
    requires card !in Uncovered(deck, guesses)
    ensures card !in Recovered(deck, guesses + [card])
    ensures Uncovered(deck, guesses + [card])
         == (Uncovered(deck, guesses) + {card}) - Recovered(deck, guesses + [card])
  {
    var g := guesses + [card];
    var n := |guesses|;
    var a := guesses[n - 1];
    assert Recovered(deck, g) == {};
    assert g[..n - 1] == guesses[..n - 1];
    assert MatchedCards(deck, guesses) == MatchedCards(deck, guesses[..n - 1]);
    assert MatchedCards(deck, g)
        == MatchedCards(deck, guesses) + (if deck[a].value == deck[card].value then {a, card} else {});
    assert CurrentTurn(g) == {a, card};
    assert CurrentTurn(guesses) == {a};
  }

  /** The two cards of every completed pair are different cards. */
  lemma PairIsTwoCards(deck: seq<Card>, guesses: seq<int>)
    requires WellFormed(deck, guesses)
    requires |guesses| >= 2 && |guesses| % 2 == 0
    ensures guesses[|guesses| - 2] != guesses[|guesses| - 1]
  {
    var n := |guesses|;
    assert GuessedCovered(deck, guesses, n - 1);
    assert guesses[..n - 1][n - 2] == guesses[n - 2];
  }

  /** Every matched card has a different matched card of the same value: the one it was paired with. */
  lemma {:induction false} MatchedPartner(deck: seq<Card>, guesses: seq<int>, c: int) returns (p: int)
    requires WellFormed(deck, guesses)
    requires c in MatchedCards(deck, guesses)
    ensures p in MatchedCards(deck, guesses) && p != c
    ensures 0 <= c < |deck| && 0 <= p < |deck| && deck[p].value == deck[c].value
  {
    var n := |guesses|;
    if n % 2 == 1 {
      PrefixWellFormed(deck, guesses, n - 1);
      p := MatchedPartner(deck, guesses[..n - 1], c);
    } else {
      var a, b := guesses[n - 2], guesses[n - 1];
      var before := guesses[..n - 2];
      PrefixWellFormed(deck, guesses, n - 2);
      if c in MatchedCards(deck, before) {
        p := MatchedPartner(deck, before, c);
      } else {
        PairIsTwoCards(deck, guesses);
        p := if c == a then b else a;
      }
    }
  }

  /**
   * The win condition: when every card of a deck holding each of its values
   * exactly twice is uncovered, every card belongs to a matched pair and the
   * last turn is complete (the number of guesses is even).
   */
  lemma AllUncoveredMeansAllMatched(deck: seq<Card>, n: nat, guesses: seq<int>)
    requires multiset(Values(deck)) == multiset(Numbers(n))
    requires WellFormed(deck, guesses)
    requires forall c :: 0 <= c < |deck| ==> c in Uncovered(deck, guesses)
    ensures forall c :: 0 <= c < |deck| ==> c in MatchedCards(deck, guesses)
    ensures |guesses| % 2 == 0
  {
    var m := |guesses|;
    if m % 2 == 1 {
      // The last guess opened a turn on a covered card, so it is not matched.
      var last := guesses[m - 1];
      assert GuessedCovered(deck, guesses, m - 1);
      assert MatchedCards(deck, guesses) == MatchedCards(deck, guesses[..m - 1]);
      UncoveredIsMatched(deck, n, guesses, last);
      assert false;
    }
    forall c | 0 <= c < |deck| ensures c in MatchedCards(deck, guesses) {
      UncoveredIsMatched(deck, n, guesses, c);
    }
  }

  /**
   * When every card is uncovered, each card is matched: otherwise it lies in
   * the current turn together with the other card of its value (that card
   * cannot be matched, having no third copy to be paired with), so the
   * current turn is a complete pair of equal values.
   */
  lemma UncoveredIsMatched(deck: seq<Card>, n: nat, guesses: seq<int>, c: int)
    requires multiset(Values(deck)) == multiset(Numbers(n))
    requires WellFormed(deck, guesses)
    requires forall c :: 0 <= c < |deck| ==> c in Uncovered(deck, guesses)
    requires 0 <= c < |deck|
    ensures c in MatchedCards(deck, guesses)
  {
    var values := Values(deck);
    NumbersOccurrences(n, values[c]);
    var d := PartnerOf(values, c);
    assert c in Uncovered(deck, guesses) && d in Uncovered(deck, guesses);
    if c in CurrentTurn(guesses) && d in CurrentTurn(guesses) {
      // Two different cards in the current turn: it is a complete pair, and its values agree.
      var m := |guesses|;
      assert m % 2 == 0 && m >= 2;
      assert {c, d} == {guesses[m - 2], guesses[m - 1]};
    } else if d !in CurrentTurn(guesses) {
      // The partner is matched; its own partner can only be `c`.
      var e := MatchedPartner(deck, guesses, d);
      if e != c {
        NoThirdCopy(values, c, d, e);
        assert false;
      }
    }
  }
}
