/**
 * Building a fresh deck: the values 0 .. n-1 twice each, shuffled, and dealt
 * to cards 0 .. 2n-1 by popping from the end of the shuffled list.
 */
module Deck {
  import opened Cards

  /** The list `range(n)`: 0, 1, ..., n-1. */
  function Range(n: nat): (r: seq<int>)
    ensures |r| == n
    ensures forall j :: 0 <= j < n ==> r[j] == j
  {
    if n == 0 then [] else Range(n - 1) + [n - 1]
  }

  /** The list `range(n) * 2` that is shuffled to make a deck. */
  function Numbers(n: nat): (r: seq<int>)
    ensures |r| == 2 * n
  {
    Range(n) + Range(n)
  }

  /** Each value of `range(n)` occurs in it exactly once, and nothing else occurs. */
  lemma {:induction false} RangeOccurrences(n: nat, v: int)
    ensures multiset(Range(n))[v] == if 0 <= v < n then 1 else 0
  {
    if n > 0 {
      RangeOccurrences(n - 1, v);
      var r := Range(n - 1);
      assert Range(n) == r + [n - 1];
      assert multiset(r + [n - 1])[v] == multiset(r)[v] + (if v == n - 1 then 1 else 0);
    }
  }

  /** Each value of `range(n) * 2` occurs in it exactly twice. */
  lemma NumbersOccurrences(n: nat, v: int)
    ensures multiset(Numbers(n))[v] == if 0 <= v < n then 2 else 0
  {
    RangeOccurrences(n, v);
  }

  /**
   * The cards dealt from a shuffled list: card `i` gets number `i` and the
   * value popped at step `i`, which is the element `i` places from the end.
   */
  function Deal(shuffled: seq<int>): (deck: seq<Card>)
    ensures |deck| == |shuffled|
    ensures forall i :: 0 <= i < |deck| ==> deck[i].number == i
    // after i pops, card i takes the last element of what is left
    ensures forall i :: 0 <= i < |deck| ==>
              deck[i].value == shuffled[..|shuffled| - i][|shuffled| - i - 1]
  {
    seq(|shuffled|, i requires 0 <= i < |shuffled| => Card(i, shuffled[|shuffled| - 1 - i]))
  }

  /** The values of a deck, in card order. */
  function Values(deck: seq<Card>): (vs: seq<int>)
    ensures |vs| == |deck|
    ensures forall i :: 0 <= i < |deck| ==> vs[i] == deck[i].value
  {
    seq(|deck|, i requires 0 <= i < |deck| => deck[i].value)
  }

  /** Dealing neither loses nor invents a value: the deck holds the shuffled list's values. */
  lemma {:induction false} DealKeepsValues(shuffled: seq<int>)
    ensures multiset(Values(Deal(shuffled))) == multiset(shuffled)
  {
    if shuffled != [] {
      var rest := shuffled[..|shuffled| - 1];
      var last := shuffled[|shuffled| - 1];
      DealKeepsValues(rest);
      assert Values(Deal(shuffled)) == [last] + Values(Deal(rest));
      assert shuffled == rest + [last];
    }
  }

  /**
   * A deck dealt from any shuffle of `range(n) * 2` has `2n` cards, card `i`
   * has number `i`, and every value in [0, n) is on exactly two cards.
   */
  lemma DealtDeckIsPaired(n: nat, shuffled: seq<int>)
    requires multiset(shuffled) == multiset(Numbers(n))
    ensures |Deal(shuffled)| == 2 * n
    ensures forall i :: 0 <= i < 2 * n ==> Deal(shuffled)[i].number == i
    ensures multiset(Values(Deal(shuffled))) == multiset(Numbers(n))
    ensures forall v :: multiset(Values(Deal(shuffled)))[v] == if 0 <= v < n then 2 else 0
  {
    assert |shuffled| == |multiset(shuffled)| == |Numbers(n)|;
    DealKeepsValues(shuffled);
    forall v ensures multiset(Values(Deal(shuffled)))[v] == if 0 <= v < n then 2 else 0 {
      NumbersOccurrences(n, v);
    }
  }

  /** The positions of `s` that hold `v`. */
  function IndicesOf(s: seq<int>, v: int): (r: set<int>)
    ensures forall j :: j in r <==> 0 <= j < |s| && s[j] == v
  {
    set j | 0 <= j < |s| && s[j] == v
  }

  /** The multiplicity of a value is the number of positions holding it. */
  lemma {:induction false} OccurrencesAreIndices(s: seq<int>, v: int)
    ensures multiset(s)[v] == |IndicesOf(s, v)|
  {
    if s != [] {
      var rest := s[..|s| - 1];
      var last := s[|s| - 1];
      OccurrencesAreIndices(rest, v);
      assert s == rest + [last];
      assert multiset(s)[v] == multiset(rest)[v] + (if last == v then 1 else 0);
      if last == v {
        assert IndicesOf(s, v) == IndicesOf(rest, v) + {|rest|};
      } else {
        assert IndicesOf(s, v) == IndicesOf(rest, v);
      }
    }
  }

  lemma SubsetSize(a: set<int>, b: set<int>)
    requires a <= b
    ensures |a| <= |b|
  {
    assert b == a + (b - a);
    assert a * (b - a) == {};
  }

  /** A value that occurs exactly twice has, besides position `i`, a second position. */
  lemma PartnerOf(s: seq<int>, i: int) returns (j: int)
    requires 0 <= i < |s|
    requires multiset(s)[s[i]] == 2
    ensures 0 <= j < |s| && j != i && s[j] == s[i]
  {
    var others := s[..i] + s[i + 1..];
    assert s == s[..i] + [s[i]] + s[i + 1..];
    assert multiset(others)[s[i]] == 1;
    assert s[i] in others;
    var k :| 0 <= k < |others| && others[k] == s[i];
    j := if k < i then k else k + 1;
  }

  /** Three different positions with the same value mean that value occurs at least three times. */
  lemma NoThirdCopy(s: seq<int>, i: int, j: int, k: int)
    requires 0 <= i < |s| && 0 <= j < |s| && 0 <= k < |s|
    requires i != j && j != k && i != k
    requires s[i] == s[j] == s[k]
    ensures multiset(s)[s[i]] >= 3
  {
    OccurrencesAreIndices(s, s[i]);
    SubsetSize({i, j, k}, IndicesOf(s, s[i]));
  }
}
