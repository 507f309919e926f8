/** The ranking queries of a hand, as functions of the cards it holds (in
    drawing order). None of them changes the hand, so asking twice with no
    Draw in between gives the same answer. */
module Ranking {
  import opened Cards

  /** The step of the high-card fold: the next card replaces the running
      maximum only when its value is strictly greater. */
  function Keep(highCard: Card, nextCard: Card): (r: Card)
    ensures r == highCard || r == nextCard
    ensures highCard.value.Ord() <= r.value.Ord() && nextCard.value.Ord() <= r.value.Ord()
    ensures nextCard.value.Ord() > highCard.value.Ord() ==> r == nextCard
    ensures nextCard.value.Ord() <= highCard.value.Ord() ==> r == highCard
  {
    if nextCard.value.Ord() > highCard.value.Ord() then nextCard else highCard
  }

  /** A left fold of Keep over `rest`, starting from `seed`. */
  function Aggregate(seed: Card, rest: seq<Card>): (r: Card)
    ensures r == seed || r in rest
    ensures seed.value.Ord() <= r.value.Ord()
    ensures forall i :: 0 <= i < |rest| ==> rest[i].value.Ord() <= r.value.Ord()
    decreases |rest|
  {
    if rest == [] then seed
    else
      var r := Aggregate(Keep(seed, rest[0]), rest[1..]);
      assert forall i :: 1 <= i < |rest| ==> rest[i] == rest[1..][i - 1];
      r
  }

  /** The highest card of a non-empty hand: the fold seeded with the first
      card, as an unseeded aggregate does. An empty hand has no high card. */
  function HighCard(cards: seq<Card>): (r: Card)
    requires |cards| > 0
    ensures r in cards
    ensures forall i :: 0 <= i < |cards| ==> cards[i].value.Ord() <= r.value.Ord()
  {
    Aggregate(cards[0], cards[1..])
  }

  /** Index `i` holds a card of the highest value, and it is the first such
      card in drawing order. */
  ghost predicate IsFirstHighest(cards: seq<Card>, i: int)
    ensures IsFirstHighest(cards, i) ==>
            0 <= i < |cards| && forall k :: 0 <= k < |cards| && cards[k].value.Ord() == cards[i].value.Ord() ==> i <= k
  {
    0 <= i < |cards| &&
    (forall j :: 0 <= j < |cards| ==> cards[j].value.Ord() <= cards[i].value.Ord()) &&
    (forall j :: 0 <= j < i ==> cards[j].value.Ord() < cards[i].value.Ord())
  }

  /** A reference definition of the tie-break, independent of the fold: it
      scans from the right and lets the front card win every tie. */
  ghost function FirstHighest(cards: seq<Card>): (i: nat)
    requires |cards| > 0
    ensures IsFirstHighest(cards, i)
  {
    if |cards| == 1 then 0
    else
      var j := 1 + FirstHighest(cards[1..]);
      assert forall k :: 1 <= k < |cards| ==> cards[k] == cards[1..][k - 1];
      if cards[j].value.Ord() <= cards[0].value.Ord() then 0 else j
  }

  /** Among cards of equal highest value the fold keeps the first one drawn:
      whichever index is the first highest, that is the card returned. */
  lemma {:induction false} AggregateIsFirstHighest(seed: Card, rest: seq<Card>, i: int)
    requires IsFirstHighest([seed] + rest, i)
    ensures Aggregate(seed, rest) == ([seed] + rest)[i]
    decreases |rest|
  {
    var s := [seed] + rest;
    if rest != [] {
      var k := Keep(seed, rest[0]);
      var s' := [k] + rest[1..];
      assert s[1] == rest[0];
      assert forall j :: 1 <= j < |s'| ==> s'[j] == s[j + 1];
      if i == 0 {
        assert k == seed;
        assert IsFirstHighest(s', 0);
        AggregateIsFirstHighest(k, rest[1..], 0);
      } else if i == 1 {
        assert s[0].value.Ord() < s[1].value.Ord();
        assert k == rest[0];
        assert IsFirstHighest(s', 0);
        AggregateIsFirstHighest(k, rest[1..], 0);
      } else {
        assert s[0].value.Ord() < s[i].value.Ord() && s[1].value.Ord() < s[i].value.Ord();
        assert IsFirstHighest(s', i - 1);
        AggregateIsFirstHighest(k, rest[1..], i - 1);
      }
    }
  }

  /** HighCard returns the first card, in drawing order, of the highest value. */
  lemma HighCardIsFirstHighest(cards: seq<Card>, i: int)
    requires IsFirstHighest(cards, i)
    ensures HighCard(cards) == cards[i]
  {
    assert [cards[0]] + cards[1..] == cards;
    AggregateIsFirstHighest(cards[0], cards[1..], i);
  }

  /** The fold's result agrees with the reference definition of the tie-break. */
  lemma HighCardMatchesReference(cards: seq<Card>)
    requires |cards| > 0
    ensures HighCard(cards) == cards[FirstHighest(cards)]
  {
    HighCardIsFirstHighest(cards, FirstHighest(cards));
  }

  /** Folding over one more card is one more step of the fold. */
  lemma {:induction false} AggregateSnoc(seed: Card, rest: seq<Card>, c: Card)
    ensures Aggregate(seed, rest + [c]) == Keep(Aggregate(seed, rest), c)
    decreases |rest|
  {
    if rest != [] {
      assert (rest + [c])[0] == rest[0];
      assert (rest + [c])[1..] == rest[1..] + [c];
      AggregateSnoc(Keep(seed, rest[0]), rest[1..], c);
    }
  }

  /** After drawing `c`, the high card is `c` exactly when `c` beats the old
      high card; a tie keeps the old one. */
  lemma HighCardAfterDraw(cards: seq<Card>, c: Card)
    requires |cards| > 0
    ensures HighCard(cards + [c]) ==
            if c.value.Ord() > HighCard(cards).value.Ord() then c else HighCard(cards)
  {
    assert (cards + [c])[0] == cards[0];
    assert (cards + [c])[1..] == cards[1..] + [c];
    AggregateSnoc(cards[0], cards[1..], c);
  }

  /** Every card has the suit of the first card. On an empty hand this holds
      vacuously and the first card is never looked at. Comparing with the
      first card is the same as comparing every two cards. */
  predicate HasFlush(cards: seq<Card>)
    ensures HasFlush(cards) <==>
            forall i, j :: 0 <= i < |cards| && 0 <= j < |cards| ==> cards[i].suit == cards[j].suit
  {
    forall i :: 0 <= i < |cards| ==> cards[0].suit == cards[i].suit
  }

  /** Every card's value is strictly greater than Nine, that is, every card is
      one of Ten, Jack, Queen, King and Ace. */
  predicate AllAboveNine(cards: seq<Card>)
    ensures AllAboveNine(cards) <==> forall i :: 0 <= i < |cards| ==> IsBroadway(cards[i].value)
  {
    forall i :: 0 <= i < |cards| ==> cards[i].value.Ord() > Nine.Ord()
  }

  /** A flush whose every card is above Nine; in particular a flush. */
  predicate HasRoyalFlush(cards: seq<Card>)
    ensures HasRoyalFlush(cards) ==> HasFlush(cards)
    ensures HasRoyalFlush(cards) <==>
            (forall i, j :: 0 <= i < |cards| && 0 <= j < |cards| ==> cards[i].suit == cards[j].suit) &&
            (forall i :: 0 <= i < |cards| ==> IsBroadway(cards[i].value))
  {
    HasFlush(cards) && AllAboveNine(cards)
  }

  /** The first category that matches, checked from the highest priority down.
      In terms of suits and values: a single suit of Ten to Ace ranks
      RoyalFlush, a single suit with some card of Nine or lower ranks Flush,
      and two suits or more rank HighCard. */
  function GetHandRank(cards: seq<Card>): (r: HandRank)
    ensures r == HandRank.RoyalFlush <==>
            |SuitsOf(cards)| <= 1 && forall i :: 0 <= i < |cards| ==> IsBroadway(cards[i].value)
    ensures r == HandRank.Flush <==>
            |SuitsOf(cards)| <= 1 && exists i :: 0 <= i < |cards| && !IsBroadway(cards[i].value)
    ensures r == HandRank.HighCard <==> |SuitsOf(cards)| >= 2
  {
    FlushIffOneSuit(cards);
    if HasRoyalFlush(cards) then HandRank.RoyalFlush
    else if HasFlush(cards) then HandRank.Flush
    else HandRank.HighCard
  }

  /** The set of suits present in a hand. */
  ghost function SuitsOf(cards: seq<Card>): set<Suit> {
    set i | 0 <= i < |cards| :: cards[i].suit
  }

  /** The values that count for a royal flush. */
  predicate IsBroadway(v: CardValue) {
    v == Ten || v == Jack || v == Queen || v == King || v == Ace
  }

  /** A hand is a flush exactly when it shows at most one suit. */
  lemma FlushIffOneSuit(cards: seq<Card>)
    ensures HasFlush(cards) <==> |SuitsOf(cards)| <= 1
  {
    var s := SuitsOf(cards);
    if HasFlush(cards) {
      if |cards| > 0 {
        assert s == {cards[0].suit};
      } else {
        assert s == {};
      }
    } else {
      var i :| 0 <= i < |cards| && cards[0].suit != cards[i].suit;
      var rest := s - {cards[0].suit};
      assert cards[0].suit in s && cards[i].suit in rest;
      assert |rest| == |s| - 1;
    }
  }

  /** The empty hand: both flush checks hold vacuously, so it ranks RoyalFlush. */
  lemma EmptyHandIsRoyalFlush()
    ensures HasFlush([]) && HasRoyalFlush([])
    ensures GetHandRank([]) == HandRank.RoyalFlush
  {
  }

  /** Drawing `c` keeps a flush exactly when `c` has the first card's suit,
      and keeps a royal flush when moreover `c` is above Nine. */
  lemma FlushAfterDraw(cards: seq<Card>, c: Card)
    ensures HasFlush(cards + [c]) <==> HasFlush(cards) && (cards == [] || c.suit == cards[0].suit)
    ensures HasRoyalFlush(cards + [c]) <==>
            HasRoyalFlush(cards) && (cards == [] || c.suit == cards[0].suit) && c.value.Ord() > Nine.Ord()
  {
    var s := cards + [c];
    assert forall i :: 0 <= i < |cards| ==> s[i] == cards[i];
    assert s[|cards|] == c;
  }

  /** Of two Kings drawn before a Two, the first King drawn is the high card. */
  lemma TieBreakExample()
    ensures HighCard([Card(Hearts, King), Card(Spades, King), Card(Clubs, Two)]) == Card(Hearts, King)
  {
  }
}
