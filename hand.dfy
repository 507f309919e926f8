/** The hand itself: a list of cards that only ever grows, one card per Draw. */
module Hands {
  import opened Cards

  class Hand {
    /** The cards held, in the order they were drawn; duplicates are allowed. */
    var cards: seq<Card>

    /** A new hand holds no cards. */
    constructor ()
      ensures cards == []
    {
      cards := [];
    }

    /** A read-only view of the hand: a sequence is a value, so a caller
        cannot remove, reorder or replace cards through it. */
    function Cards(): (r: seq<Card>)
      reads this
      ensures r == cards
    {
      cards
    }

    /** Appends one card at the end and changes nothing else. */
    method Draw(card: Card)
      modifies this
      ensures cards == old(cards) + [card]
      ensures |cards| == |old(cards)| + 1 && cards[|cards| - 1] == card
      ensures cards[..|old(cards)|] == old(cards)
    {
      cards := cards + [card];
    }
  }
}
