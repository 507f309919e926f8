/** The card types that Hand consumes. Only the attributes the hand uses are
    modelled: a card's suit (compared for equality) and its value (compared
    with `>`, with Nine as the royal-flush threshold). */
module Cards {

  /** The four suits; only equality between them matters. */
  datatype Suit = Clubs | Diamonds | Hearts | Spades

  /** Card values from Two up to Ace, ordered as the enumeration declares them. */
  datatype CardValue = Two | Three | Four | Five | Six | Seven | Eight | Nine
                     | Ten | Jack | Queen | King | Ace
  {
    /** The position of the value in the ordering; `a > b` on card values
        compares these numbers. */
    function Ord(): nat {
      match this
      case Two => 2
      case Three => 3
      case Four => 4
      case Five => 5
      case Six => 6
      case Seven => 7
      case Eight => 8
      case Nine => 9
      case Ten => 10
      case Jack => 11
      case Queen => 12
      case King => 13
      case Ace => 14
    }
  }

  datatype Card = Card(suit: Suit, value: CardValue)

  /** The three rank categories, in rising priority. */
  datatype HandRank = HighCard | Flush | RoyalFlush
}
