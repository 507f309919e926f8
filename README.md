# Poker hand (Dafny model)

This project models the `Hand` class of a C# poker workshop
(`src/03-Hand/answers/first-pass/Hand.cs`). A hand is a list of cards that
only grows, one card per `Draw`. It answers four queries:

- the high card, found with a left fold;
- whether the hand is a flush;
- whether it is a royal flush;
- its rank, chosen by an early-return cascade: `RoyalFlush`, then `Flush`, then `HighCard`.

Layout:

- `cards.dfy`, module `Cards`: the card types `Hand` uses. The C# file does not
  define them, so they are kept minimal:
  - `Suit` has four constructors and is only compared for equality;
  - `CardValue` runs from `Two` to `Ace`, and `Ord()` gives the order that `>` compares;
  - `Card` pairs a suit with a value;
  - `HandRank` has the three categories.
- `hand.dfy`, module `Hands`: class `Hand`. Its `cards` field is a `seq<Card>`.
  `Draw` replaces the field with the old sequence plus the new card, which models
  `List.Add`. `Cards()` is the read-only getter.
- `ranking.dfy`, module `Ranking`: the queries, written as functions of the held
  cards (`Ranking.GetHandRank(h.Cards())` for a hand `h`).
  - `HighCard` is the seedless `Aggregate`. Its body is `Aggregate` seeded with
    the first card, and each step is `Keep`, the lambda at line 28.
  - `HasFlush`, `AllAboveNine`, `HasRoyalFlush` and `GetHandRank` are the
    checks at lines 47-64.

The queries are functions, so they cannot change the hand. Asking the same
question twice with no `Draw` in between always gives the same answer.

Each query is tied to a definition that does not reuse its code:

- the fold's tie-break is proved equal to `FirstHighest`, which scans from the right;
- the flush check is proved equivalent to the hand showing at most one suit (`SuitsOf`);
- the royal threshold is proved equivalent to every value being Ten to Ace (`IsBroadway`).

An empty hand is a flush and a royal flush, because every "for all" check over
zero cards holds. It therefore ranks `RoyalFlush`, and the model keeps this as
the source does. `HighCard` has no answer on an empty hand, so it requires a
non-empty hand.

## Model

| member | source | states |
|---|---|---|
| `Hands.Hand.constructor` | src/03-Hand/answers/first-pass/Hand.cs:14 | a new hand holds no cards |
| `Hands.Hand.Cards` | src/03-Hand/answers/first-pass/Hand.cs:16-18 | the getter yields exactly the held cards in drawing order, as an immutable value through which the hand cannot be changed |
| `Hands.Hand.Draw` | src/03-Hand/answers/first-pass/Hand.cs:20-23 | the new card is appended at the end, the length grows by one, and every earlier card stays where it was |
| `Ranking.Keep` | src/03-Hand/answers/first-pass/Hand.cs:28 | the fold step returns one of its two cards, at least as high as both; the next card wins only when strictly higher, and a tie keeps the running maximum |
| `Ranking.Aggregate` | src/03-Hand/answers/first-pass/Hand.cs:28 | the left fold returns the seed or a folded card, and its value is at least the seed's and every folded card's |
| `Ranking.HighCard` | src/03-Hand/answers/first-pass/Hand.cs:26-28 | requires a non-empty hand; returns a card of the hand whose value is at least that of every card in the hand |
| `Ranking.IsFirstHighest` | src/03-Hand/answers/first-pass/Hand.cs:28 | the tie-break target: an index of a highest-valued card that is the first index holding that value |
| `Ranking.FirstHighest` | src/03-Hand/answers/first-pass/Hand.cs:28 | reference for the tie-break: an index of a highest-valued card before which every card is strictly lower |
| `Ranking.AggregateIsFirstHighest` | src/03-Hand/answers/first-pass/Hand.cs:28 | the fold returns the first card, in order, that has the highest value |
| `Ranking.HighCardIsFirstHighest` | src/03-Hand/answers/first-pass/Hand.cs:26-28 | HighCard returns the card at the first index of the highest value; every earlier card is strictly lower |
| `Ranking.HighCardMatchesReference` | src/03-Hand/answers/first-pass/Hand.cs:28 | HighCard agrees with the independent right-to-left definition of the first highest card |
| `Ranking.AggregateSnoc` | src/03-Hand/answers/first-pass/Hand.cs:28 | folding over one more card is the old result followed by one more fold step |
| `Ranking.HighCardAfterDraw` | src/03-Hand/answers/first-pass/Hand.cs:20-28 | after a Draw, the high card is the new card exactly when it is strictly higher than the old high card; otherwise it is unchanged |
| `Ranking.TieBreakExample` | src/03-Hand/answers/first-pass/Hand.cs:28 | for King of Hearts, King of Spades, Two of Clubs drawn in that order, the high card is the King of Hearts |
| `Ranking.FlushIffOneSuit` | src/03-Hand/answers/first-pass/Hand.cs:54-58 | "every suit equals the first card's" holds exactly when the hand shows at most one suit, including the empty hand |
| `Ranking.HasFlush` | src/03-Hand/answers/first-pass/Hand.cs:54-58 | every card has the first card's suit, vacuously true on an empty hand; equivalently, every two cards of the hand share a suit |
| `Ranking.AllAboveNine` | src/03-Hand/answers/first-pass/Hand.cs:60-63 | every value is strictly above Nine, equivalently every value is Ten, Jack, Queen, King or Ace |
| `Ranking.HasRoyalFlush` | src/03-Hand/answers/first-pass/Hand.cs:61-64 | a royal flush is always a flush, and it holds exactly when every two cards share a suit and every value is Ten to Ace |
| `Ranking.GetHandRank` | src/03-Hand/answers/first-pass/Hand.cs:46-52 | the early-return cascade ranks RoyalFlush exactly for at most one suit and all values Ten to Ace; Flush exactly for at most one suit and some value Nine or lower; HighCard exactly for two or more suits |
| `Ranking.EmptyHandIsRoyalFlush` | src/03-Hand/answers/first-pass/Hand.cs:47-64 | an empty hand is a flush and a royal flush and ranks RoyalFlush |
| `Ranking.FlushAfterDraw` | src/03-Hand/answers/first-pass/Hand.cs:20-64 | a Draw keeps a flush exactly when the new card has the first card's suit (or the hand was empty), and keeps a royal flush exactly when, in addition, the new card is above Nine |

## Left out

- The types `Card`, `CardValue` and `HandRank` are not defined in Hand.cs; cards.dfy models them minimally, with only what `Hand` uses: suit equality, the order of values, and the Nine threshold.
- The C# list is `private readonly`, so only `Draw` can change it. The Dafny field `Hands.Hand.cards` is publicly assignable, so any code allowed to modify a hand could replace or reorder it; "only grows, one card per Draw" holds for callers that change a hand through `Draw`.
- `Cards` returns an `IEnumerable` view of the live list in C#. Here it returns a `seq` value, so aliasing between the view and later `Draw` calls is not modelled.
- The empty-hand failure of `HighCard` is a precondition (`requires |cards| > 0`), not .NET's `InvalidOperationException`.
- The commented-out loop and `OrderBy(...).Last()` alternatives in `HighCard` are not live code. The `OrderBy` variant would return the last of the tied cards, not the first.
- The unused concurrency and task imports are left out, because the class has no concurrency.
