# Matching engine model

A Dafny model of the simulated exchange's order-matching core: the
`MatchingEngine` class of `services/engine.ts` (its buy book, sell book and
trade log, `placeOrder`, `getOrderBook` and `createTrade`) and the order and
trade records of `types.ts`.

The engine keeps three lists. Placing an order works in these steps:

1. Sort the opposing book: asks ascending for a buy, bids descending for a
   sell. The host's sort is stable.
2. Look only at its head. If the opposing book is empty there is no trade.
   Likewise if the order is a limit order and the head's price is not
   acceptable.
3. Otherwise there is exactly ONE trade:
   - at the resting order's price;
   - for the smaller of the two orders' ORIGINAL quantities;
   - logged at the front of the trade log.
4. Add the traded quantity to both orders' filled quantities and set each
   status to Filled or Partial.
5. Drop the resting order if it is now Filled.
6. Append the incoming order to its own book if it is a limit order that is
   not Filled.

`getOrderBook` sorts a copy of each book and returns its first 15 orders.

The model keeps the consequences of this code as they are:

- A large limit order can rest across the opposing book after one trade, so
  the book can be left crossed (`EngineExamples.CrossedAfterOneMatch`).
- The trade quantity is computed from the resting order's original
  quantity, not from what remains of it. So a resting order that was
  already Partial can end with a filled quantity above its quantity
  (`EngineExamples.PartialMakerOverfilled`).
- There is no self-trade check.
- Nothing cancels an order.
- `filledOrders` is always returned empty.

Files:

- `types.dfy` (module `Types`): the side, type and status enumerations, and
  the `Order` and `Trade` records.
- `price_sort.dfy` (module `PriceSort`): the stable price sort as an
  insertion sort (`SortBook`), its sortedness, permutation and stability
  lemmas, and the 15-deep display snapshot.
- `engine.dfy` (module `Engine`): the hash helpers; `Place`, the function
  that specifies one `placeOrder` call on the whole engine state, and the
  lemmas about it; and the class `MatchingEngine`. That class holds the books
  and the log in `seq` fields. Its methods update them step by step and are
  proved to agree with `Place`.
- `engine_examples.dfy` (module `EngineExamples`): concrete placements on
  small books.

Unlike a full price/time-priority matching engine, this code:

- matches once per call rather than walking the orders and price levels;
- makes no promise that the book is uncrossed afterwards;
- records no maker or taker order ids in a trade;
- computes trade quantities from the orders' original quantities, not from
  what remains;
- gives market orders a price field, which it ignores;
- does not validate incoming orders.

Time priority among equally priced orders is the order in which they sit
in the book. That is arrival order for orders that only ever rest and
trade. The contracts speak of the book's order, because the engine keeps
no arrival sequence number.

## Model

| member | source | states |
|---|---|---|
| Types.Min | services/engine.ts:64 | the trade quantity is no more than either quantity and equals one of them |
| PriceSort.Insert | services/engine.ts:55 | inserting into a book adds exactly that order (multiset) and one to the length |
| PriceSort.SortBook | services/engine.ts:55 | the sorted book is a permutation of the book (same length, same multiset) |
| PriceSort.InsertChained | services/engine.ts:55 | inserting into a book ordered by price keeps each order no worse than the next |
| PriceSort.ChainedIsSorted | services/engine.ts:55 | adjacent ordering by price implies every earlier order ranks no worse than every later one |
| PriceSort.SortBookChained | services/engine.ts:55 | the sorted book has each order no worse than its successor |
| PriceSort.SortBookSorted | services/engine.ts:88 | the sorted book is ordered by price: ascending for asks, descending for bids |
| PriceSort.InsertAtPrice | services/engine.ts:55 | insertion places the new order ahead of all equally priced orders and changes no other price's sequence |
| PriceSort.SortBookStable | services/engine.ts:55 | at every price the sort keeps the orders in the order they had in the book (stable sort) |
| PriceSort.SortBookHead | services/engine.ts:59 | the head of the sorted book is an order of the book with the best price and is the first of the book's orders at that price, in the book's order |
| PriceSort.Snapshot | services/engine.ts:44-45 | the display copy has min(15, size) orders drawn from the book, in price order; no order it leaves out ranks better than one it shows; at each price it shows the first of the book's orders at that price, in the book's order |
| PriceSort.AtPricePrefix | services/engine.ts:44 | the orders at one price in a leading slice are the first ones at that price in the whole book, in order |
| PriceSort.SortedPrefixAtPrice | services/engine.ts:44-45 | a leading slice of the stably sorted book shows, at each price, the first of the book's orders at that price, in the book's order |
| PriceSort.PrefixOfSorted | services/engine.ts:44 | a leading slice of a sorted book is sorted and is drawn from the book |
| PriceSort.PrefixRanksFirst | services/engine.ts:44 | whatever the leading slice leaves out ranks no better than anything in the slice |
| PriceSort.LeftOver | services/engine.ts:44 | the orders the slice leaves out all come from the rest of the book |
| Engine.HexChar | services/engine.ts:128 | a digit below 16 becomes a lower-case hex character that reads back as that digit |
| Engine.HexString | services/engine.ts:128 | the joined digits form a hex string of the same length that reads back digit by digit |
| Engine.TxHash | services/engine.ts:128 | the hash is "0x" followed by 64 lower-case hex digits, from which the drawn digits can be read back |
| Engine.TxHashInjective | services/engine.ts:128 | different digit draws give different hashes |
| Engine.NewTrade | services/engine.ts:121-129 | a new trade carries a well-formed hash |
| Engine.Marketable | services/engine.ts:61 | the match test: a market order, or an ask at or below a buy's limit, or a bid at or above a sell's limit; it has no contract of its own, and `PlaceMatchesIff` states it |
| Engine.Fill | services/engine.ts:69-74 | the filled quantity rises by exactly the traded quantity; the status becomes Filled exactly when the filled quantity reaches the quantity, and Partial otherwise; nothing else changes |
| Engine.Match | services/engine.ts:59-78 | the single matching step against the head of the sorted book; it has no contract of its own, and `MatchFills` and `MatchOpposing` state it |
| Engine.Place | services/engine.ts:49-118 | one call of `placeOrder` on the whole engine state; it has no contract of its own, and the `Place*` lemmas below state its behaviour |
| Engine.PlaceMatchesIff | services/engine.ts:59-61 | a trade happens exactly when the opposing book is not empty and the order is a market order or some resting opposing order has an acceptable price (ask at or below a buy's limit, bid at or above a sell's limit) |
| Engine.PlaceTrade | services/engine.ts:63-66 | on a match, the counterpart is the best priced of the opposing orders and the first at that price in the book's order; the trade has its price, the smaller of the two original quantities, the order's symbol and side, the given id and time, a well-formed hash, and goes to the front of the log |
| Engine.PlaceFills | services/engine.ts:69-78 | on a match, both filled quantities rise by the traded quantity; each status is Filled exactly when the filled quantity reaches the quantity, and Partial otherwise; nothing else about either order changes; the counterpart leaves the front of the book exactly when Filled |
| Engine.MatchFills | services/engine.ts:69-78 | the matching step fills both orders by the traded quantity and removes the counterpart exactly when it is Filled |
| Engine.PlaceNoMatch | services/engine.ts:55-61 | without a match no trade is logged, the order is unchanged, and the opposing book is only sorted (same multiset) |
| Engine.PlaceOwnBook | services/engine.ts:81-83 | the order is appended to its own book exactly when it is a limit order not Filled; a market order never rests; otherwise the own book is unchanged |
| Engine.PlaceFillsOneSide | services/engine.ts:64 | with non-negative fills, a match fills the incoming order or removes the counterpart from the book |
| Engine.MatchOpposing | services/engine.ts:73-78 | after matching, the opposing book holds orders of the sorted book, or the counterpart left Partial |
| Engine.PlacePreservesInvariant | services/engine.ts:76-83 | every resting order is a limit order, not Filled, on its own side's book, before and after a placement |
| Engine.PlacePreservesWellSized | services/engine.ts:64-83 | when the incoming order has a positive quantity and a non-negative filled quantity, every resting order keeps both, and so does the returned order, which makes the hypothesis of `PlaceFillsOneSide` hold in every state reached that way |
| Engine.PlaceNeverCancels | services/engine.ts:70-74 | placement assigns only Filled or Partial, so no order becomes Cancelled |
| Engine.MatchingEngine.constructor | services/engine.ts:36-40 | a new engine has empty books and an empty trade log |
| Engine.MatchingEngine.GetOrderBook | services/engine.ts:42-47 | at most 15 bids by nonincreasing price and 15 asks by nondecreasing price, each drawn from its book and its best orders, showing at each price the first of the book's orders there |
| Engine.MatchingEngine.PlaceOrder | services/engine.ts:49-118 | the new books and trade log, the returned order and trade are those of one placement; the list of filled orders is empty; resting orders stay valid |
| Engine.MatchingEngine.PlaceBuy | services/engine.ts:53-84 | a buy sorts the asks, matches the lowest at most once, and rests a limit remainder, as one placement specifies |
| Engine.MatchingEngine.PlaceSell | services/engine.ts:85-115 | a sell sorts the bids, matches the highest at most once, and rests a limit remainder, as one placement specifies |
| Engine.MatchingEngine.CreateTrade | services/engine.ts:120-132 | builds the trade from its arguments and puts it at the front of the log |
| EngineExamples.RestsOnEmptyBook | services/engine.ts:81-83 | a limit buy on an empty book rests unchanged, with no trade |
| EngineExamples.FillsAtMakerPrice | services/engine.ts:61-78 | a buy of 1 at 101 against an ask of 2 at 100 trades 1 at 100; the buy is Filled; the ask rests Partial |
| EngineExamples.MarketRemainderDropped | services/engine.ts:81 | a market buy of 5 against an ask of 1 trades 1 and leaves both books empty |
| EngineExamples.EarlierAskFirst | services/engine.ts:55-59 | of two asks at the same price the earlier one is matched and the later one is untouched |
| EngineExamples.NoTradeBelowAsk | services/engine.ts:61 | a limit buy below the best ask rests, with no trade |
| EngineExamples.CrossedAfterOneMatch | services/engine.ts:57-61 | after a single trade a large limit buy rests above the remaining ask: the book is crossed |
| EngineExamples.PartialMakerOverfilled | services/engine.ts:64 | an ask already filled 1 of 2 trades 2 more and ends filled beyond its quantity |

## Left out

- `generateInitialCandles` (the random-walk candle generator), `App.tsx`, the
  user interface components and the chat assistant service: they are not
  part of the matching core.
- Prices and quantities are integers, not the host's floating-point numbers.
  Rounding is not modelled.
- The random trade id, the clock reading and the 64 random hash digits are
  parameters of `PlaceOrder` and `CreateTrade`, not drawn inside them.
- Aliasing: the source changes the caller's order object in place, and that
  object then also rests in the book. The model returns the updated order as
  a value (`placed`).
- The comparators' behaviour on non-numeric prices (NaN) is not modelled.
  The sort is defined by the order of integer prices plus the book's order among equal prices.
- Engine.MatchingEngine.PlaceOrder: the buy and sell branches are two
  methods, `PlaceBuy` and `PlaceSell`. Each requires its side, which only
  `PlaceOrder` checks. This keeps each proof small.
- Engine.MatchingEngine.GetOrderBook: the ranking of shown against omitted
  orders is stated with the sort key, meaning the price for asks and its
  negation for bids.
- The string values of the side, type and status enumerations are not
  modelled. Their closed sets of values are Dafny datatypes.
