/** The single-instrument matching engine: the buy and sell books of resting
    orders, the trade log kept newest first, placing an order (at most one
    match against the best opposing order) and the display snapshot of the
    books.

    `Place` is the specification of one call of `placeOrder` on the whole
    engine state; the class `MatchingEngine` holds that state in fields and
    its method `PlaceOrder` performs the call step by step and is proved to
    agree with `Place`. The lemmas after `Place` state what a call does. */
module Engine {
  import opened Types
  import opened PriceSort

  // ---------------------------------------------------------------------
  // Trade hashes

  /** One random hexadecimal digit, as drawn for the simulated hash. */
  type Nibble = n: int | 0 <= n < 16

  /** A lower-case hexadecimal digit, as `toString(16)` writes them. */
  predicate IsHexDigit(c: char)
  {
    '0' <= c <= '9' || 'a' <= c <= 'f'
  }

  /** The value of a lower-case hexadecimal digit, or -1. */
  function HexValue(c: char): int
  {
    if '0' <= c <= '9' then c as int - '0' as int
    else if 'a' <= c <= 'f' then c as int - 'a' as int + 10
    else -1
  }

  /** A digit written in base 16, lower case. */
  function HexChar(n: Nibble): (c: char)
    ensures IsHexDigit(c) && HexValue(c) == n
  {
    if n < 10 then ('0' as int + n) as char else ('a' as int + n - 10) as char
  }

  /** The digits written one character each and joined. */
  function HexString(ns: seq<Nibble>): (h: string)
    ensures |h| == |ns|
    ensures forall i | 0 <= i < |h| :: IsHexDigit(h[i]) && HexValue(h[i]) == ns[i]
  {
    if ns == [] then "" else [HexChar(ns[0])] + HexString(ns[1..])
  }

  /** The shape of a simulated transaction hash: "0x" and 64 hex digits. */
  predicate IsTxHash(h: string)
  {
    |h| == 66 && h[0] == '0' && h[1] == 'x' && forall i | 2 <= i < |h| :: IsHexDigit(h[i])
  }

  /** The hash built from 64 random digits; the digits can be read back
      from it, so distinct draws give distinct hashes. */
  function TxHash(ns: seq<Nibble>): (h: string)
    requires |ns| == 64
    ensures IsTxHash(h)
    ensures forall i | 0 <= i < 64 :: HexValue(h[i + 2]) == ns[i]
  {
    "0x" + HexString(ns)
  }

  lemma TxHashInjective(a: seq<Nibble>, b: seq<Nibble>)
    requires |a| == 64 && |b| == 64
    ensures TxHash(a) == TxHash(b) ==> a == b
  {
    if TxHash(a) == TxHash(b) {
      forall i | 0 <= i < 64 ensures a[i] == b[i] {
        assert HexValue(TxHash(a)[i + 2]) == a[i];
      }
    }
  }

  /** A new trade. Its id, timestamp and hash digits come from the caller:
      they stand for the random id, the clock reading and the random draw. */
  function NewTrade(symbol: string, price: int, quantity: int, takerSide: Side,
                    id: string, now: int, ns: seq<Nibble>): (t: Trade)
    requires |ns| == 64
    ensures IsTxHash(t.txHash)
  {
    Trade(id, symbol, price, quantity, now, takerSide, TxHash(ns))
  }

  // ---------------------------------------------------------------------
  // Engine state and one placement

  datatype EngineState = EngineState(buyBook: seq<Order>, sellBook: seq<Order>, trades: seq<Trade>)

  /** The result of placing an order: the new state, the incoming order as
      the engine left it, and the trade if one happened. */
  datatype Placement = Placement(after: EngineState, order: Order, newTrade: Option<Trade>)

  function OwnBook(s: EngineState, side: Side): seq<Order>
  {
    if side == Buy then s.buyBook else s.sellBook
  }

  function OpposingBook(s: EngineState, side: Side): seq<Order>
  {
    if side == Buy then s.sellBook else s.buyBook
  }

  /** The order in which an incoming order of `side` sorts the opposing
      book: asks ascending for a buy, bids descending for a sell. */
  function Priority(side: Side): Direction
  {
    if side == Buy then Ascending else Descending
  }

  function WithBooks(side: Side, own: seq<Order>, opposing: seq<Order>, trades: seq<Trade>): (s: EngineState)
    ensures OwnBook(s, side) == own && OpposingBook(s, side) == opposing && s.trades == trades
  {
    if side == Buy then EngineState(own, opposing, trades) else EngineState(opposing, own, trades)
  }

  /** Whether `order` may trade against the best opposing order `best`. */
  predicate Marketable(order: Order, best: Order)
  {
    order.orderType == Market ||
    (if order.side == Buy then best.price <= order.price else best.price >= order.price)
  }

  /** Adds `qty` to the filled quantity and sets the status from it. */
  function Fill(o: Order, qty: int): (r: Order)
    ensures r.filledQuantity == o.filledQuantity + qty
    ensures r.status == Filled <==> r.filledQuantity >= o.quantity
    ensures r.status == Filled || r.status == Partial
    ensures r == o.(filledQuantity := r.filledQuantity, status := r.status)
  {
    var filled := o.filledQuantity + qty;
    o.(filledQuantity := filled, status := if filled >= o.quantity then Filled else Partial)
  }

  /** Whether an order joins its own book once matching is over. */
  predicate Rests(o: Order)
  {
    o.orderType == Limit && o.status != Filled
  }

  function RestIfOpen(book: seq<Order>, o: Order): seq<Order>
  {
    if Rests(o) then book + [o] else book
  }

  /** The outcome of the matching step: the incoming order as updated, the
      opposing book afterwards, and the trade if there was one. */
  datatype MatchResult = MatchResult(taker: Order, opposing: seq<Order>, trade: Option<Trade>)

  /** The matching step against the sorted opposing book `book`: only its
      head is considered, and at most one trade results. */
  function Match(order: Order, book: seq<Order>, id: string, now: int, ns: seq<Nibble>): (m: MatchResult)
    requires |ns| == 64
  {
    if |book| > 0 && Marketable(order, book[0]) then
      var qty := Min(order.quantity, book[0].quantity);
      var maker := Fill(book[0], qty);
      MatchResult(Fill(order, qty),
                  if maker.status == Filled then book[1..] else book[0 := maker],
                  Some(NewTrade(order.symbol, book[0].price, qty, order.side, id, now, ns)))
    else
      MatchResult(order, book, None)
  }

  /** One call of `placeOrder` on state `s`, with `id`, `now` and `ns` for
      the trade's random id, clock reading and hash digits: sort the
      opposing book, match once, log the trade, rest what remains. */
  function Place(s: EngineState, order: Order, id: string, now: int, ns: seq<Nibble>): (p: Placement)
    requires |ns| == 64
  {
    var book := SortBook(OpposingBook(s, order.side), Priority(order.side));
    var m := Match(order, book, id, now, ns);
    var trades := if m.trade.Some? then [m.trade.value] + s.trades else s.trades;
    Placement(WithBooks(order.side, RestIfOpen(OwnBook(s, order.side), m.taker), m.opposing, trades),
              m.taker, m.trade)
  }

  // ---------------------------------------------------------------------
  // What a placement does

  /** A trade happens exactly when the opposing book is not empty and the
      order is a market order or some resting opposing order is priced
      acceptably (an ask at or below a buy's limit, a bid at or above a
      sell's limit). Checking the best order alone decides this. */
  lemma PlaceMatchesIff(s: EngineState, order: Order, id: string, now: int, ns: seq<Nibble>)
    requires |ns| == 64
    ensures Place(s, order, id, now, ns).newTrade.Some? <==>
            |OpposingBook(s, order.side)| > 0 &&
            (order.orderType == Market ||
             exists o | o in OpposingBook(s, order.side) ::
               if order.side == Buy then o.price <= order.price else o.price >= order.price)
  {
    var side := order.side;
    var opp := OpposingBook(s, side);
    if |opp| > 0 {
      var book := SortBook(opp, Priority(side));
      SortBookHead(opp, Priority(side));
      if exists o | o in opp :: if side == Buy then o.price <= order.price else o.price >= order.price {
        var o :| o in opp && if side == Buy then o.price <= order.price else o.price >= order.price;
        assert Key(book[0], Priority(side)) <= Key(o, Priority(side));
      }
    }
  }

  /** On a match, the resting counterpart is the head of the sorted opposing
      book: an order of that book with the best price, and the first of the
      orders at that price in the book's order. The trade is at that order's price, for the
      smaller of the two original quantities, on the incoming order's side,
      and is put at the front of the log. */
  lemma PlaceTrade(s: EngineState, order: Order, id: string, now: int, ns: seq<Nibble>)
    requires |ns| == 64
    requires Place(s, order, id, now, ns).newTrade.Some?
    ensures var p := Place(s, order, id, now, ns);
            var opp := OpposingBook(s, order.side);
            var maker := SortBook(opp, Priority(order.side))[0];
            var t := p.newTrade.value;
            && maker in opp
            && (forall o | o in opp ::
                  if order.side == Buy then maker.price <= o.price else maker.price >= o.price)
            && |AtPrice(opp, maker.price)| > 0 && AtPrice(opp, maker.price)[0] == maker
            && t.price == maker.price
            && t.quantity == Min(order.quantity, maker.quantity)
            && t.takerSide == order.side
            && t.symbol == order.symbol && t.id == id && t.timestamp == now
            && IsTxHash(t.txHash)
            && p.after.trades == [t] + s.trades
  {
    SortBookHead(OpposingBook(s, order.side), Priority(order.side));
  }

  /** On a match, both orders' filled quantities rise by exactly the traded
      quantity and each status becomes Filled when the filled quantity
      reaches the order's quantity and Partial otherwise; nothing else about
      either order changes. The counterpart leaves the front of the opposing
      book exactly when it became Filled, and the rest of that book is the
      sorted book as it was. */
  lemma PlaceFills(s: EngineState, order: Order, id: string, now: int, ns: seq<Nibble>)
    requires |ns| == 64
    requires Place(s, order, id, now, ns).newTrade.Some?
    ensures var p := Place(s, order, id, now, ns);
            var book := SortBook(OpposingBook(s, order.side), Priority(order.side));
            var q := p.newTrade.value.quantity;
            var maker := book[0].(filledQuantity := book[0].filledQuantity + q,
                                  status := if book[0].filledQuantity + q >= book[0].quantity
                                            then Filled else Partial);
            && |book| > 0
            && p.order.filledQuantity == order.filledQuantity + q
            && (p.order.status == Filled <==> p.order.filledQuantity >= order.quantity)
            && (p.order.status == Filled || p.order.status == Partial)
            && p.order == order.(filledQuantity := p.order.filledQuantity, status := p.order.status)
            && (maker.status == Filled ==> OpposingBook(p.after, order.side) == book[1..])
            && (maker.status != Filled ==>
                  maker.status == Partial &&
                  OpposingBook(p.after, order.side) == [maker] + book[1..])
  {
    var book := SortBook(OpposingBook(s, order.side), Priority(order.side));
    MatchFills(order, book, id, now, ns);
  }

  lemma MatchFills(order: Order, book: seq<Order>, id: string, now: int, ns: seq<Nibble>)
    requires |ns| == 64
    requires Match(order, book, id, now, ns).trade.Some?
    ensures var m := Match(order, book, id, now, ns);
            var q := m.trade.value.quantity;
            var maker := Fill(book[0], q);
            && |book| > 0
            && m.taker == Fill(order, q)
            && (maker.status == Filled ==> m.opposing == book[1..])
            && (maker.status != Filled ==> m.opposing == [maker] + book[1..])
  {
    assert book == [book[0]] + book[1..];
  }

  /** Without a match no trade is logged, the incoming order is returned
      as it came, and the opposing book is only reordered (sorted, the same
      multiset of orders). */
  lemma PlaceNoMatch(s: EngineState, order: Order, id: string, now: int, ns: seq<Nibble>)
    requires |ns| == 64
    requires Place(s, order, id, now, ns).newTrade.None?
    ensures var p := Place(s, order, id, now, ns);
            && p.order == order
            && p.after.trades == s.trades
            && OpposingBook(p.after, order.side) == SortBook(OpposingBook(s, order.side), Priority(order.side))
            && multiset(OpposingBook(p.after, order.side)) == multiset(OpposingBook(s, order.side))
  {
  }

  /** The incoming order is appended to the end of its own side's book
      exactly when it is a limit order not Filled after matching; a market
      order never rests. The own book is otherwise unchanged. */
  lemma PlaceOwnBook(s: EngineState, order: Order, id: string, now: int, ns: seq<Nibble>)
    requires |ns| == 64
    ensures var p := Place(s, order, id, now, ns);
            && (p.order.orderType == Limit && p.order.status != Filled ==>
                  OwnBook(p.after, order.side) == OwnBook(s, order.side) + [p.order])
            && (p.order.orderType == Market || p.order.status == Filled ==>
                  OwnBook(p.after, order.side) == OwnBook(s, order.side))
  {
  }

  /** When no filled quantity is negative, a match fills at least one of the
      two orders completely: the traded quantity equals one of the two
      quantities. So the incoming order ends Filled, or the opposing book
      loses its head. */
  lemma {:induction false} PlaceFillsOneSide(s: EngineState, order: Order, id: string, now: int, ns: seq<Nibble>)
    requires |ns| == 64
    requires order.filledQuantity >= 0
    requires forall o | o in OpposingBook(s, order.side) :: o.filledQuantity >= 0
    requires Place(s, order, id, now, ns).newTrade.Some?
    ensures var p := Place(s, order, id, now, ns);
            p.order.status == Filled ||
            |OpposingBook(p.after, order.side)| == |OpposingBook(s, order.side)| - 1
  {
    var book := SortBook(OpposingBook(s, order.side), Priority(order.side));
    assert book[0] in multiset(OpposingBook(s, order.side));
  }

  /** Every resting order sits on its own side's book, is a limit order and
      is not Filled. */
  predicate Resting(o: Order, side: Side)
  {
    o.side == side && Rests(o)
  }

  ghost predicate BookInvariant(s: EngineState)
  {
    (forall o | o in s.buyBook :: Resting(o, Buy)) &&
    (forall o | o in s.sellBook :: Resting(o, Sell))
  }

  /** Every order of the opposing book after matching is an order of the
      sorted book, or its head after the fill when it stayed Partial. */
  lemma MatchOpposing(order: Order, book: seq<Order>, id: string, now: int, ns: seq<Nibble>)
    requires |ns| == 64
    ensures var m := Match(order, book, id, now, ns);
            forall o | o in m.opposing ::
              o in book || (|book| > 0 && o.status == Partial &&
                            o == Fill(book[0], Min(order.quantity, book[0].quantity)))
  {
    var m := Match(order, book, id, now, ns);
    if |book| > 0 && Marketable(order, book[0]) {
      var maker := Fill(book[0], Min(order.quantity, book[0].quantity));
      if maker.status == Filled {
        assert forall o | o in book[1..] :: o in book;
      } else {
        forall o | o in m.opposing ensures o in book || o == maker {
          var k :| 0 <= k < |m.opposing| && m.opposing[k] == o;
          if k > 0 { assert o == book[k]; }
        }
      }
    }
  }

  lemma {:induction false} PlacePreservesInvariant(s: EngineState, order: Order, id: string, now: int, ns: seq<Nibble>)
    requires |ns| == 64
    requires BookInvariant(s)
    ensures BookInvariant(Place(s, order, id, now, ns).after)
  {
    var side := order.side;
    var opp := OpposingBook(s, side);
    var book := SortBook(opp, Priority(side));
    var other := if side == Buy then Sell else Buy;
    assert forall o | o in opp :: Resting(o, other);
    forall o | o in book ensures Resting(o, other) {
      assert o in multiset(opp);
    }
    MatchOpposing(order, book, id, now, ns);
    if |book| > 0 { assert book[0] in book; }
    var p := Place(s, order, id, now, ns);
    assert forall o | o in OpposingBook(p.after, side) :: Resting(o, other);
    assert forall o | o in OwnBook(s, side) :: Resting(o, side);
    assert forall o | o in OwnBook(p.after, side) :: Resting(o, side);
  }

  /** A positive quantity and a non-negative filled quantity. */
  predicate WellSized(o: Order)
  {
    o.quantity > 0 && o.filledQuantity >= 0
  }

  ghost predicate BooksWellSized(s: EngineState)
  {
    (forall o | o in s.buyBook :: WellSized(o)) &&
    (forall o | o in s.sellBook :: WellSized(o))
  }

  /** Orders placed with a positive quantity and nothing filled yet keep
      every resting order well sized, so the hypothesis of
      `PlaceFillsOneSide` holds in every state reached that way. */
  lemma {:induction false} PlacePreservesWellSized(s: EngineState, order: Order, id: string, now: int, ns: seq<Nibble>)
    requires |ns| == 64
    requires BooksWellSized(s) && WellSized(order)
    ensures var p := Place(s, order, id, now, ns);
            BooksWellSized(p.after) && WellSized(p.order)
  {
    var side := order.side;
    var opp := OpposingBook(s, side);
    var book := SortBook(opp, Priority(side));
    forall o | o in book ensures WellSized(o) {
      assert o in multiset(opp);
    }
    MatchOpposing(order, book, id, now, ns);
    if |book| > 0 { assert book[0] in book; }
    var p := Place(s, order, id, now, ns);
    assert WellSized(p.order);
    assert forall o | o in OpposingBook(p.after, side) :: WellSized(o);
    assert forall o | o in OwnBook(s, side) :: WellSized(o);
    assert forall o | o in OwnBook(p.after, side) :: WellSized(o);
  }

  ghost predicate NoneCancelled(s: EngineState)
  {
    (forall o | o in s.buyBook :: o.status != Cancelled) &&
    (forall o | o in s.sellBook :: o.status != Cancelled)
  }

  /** The engine assigns only Filled and Partial: an order that did not come
      in Cancelled never leaves Cancelled, and a book without cancelled
      orders stays without. */
  lemma {:induction false} PlaceNeverCancels(s: EngineState, order: Order, id: string, now: int, ns: seq<Nibble>)
    requires |ns| == 64
    requires NoneCancelled(s) && order.status != Cancelled
    ensures var p := Place(s, order, id, now, ns);
            NoneCancelled(p.after) && p.order.status != Cancelled
  {
    var opp := OpposingBook(s, order.side);
    var book := SortBook(opp, Priority(order.side));
    forall o | o in book ensures o.status != Cancelled {
      assert o in multiset(opp);
    }
    MatchOpposing(order, book, id, now, ns);
    var p := Place(s, order, id, now, ns);
    assert forall o | o in OpposingBook(p.after, order.side) :: o.status != Cancelled;
    assert forall o | o in OwnBook(p.after, order.side) :: o.status != Cancelled;
  }

  // ---------------------------------------------------------------------
  // The engine object

  /** What `getOrderBook` returns. */
  datatype BookView = BookView(buys: seq<Order>, sells: seq<Order>)

  class MatchingEngine {
    var buyBook: seq<Order>
    var sellBook: seq<Order>
    var trades: seq<Trade>

    function State(): EngineState
      reads this
    {
      EngineState(buyBook, sellBook, trades)
    }

    ghost predicate Valid()
      reads this
    {
      BookInvariant(State())
    }

    constructor ()
      ensures Valid() && State() == EngineState([], [], [])
    {
      buyBook, sellBook, trades := [], [], [];
    }

    /** Sorted, truncated copies of both books: at most `Depth` bids by
        nonincreasing price and at most `Depth` asks by nondecreasing price,
        each drawn from its book and the best of it, showing at each price
        the first of the book's orders there. The books themselves are
        left alone. */
    function GetOrderBook(): (v: BookView)
      reads this
      ensures |v.buys| == Min(Depth, |buyBook|) && |v.sells| == Min(Depth, |sellBook|)
      ensures Sorted(v.buys, Descending) && Sorted(v.sells, Ascending)
      ensures multiset(v.buys) <= multiset(buyBook) && multiset(v.sells) <= multiset(sellBook)
      ensures forall o, q | o in multiset(buyBook) - multiset(v.buys) && q in v.buys ::
                Key(q, Descending) <= Key(o, Descending)
      ensures forall o, q | o in multiset(sellBook) - multiset(v.sells) && q in v.sells ::
                Key(q, Ascending) <= Key(o, Ascending)
      ensures forall p :: |AtPrice(v.buys, p)| <= |AtPrice(buyBook, p)| &&
                          AtPrice(v.buys, p) == AtPrice(buyBook, p)[..|AtPrice(v.buys, p)|]
      ensures forall p :: |AtPrice(v.sells, p)| <= |AtPrice(sellBook, p)| &&
                          AtPrice(v.sells, p) == AtPrice(sellBook, p)[..|AtPrice(v.sells, p)|]
    {
      BookView(Snapshot(buyBook, Descending), Snapshot(sellBook, Ascending))
    }

    /** Places `order`: matches it at most once against the head of the
        sorted opposing book, logs the trade, and rests what is left of a
        limit order. `id`, `now` and `ns` stand for the trade's random id,
        the clock reading and the 64 random hash digits. Returns the empty
        list of filled orders, the incoming order as updated, and the trade.
        The two sides are handled by `PlaceBuy` and `PlaceSell`. */
    method PlaceOrder(order: Order, id: string, now: int, ns: seq<Nibble>)
      returns (filledOrders: seq<Order>, placed: Order, newTrade: Option<Trade>)
      requires Valid()
      requires |ns| == 64
      modifies this
      ensures Valid()
      ensures filledOrders == []
      ensures var p := Place(old(State()), order, id, now, ns);
              State() == p.after && placed == p.order && newTrade == p.newTrade
    {
      filledOrders := [];
      if order.side == Buy {
        placed, newTrade := PlaceBuy(order, id, now, ns);
      } else {
        placed, newTrade := PlaceSell(order, id, now, ns);
      }
    }

    /** A buy: sort the asks ascending, try the lowest, rest a limit remainder
        on the buy book. */
    method PlaceBuy(order: Order, id: string, now: int, ns: seq<Nibble>)
      returns (placed: Order, newTrade: Option<Trade>)
      requires Valid() && order.side == Buy
      requires |ns| == 64
      modifies this
      ensures Valid()
      ensures var p := Place(old(State()), order, id, now, ns);
              State() == p.after && placed == p.order && newTrade == p.newTrade
    {
      ghost var before := State();
      newTrade := None;
      placed := order;

      sellBook := SortBook(sellBook, Ascending);
      ghost var book := sellBook;
      ghost var m := Match(order, book, id, now, ns);

      if |sellBook| > 0 && (order.orderType == Market || sellBook[0].price <= order.price) {
        var bestAsk := sellBook[0];
        var tradePrice := bestAsk.price;
        var tradeQty := Min(order.quantity, bestAsk.quantity);
        var trade := CreateTrade(order.symbol, tradePrice, tradeQty, Buy, id, now, ns);
        newTrade := Some(trade);

        placed := placed.(filledQuantity := placed.filledQuantity + tradeQty);
        placed := placed.(status := if placed.filledQuantity >= placed.quantity then Filled else Partial);

        bestAsk := bestAsk.(filledQuantity := bestAsk.filledQuantity + tradeQty);
        bestAsk := bestAsk.(status := if bestAsk.filledQuantity >= bestAsk.quantity then Filled else Partial);
        sellBook := sellBook[0 := bestAsk];

        if bestAsk.status == Filled {
          sellBook := sellBook[1..];
        }
        assert placed == Fill(order, tradeQty) && bestAsk == Fill(book[0], tradeQty);
        assert m == MatchResult(placed, sellBook, newTrade);
        assert trades == [trade] + before.trades;
      } else {
        assert m == MatchResult(order, book, None);
      }

      if placed.status != Filled && placed.orderType == Limit {
        buyBook := buyBook + [placed];
      }
      ghost var p := Place(before, order, id, now, ns);
      assert p.after.sellBook == sellBook && p.after.buyBook == buyBook && p.after.trades == trades;
      PlacePreservesInvariant(before, order, id, now, ns);
    }

    /** A sell: sort the bids descending, try the highest, rest a limit
        remainder on the sell book. */
    method PlaceSell(order: Order, id: string, now: int, ns: seq<Nibble>)
      returns (placed: Order, newTrade: Option<Trade>)
      requires Valid() && order.side == Sell
      requires |ns| == 64
      modifies this
      ensures Valid()
      ensures var p := Place(old(State()), order, id, now, ns);
              State() == p.after && placed == p.order && newTrade == p.newTrade
    {
      ghost var before := State();
      newTrade := None;
      placed := order;

      buyBook := SortBook(buyBook, Descending);
      ghost var book := buyBook;
      ghost var m := Match(order, book, id, now, ns);

      if |buyBook| > 0 && (order.orderType == Market || buyBook[0].price >= order.price) {
        var bestBid := buyBook[0];
        var tradePrice := bestBid.price;
        var tradeQty := Min(order.quantity, bestBid.quantity);
        var trade := CreateTrade(order.symbol, tradePrice, tradeQty, Sell, id, now, ns);
        newTrade := Some(trade);

        placed := placed.(filledQuantity := placed.filledQuantity + tradeQty);
        placed := placed.(status := if placed.filledQuantity >= placed.quantity then Filled else Partial);

        bestBid := bestBid.(filledQuantity := bestBid.filledQuantity + tradeQty);
        bestBid := bestBid.(status := if bestBid.filledQuantity >= bestBid.quantity then Filled else Partial);
        buyBook := buyBook[0 := bestBid];

        if bestBid.status == Filled {
          buyBook := buyBook[1..];
        }
        assert placed == Fill(order, tradeQty) && bestBid == Fill(book[0], tradeQty);
        assert m == MatchResult(placed, buyBook, newTrade);
        assert trades == [trade] + before.trades;
      } else {
        assert m == MatchResult(order, book, None);
      }

      if placed.status != Filled && placed.orderType == Limit {
        sellBook := sellBook + [placed];
      }
      ghost var p := Place(before, order, id, now, ns);
      assert p.after.buyBook == buyBook && p.after.sellBook == sellBook && p.after.trades == trades;
      PlacePreservesInvariant(before, order, id, now, ns);
    }

    /** Builds a trade and puts it at the front of the log. */
    method CreateTrade(symbol: string, price: int, quantity: int, takerSide: Side,
                       id: string, now: int, ns: seq<Nibble>)
      returns (trade: Trade)
      requires |ns| == 64
      modifies this`trades
      ensures trade == NewTrade(symbol, price, quantity, takerSide, id, now, ns)
      ensures trades == [trade] + old(trades)
    {
      trade := NewTrade(symbol, price, quantity, takerSide, id, now, ns);
      trades := [trade] + trades;
    }
  }
}
