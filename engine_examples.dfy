/** Concrete placements. They show the behaviour of one `placeOrder` call on
    small books, including the consequences of matching only once: a book
    left crossed, and a resting order filled past its quantity. The trade's
    random id, clock reading and hash digits are left arbitrary. */
module EngineExamples {
  import opened Types
  import opened PriceSort
  import opened Engine

  function NewOrder(id: string, side: Side, orderType: OrderType, price: int, quantity: int): (o: Order)
    ensures o.filledQuantity == 0 && o.status == Open
  {
    Order(id, "u", "BTCUSD", side, orderType, price, quantity, 0, 0, Open)
  }

  /** Sorting a two-order book. */
  lemma SortPair(x: Order, y: Order, dir: Direction)
    ensures SortBook([x, y], dir) == if Key(x, dir) <= Key(y, dir) then [x, y] else [y, x]
  {
    assert [x, y][1..] == [y];
    SortOne(y, dir);
    InsertOne(x, y, dir);
  }

  lemma SortOne(y: Order, dir: Direction)
    ensures SortBook([y], dir) == [y]
  {
    assert [y][1..] == [];
  }

  lemma InsertOne(x: Order, y: Order, dir: Direction)
    ensures Insert(x, [y], dir) == if Key(x, dir) <= Key(y, dir) then [x, y] else [y, x]
  {
    assert [y][1..] == [];
  }

  /** An empty book: a limit buy rests, with no trade. */
  lemma RestsOnEmptyBook(id: string, now: int, ns: seq<Nibble>)
    requires |ns| == 64
    ensures var bid := NewOrder("b", Buy, Limit, 100, 1);
            var p := Place(EngineState([], [], []), bid, id, now, ns);
            p.newTrade == None && p.after == EngineState([bid], [], [])
  {
  }

  /** A limit buy above the ask fills completely at the ask's price; the
      ask keeps resting, Partial, and the buy does not rest. */
  lemma FillsAtMakerPrice(id: string, now: int, ns: seq<Nibble>)
    requires |ns| == 64
    ensures var ask := NewOrder("a", Sell, Limit, 100, 2);
            var bid := NewOrder("b", Buy, Limit, 101, 1);
            var p := Place(EngineState([], [ask], []), bid, id, now, ns);
            && p.newTrade.Some?
            && p.newTrade.value.price == 100 && p.newTrade.value.quantity == 1
            && p.order.status == Filled
            && p.after.buyBook == []
            && p.after.sellBook == [ask.(filledQuantity := 1, status := Partial)]
  {
  }

  /** A market buy larger than the book trades once and the rest of it is
      dropped: market orders never rest. */
  lemma MarketRemainderDropped(id: string, now: int, ns: seq<Nibble>)
    requires |ns| == 64
    ensures var ask := NewOrder("a", Sell, Limit, 100, 1);
            var bid := NewOrder("b", Buy, Market, 0, 5);
            var p := Place(EngineState([], [ask], []), bid, id, now, ns);
            && p.newTrade.Some? && p.newTrade.value.quantity == 1
            && p.order.status == Partial && p.order.filledQuantity == 1
            && p.after.buyBook == [] && p.after.sellBook == []
  {
  }

  /** Two asks at one price: the earlier one is matched and the later one
      is left untouched. */
  lemma EarlierAskFirst(id: string, now: int, ns: seq<Nibble>)
    requires |ns| == 64
    ensures var a := NewOrder("a", Sell, Limit, 100, 3);
            var b := NewOrder("b", Sell, Limit, 100, 3);
            var bid := NewOrder("c", Buy, Limit, 100, 1);
            var p := Place(EngineState([], [a, b], []), bid, id, now, ns);
            p.after.sellBook == [a.(filledQuantity := 1, status := Partial), b]
  {
    var a := NewOrder("a", Sell, Limit, 100, 3);
    var b := NewOrder("b", Sell, Limit, 100, 3);
    var bid := NewOrder("c", Buy, Limit, 100, 1);
    SortPair(a, b, Ascending);
  }

  /** A limit buy below the best ask does not trade and rests. */
  lemma NoTradeBelowAsk(id: string, now: int, ns: seq<Nibble>)
    requires |ns| == 64
    ensures var ask := NewOrder("a", Sell, Limit, 100, 1);
            var bid := NewOrder("b", Buy, Limit, 99, 1);
            var p := Place(EngineState([], [ask], []), bid, id, now, ns);
            p.newTrade == None && p.after == EngineState([bid], [ask], [])
  {
  }

  /** Only one match per call: a large limit buy takes the best ask and
      then rests above the next one, so the book is left crossed. */
  lemma CrossedAfterOneMatch(id: string, now: int, ns: seq<Nibble>)
    requires |ns| == 64
    ensures var a1 := NewOrder("a1", Sell, Limit, 101, 1);
            var a2 := NewOrder("a2", Sell, Limit, 100, 1);
            var bid := NewOrder("b", Buy, Limit, 105, 5);
            var p := Place(EngineState([], [a1, a2], []), bid, id, now, ns);
            && p.newTrade.Some? && p.newTrade.value.price == 100
            && p.order.status == Partial
            && p.after.buyBook == [p.order]
            && p.after.sellBook == [a1]
            && p.after.buyBook[0].price > p.after.sellBook[0].price
  {
    var a1 := NewOrder("a1", Sell, Limit, 101, 1);
    var a2 := NewOrder("a2", Sell, Limit, 100, 1);
    var bid := NewOrder("b", Buy, Limit, 105, 5);
    SortPair(a1, a2, Ascending);
  }

  /** The trade quantity uses the resting order's original quantity: an ask
      already half filled trades its whole quantity again and ends with more
      filled than it offered. */
  lemma PartialMakerOverfilled(id: string, now: int, ns: seq<Nibble>)
    requires |ns| == 64
    ensures var ask := Order("a", "u", "BTCUSD", Sell, Limit, 100, 2, 1, 0, Partial);
            var bid := NewOrder("b", Buy, Market, 0, 5);
            var p := Place(EngineState([], [ask], []), bid, id, now, ns);
            && p.newTrade.Some? && p.newTrade.value.quantity == 2
            && p.after.sellBook == []
            && ask.filledQuantity + p.newTrade.value.quantity > ask.quantity
  {
  }
}
