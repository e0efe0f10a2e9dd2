/** The book sorts of the engine: a stable sort of orders by price, ascending
    for the asks and descending for the bids, and the truncated sorted copy
    the engine hands out for display. The engine calls the host's stable
    array sort with the comparators `a.price - b.price` and
    `b.price - a.price`; its result is determined by the order of prices and
    by the book's order among equal prices, and that is what is defined here,
    as an insertion sort. */
module PriceSort {
  import opened Types

  datatype Direction = Ascending | Descending

  /** The sort key: the price for ascending order, its negation for
      descending order, so that "better" always means "smaller key". */
  function Key(o: Order, dir: Direction): int
  {
    if dir == Ascending then o.price else -o.price
  }

  /** Prices nondecreasing (Ascending) or nonincreasing (Descending). */
  ghost predicate Sorted(s: seq<Order>, dir: Direction)
  {
    forall i, j | 0 <= i < j < |s| :: Key(s[i], dir) <= Key(s[j], dir)
  }

  /** The orders of `s` at price `p`, in the order they appear in `s`. */
  function AtPrice(s: seq<Order>, p: int): (r: seq<Order>)
    ensures |r| <= |s|
  {
    if s == [] then []
    else if s[0].price == p then [s[0]] + AtPrice(s[1..], p)
    else AtPrice(s[1..], p)
  }

  /** Puts `x` in front of the first element whose key is not smaller than
      its own, so that `x` precedes the equally priced orders of `s`. */
  function Insert(x: Order, s: seq<Order>, dir: Direction): (r: seq<Order>)
    ensures |r| == |s| + 1
    ensures multiset(r) == multiset(s) + multiset{x}
  {
    if s == [] || Key(x, dir) <= Key(s[0], dir) then [x] + s
    else
      assert s == [s[0]] + s[1..];
      [s[0]] + Insert(x, s[1..], dir)
  }

  /** Each order ranks no worse than its successor; for sequences this is
      the same as `Sorted` (`ChainedIsSorted`) and is easier to maintain. */
  ghost predicate Chained(s: seq<Order>, dir: Direction)
  {
    forall i | 0 < i < |s| :: Key(s[i - 1], dir) <= Key(s[i], dir)
  }

  lemma {:induction false} ChainedIsSorted(s: seq<Order>, dir: Direction)
    requires Chained(s, dir)
    ensures Sorted(s, dir)
  {
    if |s| > 1 {
      var t := s[1..];
      assert Chained(t, dir) by {
        forall i | 0 < i < |t| ensures Key(t[i - 1], dir) <= Key(t[i], dir) {
          assert t[i - 1] == s[i] && t[i] == s[i + 1];
        }
      }
      ChainedIsSorted(t, dir);
      forall i, j | 0 <= i < j < |s| ensures Key(s[i], dir) <= Key(s[j], dir) {
        if i == 0 && j > 1 {
          assert Key(s[0], dir) <= Key(t[0], dir) && t[0] == s[1] && t[j - 1] == s[j];
        } else if i > 0 {
          assert t[i - 1] == s[i] && t[j - 1] == s[j];
        }
      }
    }
  }

  lemma {:induction false} InsertChained(x: Order, s: seq<Order>, dir: Direction)
    requires Chained(s, dir)
    ensures Chained(Insert(x, s, dir), dir)
    ensures Insert(x, s, dir)[0] == x || Insert(x, s, dir)[0] == s[0]
  {
    if s != [] && Key(x, dir) > Key(s[0], dir) {
      var t := Insert(x, s[1..], dir);
      var u := s[1..];
      assert Chained(u, dir) by {
        forall i | 0 < i < |u| ensures Key(u[i - 1], dir) <= Key(u[i], dir) {
          assert u[i - 1] == s[i] && u[i] == s[i + 1];
        }
      }
      InsertChained(x, u, dir);
      var r := [s[0]] + t;
      forall i | 0 < i < |r| ensures Key(r[i - 1], dir) <= Key(r[i], dir) {
        if i == 1 {
          assert r[1] == t[0] && (t[0] == x || t[0] == s[1]);
        } else {
          assert r[i - 1] == t[i - 2] && r[i] == t[i - 1];
        }
      }
    }
  }

  /** The stable sort: a permutation of `s`; it is sorted by price in
      direction `dir` (`SortBookSorted`) and stable (`SortBookStable`). */
  function SortBook(s: seq<Order>, dir: Direction): (r: seq<Order>)
    ensures |r| == |s|
    ensures multiset(r) == multiset(s)
  {
    if s == [] then []
    else
      assert s == [s[0]] + s[1..];
      Insert(s[0], SortBook(s[1..], dir), dir)
  }

  lemma SortBookSorted(s: seq<Order>, dir: Direction)
    ensures Sorted(SortBook(s, dir), dir)
  {
    SortBookChained(s, dir);
    ChainedIsSorted(SortBook(s, dir), dir);
  }

  lemma {:induction false} SortBookChained(s: seq<Order>, dir: Direction)
    ensures Chained(SortBook(s, dir), dir)
  {
    if s != [] {
      SortBookChained(s[1..], dir);
      InsertChained(s[0], SortBook(s[1..], dir), dir);
    }
  }

  lemma {:induction false} InsertAtPrice(x: Order, s: seq<Order>, dir: Direction, p: int)
    ensures AtPrice(Insert(x, s, dir), p)
            == if x.price == p then [x] + AtPrice(s, p) else AtPrice(s, p)
  {
    if s == [] || Key(x, dir) <= Key(s[0], dir) {
      assert ([x] + s)[1..] == s;
    } else {
      var t := Insert(x, s[1..], dir);
      InsertAtPrice(x, s[1..], dir, p);
      assert ([s[0]] + t)[1..] == t;
      // s[0] ranks strictly before x, so it cannot share x's price
      assert x.price == p ==> s[0].price != p;
    }
  }

  /** Stability: at every price the sort keeps the book's order, so among
      equally priced orders the one in front stays in front. */
  lemma {:induction false} SortBookStable(s: seq<Order>, dir: Direction, p: int)
    ensures AtPrice(SortBook(s, dir), p) == AtPrice(s, p)
  {
    if s != [] {
      SortBookStable(s[1..], dir, p);
      InsertAtPrice(s[0], SortBook(s[1..], dir), dir, p);
    }
  }

  /** The head of the sorted book is an order of the book with the best
      price (the lowest ask or the highest bid), and among the orders of
      the book at that price it comes first in the book's order: price
      priority, then time priority. */
  lemma SortBookHead(s: seq<Order>, dir: Direction)
    requires |s| > 0
    ensures SortBook(s, dir)[0] in s
    ensures forall o | o in s :: Key(SortBook(s, dir)[0], dir) <= Key(o, dir)
    ensures |AtPrice(s, SortBook(s, dir)[0].price)| > 0
    ensures AtPrice(s, SortBook(s, dir)[0].price)[0] == SortBook(s, dir)[0]
  {
    var r := SortBook(s, dir);
    SortBookSorted(s, dir);
    assert r[0] in multiset(s);
    forall o | o in s ensures Key(r[0], dir) <= Key(o, dir) {
      assert o in multiset(r);
    }
    SortBookStable(s, dir, r[0].price);
    assert AtPrice(r, r[0].price) == [r[0]] + AtPrice(r[1..], r[0].price);
  }

  /** How many orders of each side the engine shows. */
  const Depth: nat := 15

  /** The display copy of a book: the first `Depth` orders after sorting.
      It holds min(Depth, |book|) orders drawn from the book, best first;
      every order of the book it leaves out ranks no better than any it
      shows; and at each price it shows the first of the book's orders at
      that price, in the book's order. */
  function Snapshot(book: seq<Order>, dir: Direction): (r: seq<Order>)
    ensures |r| == Min(Depth, |book|)
    ensures Sorted(r, dir)
    ensures multiset(r) <= multiset(book)
    ensures forall o, q | o in multiset(book) - multiset(r) && q in r :: Key(q, dir) <= Key(o, dir)
    ensures forall p :: |AtPrice(r, p)| <= |AtPrice(book, p)| &&
                        AtPrice(r, p) == AtPrice(book, p)[..|AtPrice(r, p)|]
  {
    var sorted := SortBook(book, dir);
    SortBookSorted(book, dir);
    PrefixOfSorted(sorted, Min(Depth, |sorted|), dir);
    PrefixRanksFirst(sorted, Min(Depth, |sorted|), dir);
    SortedPrefixAtPrice(book, Min(Depth, |sorted|), dir);
    sorted[..Min(Depth, |sorted|)]
  }

  /** The orders at one price in a leading slice are the first ones at that
      price in the whole sequence, in the same order. */
  lemma {:induction false} AtPricePrefix(s: seq<Order>, n: nat, p: int)
    requires n <= |s|
    ensures |AtPrice(s[..n], p)| <= |AtPrice(s, p)|
    ensures AtPrice(s[..n], p) == AtPrice(s, p)[..|AtPrice(s[..n], p)|]
  {
    if n > 0 {
      assert s[..n][0] == s[0] && s[..n][1..] == s[1..][..n - 1];
      AtPricePrefix(s[1..], n - 1, p);
    }
  }

  /** A leading slice of the sorted book shows, at each price, the first
      of the book's orders at that price, in the book's order. */
  lemma SortedPrefixAtPrice(book: seq<Order>, n: nat, dir: Direction)
    requires n <= |book|
    ensures forall p :: |AtPrice(SortBook(book, dir)[..n], p)| <= |AtPrice(book, p)| &&
                        AtPrice(SortBook(book, dir)[..n], p)
                          == AtPrice(book, p)[..|AtPrice(SortBook(book, dir)[..n], p)|]
  {
    forall p
      ensures |AtPrice(SortBook(book, dir)[..n], p)| <= |AtPrice(book, p)| &&
              AtPrice(SortBook(book, dir)[..n], p)
                == AtPrice(book, p)[..|AtPrice(SortBook(book, dir)[..n], p)|]
    {
      AtPricePrefix(SortBook(book, dir), n, p);
      SortBookStable(book, dir, p);
    }
  }

  /** A prefix of a sorted sequence is sorted and is drawn from it. */
  lemma PrefixOfSorted(s: seq<Order>, n: nat, dir: Direction)
    requires Sorted(s, dir) && n <= |s|
    ensures Sorted(s[..n], dir)
    ensures multiset(s[..n]) <= multiset(s)
  {
    assert s == s[..n] + s[n..];
  }

  /** What a prefix of a sorted sequence leaves out ranks no better than
      anything in the prefix. */
  lemma PrefixRanksFirst(s: seq<Order>, n: nat, dir: Direction)
    requires Sorted(s, dir) && n <= |s|
    ensures forall o, q | o in multiset(s) - multiset(s[..n]) && q in s[..n] :: Key(q, dir) <= Key(o, dir)
  {
    var front, back := s[..n], s[n..];
    assert s == front + back;
    LeftOver(front, back);
    forall o, q | o in back && q in front ensures Key(q, dir) <= Key(o, dir) {
      var i :| 0 <= i < |front| && front[i] == q;
      var j :| 0 <= j < |back| && back[j] == o;
      assert s[i] == q && s[n + j] == o;
    }
  }

  /** Taking `front` out of `front + back` leaves orders of `back`. */
  lemma LeftOver(front: seq<Order>, back: seq<Order>)
    ensures forall o | o in multiset(front + back) - multiset(front) :: o in back
  {
    assert multiset(front + back) == multiset(front) + multiset(back);
  }
}
