/** What a submission does and reports, said of the orders and queues of the books alone. */
module SubmissionMeaning {
  import opened Bits
  import opened Common
  import opened BookModel
  import opened BookLaws
  import opened Sweep
  import opened EngineModel
  import opened EngineLaws
  import opened EngineRuns
  import opened EngineMeaning

  // ---- the line of a side ----

  /** `x` stands before `y` in a queue. */
  ghost predicate Before(q: seq<OrderId>, x: OrderId, y: OrderId) {
    exists i, j :: 0 <= i < j < |q| && q[i] == x && q[j] == y
  }

  ghost predicate IsListed(b: Book, side: Side, r: Resting) {
    && r.id in b.orders && b.orders[r.id].side == side
    && b.orders[r.id].price == r.price && b.orders[r.id].quantity == r.quantity
  }

  ghost predicate IsIn(line: seq<Resting>, id: OrderId) {
    exists i :: 0 <= i < |line| && line[i].id == id
  }

  /** Of two orders in line the first has the better price, the higher bid or the lower ask, or it stands before
      the other in the queue of their price. */
  ghost predicate InOrder(b: Book, side: Side, x: Resting, y: Resting) {
    && x.id != y.id
    && (x.price != y.price ==> if side == Buy then x.price > y.price else x.price < y.price)
    && (x.price == y.price ==> Before(b.Queue(side, x.price), x.id, y.id))
  }

  /** `line` lists the live orders of a side, each once, by price and within a price by time. */
  ghost predicate Lists(b: Book, side: Side, line: seq<Resting>) {
    && (forall i :: 0 <= i < |line| ==> IsListed(b, side, line[i]))
    && (forall id :: id in b.orders && b.orders[id].side == side ==> IsIn(line, id))
    && (forall i, j :: 0 <= i < j < |line| ==> InOrder(b, side, line[i], line[j]))
  }

  lemma FlattenLists(b: Book, side: Side)
    requires b.Valid()
    ensures Lists(b, side, Flatten(b, side))
  {
    hide Book.Valid, Book.Queue, FlattenAt, InOrder;
    var line, prices := Flatten(b, side), b.Levels(side).Keys;
    FlattenIsTheSide(b, side);
    forall i | 0 <= i < |line|
      ensures IsListed(b, side, line[i])
    {
      assert line[i] in line;
      assert Waits(b, side, line[i]);
    }
    forall id | id in b.orders && b.orders[id].side == side
      ensures IsIn(line, id)
    {
      var r := Resting(id, b.orders[id].price, b.orders[id].quantity);
      assert r in line;
    }
    forall i, j | 0 <= i < j < |line|
      ensures InOrder(b, side, line[i], line[j])
    {
      PairInOrder(b, side, i, j);
    }
  }

  lemma PairInOrder(b: Book, side: Side, i: nat, j: nat)
    requires b.Valid() && i < j < |Flatten(b, side)|
    ensures InOrder(b, side, Flatten(b, side)[i], Flatten(b, side)[j])
  {
    hide Book.Valid, Book.Queue, FlattenAt;
    var line, prices := Flatten(b, side), b.Levels(side).Keys;
    FlattenSorted(b, side, prices);
    FlattenDistinct(b, side, prices, i, j);
    assert NoWorse(side, line[i].price, line[j].price);
    if line[i].price == line[j].price {
      FlattenKeepsQueues(b, side, prices, i, j);
      var q := b.Queue(side, line[i].price);
      var x, y := IndexOf(q, line[i].id), IndexOf(q, line[j].id);
      assert q[x] == line[i].id && q[y] == line[j].id;
    }
  }

  // ---- fills ----

  /** An incoming order may trade at a price: a buyer at its limit or below, a seller at its limit or above, and an
      order without a limit at any. */
  predicate May(side: Side, limit: Option<Price>, price: Price) {
    limit.Some? ==> if side == Buy then price <= limit.value else limit.value <= price
  }

  /** The fills take the orders of the opposite line from its head, at their prices and wholly, but for the last,
      which may take a part; they stop only when nothing is left to fill, or nobody is left who may trade. */
  ghost predicate Takes(side: Side, limit: Option<Price>, quantity: Quantity, line: seq<Resting>, fills: seq<Fill>) {
    var n := |fills|;
    && n <= |line|
    && (forall i :: 0 <= i < n ==>
      && fills[i].restingOrder == line[i].id && fills[i].price == line[i].price && May(side, limit, line[i].price)
      && 0 < fills[i].quantity <= line[i].quantity && (i < n - 1 ==> fills[i].quantity == line[i].quantity))
    && Filled(fills) <= quantity
    && (Filled(fills) < quantity ==>
      && (n > 0 ==> fills[n - 1].quantity == line[n - 1].quantity)
      && (n < |line| ==> !May(side, limit, line[n].price)))
  }

  /** What the fills leave of the line they take from. */
  ghost predicate Leaves(line: seq<Resting>, fills: seq<Fill>, left: seq<Resting>) {
    var n := |fills|;
    && n <= |line|
    && left == if n > 0 && fills[n - 1].quantity < line[n - 1].quantity
               then [line[n - 1].(quantity := line[n - 1].quantity - fills[n - 1].quantity)] + line[n..]
               else line[n..]
  }

  function Other(side: Side): Side {
    match side case Buy => Sell case Sell => Buy
  }

  /** The side an incoming order trades with, before and after. */
  ghost predicate Trades(b: Book, side: Side, limit: Option<Price>, quantity: Quantity, fills: seq<Fill>, b': Book) {
    var line, left := Flatten(b, Other(side)), Flatten(b', Other(side));
    && Lists(b, Other(side), line) && Lists(b', Other(side), left)
    && Takes(side, limit, quantity, line, fills) && Leaves(line, fills, left)
  }

  /** The own side of an incoming order: as it was, but for the `rest` of it behind all others at its price. */
  ghost predicate RestsBehind(b: Book, id: OrderId, side: Side, price: Price, rest: Quantity, b': Book) {
    && (forall p: Price ::
      b'.Queue(side, p) == if rest != 0 && p == price then b.Queue(side, p) + [id] else b.Queue(side, p))
    && (forall i :: i in b.orders && b.orders[i].side == side ==> i in b'.orders && b'.orders[i] == b.orders[i])
    && (forall i :: i in b'.orders && b'.orders[i].side == side ==> i in b.orders || (rest != 0 && i == id))
    && (rest != 0 ==> id in b'.orders && b'.orders[id] == Order(side := side, price := price, quantity := rest))
  }

  // ---- submissions ----

  ghost predicate RefusedAsIs(e: Engine, s: Submission) {
    && s.engine == e && s.fills == []
    && s.result.filled == 0 && s.result.resting == 0 && s.result.unfilled == 0 && s.result.fillCount == 0
    && !s.result.fillsTruncated && !s.result.accepted
  }

  /** The fills as they are reported; the caller's buffer holds `capacity` of them. */
  ghost predicate Reports(r: MatchResult, fills: seq<Fill>, capacity: nat) {
    r.filled == Filled(fills) && r.fillCount == |fills| && (r.fillsTruncated <==> |fills| > capacity)
  }

  /** The rest of the engine: its counter and entries are right and within the caps, and it is as it was but for
      the book of `l`, which exists if it did or if an order was left to rest. */
  ghost predicate OnlyTouches(e: Engine, l: StockLocate, rested: bool, e': Engine) {
    && e'.books.Keys == (if rested then e.books.Keys + {l} else e.books.Keys)
    && (forall k :: k != l ==> e'.BookAt(k) == e.BookAt(k))
    && e'.stats == e.stats && e'.hollow == e.hollow && e'.thrown == e.thrown && e'.limits == e.limits
    && e'.resting == SumOrders(e'.books) <= e'.limits.maxRestingOrders
    && |e'.books| + |e'.hollow| <= e'.limits.maxInstruments
  }

  /** All that a limit order does. Without a quantity, or under an id that is taken, it is refused. Otherwise it
      trades, and what is left of it rests if there is room, and is given back if there is none. */
  ghost predicate LimitIs(e: Engine, l: StockLocate, id: OrderId, side: Side, price: Price, quantity: Quantity,
                          capacity: nat, s: Submission) {
    var b, b', r := e.BookAt(l), s.engine.BookAt(l), s.result;
    if quantity == 0 || id in b.orders then RefusedAsIs(e, s)
    else
      && Trades(b, side, Some(price), quantity, s.fills, b') && RestsBehind(b, id, side, price, r.resting, b')
      && Reports(r, s.fills, capacity) && r.filled + r.resting + r.unfilled == quantity
      && (r.accepted <==> r.unfilled == 0)
      && (r.unfilled != 0 ==> r.resting == 0 && NoRoom(s.engine, l))
      && OnlyTouches(e, l, r.resting != 0, s.engine)
  }

  /** All that a market order does: it trades at any price, and what is left of it is given back. */
  ghost predicate MarketIs(e: Engine, l: StockLocate, side: Side, quantity: Quantity, capacity: nat, s: Submission) {
    var b, b', r := e.BookAt(l), s.engine.BookAt(l), s.result;
    if quantity == 0 then RefusedAsIs(e, s)
    else
      && Trades(b, side, None, quantity, s.fills, b') && RestsBehind(b, 0, side, 0, 0, b')
      && Reports(r, s.fills, capacity) && r.filled + r.unfilled == quantity && r.resting == 0 && r.accepted
      && OnlyTouches(e, l, false, s.engine)
  }

  // ---- every submission does what it is to do ----

  lemma MayIs(side: Side, limit: Option<Price>, price: Price)
    ensures May(side, limit, price) <==> TakerOf(side, limit).Accepts(price)
  {
  }

  function TakerOf(side: Side, limit: Option<Price>): Taker {
    match limit
    case None => Taker(side, 0, false)
    case Some(p) => Taker(side, p, true)
  }

  lemma SweepTakes(b: Book, side: Side, limit: Option<Price>, quantity: Quantity)
    requires b.Valid()
    ensures var t := TakerOf(side, limit); var line := Flatten(b, Other(side)); var fills := Fills(b, t, quantity);
      Takes(side, limit, quantity, line, fills) && Leaves(line, fills, Leftover(t, line, quantity))
  {
    hide Book.Valid, Flatten, FlattenAt;
    FlattenPositive(b, Other(side));
    LineTakes(side, limit, quantity, Flatten(b, Other(side)));
  }

  lemma LineTakes(side: Side, limit: Option<Price>, quantity: Quantity, line: seq<Resting>)
    requires forall i :: 0 <= i < |line| ==> line[i].quantity != 0
    ensures var t := TakerOf(side, limit);
      Takes(side, limit, quantity, line, Greedy(t, line, quantity))
      && Leaves(line, Greedy(t, line, quantity), Leftover(t, line, quantity))
  {
    hide Greedy, Leftover, Filled, May, Taker.Accepts, TakerOf;
    var t := TakerOf(side, limit);
    GreedyShape(t, line, quantity);
    LeftoverShape(t, line, quantity);
    forall p: Price
      ensures May(side, limit, p) <==> t.Accepts(p)
    {
      MayIs(side, limit, p);
    }
  }

  /** The book after the sweep. */
  lemma SweptMeans(b: Book, side: Side, limit: Option<Price>, quantity: Quantity)
    requires b.Valid()
    ensures var t := TakerOf(side, limit); var b' := Swept(b, t, quantity);
      && b'.Valid() && Trades(b, side, limit, quantity, Fills(b, t, quantity), b')
      && RestsBehind(b, 0, side, 0, 0, b')
  {
    hide Book.Valid, Flatten, Fills, Swept, Leftover, Takes, Leaves, Lists, RestsBehind;
    var t := TakerOf(side, limit);
    SweepLeaves(b, t, quantity);
    SweepTakes(b, side, limit, quantity);
    FlattenLists(b, Other(side));
    FlattenLists(Swept(b, t, quantity), Other(side));
    SideKept(b, Swept(b, t, quantity), side);
  }

  /** A side that is flattened as before has the same orders. */
  lemma SideKept(b: Book, b': Book, side: Side)
    requires b.Valid() && b'.Valid()
    requires Flatten(b', side) == Flatten(b, side) && b'.Levels(side) == b.Levels(side)
    ensures RestsBehind(b, 0, side, 0, 0, b')
  {
    hide Book.Valid, Flatten;
    FlattenIsTheSide(b, side);
    FlattenIsTheSide(b', side);
    var line := Flatten(b, side);
    forall i | i in b.orders && b.orders[i].side == side
      ensures i in b'.orders && b'.orders[i] == b.orders[i]
    {
      var r := Resting(i, b.orders[i].price, b.orders[i].quantity);
      assert r in line && Waits(b', side, r);
    }
    forall i | i in b'.orders && b'.orders[i].side == side
      ensures i in b.orders
    {
      var r := Resting(i, b'.orders[i].price, b'.orders[i].quantity);
      assert r in Flatten(b', side) && Waits(b, side, r);
    }
  }

  /** Adding the rest of an order after its sweep. */
  lemma RestMeans(b: Book, mid: Book, id: OrderId, side: Side, price: Price, quantity: Quantity, rest: Quantity,
                  fills: seq<Fill>)
    requires b.Valid() && mid.Valid() && id !in b.orders && id !in mid.orders && rest != 0
    requires Trades(b, side, Some(price), quantity, fills, mid) && RestsBehind(b, 0, side, 0, 0, mid)
    ensures var b' := mid.Add(id, side, price, rest).book;
      Trades(b, side, Some(price), quantity, fills, b') && RestsBehind(b, id, side, price, rest, b')
  {
    hide Book.Valid, Book.Queue, Book.Add, Flatten, Takes, Leaves, Lists;
    AddOwnSide(mid, id, side, price, rest);
    AddQueues(mid, id, side, price, rest);
    AddValid(mid, id, side, price, rest);
    FlattenLists(mid.Add(id, side, price, rest).book, Other(side));
  }

  /** The engine after a sweep. */
  lemma MatchedTouches(e: Engine, l: StockLocate, t: Taker, quantity: Quantity)
    requires e.Valid()
    ensures OnlyTouches(e, l, false, e.Matched(l, t, quantity)) && e.Matched(l, t, quantity).Valid()
    ensures e.Matched(l, t, quantity).BookAt(l) == Swept(e.BookAt(l), t, quantity) && e.BookAt(l).Valid()
  {
    hide Engine.Valid, Engine.Matched, Swept, SumOrders;
    MatchedShape(e, l, t, quantity);
    MatchedKeeps(e, l, t, quantity);
    OthersKept(e, l, t, quantity);
    BookCounts(e, l);
    ValidMeans(e.Matched(l, t, quantity));
  }

  lemma RestTouches(e: Engine, m: Engine, l: StockLocate, id: OrderId, side: Side, price: Price, rest: Quantity)
    requires m.Valid() && OnlyTouches(e, l, false, m) && m.CanCreate(l) && l !in m.hollow
    requires m.BookAt(l).Add(id, side, price, rest).ok
    ensures OnlyTouches(e, l, true, m.WithBook(l, m.BookAt(l).Add(id, side, price, rest).book).(resting := Shift(m.resting, 1)))
  {
    hide Engine.Valid, Book.Add, Shift, SumOrders;
    RestKeeps(m, l, id, side, price, rest);
    ValidMeans(m.WithBook(l, m.BookAt(l).Add(id, side, price, rest).book).(resting := Shift(m.resting, 1)));
  }

  lemma LimitMeans(e: Engine, l: StockLocate, id: OrderId, side: Side, price: Price, quantity: Quantity, capacity: nat)
    requires e.Valid() && !e.LimitCrashes(l, quantity)
    ensures LimitIs(e, l, id, side, price, quantity, capacity, e.SubmitLimit(l, id, side, price, quantity, capacity))
  {
    hide Engine.Valid, Engine.Matched, Engine.SubmitLimit, Swept, Fills, Filled, Trades, RestsBehind, OnlyTouches, NoRoom;
    if quantity == 0 || id in e.BookAt(l).orders {
      LimitRefused(e, l, id, side, price, quantity, capacity);
    } else {
      LimitAccepted(e, l, id, side, price, quantity, capacity);
    }
  }

  lemma LimitAccepted(e: Engine, l: StockLocate, id: OrderId, side: Side, price: Price, quantity: Quantity, capacity: nat)
    requires e.Valid() && !e.LimitCrashes(l, quantity) && quantity != 0 && id !in e.BookAt(l).orders
    ensures LimitIs(e, l, id, side, price, quantity, capacity, e.SubmitLimit(l, id, side, price, quantity, capacity))
  {
    hide Engine.Valid, Engine.Matched, Engine.CanCreate, Engine.BookAt, Swept, Fills, Filled, Book.Valid, Book.Add, Shift;
    hide Trades, RestsBehind, OnlyTouches, NoRoom;
    var t, b := TakerOf(side, Some(price)), e.BookAt(l);
    var m := e.Match(l, t, quantity, capacity);
    var mid := m.engine.BookAt(l);
    MatchedTouches(e, l, t, quantity);
    SweptMeans(b, side, Some(price), quantity);
    var rest := m.result.resting;
    if rest == 0 {
      RestNone(b, id, side, price, mid);
    } else {
      RestCanBeAdded(e, l, t, quantity, id);
      AddAnswers(mid, id, side, price, rest);
      RoomIs(m.engine, l);
      if m.engine.CanCreate(l) {
        NotHollow(e, l, t, quantity);
        RestTouches(e, m.engine, l, id, side, price, rest);
        RestMeans(b, mid, id, side, price, quantity, rest, m.fills);
        BookSet(m.engine, l, mid.Add(id, side, price, rest).book, Shift(m.engine.resting, 1));
      } else {
        RestNone(b, id, side, price, mid);
      }
    }
  }

  lemma BookSet(e: Engine, l: StockLocate, b: Book, n: Word)
    ensures e.WithBook(l, b).(resting := n).BookAt(l) == b
  {
  }

  lemma RestNone(b: Book, id: OrderId, side: Side, price: Price, mid: Book)
    requires RestsBehind(b, 0, side, 0, 0, mid)
    ensures RestsBehind(b, id, side, price, 0, mid)
  {
  }

  lemma NotHollow(e: Engine, l: StockLocate, t: Taker, quantity: Quantity)
    requires e.Valid() && !e.Dereferences(l) && e.Matched(l, t, quantity).CanCreate(l)
    ensures l !in e.Matched(l, t, quantity).hollow
  {
    MatchedShape(e, l, t, quantity);
  }

  lemma MarketMeans(e: Engine, l: StockLocate, side: Side, quantity: Quantity, capacity: nat)
    requires e.Valid()
    ensures MarketIs(e, l, side, quantity, capacity, e.SubmitMarket(l, side, quantity, capacity))
  {
    hide Engine.Valid, Engine.Matched, Engine.BookAt, Swept, Fills, Filled, Book.Valid, Trades, RestsBehind, OnlyTouches;
    MatchedTouches(e, l, TakerOf(side, None), quantity);
    SweptMeans(e.BookAt(l), side, None, quantity);
  }
}
