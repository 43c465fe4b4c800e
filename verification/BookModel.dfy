/** The reference order book of tests/order_book_model_test.cpp:22-155: one map of orders, and for
    each side one queue of order ids per price. It says what the pointer-based book must show. */
module BookModel {
  import opened Bits
  import opened Common

  datatype Order = Order(side: Side, price: Price, quantity: Quantity)

  datatype OrderView = OrderView(orderId: OrderId, side: Side, price: Price, quantity: Quantity)

  /** Displayed depth; the quantity is a 64-bit total. */
  datatype Depth = Depth(price: Price, quantity: Word, orderCount: nat)

  type Queues = map<Price, seq<OrderId>>

  datatype Step = Step(book: Book, ok: bool)

  datatype Book = Book(orders: map<OrderId, Order>, bids: Queues, asks: Queues) {
    function Levels(side: Side): Queues {
      if side == Buy then bids else asks
    }

    function Queue(side: Side, price: Price): seq<OrderId> {
      if price in Levels(side) then Levels(side)[price] else []
    }

    /** Give a price level a new queue; a level without orders is not kept. */
    function WithQueue(side: Side, price: Price, queue: seq<OrderId>): Book {
      var ls := if queue == [] then Levels(side) - {price} else Levels(side)[price := queue];
      if side == Buy then this.(bids := ls) else this.(asks := ls)
    }

    function RemoveFromLevel(id: OrderId): Book
      requires id in orders
    {
      var o := orders[id];
      WithQueue(o.side, o.price, RemoveId(Queue(o.side, o.price), id))
    }

    function Add(id: OrderId, side: Side, price: Price, quantity: Quantity): Step {
      if quantity == 0 || id in orders then Step(this, false)
      else
        var b := this.(orders := orders[id := Order(side, price, quantity)]);
        Step(b.WithQueue(side, price, Queue(side, price) + [id]), true)
    }

    function Erase(id: OrderId): Step {
      if id !in orders then Step(this, false)
      else Step(RemoveFromLevel(id).(orders := orders - {id}), true)
    }

    function Resize(id: OrderId, quantity: Quantity): Book
      requires id in orders
    {
      this.(orders := orders[id := orders[id].(quantity := quantity)])
    }

    function Cancel(id: OrderId, quantity: Quantity): Step {
      if id !in orders || quantity == 0 || quantity > orders[id].quantity then Step(this, false)
      else if quantity == orders[id].quantity then Erase(id)
      else Step(Resize(id, orders[id].quantity - quantity), true)
    }

    function Execute(id: OrderId, quantity: Quantity): Step {
      Cancel(id, quantity)
    }

    function Requeue(id: OrderId, price: Price, quantity: Quantity): Book
      requires id in orders
    {
      var o := orders[id];
      var b := RemoveFromLevel(id).(orders := orders[id := Order(o.side, price, quantity)]);
      b.WithQueue(o.side, price, b.Queue(o.side, price) + [id])
    }

    function Modify(id: OrderId, price: Price, quantity: Quantity): Step {
      if id !in orders || quantity == 0 then Step(this, false)
      else if price == orders[id].price && quantity <= orders[id].quantity then Step(Resize(id, quantity), true)
      else Step(Requeue(id, price, quantity), true)
    }

    function Replace(oldId: OrderId, newId: OrderId, price: Price, quantity: Quantity): Step {
      if oldId !in orders || quantity == 0 then Step(this, false)
      else if oldId == newId then Modify(oldId, price, quantity)
      else if newId in orders then Step(this, false)
      else Add(newId, orders[oldId].side, price, quantity).book.Erase(oldId)
    }

    function View(id: OrderId): Option<OrderView> {
      if id !in orders then None
      else Some(OrderView(id, orders[id].side, orders[id].price, orders[id].quantity))
    }

    function DepthAt(side: Side, price: Price): Option<Depth> {
      var q := Queue(side, price);
      if q == [] then None else Some(Depth(price, Total(orders, q) % TWO_64, |q|))
    }

    function Front(side: Side, price: Price): Option<OrderView> {
      var q := Queue(side, price);
      if q == [] then None else View(q[0])
    }

    /** `p` is the best price of a side: the highest bid, or the lowest ask. */
    ghost predicate IsBest(side: Side, best: Option<Price>) {
      match best
      case None => Levels(side) == map[]
      case Some(p) => p in Levels(side) && forall q :: q in Levels(side) ==> NoWorse(side, p, q)
    }

    /** A level is kept only while it has orders. */
    ghost predicate Kept(side: Side, price: Price) {
      price in Levels(side) ==> Queue(side, price) != []
    }

    ghost predicate QueueOk(side: Side, price: Price) {
      && Distinct(Queue(side, price))
      && forall id :: id in Queue(side, price) ==>
          id in orders && orders[id].side == side && orders[id].price == price
    }

    ghost predicate OrderOk(id: OrderId) {
      id in orders ==>
        && orders[id].quantity != 0
        && id in Queue(orders[id].side, orders[id].price)
    }

    /** Every live order is in exactly one queue, that of its own side and price. */
    ghost predicate Valid() {
      && (forall side: Side, price: Price :: Kept(side, price) && QueueOk(side, price))
      && (forall id: OrderId :: OrderOk(id))
    }
  }

  const EMPTY_BOOK := Book(map[], map[], map[])

  /** `p` is at least as good a price as `q` for a resting order of `side`. */
  predicate NoWorse(side: Side, p: Price, q: Price) {
    if side == Buy then q <= p else p <= q
  }

  ghost predicate Distinct(q: seq<OrderId>) {
    forall i, j :: 0 <= i < j < |q| ==> q[i] != q[j]
  }

  function IndexOf(q: seq<OrderId>, id: OrderId): (i: nat)
    ensures i <= |q| && (i < |q| ==> q[i] == id) && (i == |q| ==> id !in q)
  {
    if q == [] then 0 else if q[0] == id then 0 else 1 + IndexOf(q[1..], id)
  }

  function RemoveId(q: seq<OrderId>, id: OrderId): seq<OrderId> {
    var i := IndexOf(q, id);
    if i == |q| then q else q[..i] + q[i + 1..]
  }

  /** The quantity of a queue of orders. */
  function Total(orders: map<OrderId, Order>, q: seq<OrderId>): nat {
    if q == [] then 0
    else (if q[0] in orders then orders[q[0]].quantity else 0) + Total(orders, q[1..])
  }

  // ---- lemmas ----

  lemma {:induction false} IndexIs(q: seq<OrderId>, i: nat)
    requires Distinct(q) && i < |q|
    ensures IndexOf(q, q[i]) == i
  {
    if i > 0 {
      assert q[0] != q[i];
      IndexIs(q[1..], i - 1);
    }
  }

  lemma {:induction false} TotalFrame(o: map<OrderId, Order>, o': map<OrderId, Order>, q: seq<OrderId>)
    requires forall id :: id in q ==> (id in o <==> id in o') && (id in o ==> o[id].quantity == o'[id].quantity)
    ensures Total(o, q) == Total(o', q)
  {
    if q != [] {
      TotalFrame(o, o', q[1..]);
    }
  }

  lemma {:induction false} TotalAppend(o: map<OrderId, Order>, q: seq<OrderId>, r: seq<OrderId>)
    ensures Total(o, q + r) == Total(o, q) + Total(o, r)
  {
    if q == [] {
      assert q + r == r;
    } else {
      assert (q + r)[1..] == q[1..] + r;
      TotalAppend(o, q[1..], r);
    }
  }

  /** A queue's total is the total of the others and one order. */
  lemma TotalWithout(o: map<OrderId, Order>, q: seq<OrderId>, i: nat)
    requires i < |q| && q[i] in o
    ensures Total(o, q) == Total(o, q[..i] + q[i + 1..]) + o[q[i]].quantity
  {
    assert q == q[..i] + ([q[i]] + q[i + 1..]);
    TotalAppend(o, q[..i], [q[i]] + q[i + 1..]);
    assert ([q[i]] + q[i + 1..])[1..] == q[i + 1..];
    TotalAppend(o, q[..i], q[i + 1..]);
  }

  /** With at most 2^32 orders a level's 64-bit total does not wrap. */
  lemma {:induction false} TotalBound(o: map<OrderId, Order>, q: seq<OrderId>)
    ensures Total(o, q) <= |q| * 0xffff_ffff
  {
    if q != [] {
      TotalBound(o, q[1..]);
    }
  }

  lemma QueueAfterWith(b: Book, side: Side, price: Price, queue: seq<OrderId>)
    ensures forall s: Side, p: Price :: b.WithQueue(side, price, queue).Queue(s, p)
                                        == if s == side && p == price then queue else b.Queue(s, p)
    ensures forall s: Side, p: Price :: b.Kept(s, p) ==> b.WithQueue(side, price, queue).Kept(s, p)
    ensures b.WithQueue(side, price, queue).orders == b.orders
  {
  }
}
