/** What the queries of a book answer, said of the live orders alone. */
module BookQueries {
  import opened Common
  import opened BookModel

  /** The live orders of a side and price. */
  function LiveAt(b: Book, side: Side, price: Price): set<OrderId> {
    set id | id in b.orders && b.orders[id].side == side && b.orders[id].price == price
  }

  /** The sum of the quantities of some orders. */
  ghost function SumOf(orders: map<OrderId, Order>, ids: set<OrderId>): nat
    requires ids <= orders.Keys
  {
    if ids == {} then 0
    else
      var id :| id in ids;
      orders[id].quantity + SumOf(orders, ids - {id})
  }

  /** The depth shown at a price: none without orders there; otherwise the price itself, how many orders
      there are, and the sum of their quantities in 64 bits. */
  ghost predicate DepthIs(b: Book, side: Side, price: Price, depth: Option<Depth>) {
    var live := LiveAt(b, side, price);
    if live == {} then depth.None?
    else
      && depth.Some? && depth.value.price == price && depth.value.orderCount == |live|
      && depth.value.quantity == SumOf(b.orders, live) % 0x1_0000_0000_0000_0000
  }

  /** The best price of a side: the highest at which a bid is live, or the lowest at which an ask is. */
  ghost predicate BestIs(b: Book, side: Side, best: Option<Price>) {
    match best
    case None => forall id :: id in b.orders ==> b.orders[id].side != side
    case Some(p) =>
      && LiveAt(b, side, p) != {}
      && forall id :: id in b.orders && b.orders[id].side == side ==>
        if side == Buy then b.orders[id].price <= p else p <= b.orders[id].price
  }

  /** The front of a price: none without orders there, otherwise the order at the head of the queue. */
  ghost predicate FrontIs(b: Book, side: Side, price: Price, front: Option<OrderView>) {
    if LiveAt(b, side, price) == {} then front.None?
    else
      && front.Some? && front.value.orderId in LiveAt(b, side, price)
      && b.Queue(side, price) != [] && b.Queue(side, price)[0] == front.value.orderId
      && ViewIs(b, front.value.orderId, front)
  }

  /** An order as it is shown. */
  ghost predicate ViewIs(b: Book, id: OrderId, view: Option<OrderView>) {
    if id !in b.orders then view.None?
    else
      && view.Some? && view.value.orderId == id && view.value.side == b.orders[id].side
      && view.value.price == b.orders[id].price && view.value.quantity == b.orders[id].quantity
  }

  lemma {:induction false} SumSplit(orders: map<OrderId, Order>, ids: set<OrderId>, id: OrderId)
    requires ids <= orders.Keys && id in ids
    ensures SumOf(orders, ids) == orders[id].quantity + SumOf(orders, ids - {id})
    decreases |ids|
  {
    var first :| first in ids && SumOf(orders, ids) == orders[first].quantity + SumOf(orders, ids - {first});
    if first != id {
      SumSplit(orders, ids - {first}, id);
      SumSplit(orders, ids - {id}, first);
      assert ids - {first} - {id} == ids - {id} - {first};
    }
  }

  function Members(q: seq<OrderId>): set<OrderId> {
    set id | id in q
  }

  lemma MembersOfRest(q: seq<OrderId>)
    requires q != [] && Distinct(q)
    ensures Members(q) - {q[0]} == Members(q[1..]) && q[0] in Members(q) && q[0] !in Members(q[1..])
    ensures Distinct(q[1..])
  {
    assert forall i :: 0 <= i < |q| - 1 ==> q[1..][i] == q[i + 1] && q[i + 1] != q[0];
  }

  /** The total of a queue is the sum over the orders in it. */
  lemma {:induction false} TotalIsSum(orders: map<OrderId, Order>, q: seq<OrderId>)
    requires Distinct(q) && Members(q) <= orders.Keys
    ensures Total(orders, q) == SumOf(orders, Members(q)) && |Members(q)| == |q|
  {
    hide Distinct, Members;
    if q == [] {
      assert Members(q) == {} by { NoMembers(); }
    } else {
      MembersOfRest(q);
      TotalIsSum(orders, q[1..]);
      SumSplit(orders, Members(q), q[0]);
      assert |Members(q)| == |Members(q[1..])| + 1;
    }
  }

  lemma NoMembers()
    ensures Members([]) == {}
  {
  }

  /** The queue of a side and price holds exactly the orders that are live there. */
  lemma QueueIsLive(b: Book, side: Side, price: Price)
    requires b.Valid()
    ensures Distinct(b.Queue(side, price)) && Members(b.Queue(side, price)) == LiveAt(b, side, price) <= b.orders.Keys
    ensures price in b.Levels(side) <==> b.Queue(side, price) != []
    ensures b.Queue(side, price) == [] <==> LiveAt(b, side, price) == {}
    ensures b.Queue(side, price) != [] ==> b.Queue(side, price)[0] in LiveAt(b, side, price)
  {
    var q := b.Queue(side, price);
    assert b.Kept(side, price) && b.QueueOk(side, price);
    forall id: OrderId
      ensures id in q <==> id in LiveAt(b, side, price)
    {
      assert b.OrderOk(id);
    }
    if q != [] {
      assert q[0] in q;
    }
  }

  lemma DepthMeans(b: Book, side: Side, price: Price)
    requires b.Valid()
    ensures DepthIs(b, side, price, b.DepthAt(side, price))
  {
    hide Book.Queue, Book.Valid, Total, SumOf, LiveAt, Members;
    QueueIsLive(b, side, price);
    TotalIsSum(b.orders, b.Queue(side, price));
  }

  lemma BestMeans(b: Book, side: Side, best: Option<Price>)
    requires b.Valid()
    ensures b.IsBest(side, best) <==> BestIs(b, side, best)
  {
    forall p: Price
      ensures p in b.Levels(side) <==> LiveAt(b, side, p) != {}
    {
      QueueIsLive(b, side, p);
    }
    hide Book.Valid, Book.Queue;
    forall id | id in b.orders && b.orders[id].side == side
      ensures b.orders[id].price in b.Levels(side)
    {
      assert id in LiveAt(b, side, b.orders[id].price);
    }
    forall p | p in b.Levels(side)
      ensures exists id :: id in b.orders && b.orders[id].side == side && b.orders[id].price == p
    {
      var id :| id in LiveAt(b, side, p);
    }
  }

  lemma FrontMeans(b: Book, side: Side, price: Price)
    requires b.Valid()
    ensures FrontIs(b, side, price, b.Front(side, price))
  {
    hide Book.Queue, Book.Valid, LiveAt, Members;
    QueueIsLive(b, side, price);
  }

  lemma ViewMeans(b: Book, id: OrderId)
    ensures ViewIs(b, id, b.View(id))
  {
  }
}
