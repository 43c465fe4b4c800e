/** Price-time priority, stated without the book's data structures: a side flattened best price first
    and oldest order first, and the greedy sweep over it. */
module Sweep {
  import opened Common
  import opened BookModel
  import opened BookLaws

  datatype Fill = Fill(restingOrder: OrderId, price: Price, quantity: Quantity)

  /** An order as it waits in the flattened side. */
  datatype Resting = Resting(id: OrderId, price: Price, quantity: Quantity)

  // ---- the flattened side ----

  function Quoted(orders: map<OrderId, Order>, price: Price, q: seq<OrderId>): (r: seq<Resting>)
    ensures |r| == |q|
  {
    if q == [] then []
    else [Resting(q[0], price, if q[0] in orders then orders[q[0]].quantity else 0)] + Quoted(orders, price, q[1..])
  }

  ghost predicate IsBestOf(side: Side, prices: set<Price>, p: Price) {
    p in prices && forall q :: q in prices ==> NoWorse(side, p, q)
  }

  lemma {:induction false} BestExists(side: Side, prices: set<Price>) returns (best: Price)
    requires prices != {}
    ensures IsBestOf(side, prices, best)
    decreases |prices|
  {
    var p :| p in prices;
    best := p;
    if prices != {p} {
      var r := BestExists(side, prices - {p});
      best := if NoWorse(side, p, r) then p else r;
      forall q | q in prices
        ensures NoWorse(side, best, q)
      {
        assert q == p || q in prices - {p};
      }
    }
  }

  ghost function BestOf(side: Side, prices: set<Price>): (p: Price)
    requires prices != {}
    ensures p in prices && forall q :: q in prices ==> NoWorse(side, p, q)
  {
    assert exists p :: IsBestOf(side, prices, p) by {
      var p := BestExists(side, prices);
    }
    var p: Price :| IsBestOf(side, prices, p);
    p
  }

  ghost function FlattenAt(b: Book, side: Side, prices: set<Price>): seq<Resting>
    decreases |prices|
  {
    if prices == {} then []
    else
      var p := BestOf(side, prices);
      Quoted(b.orders, p, b.Queue(side, p)) + FlattenAt(b, side, prices - {p})
  }

  /** All orders of a side, best price first and oldest first within a price. */
  ghost function Flatten(b: Book, side: Side): seq<Resting> {
    FlattenAt(b, side, b.Levels(side).Keys)
  }

  // ---- the greedy sweep ----

  /** An incoming order of `side` limited to `limit` may trade at `price`. */
  predicate Crosses(side: Side, limit: Price, price: Price) {
    if side == Buy then limit >= price else limit <= price
  }

  /** What an incoming order asks for: its side, its limit if it has one, and a quantity. */
  datatype Taker = Taker(side: Side, limit: Price, hasLimit: bool) {
    predicate Accepts(price: Price) {
      hasLimit ==> Crosses(side, limit, price)
    }
  }

  function Min(a: Quantity, b: Quantity): Quantity {
    if a < b then a else b
  }

  /** The fills of a sweep over the flattened opposite side. */
  function Greedy(t: Taker, flat: seq<Resting>, quantity: Quantity): seq<Fill> {
    if quantity == 0 || flat == [] || !t.Accepts(flat[0].price) then []
    else
      var f := Min(quantity, flat[0].quantity);
      [Fill(flat[0].id, flat[0].price, f)] + Greedy(t, flat[1..], quantity - f)
  }

  /** What the sweep leaves of the flattened opposite side. */
  function Leftover(t: Taker, flat: seq<Resting>, quantity: Quantity): seq<Resting> {
    if quantity == 0 || flat == [] || !t.Accepts(flat[0].price) then flat
    else if quantity < flat[0].quantity then [flat[0].(quantity := flat[0].quantity - quantity)] + flat[1..]
    else Leftover(t, flat[1..], quantity - flat[0].quantity)
  }

  function Filled(fills: seq<Fill>): nat {
    if fills == [] then 0 else fills[0].quantity + Filled(fills[1..])
  }

  function Displayed(flat: seq<Resting>): nat {
    if flat == [] then 0 else flat[0].quantity + Displayed(flat[1..])
  }

  /** The fills executed one after the other on a book. */
  function ExecuteAll(b: Book, fills: seq<Fill>): Book
    decreases |fills|
  {
    if fills == [] then b
    else ExecuteAll(b.Execute(fills[0].restingOrder, fills[0].quantity).book, fills[1..])
  }

  // ---- lemmas on flattening ----

  lemma {:induction false} QuotedFrame(o: map<OrderId, Order>, o': map<OrderId, Order>, price: Price, q: seq<OrderId>)
    requires forall id :: id in q ==> id in o && id in o' && o[id].quantity == o'[id].quantity
    ensures Quoted(o, price, q) == Quoted(o', price, q)
  {
    if q != [] {
      QuotedFrame(o, o', price, q[1..]);
    }
  }

  /** The flattening of some levels only depends on those levels. */
  lemma {:induction false} FlattenFrame(b: Book, b': Book, side: Side, prices: set<Price>)
    requires forall p :: p in prices ==> b.Queue(side, p) == b'.Queue(side, p)
    requires forall p, id :: p in prices && id in b.Queue(side, p) ==>
      id in b.orders && id in b'.orders && b.orders[id].quantity == b'.orders[id].quantity
    ensures FlattenAt(b, side, prices) == FlattenAt(b', side, prices)
    decreases |prices|
  {
    if prices != {} {
      var p := BestOf(side, prices);
      QuotedFrame(b.orders, b'.orders, p, b.Queue(side, p));
      FlattenFrame(b, b', side, prices - {p});
    }
  }

  /** A price is quoted exactly when orders wait there. */
  lemma KeysAreQueues(b: Book, side: Side)
    requires b.Valid()
    ensures forall p: Price :: p in b.Levels(side) <==> b.Queue(side, p) != []
  {
    forall p: Price
      ensures p in b.Levels(side) <==> b.Queue(side, p) != []
    {
      assert b.Kept(side, p);
    }
  }

  /** The head of the flattened side is the front order of the best level. */
  lemma FlattenHead(b: Book, side: Side) returns (p: Price, q: seq<OrderId>)
    requires b.Valid() && b.Levels(side) != map[]
    ensures p in b.Levels(side) && b.IsBest(side, Some(p))
    ensures q == b.Queue(side, p) && q != [] && q[0] in b.orders && b.orders[q[0]].side == side && b.orders[q[0]].price == p
    ensures Flatten(b, side) != [] && Flatten(b, side)[0] == Resting(q[0], p, b.orders[q[0]].quantity)
    ensures Flatten(b, side) == Quoted(b.orders, p, q) + FlattenAt(b, side, b.Levels(side).Keys - {p})
    ensures b.orders[q[0]].quantity != 0
  {
    KeysNonEmpty(b.Levels(side));
    p := BestOf(side, b.Levels(side).Keys);
    q := b.Queue(side, p);
    assert b.Kept(side, p) && b.QueueOk(side, p);
    assert q[0] in q;
    assert b.OrderOk(q[0]);
  }

  lemma KeysNonEmpty(m: Queues)
    requires m != map[]
    ensures m.Keys != {}
  {
    assert m.Keys == {} ==> m == map[];
  }

  /** The order at the front of the best level is the head of the flattened side. */
  lemma FrontIsHead(b: Book, side: Side, price: Price)
    requires b.Valid() && b.IsBest(side, Some(price))
    ensures Flatten(b, side) != []
    ensures var r := Flatten(b, side)[0];
      r.price == price && r.quantity != 0 && r.id in b.orders && b.orders[r.id] == Order(side, price, r.quantity)
      && b.Front(side, price) == Some(OrderView(r.id, side, price, r.quantity))
  {
    var p, q := FlattenHead(b, side);
    BestUnique(b, side, Some(p), Some(price));
  }

  /** There is only one best price. */
  lemma BestUnique(b: Book, side: Side, p: Option<Price>, q: Option<Price>)
    requires b.IsBest(side, p) && b.IsBest(side, q)
    ensures p == q
  {
  }

  /** An execution leaves every level but the order's own as it was. */
  lemma OtherLevels(b: Book, id: OrderId, quantity: Quantity)
    requires b.Valid() && id in b.orders && 0 < quantity <= b.orders[id].quantity
    ensures var o := b.orders[id]; var b' := b.Execute(id, quantity).book;
      && b.Execute(id, quantity).ok && b'.Valid()
      && b'.Queue(o.side, o.price) == (if quantity == o.quantity then RemoveId(b.Queue(o.side, o.price), id)
                                       else b.Queue(o.side, o.price))
      && (forall s: Side, p: Price :: s != o.side || p != o.price ==> b'.Queue(s, p) == b.Queue(s, p))
      && (forall i :: i in b.orders && i != id ==> i in b'.orders && b'.orders[i] == b.orders[i])
      && (quantity < o.quantity ==> id in b'.orders && b'.orders[id].quantity == o.quantity - quantity)
      && (quantity < o.quantity ==> b'.orders[id] == o.(quantity := o.quantity - quantity))
      && (forall i :: i in b'.orders ==> i in b.orders)
      && (id in b'.orders <==> quantity < o.quantity)
  {
    CancelValid(b, id, quantity);
    if quantity == b.orders[id].quantity {
      EraseQueues(b, id);
    } else {
      SameLevels(b, b.Resize(id, b.orders[id].quantity - quantity));
    }
  }

  /** Executing on the front of the flattened side consumes it there, in full or in part, and leaves
      the other side alone. */
  lemma SweepStep(b: Book, side: Side, quantity: Quantity)
    requires b.Valid() && Flatten(b, side) != [] && 0 < quantity <= Flatten(b, side)[0].quantity
    ensures var flat := Flatten(b, side); var s := b.Execute(flat[0].id, quantity);
      && s.ok && s.book.Valid()
      && Flatten(s.book, side) == (if quantity == flat[0].quantity then flat[1..]
                                   else [flat[0].(quantity := flat[0].quantity - quantity)] + flat[1..])
      && Flatten(s.book, side.Opposite()) == Flatten(b, side.Opposite())
      && s.book.Levels(side.Opposite()) == b.Levels(side.Opposite())
  {
    var p, q := FlattenHead(b, side);
    var id, flat := q[0], Flatten(b, side);
    var o := b.orders[id];
    var b' := b.Execute(id, quantity).book;
    var others := b.Levels(side).Keys - {p};
    OtherLevels(b, id, quantity);
    ElsewhereFrame(b, b', id, side, others);
    ElsewhereFrame(b, b', id, side.Opposite(), b.Levels(side.Opposite()).Keys);
    assert b'.Levels(side.Opposite()) == b.Levels(side.Opposite());
    FlattenAfter(b, b', id, side, p, q);
  }

  /** The other levels of a book flatten as before. */
  lemma ElsewhereFrame(b: Book, b': Book, id: OrderId, side: Side, prices: set<Price>)
    requires b.Valid() && id in b.orders
    requires forall i :: i in b.orders && i != id ==> i in b'.orders && b'.orders[i] == b.orders[i]
    requires forall p :: p in prices ==> b'.Queue(side, p) == b.Queue(side, p)
    requires side != b.orders[id].side || b.orders[id].price !in prices
    ensures FlattenAt(b, side, prices) == FlattenAt(b', side, prices)
  {
    forall p, i | p in prices && i in b.Queue(side, p)
      ensures i in b.orders && i != id
    {
      assert b.QueueOk(side, p);
    }
    FlattenFrame(b, b', side, prices);
  }

  /** The flattened side after its front order has been reduced or removed. */
  lemma FlattenAfter(b: Book, b': Book, id: OrderId, side: Side, p: Price, q: seq<OrderId>)
    requires b.Valid() && b'.Valid() && q == b.Queue(side, p) && q != [] && q[0] == id && id in b.orders
    requires p == BestOf(side, b.Levels(side).Keys)
    requires b'.Queue(side, p) == if id in b'.orders then q else RemoveId(q, id)
    requires forall r: Price :: r != p ==> b'.Queue(side, r) == b.Queue(side, r)
    requires forall i :: i in b.orders && i != id ==> i in b'.orders && b'.orders[i] == b.orders[i]
    requires FlattenAt(b, side, b.Levels(side).Keys - {p}) == FlattenAt(b', side, b.Levels(side).Keys - {p})
    ensures Flatten(b', side) == (if id in b'.orders then [Resting(id, p, b'.orders[id].quantity)] else [])
                                 + Flatten(b, side)[1..]
  {
    hide Book.Valid, Book.Queue, Book.QueueOk, FlattenAt, RemoveId;
    HeadIsFirst(b, side, p, q);
    RemoveHead(q);
    KeysAfter(b, b', side, p);
    QuotedFrame(b.orders, b'.orders, p, q[1..]);
    var keys, rest := b.Levels(side).Keys, FlattenAt(b, side, b.Levels(side).Keys - {p});
    FlattenBest(b, side, keys, p);
    TailOfSum(Quoted(b.orders, p, q), rest);
    if id in b'.orders || q[1..] != [] {
      FlattenBest(b', side, keys, p);
    }
  }

  /** The ids of a queue are live, and only its first is the first. */
  lemma HeadIsFirst(b: Book, side: Side, p: Price, q: seq<OrderId>)
    requires b.Valid() && q == b.Queue(side, p) && q != []
    ensures forall i :: i in q ==> i in b.orders && b.orders[i].price == p
    ensures q[0] !in q[1..]
  {
    assert b.QueueOk(side, p);
  }

  lemma RemoveHead(q: seq<OrderId>)
    requires q != []
    ensures RemoveId(q, q[0]) == q[1..]
  {
  }

  lemma FlattenBest(b: Book, side: Side, prices: set<Price>, p: Price)
    requires prices != {} && p == BestOf(side, prices)
    ensures FlattenAt(b, side, prices) == Quoted(b.orders, p, b.Queue(side, p)) + FlattenAt(b, side, prices - {p})
  {
  }

  lemma TailOfSum(a: seq<Resting>, r: seq<Resting>)
    requires a != []
    ensures (a + r)[1..] == a[1..] + r
  {
  }

  /** A level disappears exactly when its queue is left empty. */
  lemma KeysAfter(b: Book, b': Book, side: Side, p: Price)
    requires b.Valid() && b'.Valid() && p in b.Levels(side)
    requires forall r: Price :: r != p ==> b'.Queue(side, r) == b.Queue(side, r)
    ensures b'.Levels(side).Keys == if b'.Queue(side, p) == [] then b.Levels(side).Keys - {p} else b.Levels(side).Keys
  {
    KeysAreQueues(b, side);
    KeysAreQueues(b', side);
    assert forall r: Price :: r != p ==> (r in b.Levels(side) <==> r in b'.Levels(side));
  }

  // ---- what the flattened side is ----

  /** The flattened side lists exactly the orders of the side, with their price and quantity. */
  lemma FlattenIsTheSide(b: Book, side: Side)
    requires b.Valid()
    ensures forall r: Resting :: r in Flatten(b, side) ==> Waits(b, side, r)
    ensures forall id :: id in b.orders && b.orders[id].side == side ==>
      Resting(id, b.orders[id].price, b.orders[id].quantity) in Flatten(b, side)
  {
    FlattenMembers(b, side, b.Levels(side).Keys);
    forall id | id in b.orders && b.orders[id].side == side
      ensures Resting(id, b.orders[id].price, b.orders[id].quantity) in Flatten(b, side)
    {
      assert b.OrderOk(id);
    }
  }

  ghost predicate Waits(b: Book, side: Side, r: Resting) {
    r.id in b.orders && b.orders[r.id] == Order(side, r.price, r.quantity)
  }

  lemma {:induction false} QuotedMembers(b: Book, side: Side, p: Price, q: seq<OrderId>)
    requires forall id :: id in q ==> id in b.orders && b.orders[id].side == side && b.orders[id].price == p
    ensures forall r: Resting :: r in Quoted(b.orders, p, q) ==> Waits(b, side, r) && r.price == p
    ensures forall id :: id in q ==> Resting(id, p, b.orders[id].quantity) in Quoted(b.orders, p, q)
  {
    if q != [] {
      QuotedMembers(b, side, p, q[1..]);
      var rest := Quoted(b.orders, p, q[1..]);
      assert Quoted(b.orders, p, q) == [Resting(q[0], p, b.orders[q[0]].quantity)] + rest;
      assert forall id :: id in q ==> id == q[0] || id in q[1..];
    }
  }

  lemma {:induction false} FlattenMembers(b: Book, side: Side, prices: set<Price>)
    requires b.Valid()
    ensures forall r: Resting :: r in FlattenAt(b, side, prices) ==> Waits(b, side, r) && r.price in prices
    ensures forall p, id :: p in prices && id in b.Queue(side, p) ==>
      id in b.orders && Resting(id, p, b.orders[id].quantity) in FlattenAt(b, side, prices)
    decreases |prices|
  {
    if prices != {} {
      var best := BestOf(side, prices);
      assert b.QueueOk(side, best);
      QuotedMembers(b, side, best, b.Queue(side, best));
      FlattenMembers(b, side, prices - {best});
      assert forall p :: p in prices ==> p == best || p in prices - {best};
    }
  }

  ghost predicate Sorted(side: Side, flat: seq<Resting>) {
    forall i, j :: 0 <= i < j < |flat| ==> NoWorse(side, flat[i].price, flat[j].price)
  }

  /** No order waits behind one with a worse price. */
  lemma {:induction false} FlattenSorted(b: Book, side: Side, prices: set<Price>)
    requires b.Valid()
    ensures Sorted(side, FlattenAt(b, side, prices))
    decreases |prices|
  {
    if prices != {} {
      var best := BestOf(side, prices);
      assert b.QueueOk(side, best);
      QuotedMembers(b, side, best, b.Queue(side, best));
      FlattenSorted(b, side, prices - {best});
      FlattenMembers(b, side, prices - {best});
      var head: seq<Resting> := Quoted(b.orders, best, b.Queue(side, best));
      var rest: seq<Resting> := FlattenAt(b, side, prices - {best});
      forall i, j | 0 <= i < j < |head + rest|
        ensures NoWorse(side, (head + rest)[i].price, (head + rest)[j].price)
      {
        if j < |head| {
          assert head[i] in head && head[j] in head;
        } else {
          assert rest[j - |head|] in rest;
          if i < |head| {
            assert head[i] in head;
          }
        }
      }
    }
  }

  /** Within a price the flattened side keeps the queue's order. */
  lemma {:induction false} QuotedAt(orders: map<OrderId, Order>, price: Price, q: seq<OrderId>, i: nat)
    requires i < |q|
    ensures Quoted(orders, price, q)[i].id == q[i] && Quoted(orders, price, q)[i].price == price
  {
    if i > 0 {
      QuotedAt(orders, price, q[1..], i - 1);
    }
  }

  /** The flattened side lists no order twice. */
  lemma {:induction false} FlattenDistinct(b: Book, side: Side, prices: set<Price>, i: nat, j: nat)
    requires b.Valid() && i < j < |FlattenAt(b, side, prices)|
    ensures FlattenAt(b, side, prices)[i].id != FlattenAt(b, side, prices)[j].id
    decreases |prices|
  {
    var best := BestOf(side, prices);
    var head, rest := Quoted(b.orders, best, b.Queue(side, best)), FlattenAt(b, side, prices - {best});
    var n := |head|;
    assert FlattenAt(b, side, prices) == head + rest;
    if i < n {
      HeadAt(b, side, best, i);
      if j < n {
        HeadAt(b, side, best, j);
      } else {
        RestAt(b, side, prices - {best}, j - n);
      }
    } else {
      FlattenDistinct(b, side, prices - {best}, i - n, j - n);
    }
  }

  /** Orders at the same price are listed in the order of their queue. */
  lemma {:induction false} FlattenKeepsQueues(b: Book, side: Side, prices: set<Price>, i: nat, j: nat)
    requires b.Valid() && i < j < |FlattenAt(b, side, prices)|
    requires FlattenAt(b, side, prices)[i].price == FlattenAt(b, side, prices)[j].price
    ensures var flat := FlattenAt(b, side, prices); var q := b.Queue(side, flat[i].price);
      flat[i].id in q && flat[j].id in q && IndexOf(q, flat[i].id) < IndexOf(q, flat[j].id)
    decreases |prices|
  {
    var best := BestOf(side, prices);
    var head, rest := Quoted(b.orders, best, b.Queue(side, best)), FlattenAt(b, side, prices - {best});
    var n := |head|;
    assert FlattenAt(b, side, prices) == head + rest;
    if i < n {
      HeadAt(b, side, best, i);
      if j < n {
        HeadAt(b, side, best, j);
      } else {
        RestAt(b, side, prices - {best}, j - n);
      }
    } else {
      FlattenKeepsQueues(b, side, prices - {best}, i - n, j - n);
    }
  }

  lemma HeadAt(b: Book, side: Side, p: Price, i: nat)
    requires b.Valid() && i < |b.Queue(side, p)|
    ensures var r := Quoted(b.orders, p, b.Queue(side, p))[i];
      && r.price == p && r.id == b.Queue(side, p)[i] && IndexOf(b.Queue(side, p), r.id) == i
      && r.id in b.orders && b.orders[r.id].price == p
  {
    assert b.QueueOk(side, p);
    QuotedAt(b.orders, p, b.Queue(side, p), i);
    IndexIs(b.Queue(side, p), i);
  }

  lemma RestAt(b: Book, side: Side, prices: set<Price>, i: nat)
    requires b.Valid() && i < |FlattenAt(b, side, prices)|
    ensures var r := FlattenAt(b, side, prices)[i]; r.price in prices && r.id in b.orders && b.orders[r.id].price == r.price
  {
    FlattenMembers(b, side, prices);
    assert FlattenAt(b, side, prices)[i] in FlattenAt(b, side, prices);
  }

  /** Waiting orders have a quantity. */
  lemma FlattenPositive(b: Book, side: Side)
    requires b.Valid()
    ensures forall i :: 0 <= i < |Flatten(b, side)| ==> Flatten(b, side)[i].quantity != 0
  {
    FlattenIsTheSide(b, side);
    var flat := Flatten(b, side);
    forall i | 0 <= i < |flat|
      ensures flat[i].quantity != 0
    {
      assert flat[i] in flat;
      assert Waits(b, side, flat[i]);
      assert b.OrderOk(flat[i].id);
    }
  }

  // ---- the displayed total ----

  ghost function PickPrice(prices: set<Price>): (p: Price)
    requires prices != {}
    ensures p in prices
  {
    var p: Price :| p in prices;
    p
  }

  /** The quantities of the queues at some prices of a side. */
  ghost function SumTotals(b: Book, side: Side, prices: set<Price>): nat {
    if prices == {} then 0
    else
      var p := PickPrice(prices);
      Total(b.orders, b.Queue(side, p)) + SumTotals(b, side, prices - {p})
  }

  lemma {:induction false} SumTotalsSplit(b: Book, side: Side, prices: set<Price>, p: Price)
    requires p in prices
    ensures SumTotals(b, side, prices) == Total(b.orders, b.Queue(side, p)) + SumTotals(b, side, prices - {p})
    decreases |prices|
  {
    var p0 := PickPrice(prices);
    if p0 != p {
      SumTotalsSplit(b, side, prices - {p0}, p);
      SumTotalsSplit(b, side, prices - {p}, p0);
      assert prices - {p0} - {p} == prices - {p} - {p0};
    }
  }

  lemma {:induction false} DisplayedSum(a: seq<Resting>, r: seq<Resting>)
    ensures Displayed(a + r) == Displayed(a) + Displayed(r)
  {
    if a == [] {
      assert a + r == r;
    } else {
      assert (a + r)[1..] == a[1..] + r;
      DisplayedSum(a[1..], r);
    }
  }

  lemma {:induction false} DisplayedQuoted(orders: map<OrderId, Order>, price: Price, q: seq<OrderId>)
    ensures Displayed(Quoted(orders, price, q)) == Total(orders, q)
  {
    if q != [] {
      DisplayedQuoted(orders, price, q[1..]);
      assert Quoted(orders, price, q)[1..] == Quoted(orders, price, q[1..]);
    }
  }

  /** The displayed total of the flattened side is the sum of the totals of its levels. */
  lemma {:induction false} DisplayedIsTotal(b: Book, side: Side, prices: set<Price>)
    ensures Displayed(FlattenAt(b, side, prices)) == SumTotals(b, side, prices)
    decreases |prices|
  {
    hide Displayed, Quoted, Total;
    if prices == {} {
      assert Displayed([]) == 0 by { NothingDisplayed(); }
    } else {
      var best := BestOf(side, prices);
      SumTotalsSplit(b, side, prices, best);
      DisplayedQuoted(b.orders, best, b.Queue(side, best));
      DisplayedSum(Quoted(b.orders, best, b.Queue(side, best)), FlattenAt(b, side, prices - {best}));
      DisplayedIsTotal(b, side, prices - {best});
    }
  }

  lemma NothingDisplayed()
    ensures Displayed([]) == 0
  {
  }

  // ---- what the greedy sweep does ----

  /** The fills consume the flattened side from its head, and all but the last take a whole order. */
  lemma {:induction false} GreedyShape(t: Taker, flat: seq<Resting>, quantity: Quantity)
    requires forall i :: 0 <= i < |flat| ==> flat[i].quantity != 0
    ensures var fills := Greedy(t, flat, quantity);
      && |fills| <= |flat|
      && (forall i :: 0 <= i < |fills| ==>
        && fills[i].restingOrder == flat[i].id && fills[i].price == flat[i].price && t.Accepts(flat[i].price)
        && 0 < fills[i].quantity <= flat[i].quantity
        && (i < |fills| - 1 ==> fills[i].quantity == flat[i].quantity))
      && Filled(fills) <= quantity
  {
    if quantity == 0 || flat == [] || !t.Accepts(flat[0].price) {
    } else {
      var f := Min(quantity, flat[0].quantity);
      GreedyShape(t, flat[1..], quantity - f);
      var fills, rest := Greedy(t, flat, quantity), Greedy(t, flat[1..], quantity - f);
      assert fills == [Fill(flat[0].id, flat[0].price, f)] + rest && fills[1..] == rest;
      assert forall i :: 0 < i < |fills| ==> fills[i] == rest[i - 1];
    }
  }

  /** What is left is the flattened side without the filled head, except that the last fill may have
      taken only part of its order; and a quantity left over means that nothing left may trade. */
  lemma {:induction false} LeftoverShape(t: Taker, flat: seq<Resting>, quantity: Quantity)
    requires forall i :: 0 <= i < |flat| ==> flat[i].quantity != 0
    ensures Consumed(t, flat, Greedy(t, flat, quantity), Leftover(t, flat, quantity), quantity)
  {
    if quantity == 0 || flat == [] || !t.Accepts(flat[0].price) {
    } else {
      var f := Min(quantity, flat[0].quantity);
      var fills, rest := Greedy(t, flat, quantity), Greedy(t, flat[1..], quantity - f);
      assert fills == [Fill(flat[0].id, flat[0].price, f)] + rest && fills[1..] == rest;
      if f < flat[0].quantity {
        assert rest == [];
      } else {
        LeftoverShape(t, flat[1..], quantity - f);
        ConsumedOneMore(t, flat, fills, Leftover(t, flat, quantity), quantity);
      }
    }
  }

  /** `left` is what remains of `flat` when `fills` are taken from its head for an order of `quantity`. */
  ghost predicate Consumed(t: Taker, flat: seq<Resting>, fills: seq<Fill>, left: seq<Resting>, quantity: Quantity) {
    var n := |fills|;
    && n <= |flat|
    && (if n > 0 && fills[n - 1].quantity < flat[n - 1].quantity
        then left == [flat[n - 1].(quantity := flat[n - 1].quantity - fills[n - 1].quantity)] + flat[n..]
             && Filled(fills) == quantity
        else left == flat[n..])
    && (Filled(fills) < quantity ==> left == [] || !t.Accepts(left[0].price))
  }

  lemma ConsumedOneMore(t: Taker, flat: seq<Resting>, fills: seq<Fill>, left: seq<Resting>, quantity: Quantity)
    requires flat != [] && fills != [] && fills[0].quantity == flat[0].quantity <= quantity
    requires Consumed(t, flat[1..], fills[1..], left, quantity - flat[0].quantity)
    ensures Consumed(t, flat, fills, left, quantity)
  {
    var n := |fills|;
    assert flat[1..][n - 1..] == flat[n..];
    if n > 1 {
      assert flat[1..][n - 2] == flat[n - 1] && fills[1..][n - 2] == fills[n - 1];
    }
  }

  /** The sweep takes off the displayed total exactly what it fills. */
  lemma {:induction false} SweepConserves(t: Taker, flat: seq<Resting>, quantity: Quantity)
    ensures Displayed(Leftover(t, flat, quantity)) + Filled(Greedy(t, flat, quantity)) == Displayed(flat)
  {
    if quantity == 0 || flat == [] || !t.Accepts(flat[0].price) {
    } else if quantity < flat[0].quantity {
      var left := [flat[0].(quantity := flat[0].quantity - quantity)] + flat[1..];
      assert Leftover(t, flat, quantity) == left && left[1..] == flat[1..];
      assert Greedy(t, flat[1..], 0) == [];
    } else {
      SweepConserves(t, flat[1..], quantity - flat[0].quantity);
    }
  }

  /** The book after a sweep. */
  ghost function Swept(b: Book, t: Taker, quantity: Quantity): Book {
    ExecuteAll(b, Fills(b, t, quantity))
  }

  ghost function Fills(b: Book, t: Taker, quantity: Quantity): seq<Fill> {
    Greedy(t, Flatten(b, t.side.Opposite()), quantity)
  }

  /** One step of the matching loop: the first fill of the sweep, then the sweep of what is left. */
  lemma SweepUnfold(b: Book, t: Taker, quantity: Quantity)
    requires b.Valid() && quantity != 0
    requires Flatten(b, t.side.Opposite()) != [] && t.Accepts(Flatten(b, t.side.Opposite())[0].price)
    ensures var r := Flatten(b, t.side.Opposite())[0]; var f := Min(quantity, r.quantity); var s := b.Execute(r.id, f);
      && f != 0 && s.ok && s.book.Valid()
      && Fills(b, t, quantity) == [Fill(r.id, r.price, f)] + Fills(s.book, t, quantity - f)
      && Swept(b, t, quantity) == Swept(s.book, t, quantity - f)
      && Leftover(t, Flatten(b, t.side.Opposite()), quantity)
         == Leftover(t, Flatten(s.book, t.side.Opposite()), quantity - f)
      && Flatten(s.book, t.side) == Flatten(b, t.side) && s.book.Levels(t.side) == b.Levels(t.side)
  {
    var opp := t.side.Opposite();
    var flat := Flatten(b, opp);
    KeysOfFlat(b, opp);
    var p, q := FlattenHead(b, opp);
    var f := Min(quantity, flat[0].quantity);
    SweepStep(b, opp, f);
    var b1 := b.Execute(flat[0].id, f).book;
    hide Flatten, Book.Execute, Book.Valid;
    assert Greedy(t, Flatten(b1, opp), quantity - f) == Greedy(t, flat[1..], quantity - f);
    var fills := Fills(b, t, quantity);
    assert fills == [Fill(flat[0].id, flat[0].price, f)] + Fills(b1, t, quantity - f);
    assert fills[1..] == Fills(b1, t, quantity - f);
  }

  /** A sweep that may not trade does nothing. */
  lemma SweepDone(b: Book, t: Taker, quantity: Quantity)
    requires var flat := Flatten(b, t.side.Opposite()); quantity == 0 || flat == [] || !t.Accepts(flat[0].price)
    ensures Fills(b, t, quantity) == [] && Swept(b, t, quantity) == b
    ensures Leftover(t, Flatten(b, t.side.Opposite()), quantity) == Flatten(b, t.side.Opposite())
  {
  }

  /** The matching loop has done the first fills of the sweep of `b0`, and has the sweep of `b` to go. */
  ghost predicate Progress(b0: Book, t: Taker, quantity: Quantity, done: seq<Fill>, b: Book, remaining: Quantity) {
    && Fills(b0, t, quantity) == done + Fills(b, t, remaining)
    && Swept(b0, t, quantity) == Swept(b, t, remaining)
    && Filled(done) + remaining == quantity
  }

  lemma ProgressStart(b: Book, t: Taker, quantity: Quantity)
    ensures Progress(b, t, quantity, [], b, quantity)
  {
  }

  /** `fill` is the next fill of a sweep, and takes the `whole` order or not. */
  ghost predicate IsNext(b: Book, t: Taker, remaining: Quantity, fill: Fill, whole: bool) {
    var flat := Flatten(b, t.side.Opposite());
    && flat != [] && t.Accepts(flat[0].price)
    && fill == Fill(flat[0].id, flat[0].price, Min(remaining, flat[0].quantity))
    && fill.restingOrder in b.orders && whole == (fill.quantity == b.orders[fill.restingOrder].quantity)
  }

  /** A sweep has no next fill. */
  ghost predicate NoNext(b: Book, t: Taker) {
    var flat := Flatten(b, t.side.Opposite());
    flat == [] || !t.Accepts(flat[0].price)
  }

  /** One more fill. */
  lemma ProgressStep(b0: Book, t: Taker, quantity: Quantity, done: seq<Fill>, b: Book, remaining: Quantity,
                     fill: Fill, whole: bool)
    requires Progress(b0, t, quantity, done, b, remaining) && b.Valid() && remaining != 0
    requires IsNext(b, t, remaining, fill, whole)
    ensures b.Execute(fill.restingOrder, fill.quantity).ok && 0 < fill.quantity <= remaining
    ensures fill.restingOrder in b.orders && whole == (fill.quantity == b.orders[fill.restingOrder].quantity)
    ensures Progress(b0, t, quantity, done + [fill], b.Execute(fill.restingOrder, fill.quantity).book,
                     remaining - fill.quantity)
  {
    hide Flatten, Fills, Swept, Filled, Leftover, Book.Cancel, Book.Valid;
    SweepUnfold(b, t, remaining);
    FilledAppend(done, fill);
    var rest := Fills(b.Execute(fill.restingOrder, fill.quantity).book, t, remaining - fill.quantity);
    assert done + ([fill] + rest) == done + [fill] + rest;
  }

  lemma ProgressEnd(b0: Book, t: Taker, quantity: Quantity, done: seq<Fill>, b: Book, remaining: Quantity)
    requires Progress(b0, t, quantity, done, b, remaining)
    requires remaining == 0 || NoNext(b, t)
    ensures Fills(b0, t, quantity) == done && Swept(b0, t, quantity) == b && Filled(done) + remaining == quantity
  {
    SweepDone(b, t, remaining);
    assert done + [] == done;
  }

  lemma {:induction false} FilledAppend(fills: seq<Fill>, f: Fill)
    ensures Filled(fills + [f]) == Filled(fills) + f.quantity
  {
    if fills == [] {
      assert fills + [f] == [f] && [f][1..] == [];
    } else {
      assert (fills + [f])[1..] == fills[1..] + [f];
      FilledAppend(fills[1..], f);
    }
  }

  lemma KeysOfFlat(b: Book, side: Side)
    ensures b.Levels(side) == map[] ==> Flatten(b, side) == []
    ensures b.Valid() && Flatten(b, side) == [] ==> b.Levels(side) == map[]
  {
    if b.Valid() && b.Levels(side) != map[] {
      var p, q := FlattenHead(b, side);
    }
  }

  /** A sweep leaves, opposite, exactly the unconsumed rest in unchanged order, and its own side untouched. */
  lemma {:induction false} SweepLeaves(b: Book, t: Taker, quantity: Quantity)
    requires b.Valid()
    ensures var b' := Swept(b, t, quantity);
      && b'.Valid()
      && Flatten(b', t.side.Opposite()) == Leftover(t, Flatten(b, t.side.Opposite()), quantity)
      && Flatten(b', t.side) == Flatten(b, t.side)
      && b'.Levels(t.side) == b.Levels(t.side)
    decreases quantity
  {
    hide Swept, Flatten, Fills, Leftover, Book.Execute, Book.Valid;
    var flat := Flatten(b, t.side.Opposite());
    if quantity != 0 && flat != [] && t.Accepts(flat[0].price) {
      SweepUnfold(b, t, quantity);
      var f := Min(quantity, flat[0].quantity);
      SweepLeaves(b.Execute(flat[0].id, f).book, t, quantity - f);
    } else {
      SweepDone(b, t, quantity);
    }
  }
}
