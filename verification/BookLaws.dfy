/** What every operation of the reference book keeps. */
module BookLaws {
  import opened Common
  import opened BookModel

  datatype Op =
    | Add(id: OrderId, side: Side, price: Price, quantity: Quantity)
    | Cancel(id: OrderId, quantity: Quantity)
    | Execute(id: OrderId, quantity: Quantity)
    | Erase(id: OrderId)
    | Modify(id: OrderId, price: Price, quantity: Quantity)
    | Replace(oldId: OrderId, newId: OrderId, price: Price, quantity: Quantity)
    | Clear

  function Apply(b: Book, op: Op): Step {
    match op
    case Add(id, side, price, quantity) => b.Add(id, side, price, quantity)
    case Cancel(id, quantity) => b.Cancel(id, quantity)
    case Execute(id, quantity) => b.Execute(id, quantity)
    case Erase(id) => b.Erase(id)
    case Modify(id, price, quantity) => b.Modify(id, price, quantity)
    case Replace(oldId, newId, price, quantity) => b.Replace(oldId, newId, price, quantity)
    case Clear => Step(EMPTY_BOOK, true)
  }

  lemma AddValid(b: Book, id: OrderId, side: Side, price: Price, quantity: Quantity)
    requires b.Valid()
    ensures b.Add(id, side, price, quantity).book.Valid()
  {
    if quantity != 0 && id !in b.orders {
      var b' := b.Add(id, side, price, quantity).book;
      AddQueues(b, id, side, price, quantity);
      forall s: Side, p: Price
        ensures b'.Kept(s, p) && b'.QueueOk(s, p)
      {
        assert b.Kept(s, p) && b.QueueOk(s, p);
      }
      forall i: OrderId
        ensures b'.OrderOk(i)
      {
        assert b.OrderOk(i);
      }
    }
  }

  lemma AddAnswers(b: Book, id: OrderId, side: Side, price: Price, quantity: Quantity)
    ensures b.Add(id, side, price, quantity).ok <==> quantity != 0 && id !in b.orders
    ensures !b.Add(id, side, price, quantity).ok ==> b.Add(id, side, price, quantity).book == b
  {
  }

  lemma AddQueues(b: Book, id: OrderId, side: Side, price: Price, quantity: Quantity)
    requires quantity != 0 && id !in b.orders
    ensures var b' := b.Add(id, side, price, quantity).book;
      && b'.orders == b.orders[id := Order(side, price, quantity)]
      && forall s: Side, p: Price ::
        && (b.Kept(s, p) ==> b'.Kept(s, p))
        && b'.Queue(s, p) == if s == side && p == price then b.Queue(s, p) + [id] else b.Queue(s, p)
  {
    var b1 := b.(orders := b.orders[id := Order(side, price, quantity)]);
    QueueAfterWith(b1, side, price, b.Queue(side, price) + [id]);
    SameLevels(b, b1);
  }

  lemma SameLevels(b: Book, c: Book)
    requires b.bids == c.bids && b.asks == c.asks
    ensures forall s: Side, p: Price :: b.Queue(s, p) == c.Queue(s, p) && (b.Kept(s, p) <==> c.Kept(s, p))
  {
  }

  lemma EraseValid(b: Book, id: OrderId)
    requires b.Valid()
    ensures b.Erase(id).book.Valid()
  {
    hide Book.RemoveFromLevel, Book.Queue, Book.WithQueue, RemoveId;
    if id in b.orders {
      var b' := b.Erase(id).book;
      RemovedQueue(b, id);
      SameLevels(b', b.RemoveFromLevel(id));
      forall s: Side, p: Price
        ensures b'.Kept(s, p) && b'.QueueOk(s, p)
      {
        assert b.Kept(s, p) && b.QueueOk(s, p);
      }
      forall i: OrderId
        ensures b'.OrderOk(i)
      {
        assert b.OrderOk(i);
      }
    }
  }

  lemma RemoveIdLaws(q: seq<OrderId>, id: OrderId)
    requires Distinct(q)
    ensures Distinct(RemoveId(q, id))
    ensures forall i :: i in RemoveId(q, id) <==> i in q && i != id
  {
    var k := IndexOf(q, id);
    if k < |q| {
      CutLaws(q, k);
    }
  }

  lemma CutLaws(q: seq<OrderId>, k: nat)
    requires Distinct(q) && k < |q|
    ensures Distinct(q[..k] + q[k + 1..])
    ensures forall i :: i in q[..k] + q[k + 1..] <==> i in q && i != q[k]
  {
    var r := q[..k] + q[k + 1..];
    assert forall i :: 0 <= i < |r| ==> r[i] == if i < k then q[i] else q[i + 1];
    forall x | x in q && x != q[k]
      ensures x in r
    {
      var j :| 0 <= j < |q| && q[j] == x;
      assert r[if j < k then j else j - 1] == x;
    }
  }

  /** The queues after an order has left its level: only its own queue changes, and it loses exactly
      that order. */
  lemma RemovedQueue(b: Book, id: OrderId)
    requires b.Valid() && id in b.orders
    ensures b.RemoveFromLevel(id).orders == b.orders
    ensures var o := b.orders[id];
      forall s: Side, p: Price ::
        && b.RemoveFromLevel(id).Kept(s, p)
        && b.RemoveFromLevel(id).Queue(s, p)
           == (if s == o.side && p == o.price then RemoveId(b.Queue(s, p), id) else b.Queue(s, p))
        && Distinct(b.RemoveFromLevel(id).Queue(s, p))
        && (forall i :: i in b.RemoveFromLevel(id).Queue(s, p) <==> i in b.Queue(s, p) && i != id)
  {
    var o := b.orders[id];
    hide RemoveId;
    QueueAfterWith(b, o.side, o.price, RemoveId(b.Queue(o.side, o.price), id));
    forall s: Side, p: Price
      ensures b.Kept(s, p) && Distinct(b.Queue(s, p))
      ensures id in b.Queue(s, p) <==> s == o.side && p == o.price
    {
      assert b.Kept(s, p) && b.QueueOk(s, p) && b.OrderOk(id);
    }
    RemoveIdLaws(b.Queue(o.side, o.price), id);
  }

  /** Erasing an order takes it out of the map and out of its own queue, and changes nothing else. */
  lemma EraseQueues(b: Book, id: OrderId)
    requires b.Valid() && id in b.orders
    ensures var o := b.orders[id]; var b' := b.Erase(id).book;
      && b'.orders == b.orders - {id}
      && forall s: Side, p: Price ::
        && b'.Queue(s, p) == (if s == o.side && p == o.price then RemoveId(b.Queue(s, p), id) else b.Queue(s, p))
        && (forall i :: i in b'.Queue(s, p) <==> i in b.Queue(s, p) && i != id)
  {
    RemovedQueue(b, id);
    SameLevels(b.Erase(id).book, b.RemoveFromLevel(id));
  }

  lemma ResizeValid(b: Book, id: OrderId, quantity: Quantity)
    requires b.Valid() && id in b.orders && quantity != 0
    ensures b.Resize(id, quantity).Valid()
  {
    var b' := b.Resize(id, quantity);
    forall s: Side, p: Price
      ensures b'.Kept(s, p) && b'.QueueOk(s, p)
    {
      assert b.Kept(s, p) && b.QueueOk(s, p);
    }
    forall i: OrderId
      ensures b'.OrderOk(i)
    {
      assert b.OrderOk(i);
    }
  }

  /** Requeueing an order is erasing it and adding it again. */
  lemma RequeueIsEraseAdd(b: Book, id: OrderId, price: Price, quantity: Quantity)
    requires id in b.orders && quantity != 0
    ensures b.Erase(id).book.Add(id, b.orders[id].side, price, quantity)
            == Step(b.Requeue(id, price, quantity), true)
  {
    hide RemoveId;
    var o := b.orders[id];
    assert (b.orders - {id})[id := Order(o.side, price, quantity)] == b.orders[id := Order(o.side, price, quantity)];
  }

  lemma RequeueValid(b: Book, id: OrderId, price: Price, quantity: Quantity)
    requires b.Valid() && id in b.orders && quantity != 0
    ensures b.Requeue(id, price, quantity).Valid()
  {
    RequeueIsEraseAdd(b, id, price, quantity);
    EraseValid(b, id);
    AddValid(b.Erase(id).book, id, b.orders[id].side, price, quantity);
  }

  /** Every operation keeps a valid book valid. */
  lemma ApplyValid(b: Book, op: Op)
    requires b.Valid()
    ensures Apply(b, op).book.Valid()
    ensures !Apply(b, op).ok ==> Apply(b, op).book == b
  {
    match op
    case Add(id, side, price, quantity) => AddValid(b, id, side, price, quantity);
    case Cancel(id, quantity) => CancelValid(b, id, quantity);
    case Execute(id, quantity) => CancelValid(b, id, quantity);
    case Erase(id) => EraseValid(b, id);
    case Modify(id, price, quantity) => ModifyValid(b, id, price, quantity);
    case Replace(oldId, newId, price, quantity) =>
      if oldId in b.orders {
        ModifyValid(b, oldId, price, quantity);
        AddValid(b, newId, b.orders[oldId].side, price, quantity);
        EraseValid(b.Add(newId, b.orders[oldId].side, price, quantity).book, oldId);
      }
    case Clear =>
  }

  lemma CancelValid(b: Book, id: OrderId, quantity: Quantity)
    requires b.Valid()
    ensures b.Cancel(id, quantity).book.Valid()
  {
    EraseValid(b, id);
    if b.Cancel(id, quantity).ok && quantity != b.orders[id].quantity {
      ResizeValid(b, id, b.orders[id].quantity - quantity);
    }
  }

  lemma ModifyValid(b: Book, id: OrderId, price: Price, quantity: Quantity)
    requires b.Valid()
    ensures b.Modify(id, price, quantity).book.Valid()
  {
    if id in b.orders && quantity != 0 {
      if price == b.orders[id].price && quantity <= b.orders[id].quantity {
        ResizeValid(b, id, quantity);
      } else {
        RequeueValid(b, id, price, quantity);
      }
    }
  }
}
