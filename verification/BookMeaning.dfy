/** What each operation of a book does: when it is carried out, which orders it leaves, and where each of
    them stands, said of the order map and the queues alone. */
module BookMeaning {
  import opened Common
  import opened BookModel
  import opened BookLaws
  import opened TimePriority

  /** `r` is the queue `q` without the order `id`, in unchanged order. */
  ghost predicate IsCut(q: seq<OrderId>, id: OrderId, r: seq<OrderId>) {
    if id in q then exists i :: 0 <= i < |q| && q[i] == id && r == q[..i] + q[i + 1..] else r == q
  }

  /** Every queue loses `gone`, if it holds it, and the one of `side` and `price` gains `joins` at its back. */
  ghost predicate Requeues(b: Book, gone: OrderId, joins: OrderId, side: Side, price: Price, b': Book) {
    forall s: Side, p: Price ::
      CutAndJoined(b.Queue(s, p), gone, if s == side && p == price then [joins] else [], b'.Queue(s, p))
  }

  /** `q'` is the queue `q` without the order `gone`, and then `last`. */
  ghost predicate CutAndJoined(q: seq<OrderId>, gone: OrderId, last: seq<OrderId>, q': seq<OrderId>) {
    exists r :: IsCut(q, gone, r) && q' == r + last
  }

  ghost predicate SameQueues(b: Book, b': Book) {
    forall s: Side, p: Price :: b'.Queue(s, p) == b.Queue(s, p)
  }

  /** A new order is carried out when it has a quantity and its id is free; it joins its queue at the back. */
  ghost predicate Adds(b: Book, id: OrderId, side: Side, price: Price, quantity: Quantity, s: Step) {
    && (s.ok <==> quantity != 0 && id !in b.orders)
    && if !s.ok then s.book == b
       else
         && s.book.orders == b.orders[id := Order(side := side, price := price, quantity := quantity)]
         && forall t: Side, p: Price ::
              s.book.Queue(t, p) == if t == side && p == price then b.Queue(t, p) + [id] else b.Queue(t, p)
  }

  /** An order is taken out of the map and of its queue. */
  ghost predicate Removes(b: Book, id: OrderId, b': Book) {
    && b'.orders == b.orders - {id}
    && forall s: Side, p: Price :: IsCut(b.Queue(s, p), id, b'.Queue(s, p))
  }

  /** A cancellation or execution is carried out for any part of a live order's quantity, and for nothing more;
      the whole of it removes the order, less leaves it in its place with the difference. */
  ghost predicate Reduces(b: Book, id: OrderId, quantity: Quantity, s: Step) {
    && (s.ok <==> id in b.orders && 0 < quantity <= b.orders[id].quantity)
    && if !s.ok then s.book == b
       else if quantity == b.orders[id].quantity then Removes(b, id, s.book)
       else
         var o := b.orders[id];
         && s.book.orders == b.orders[id := Order(side := o.side, price := o.price, quantity := o.quantity - quantity)]
         && SameQueues(b, s.book)
  }

  ghost predicate Erases(b: Book, id: OrderId, s: Step) {
    && (s.ok <==> id in b.orders)
    && if s.ok then Removes(b, id, s.book) else s.book == b
  }

  /** A modification is carried out for any live order and any quantity but 0. The order keeps its place when it
      keeps its price and does not grow, and otherwise goes to the back of the queue of its new price. */
  ghost predicate Modifies(b: Book, id: OrderId, price: Price, quantity: Quantity, s: Step) {
    && (s.ok <==> id in b.orders && quantity != 0)
    && if !s.ok then s.book == b
       else
         var o := b.orders[id];
         && s.book.orders == b.orders[id := Order(side := o.side, price := price, quantity := quantity)]
         && if price == o.price && quantity <= o.quantity then SameQueues(b, s.book)
            else Requeues(b, id, id, o.side, price, s.book)
  }

  /** A replacement is carried out for any live order, any quantity but 0 and any new id that is free or the old
      one. Under a new id the old order leaves, and the new one, of the same side, joins at the back. */
  ghost predicate Replaces(b: Book, oldId: OrderId, newId: OrderId, price: Price, quantity: Quantity, s: Step) {
    if oldId == newId then Modifies(b, oldId, price, quantity, s)
    else
      && (s.ok <==> oldId in b.orders && quantity != 0 && newId !in b.orders)
      && if !s.ok then s.book == b
         else
           var o := b.orders[oldId];
           && s.book.orders == (b.orders - {oldId})[newId := Order(side := o.side, price := price, quantity := quantity)]
           && Requeues(b, oldId, newId, o.side, price, s.book)
  }

  /** `s` is what `op` is to do to a book and to answer. */
  ghost predicate Means(b: Book, op: Op, s: Step) {
    match op
    case Add(id, side, price, quantity) => Adds(b, id, side, price, quantity, s)
    case Cancel(id, quantity) => Reduces(b, id, quantity, s)
    case Execute(id, quantity) => Reduces(b, id, quantity, s)
    case Erase(id) => Erases(b, id, s)
    case Modify(id, price, quantity) => Modifies(b, id, price, quantity, s)
    case Replace(oldId, newId, price, quantity) => Replaces(b, oldId, newId, price, quantity, s)
    case Clear => s.ok && s.book.orders == map[] && forall t: Side, p: Price :: s.book.Queue(t, p) == []
  }

  // ---- every operation does what it is to do ----

  lemma CutIs(q: seq<OrderId>, id: OrderId)
    ensures IsCut(q, id, RemoveId(q, id))
  {
    var i := IndexOf(q, id);
    if id in q {
      assert q[i] == id;
    }
  }

  lemma AddMeans(b: Book, id: OrderId, side: Side, price: Price, quantity: Quantity)
    ensures Adds(b, id, side, price, quantity, b.Add(id, side, price, quantity))
  {
    hide Book.Queue;
    if quantity != 0 && id !in b.orders {
      AddQueues(b, id, side, price, quantity);
    }
  }

  lemma RemoveMeans(b: Book, id: OrderId)
    requires b.Valid() && id in b.orders
    ensures Removes(b, id, b.Erase(id).book)
  {
    hide Book.Queue, Book.Valid, RemoveId, IsCut;
    EraseQueues(b, id);
    forall s: Side, p: Price
      ensures IsCut(b.Queue(s, p), id, b.Erase(id).book.Queue(s, p))
    {
      GoneFrom(b, id, s, p);
      CutIs(b.Queue(s, p), id);
    }
  }

  lemma EraseMeans(b: Book, id: OrderId)
    requires b.Valid()
    ensures Erases(b, id, b.Erase(id))
  {
    hide Removes;
    if id in b.orders {
      RemoveMeans(b, id);
    }
  }

  lemma ReduceMeans(b: Book, id: OrderId, quantity: Quantity)
    requires b.Valid()
    ensures Reduces(b, id, quantity, b.Cancel(id, quantity)) && Reduces(b, id, quantity, b.Execute(id, quantity))
  {
    hide Removes;
    if id in b.orders && 0 < quantity <= b.orders[id].quantity {
      RemoveMeans(b, id);
      SameLevels(b, b.Resize(id, b.orders[id].quantity - quantity));
    }
  }

  lemma RequeueIs(b: Book, gone: OrderId, joins: OrderId, side: Side, price: Price, b': Book)
    requires forall s: Side, p: Price ::
      b'.Queue(s, p) == RemoveId(b.Queue(s, p), gone) + if side == s && price == p then [joins] else []
    ensures Requeues(b, gone, joins, side, price, b')
  {
    hide Book.Queue, RemoveId, IsCut;
    forall s: Side, p: Price
      ensures CutAndJoined(b.Queue(s, p), gone, if s == side && p == price then [joins] else [], b'.Queue(s, p))
    {
      CutIs(b.Queue(s, p), gone);
    }
  }

  lemma ModifyMeans(b: Book, id: OrderId, price: Price, quantity: Quantity)
    requires b.Valid()
    ensures Modifies(b, id, price, quantity, b.Modify(id, price, quantity))
  {
    hide Book.Queue, Book.Valid, Book.WithQueue, Requeues, RemoveId;
    if id in b.orders && quantity != 0 {
      ModifyOrders(b, id, price, quantity);
      forall s: Side, p: Price
        ensures var b' := b.Modify(id, price, quantity).book; var o := b.orders[id];
          b'.Queue(s, p) == if price == o.price && quantity <= o.quantity then b.Queue(s, p)
                            else RemoveId(b.Queue(s, p), id) + if o.side == s && price == p then [id] else []
      {
        ModifyLine(b, id, price, quantity, s, p);
      }
      if price != b.orders[id].price || quantity > b.orders[id].quantity {
        RequeueIs(b, id, id, b.orders[id].side, price, b.Modify(id, price, quantity).book);
      }
    }
  }

  lemma ModifyOrders(b: Book, id: OrderId, price: Price, quantity: Quantity)
    requires id in b.orders && quantity != 0
    ensures b.Modify(id, price, quantity).ok
    ensures b.Modify(id, price, quantity).book.orders == b.orders[id := Order(b.orders[id].side, price, quantity)]
  {
  }

  lemma ReplaceMeans(b: Book, oldId: OrderId, newId: OrderId, price: Price, quantity: Quantity)
    requires b.Valid()
    ensures Replaces(b, oldId, newId, price, quantity, b.Replace(oldId, newId, price, quantity))
  {
    hide Book.Queue, Book.Valid, Book.Modify, Modifies, Requeues, RemoveId;
    ModifyMeans(b, oldId, price, quantity);
    ReplaceAnswers(b, oldId, newId, price, quantity);
    if oldId != newId && b.Replace(oldId, newId, price, quantity).ok {
      forall s: Side, p: Price
        ensures b.Replace(oldId, newId, price, quantity).book.Queue(s, p)
                == RemoveId(b.Queue(s, p), oldId) + if b.orders[oldId].side == s && price == p then [newId] else []
      {
        ReplaceLine(b, oldId, newId, price, quantity, s, p);
      }
      RequeueIs(b, oldId, newId, b.orders[oldId].side, price, b.Replace(oldId, newId, price, quantity).book);
    }
  }

  lemma ReplaceAnswers(b: Book, oldId: OrderId, newId: OrderId, price: Price, quantity: Quantity)
    ensures b.Replace(oldId, newId, price, quantity).ok
            <==> oldId in b.orders && quantity != 0 && (oldId == newId || newId !in b.orders)
    ensures oldId == newId ==> b.Replace(oldId, newId, price, quantity) == b.Modify(oldId, price, quantity)
    ensures var s := b.Replace(oldId, newId, price, quantity);
      if !s.ok then s.book == b
      else oldId != newId ==>
        s.book.orders == (b.orders - {oldId})[newId := Order(b.orders[oldId].side, price, quantity)]
  {
    if oldId in b.orders && oldId != newId {
      var o := Order(b.orders[oldId].side, price, quantity);
      assert b.orders[newId := o] - {oldId} == (b.orders - {oldId})[newId := o];
    }
  }

  /** Every operation of the reference book does what it is to do. */
  lemma OperationMeans(b: Book, op: Op)
    requires b.Valid()
    ensures Means(b, op, Apply(b, op))
  {
    hide Adds, Reduces, Erases, Modifies, Replaces;
    match op
    case Add(id, side, price, quantity) => AddMeans(b, id, side, price, quantity);
    case Cancel(id, quantity) => ReduceMeans(b, id, quantity);
    case Execute(id, quantity) => ReduceMeans(b, id, quantity);
    case Erase(id) => EraseMeans(b, id);
    case Modify(id, price, quantity) => ModifyMeans(b, id, price, quantity);
    case Replace(oldId, newId, price, quantity) => ReplaceMeans(b, oldId, newId, price, quantity);
    case Clear =>
  }
}
