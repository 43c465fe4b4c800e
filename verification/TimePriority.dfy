/** Time priority over whole runs, what it means for matching, and when a replacement loses it. */
module TimePriority {
  import opened Common
  import opened BookModel
  import opened BookLaws
  import opened Sweep

  /** A book whose orders carry the moment at which they got their place in line. */
  datatype Stamped = Stamped(book: Book, stamps: map<OrderId, nat>, clock: nat)

  /** The order an operation sends to the back of a line: a new order, an order that grows or changes
      price, and the new order of a replacement. A reduction at the same price, a cancellation and an
      execution send none. */
  function Requeued(b: Book, op: Op): Option<OrderId> {
    if !Apply(b, op).ok then None
    else
      match op
      case Add(id, _, _, _) => Some(id)
      case Modify(id, price, quantity) => if Moves(b, id, price, quantity) then Some(id) else None
      case Replace(oldId, newId, price, quantity) =>
        if oldId != newId || Moves(b, oldId, price, quantity) then Some(newId) else None
      case _ => None
  }

  predicate Moves(b: Book, id: OrderId, price: Price, quantity: Quantity) {
    id in b.orders && (price != b.orders[id].price || quantity > b.orders[id].quantity)
  }

  function Stamp(s: Stamped, op: Op): Stamped {
    var b := Apply(s.book, op).book;
    var moved := Requeued(s.book, op);
    Stamped(b, map id | id in b.orders :: if moved == Some(id) || id !in s.stamps then s.clock else s.stamps[id],
            s.clock + 1)
  }

  function StampRun(s: Stamped, ops: seq<Op>): Stamped
    decreases |ops|
  {
    if ops == [] then s else StampRun(Stamp(s, ops[0]), ops[1..])
  }

  ghost predicate Increasing(stamps: map<OrderId, nat>, q: seq<OrderId>)
    requires forall id :: id in q ==> id in stamps
  {
    forall i, j :: 0 <= i < j < |q| ==> stamps[q[i]] < stamps[q[j]]
  }

  ghost predicate InLine(s: Stamped, side: Side, price: Price) {
    && (forall id :: id in s.book.Queue(side, price) ==> id in s.stamps)
    && Increasing(s.stamps, s.book.Queue(side, price))
  }

  ghost predicate Ordered(s: Stamped) {
    && s.book.Valid()
    && s.stamps.Keys == s.book.orders.Keys
    && (forall id :: id in s.stamps ==> s.stamps[id] < s.clock)
    && forall side: Side, price: Price :: InLine(s, side, price)
  }

  function Without(q: seq<OrderId>, gone: Option<OrderId>): seq<OrderId> {
    match gone case None => q case Some(id) => RemoveId(q, id)
  }

  /** The order an operation takes out of its place, if any. */
  function Gone(b: Book, op: Op): Option<OrderId> {
    if !Apply(b, op).ok then None
    else
      match op
      case Cancel(id, quantity) => if quantity == b.orders[id].quantity then Some(id) else None
      case Execute(id, quantity) => if quantity == b.orders[id].quantity then Some(id) else None
      case Erase(id) => Some(id)
      case Modify(id, price, quantity) => if Moves(b, id, price, quantity) then Some(id) else None
      case Replace(oldId, newId, price, quantity) =>
        if oldId != newId || Moves(b, oldId, price, quantity) then Some(oldId) else None
      case _ => None
  }

  /** Every operation but `Clear` changes every line in the same way: one order may leave it, and one
      order may join it at the back. */
  lemma LineChange(b: Book, op: Op, side: Side, price: Price)
    requires b.Valid() && !op.Clear?
    ensures var b' := Apply(b, op).book; var joins := Requeued(b, op);
      && (joins.Some? ==> joins.value in b'.orders)
      && b'.Queue(side, price) == Without(b.Queue(side, price), Gone(b, op))
         + (if joins.Some? && b'.orders[joins.value].side == side && b'.orders[joins.value].price == price
            then [joins.value] else [])
  {
    hide Book.Queue, Book.Valid, RemoveId;
    if Apply(b, op).ok {
      match op
      case Add(id, s, p, quantity) =>
        AddQueues(b, id, s, p, quantity);
      case Cancel(id, quantity) => ShrinkLine(b, id, quantity, side, price);
      case Execute(id, quantity) => ShrinkLine(b, id, quantity, side, price);
      case Erase(id) => GoneFrom(b, id, side, price);
      case Modify(id, p, quantity) => ModifyLine(b, id, p, quantity, side, price);
      case Replace(oldId, newId, p, quantity) =>
        if oldId == newId {
          ModifyLine(b, oldId, p, quantity, side, price);
        } else {
          ReplaceLine(b, oldId, newId, p, quantity, side, price);
        }
    }
  }

  /** Erasing an order takes it out of whatever line it stands in. */
  lemma GoneFrom(b: Book, id: OrderId, side: Side, price: Price)
    requires b.Valid() && id in b.orders
    ensures b.Erase(id).book.Queue(side, price) == RemoveId(b.Queue(side, price), id)
  {
    EraseQueues(b, id);
    assert b.QueueOk(side, price);
    NotThere(b.Queue(side, price), id);
  }

  lemma NotThere(q: seq<OrderId>, id: OrderId)
    ensures id !in q ==> RemoveId(q, id) == q
  {
  }

  lemma ShrinkLine(b: Book, id: OrderId, quantity: Quantity, side: Side, price: Price)
    requires b.Valid() && b.Cancel(id, quantity).ok
    ensures b.Cancel(id, quantity).book.Queue(side, price)
            == if quantity == b.orders[id].quantity then RemoveId(b.Queue(side, price), id) else b.Queue(side, price)
  {
    if quantity == b.orders[id].quantity {
      GoneFrom(b, id, side, price);
    }
  }

  lemma ModifyLine(b: Book, id: OrderId, p: Price, quantity: Quantity, side: Side, price: Price)
    requires b.Valid() && b.Modify(id, p, quantity).ok
    ensures var b' := b.Modify(id, p, quantity).book; var moves := Moves(b, id, p, quantity);
      && id in b'.orders && b'.orders[id] == Order(b.orders[id].side, p, quantity)
      && b'.Queue(side, price) == (if moves then RemoveId(b.Queue(side, price), id) else b.Queue(side, price))
         + (if moves && b.orders[id].side == side && p == price then [id] else [])
  {
    if Moves(b, id, p, quantity) {
      RequeueIsEraseAdd(b, id, p, quantity);
      GoneFrom(b, id, side, price);
      EraseQueues(b, id);
      AddQueues(b.Erase(id).book, id, b.orders[id].side, p, quantity);
    } else {
      SameLevels(b, b.Resize(id, quantity));
    }
  }

  lemma ReplaceLine(b: Book, oldId: OrderId, newId: OrderId, p: Price, quantity: Quantity, side: Side, price: Price)
    requires b.Valid() && oldId != newId && b.Replace(oldId, newId, p, quantity).ok
    ensures var b' := b.Replace(oldId, newId, p, quantity).book;
      && newId in b'.orders && b'.orders[newId] == Order(b.orders[oldId].side, p, quantity)
      && b'.Queue(side, price) == RemoveId(b.Queue(side, price), oldId)
         + (if b.orders[oldId].side == side && p == price then [newId] else [])
  {
    hide RemoveId, Book.Valid, Book.Queue, Book.Add, Book.Erase;
    var s := b.orders[oldId].side;
    var added := b.Add(newId, s, p, quantity).book;
    ReplaceIsAddErase(b, oldId, newId, p, quantity);
    AddValid(b, newId, s, p, quantity);
    AddQueues(b, newId, s, p, quantity);
    GoneFrom(added, oldId, side, price);
    EraseQueues(added, oldId);
    RemoveBeforeLast(b.Queue(side, price), newId, oldId);
  }

  lemma ReplaceIsAddErase(b: Book, oldId: OrderId, newId: OrderId, p: Price, quantity: Quantity)
    requires b.Valid() && oldId != newId && b.Replace(oldId, newId, p, quantity).ok
    ensures oldId in b.orders
    ensures var added := b.Add(newId, b.orders[oldId].side, p, quantity);
      && added.ok && oldId in added.book.orders && newId in added.book.orders
      && added.book.orders[oldId] == b.orders[oldId]
      && added.book.orders[newId] == Order(b.orders[oldId].side, p, quantity)
      && b.Replace(oldId, newId, p, quantity).book == added.book.Erase(oldId).book
      && newId in added.book.Erase(oldId).book.orders
      && added.book.Erase(oldId).book.orders[newId] == added.book.orders[newId]
  {
  }

  lemma RemoveBeforeLast(q: seq<OrderId>, last: OrderId, id: OrderId)
    requires last != id
    ensures RemoveId(q + [last], id) == RemoveId(q, id) + [last]
  {
    hide IndexOf;
    IndexBeforeLast(q, last, id);
    if IndexOf(q, id) < |q| {
      CutBeforeLast(q, last, IndexOf(q, id));
    }
  }

  lemma CutBeforeLast(q: seq<OrderId>, last: OrderId, i: nat)
    requires i < |q|
    ensures (q + [last])[..i] + (q + [last])[i + 1..] == q[..i] + q[i + 1..] + [last]
  {
  }

  lemma {:induction false} IndexBeforeLast(q: seq<OrderId>, last: OrderId, id: OrderId)
    requires last != id
    ensures IndexOf(q + [last], id) == if id in q then IndexOf(q, id) else |q| + 1
  {
    if q == [] {
      assert (q + [last])[1..] == [];
    } else if q[0] != id {
      assert (q + [last])[1..] == q[1..] + [last];
      IndexBeforeLast(q[1..], last, id);
    }
  }

  /** One operation keeps every line in the order of its stamps. */
  lemma StampKeeps(s: Stamped, op: Op)
    requires Ordered(s)
    ensures Ordered(Stamp(s, op))
  {
    var s' := Stamp(s, op);
    ApplyValid(s.book, op);
    forall side: Side, price: Price
      ensures InLine(s', side, price)
    {
      if !op.Clear? {
        LineKept(s, op, side, price);
      }
    }
  }

  lemma LineKept(s: Stamped, op: Op, side: Side, price: Price)
    requires Ordered(s) && !op.Clear? && Apply(s.book, op).book.Valid()
    ensures InLine(Stamp(s, op), side, price)
  {
    hide Book.Queue, Book.Valid, Without, Gone, Requeued, Apply;
    var s', b := Stamp(s, op), s.book;
    var joins, gone := Requeued(b, op), Gone(b, op);
    assert InLine(s, side, price);
    LineChange(b, op, side, price);
    LineThere(b, op, side, price);
    var q := Without(b.Queue(side, price), gone);
    var q' := s'.book.Queue(side, price);
    CutIncreasing(s.stamps, b.Queue(side, price), gone);
    LineLive(s'.book, side, price);
    assert q <= q';
    AppendIncreasing(s.stamps, s'.stamps, s.clock, q, q'[|q|..]);
    assert q' == q + q'[|q|..];
  }

  lemma LineLive(b: Book, side: Side, price: Price)
    requires b.Valid()
    ensures forall id :: id in b.Queue(side, price) ==> id in b.orders
  {
    assert b.QueueOk(side, price);
  }

  /** A line stays in order when an order with a later stamp joins it at the back. */
  lemma AppendIncreasing(stamps: map<OrderId, nat>, stamps': map<OrderId, nat>, clock: nat, q: seq<OrderId>, last: seq<OrderId>)
    requires forall id :: id in q ==> id in stamps && id in stamps' && stamps'[id] == stamps[id] < clock
    requires |last| <= 1 && forall id :: id in last ==> id in stamps' && stamps'[id] == clock
    requires Increasing(stamps, q)
    ensures (forall id :: id in q + last ==> id in stamps') && Increasing(stamps', q + last)
  {
  }

  /** An order that keeps its place is not the one that joins. */
  lemma LineThere(b: Book, op: Op, side: Side, price: Price)
    requires b.Valid() && !op.Clear?
    ensures var q := Without(b.Queue(side, price), Gone(b, op));
      forall id :: id in q ==> id in b.Queue(side, price) && Requeued(b, op) != Some(id)
  {
    assert b.QueueOk(side, price);
    if Gone(b, op).Some? {
      RemoveIdLaws(b.Queue(side, price), Gone(b, op).value);
    }
  }

  lemma CutIncreasing(stamps: map<OrderId, nat>, q: seq<OrderId>, gone: Option<OrderId>)
    requires (forall id :: id in q ==> id in stamps) && Increasing(stamps, q)
    ensures (forall id :: id in Without(q, gone) ==> id in stamps) && Increasing(stamps, Without(q, gone))
  {
    if gone.Some? {
      var k := IndexOf(q, gone.value);
      if k < |q| {
        var r := q[..k] + q[k + 1..];
        forall i | 0 <= i < |r|
          ensures r[i] == q[if i < k then i else i + 1] && r[i] in q
        {
        }
        forall i, j | 0 <= i < j < |r|
          ensures stamps[r[i]] < stamps[r[j]]
        {
          var x, y := if i < k then i else i + 1, if j < k then j else j + 1;
          assert stamps[q[x]] < stamps[q[y]];
        }
      }
    }
  }

  /** Time priority over every run: in every line, an order that got its place earlier stands ahead. */
  lemma {:induction false} RunKeepsTimePriority(s: Stamped, ops: seq<Op>)
    requires Ordered(s)
    ensures Ordered(StampRun(s, ops))
    decreases |ops|
  {
    if ops != [] {
      StampKeeps(s, ops[0]);
      hide Ordered, Stamp;
      RunKeepsTimePriority(Stamp(s, ops[0]), ops[1..]);
    }
  }

  /** An order that stays in the book gets a fresh stamp exactly when its price changes or its quantity
      grows; so reductions at the same price and partial cancellations and executions keep it. An order
      that was not in the book gets a fresh one. */
  lemma FreshStampMeans(s: Stamped, op: Op, id: OrderId)
    requires Ordered(s) && !op.Clear? && id in Apply(s.book, op).book.orders
    ensures var s' := Stamp(s, op); var now := s'.book.orders[id];
      if id in s.book.orders then
        var was := s.book.orders[id];
        s'.stamps[id] == if now.price != was.price || now.quantity > was.quantity then s.clock else s.stamps[id]
      else s'.stamps[id] == s.clock
  {
    hide Book.Valid, Book.Queue, Apply, InLine;
    RequeuedMeans(s.book, op, id);
  }

  /** The order sent to the back is the one that is new, or has another price or a greater quantity. */
  lemma RequeuedMeans(b: Book, op: Op, id: OrderId)
    requires b.Valid() && !op.Clear? && id in Apply(b, op).book.orders
    ensures var now := Apply(b, op).book.orders[id];
      id in b.orders ==>
        (Requeued(b, op) == Some(id) <==> now.price != b.orders[id].price || now.quantity > b.orders[id].quantity)
  {
    hide Book.Valid, Book.Queue, Requeued;
    if id in b.orders {
      if op.Replace? && op.oldId != op.newId {
        ReplacedMeans(b, op, id);
      } else if op.Modify? || op.Replace? {
        ModifiedMeans(b, op, id);
      } else {
        OthersMean(b, op, id);
      }
    }
  }

  lemma ReplacedMeans(b: Book, op: Op, id: OrderId)
    requires b.Valid() && op.Replace? && op.oldId != op.newId && id in Apply(b, op).book.orders && id in b.orders
    ensures Requeued(b, op) != Some(id) && Apply(b, op).book.orders[id] == b.orders[id]
  {
    hide Book.Valid, Book.Queue;
    if Apply(b, op).ok {
      ReplaceIsAddErase(b, op.oldId, op.newId, op.price, op.quantity);
    }
  }

  lemma ModifiedMeans(b: Book, op: Op, id: OrderId)
    requires b.Valid() && (op.Modify? || (op.Replace? && op.oldId == op.newId))
    requires id in Apply(b, op).book.orders && id in b.orders
    ensures var now := Apply(b, op).book.orders[id];
      Requeued(b, op) == Some(id) <==> now.price != b.orders[id].price || now.quantity > b.orders[id].quantity
  {
    hide Book.Valid, Book.Queue;
  }

  lemma OthersMean(b: Book, op: Op, id: OrderId)
    requires b.Valid() && !op.Clear? && !op.Modify? && !op.Replace? && id in Apply(b, op).book.orders && id in b.orders
    ensures Requeued(b, op) != Some(id)
    ensures Apply(b, op).book.orders[id].price == b.orders[id].price
    ensures Apply(b, op).book.orders[id].quantity <= b.orders[id].quantity
  {
    hide Book.Valid, Book.Queue;
  }

  lemma FromTheStart(ops: seq<Op>)
    ensures Ordered(StampRun(Stamped(EMPTY_BOOK, map[], 0), ops))
  {
    RunKeepsTimePriority(Stamped(EMPTY_BOOK, map[], 0), ops);
  }

  /** The order a book shows at the front of a price is the one that got its place there first. */
  lemma FrontIsOldest(s: Stamped, side: Side, price: Price, id: OrderId)
    requires Ordered(s) && id in s.book.orders && s.book.orders[id].side == side && s.book.orders[id].price == price
    ensures var front := s.book.Front(side, price);
      && front.Some? && front.value.orderId in s.stamps
      && s.stamps[front.value.orderId] <= s.stamps[id]
      && (s.stamps[front.value.orderId] == s.stamps[id] ==> front.value.orderId == id)
  {
    hide Book.Queue;
    var q := s.book.Queue(side, price);
    assert InLine(s, side, price) && s.book.OrderOk(id) && s.book.QueueOk(side, price);
    var i :| 0 <= i < |q| && q[i] == id;
    assert q[0] in q;
  }

  // ---- matching follows the stamps ----

  /** Of two fills of one sweep at the same price, the earlier goes to the order that got its place earlier. */
  lemma FillsFollowStamps(s: Stamped, t: Taker, quantity: Quantity, i: nat, j: nat)
    requires Ordered(s) && i < j < |Fills(s.book, t, quantity)|
    requires Fills(s.book, t, quantity)[i].price == Fills(s.book, t, quantity)[j].price
    ensures var fills := Fills(s.book, t, quantity);
      && fills[i].restingOrder in s.stamps && fills[j].restingOrder in s.stamps
      && s.stamps[fills[i].restingOrder] < s.stamps[fills[j].restingOrder]
  {
    hide Book.Valid, Flatten, Greedy;
    var opp := t.side.Opposite();
    var flat := Flatten(s.book, opp);
    FlattenPositive(s.book, opp);
    GreedyShape(t, flat, quantity);
    QueuePlaces(s.book, opp, i, j);
    var q := s.book.Queue(opp, flat[i].price);
    assert InLine(s, opp, flat[i].price);
    var x, y := IndexOf(q, flat[i].id), IndexOf(q, flat[j].id);
    assert s.stamps[q[x]] < s.stamps[q[y]];
  }

  lemma QueuePlaces(b: Book, side: Side, i: nat, j: nat)
    requires b.Valid() && i < j < |Flatten(b, side)| && Flatten(b, side)[i].price == Flatten(b, side)[j].price
    ensures var flat := Flatten(b, side); var q := b.Queue(side, flat[i].price);
      flat[i].id in q && flat[j].id in q && IndexOf(q, flat[i].id) < IndexOf(q, flat[j].id) < |q|
  {
    FlattenKeepsQueues(b, side, b.Levels(side).Keys, i, j);
  }

  /** In every run from an empty book. */
  lemma FillsFollowStampsInRuns(ops: seq<Op>, t: Taker, quantity: Quantity, i: nat, j: nat)
    requires var b := StampRun(Stamped(EMPTY_BOOK, map[], 0), ops).book;
      i < j < |Fills(b, t, quantity)| && Fills(b, t, quantity)[i].price == Fills(b, t, quantity)[j].price
    ensures var s := StampRun(Stamped(EMPTY_BOOK, map[], 0), ops); var fills := Fills(s.book, t, quantity);
      && fills[i].restingOrder in s.stamps && fills[j].restingOrder in s.stamps
      && s.stamps[fills[i].restingOrder] < s.stamps[fills[j].restingOrder]
  {
    hide Ordered, StampRun, Fills;
    FromTheStart(ops);
    FillsFollowStamps(StampRun(Stamped(EMPTY_BOOK, map[], 0), ops), t, quantity, i, j);
  }

  // ---- when a replacement loses time priority ----

  ghost predicate StandsLast(b: Book, id: OrderId) {
    id in b.orders &&
    var q := b.Queue(b.orders[id].side, b.orders[id].price);
    q != [] && q[|q| - 1] == id
  }

  /** A successful replacement puts the new order last in its line exactly when it changes the id, or
      moves the order (another price, or more shares), or the order was last already. */
  lemma ReplaceLosesPriority(b: Book, oldId: OrderId, newId: OrderId, price: Price, quantity: Quantity)
    requires b.Valid() && b.Replace(oldId, newId, price, quantity).ok
    ensures StandsLast(b.Replace(oldId, newId, price, quantity).book, newId)
            <==> oldId != newId || price != b.orders[oldId].price || quantity > b.orders[oldId].quantity
                 || StandsLast(b, oldId)
  {
    var side := b.orders[oldId].side;
    if oldId != newId {
      ReplaceLine(b, oldId, newId, price, quantity, side, price);
    } else {
      ModifyLine(b, oldId, price, quantity, side, price);
    }
  }

  /** So a replacement that keeps the id and reduces the shares keeps its place: here the replaced order
      stays ahead of the one behind it. */
  lemma ReplaceMayKeepPriority()
    ensures var b := EMPTY_BOOK.Add(1, Buy, 100, 10).book.Add(2, Buy, 100, 10).book;
      var s := b.Replace(1, 1, 100, 5);
      b.Valid() && s.ok && s.book.Queue(Buy, 100) == [1, 2] && !StandsLast(s.book, 1)
  {
    AddValid(EMPTY_BOOK, 1, Buy, 100, 10);
    AddValid(EMPTY_BOOK.Add(1, Buy, 100, 10).book, 2, Buy, 100, 10);
  }
}
