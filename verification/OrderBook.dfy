/** The pointer-based order book (src/book/order_book.cpp:176-453), proved to behave as the
    reference book of BookModel. */
module OrderBooks {
  import opened Bits
  import opened Common
  import opened BookModel
  import opened BookLaws
  import opened BookQueries
  import opened PriceTrie

  ghost predicate Unique(q: seq<OrderNode>) {
    forall i, j :: 0 <= i < j < |q| ==> q[i] != q[j]
  }

  lemma UniqueAppend(q: seq<OrderNode>, n: OrderNode)
    requires Unique(q) && n !in q
    ensures Unique(q + [n])
    ensures forall i :: 0 <= i < |q| - 1 ==> q[i] != q[|q| - 1]
  {
  }

  lemma UniqueCut(q: seq<OrderNode>, i: nat)
    requires Unique(q) && i < |q|
    ensures Unique(q[..i] + q[i + 1..]) && q[i] !in q[..i] + q[i + 1..]
    ensures forall k :: 0 <= k < |q| && k != i ==> q[k] != q[i]
    ensures 0 < i ==> forall k :: 0 <= k < |q| && k != i - 1 ==> q[k] != q[i - 1]
    ensures i < |q| - 1 ==> forall k :: 0 <= k < |q| && k != i + 1 ==> q[k] != q[i + 1]
  {
    var r := q[..i] + q[i + 1..];
    assert forall k :: 0 <= k < |r| ==> r[k] == q[if k < i then k else k + 1];
  }

  class OrderNode {
    const id: OrderId
    const side: Side
    var price: Price
    var quantity: Quantity
    var level: PriceLevel?
    var previous: OrderNode?
    var next: OrderNode?

    constructor (id: OrderId, side: Side, price: Price, quantity: Quantity)
      ensures this.id == id && this.side == side && this.price == price && this.quantity == quantity
      ensures level == null && previous == null && next == null
    {
      this.id, this.side, this.price, this.quantity := id, side, price, quantity;
      level, previous, next := null, null, null;
    }
  }

  class PriceLevel {
    const price: Price
    ghost const side: Side
    var quantity: Word
    var orderCount: nat
    var head: OrderNode?
    var tail: OrderNode?
    /** The orders from head to tail. */
    ghost var queue: seq<OrderNode>

    constructor (price: Price, ghost side: Side)
      ensures this.price == price && this.side == side && queue == [] && quantity == 0 && Chain()
    {
      this.price, this.side := price, side;
      quantity, orderCount, head, tail, queue := 0, 0, null, null, [];
    }

    /** The fields describe a doubly linked list through exactly the nodes of `queue`. */
    ghost predicate Chain()
      reads this, queue
    {
      && orderCount == |queue|
      && head == (if queue == [] then null else queue[0])
      && tail == (if queue == [] then null else queue[|queue| - 1])
      && (forall i {:trigger queue[i].level} :: 0 <= i < |queue| ==> queue[i].level == this)
      && (forall i {:trigger queue[i].previous} :: 0 <= i < |queue| ==>
        queue[i].previous == if i == 0 then null else queue[i - 1])
      && (forall i {:trigger queue[i].next} :: 0 <= i < |queue| ==>
        queue[i].next == if i == |queue| - 1 then null else queue[i + 1])
      && Unique(queue)
    }

    /** This level is a proper list that shows the queue, the orders and the total of book `b`. */
    ghost predicate Holds(nodes: set<object>, orders: map<OrderId, OrderNode>, b: Book)
      reads this, queue
    {
      && Chain()
      && (forall n :: n in queue ==> n in nodes && NodeOk(n, orders, b))
      && Ids(queue) == b.Queue(side, price)
      && quantity == Shown(b, side, price)
    }

    /** A node of this level carries what the book holds under its id, and the id map finds it. */
    ghost predicate NodeOk(n: OrderNode, orders: map<OrderId, OrderNode>, b: Book)
      reads n`price, n`quantity
    {
      && n.side == side && n.price == price
      && n.id in b.orders && b.orders[n.id] == Order(n.side, n.price, n.quantity)
      && n.id in orders && orders[n.id] == n
    }

    /** The nodes of a level point back to it, and the book holds their ids. */
    lemma Owns(nodes: set<object>, orders: map<OrderId, OrderNode>, b: Book)
      requires Holds(nodes, orders, b)
      ensures forall n :: n in queue ==> n.level == this && n.id in b.orders
    {
      hide Shown, Ids, Unique;
      forall n | n in queue
        ensures n.level == this
      {
        var i :| 0 <= i < |queue| && queue[i] == n;
        assert queue[i].level == this;
      }
    }

    lemma EmptyHolds(nodes: set<object>, orders: map<OrderId, OrderNode>, b: Book)
      requires Chain() && queue == [] && quantity == 0 && b.Queue(side, price) == []
      ensures Holds(nodes, orders, b)
    {
    }

    /** A level whose nodes were right before an order was erased, and which has lost that order. */
    lemma Rehold(id: OrderId, nodes: set<object>, orders: map<OrderId, OrderNode>, b: Book, b': Book)
      requires Chain() && forall n :: n in queue ==> n in nodes && NodeOk(n, orders, b)
      requires b'.orders == b.orders - {id} && id !in b'.Queue(side, price)
      requires Ids(queue) == b'.Queue(side, price) && quantity == Shown(b', side, price)
      ensures Holds(nodes, orders, b')
    {
      hide Shown, Book.Queue, Unique;
      forall n | n in queue
        ensures NodeOk(n, orders, b')
      {
        var k :| 0 <= k < |queue| && queue[k] == n;
        assert Ids(queue)[k] == n.id;
      }
    }

    /** A level only depends on its own queue and the orders in it. */
    lemma Rebook(nodes: set<object>, orders: map<OrderId, OrderNode>, b: Book,
                 nodes': set<object>, orders': map<OrderId, OrderNode>, b': Book)
      requires Holds(nodes, orders, b) && nodes <= nodes'
      requires b'.Queue(side, price) == b.Queue(side, price) && Shown(b', side, price) == Shown(b, side, price)
      requires forall id :: id in b.Queue(side, price) && id in b.orders && id in orders ==>
        id in b'.orders && b'.orders[id] == b.orders[id] && id in orders' && orders'[id] == orders[id]
      ensures Holds(nodes', orders', b')
    {
      hide Shown, Book.Queue, Unique;
      forall n | n in queue
        ensures NodeOk(n, orders', b')
      {
        var i :| 0 <= i < |queue| && queue[i] == n;
        assert Ids(queue)[i] == n.id;
      }
    }

    /** `append` of the source. */
    method Append(order: OrderNode)
      requires Chain() && order !in queue
      modifies this, order`level, order`previous, order`next, (set n: OrderNode | n in queue)`next
      ensures Chain() && queue == old(queue) + [order]
      ensures quantity == (old(quantity) + order.quantity) % TWO_64
    {
      hide Unique;
      UniqueAppend(queue, order);
      order.level := this;
      order.previous := tail;
      order.next := null;
      if tail != null {
        tail.next := order;
      } else {
        head := order;
      }
      tail := order;
      quantity := (quantity + order.quantity) % TWO_64;
      orderCount := orderCount + 1;
      queue := queue + [order];
      assert forall k :: 0 <= k < |queue| ==> queue[k] == if k < |old(queue)| then old(queue)[k] else order;
    }

    /** `detach` of the source; `i` is where the order stands. */
    method Detach(order: OrderNode, ghost i: nat)
      requires Chain() && i < |queue| && queue[i] == order
      modifies `head, `tail, `orderCount, `queue, order`level
      modifies (set n: OrderNode | n in queue)`next, (set n: OrderNode | n in queue)`previous
      ensures Chain() && queue == old(queue[..i] + queue[i + 1..]) && order !in queue
      ensures order.level == null && order.previous == null && order.next == null
    {
      hide Unique, Chain, Bypassed;
      ghost var was := queue;
      Counted();
      UniqueCut(was, i);
      Bypass(order, i);
      Loosen(order, i);
      orderCount := orderCount - 1;
      queue := was[..i] + was[i + 1..];
      Rechained(was, i);
    }

    /** Reset the links of an order that its neighbours bypass. */
    method Loosen(order: OrderNode, ghost i: nat)
      requires i < |queue| && queue[i] == order && Unique(queue) && Bypassed(queue, i)
      modifies order`previous, order`next, order`level
      ensures Bypassed(queue, i) && order.level == null && order.previous == null && order.next == null
    {
      hide Unique;
      UniqueCut(queue, i);
      order.previous := null;
      order.next := null;
      order.level := null;
    }

    lemma Counted()
      requires Chain()
      ensures orderCount == |queue| && Unique(queue)
    {
    }

    /** Around position `i` the nodes of `q` are linked to each other, and elsewhere to their neighbours. */
    ghost predicate Bypassed(q: seq<OrderNode>, i: nat)
      requires i < |q|
      reads `head, `tail, q
    {
      && head == (if i > 0 then q[0] else if |q| == 1 then null else q[1])
      && tail == (if i < |q| - 1 then q[|q| - 1] else if |q| == 1 then null else q[|q| - 2])
      && (forall k {:trigger q[k].level} :: 0 <= k < |q| && k != i ==> q[k].level == this)
      && (forall k {:trigger q[k].next} :: 0 <= k < |q| && k != i ==>
        var j := if k + 1 == i then i + 1 else k + 1;
        q[k].next == if j == |q| then null else q[j])
      && (forall k {:trigger q[k].previous} :: 0 <= k < |q| && k != i ==>
        var j := if k - 1 == i then i - 1 else k - 1;
        q[k].previous == if j < 0 then null else q[j])
    }

    /** Link the neighbours of an order, or the ends of the list, to each other. */
    method Bypass(order: OrderNode, ghost i: nat)
      requires Chain() && i < |queue| && queue[i] == order
      modifies `head, `tail, (set n: OrderNode | n in queue)`next, (set n: OrderNode | n in queue)`previous
      ensures Bypassed(queue, i)
    {
      hide Unique;
      UniqueCut(queue, i);
      assert order.previous == if i == 0 then null else queue[i - 1];
      assert order.next == if i == |queue| - 1 then null else queue[i + 1];
      if order.previous != null {
        order.previous.next := order.next;
      } else {
        head := order.next;
      }
      if order.next != null {
        order.next.previous := order.previous;
      } else {
        tail := order.previous;
      }
    }

    /** The nodes but the one at `i` are a proper list. */
    lemma Rechained(was: seq<OrderNode>, i: nat)
      requires i < |was| && Bypassed(was, i) && Unique(queue)
      requires queue == was[..i] + was[i + 1..] && orderCount == |was| - 1
      ensures Chain()
    {
      hide Unique;
      forall k | 0 <= k < |queue|
        ensures queue[k] == was[if k < i then k else k + 1] && queue[k].level == this
        ensures queue[k].previous == if k == 0 then null else queue[k - 1]
        ensures queue[k].next == if k == |queue| - 1 then null else queue[k + 1]
      {
        var node := was[if k < i then k else k + 1];
        assert queue[k] == node && node.level == this;
      }
    }
  }

  type LevelMap = map<Price, PriceLevel>
  type LevelMaps = s: seq<LevelMap> | |s| == 2 witness [map[], map[]]

  function Ids(q: seq<OrderNode>): seq<OrderId> {
    seq(|q|, i requires 0 <= i < |q| => q[i].id)
  }

  /** Adding an order raises the total of its own level and of no other. */
  lemma AddShown(b: Book, id: OrderId, side: Side, price: Price, quantity: Quantity, s: Side, p: Price)
    requires b.Valid() && quantity != 0 && id !in b.orders
    ensures Shown(b.Add(id, side, price, quantity).book, s, p)
            == if s == side && p == price then (Shown(b, s, p) + quantity) % TWO_64 else Shown(b, s, p)
  {
    hide Book.Add, Book.Queue, Book.Valid, Total, Distinct;
    var b' := b.Add(id, side, price, quantity).book;
    AddQueues(b, id, side, price, quantity);
    OthersLive(b, id, s, p);
    TotalOne(b'.orders, id);
    TotalFrame(b.orders, b'.orders, b.Queue(s, p));
    if s == side && p == price {
      TotalAppend(b'.orders, b.Queue(s, p), [id]);
      WrapSum(Total(b.orders, b.Queue(s, p)), quantity);
    }
  }

  lemma OthersLive(b: Book, id: OrderId, s: Side, p: Price)
    requires b.Valid() && id !in b.orders
    ensures forall i :: i in b.Queue(s, p) ==> i in b.orders && i != id
  {
    assert b.QueueOk(s, p);
  }

  /** Erasing an order lowers the total of its own level and of no other. */
  lemma EraseShown(b: Book, id: OrderId, s: Side, p: Price)
    requires b.Valid() && id in b.orders
    ensures Shown(b.Erase(id).book, s, p)
            == if s == b.orders[id].side && p == b.orders[id].price
               then (Shown(b, s, p) - b.orders[id].quantity) % TWO_64 else Shown(b, s, p)
  {
    hide Book.Erase, Book.Queue, Book.Valid, Total, Distinct, IndexOf;
    var o, b', q := b.orders[id], b.Erase(id).book, b.Queue(s, p);
    EraseQueues(b, id);
    QueueMembers(b, id, s, p);
    TotalFrame(b.orders, b'.orders, b'.Queue(s, p));
    if s == o.side && p == o.price {
      TotalRemoved(b.orders, q, id);
      WrapDifference(Total(b.orders, q), o.quantity);
    }
  }

  /** Reducing an order lowers the total of its own level and of no other. */
  lemma ResizeShown(b: Book, id: OrderId, quantity: Quantity, s: Side, p: Price)
    requires b.Valid() && id in b.orders && quantity <= b.orders[id].quantity
    ensures Shown(b.Resize(id, quantity), s, p)
            == if s == b.orders[id].side && p == b.orders[id].price
               then (Shown(b, s, p) - (b.orders[id].quantity - quantity)) % TWO_64 else Shown(b, s, p)
  {
    var o, b', q := b.orders[id], b.Resize(id, quantity), b.Queue(s, p);
    assert b'.Queue(s, p) == q;
    assert b.QueueOk(s, p) && b.OrderOk(id);
    hide Book.Queue, Book.Valid, Total;
    if s == o.side && p == o.price {
      TotalRemoved(b.orders, q, id);
      TotalRemoved(b'.orders, q, id);
      RemoveIdLaws(q, id);
      hide Book.QueueOk, RemoveId;
      TotalFrame(b.orders, b'.orders, RemoveId(q, id));
      WrapDifference(Total(b.orders, q), o.quantity - quantity);
    } else {
      TotalFrame(b.orders, b'.orders, q);
    }
  }

  lemma QueueMembers(b: Book, id: OrderId, s: Side, p: Price)
    requires b.Valid() && id in b.orders
    ensures forall i :: i in b.Queue(s, p) ==> i in b.orders
    ensures id in b.Queue(s, p) <==> s == b.orders[id].side && p == b.orders[id].price
  {
    assert b.QueueOk(s, p) && b.OrderOk(id);
  }

  lemma TotalRemoved(o: map<OrderId, Order>, q: seq<OrderId>, id: OrderId)
    requires id in q && id in o
    ensures Total(o, q) == Total(o, RemoveId(q, id)) + o[id].quantity
  {
    TotalWithout(o, q, IndexOf(q, id));
  }

  lemma WrapDifference(total: nat, quantity: nat)
    requires quantity <= total
    ensures (total % TWO_64 - quantity) % TWO_64 == (total - quantity) % TWO_64
  {
  }

  lemma TotalOne(o: map<OrderId, Order>, id: OrderId)
    requires id in o
    ensures Total(o, [id]) == o[id].quantity
  {
  }

  lemma WrapSum(total: nat, quantity: nat)
    ensures (total % TWO_64 + quantity) % TWO_64 == (total + quantity) % TWO_64
  {
  }

  /** The 64-bit total a level shows. */
  function Shown(b: Book, side: Side, price: Price): Word {
    Total(b.orders, b.Queue(side, price)) % TWO_64
  }

  lemma IdsAppend(q: seq<OrderNode>, n: OrderNode)
    ensures Ids(q + [n]) == Ids(q) + [n.id]
  {
  }

  lemma IdsCut(q: seq<OrderNode>, i: nat)
    requires i < |q|
    ensures Ids(q[..i] + q[i + 1..]) == Ids(q)[..i] + Ids(q)[i + 1..]
  {
  }

  lemma IdsAre(q: seq<OrderNode>)
    ensures |Ids(q)| == |q| && forall k :: 0 <= k < |q| ==> Ids(q)[k] == q[k].id
  {
  }

  lemma RemoveIs(q: seq<OrderId>, id: OrderId)
    requires IndexOf(q, id) < |q|
    ensures RemoveId(q, id) == q[..IndexOf(q, id)] + q[IndexOf(q, id) + 1..]
  {
  }

  class OrderBook {
    var orders: map<OrderId, OrderNode>
    var levels: LevelMaps
    const bidIndex: PriceIndex
    const askIndex: PriceIndex

    /** What this book shows, as the reference book would hold it. */
    ghost var model: Book
    /** The order nodes and price levels this book owns. */
    ghost var nodes: set<object>
    ghost var Repr: set<object>

    function Indices(side: Side): PriceIndex {
      if side == Buy then bidIndex else askIndex
    }

    ghost predicate Owned()
      reads this, Repr
    {
      && this in Repr && bidIndex in Repr && askIndex in Repr
      && bidIndex.Repr <= Repr && askIndex.Repr <= Repr && nodes <= Repr
      && this !in nodes + bidIndex.Repr + askIndex.Repr
      && nodes !! bidIndex.Repr && nodes !! askIndex.Repr && bidIndex.Repr !! askIndex.Repr
      && bidIndex.Valid() && askIndex.Valid()
    }

    /** The level of `side` at `price`, if there is one, shows the queue of book `b`. */
    ghost predicate LevelOk(side: Side, price: Price, b: Book)
      reads `levels, `nodes, `orders, nodes
    {
      && (b.Queue(side, price) != [] ==> price in levels[side.Index()])
      && (price in levels[side.Index()] ==>
        var l := levels[side.Index()][price];
        && l in nodes && l.price == price && l.side == side
        && (forall n :: n in l.queue ==> n in nodes)
        && l.Holds(nodes, orders, b))
    }

    /** The level at `(side0, price0)` already shows `b'`, the others still `b`. */
    ghost predicate LevelOkMid(side: Side, price: Price, side0: Side, price0: Price, b': Book, b: Book)
      reads `levels, `nodes, `orders, nodes
    {
      LevelOk(side, price, if side == side0 && price == price0 then b' else b)
    }

    /** The index marks the prices with orders, and those in `pending`, which are about to get their
        first order or have just lost their last one. */
    ghost predicate IndexOk(side: Side, price: Price, b: Book, pending: set<(Side, Price)>)
      reads bidIndex, askIndex
    {
      price in Indices(side).prices <==> b.Queue(side, price) != [] || (side, price) in pending
    }

    ghost predicate Linked(pending: set<(Side, Price)>)
      reads this, Repr
    {
      && Owned() && model.Valid()
      && (forall side: Side, price: Price :: LevelOk(side, price, model) && IndexOk(side, price, model, pending))
      && (forall id :: id in orders ==> orders[id].id == id && orders[id] in nodes)
    }

    ghost predicate Valid()
      reads this, Repr
      ensures Valid() ==> this in Repr
    {
      Linked({}) && orders.Keys == model.orders.Keys
    }

    constructor ()
      ensures Valid() && fresh(Repr) && model == EMPTY_BOOK
    {
      orders, levels := map[], [map[], map[]];
      bidIndex := new PriceIndex();
      askIndex := new PriceIndex();
      model, nodes := EMPTY_BOOK, {};
      new;
      Repr := {this} + bidIndex.Repr + askIndex.Repr;
    }

    /** `get_or_create_level`: a level that is created has no orders yet. */
    method GetOrCreateLevel(side: Side, price: Price, alloc: Alloc) returns (out: Outcome<PriceLevel>, rest: Alloc)
      requires Linked({})
      modifies `levels, `nodes, `Repr
      ensures Linked({}) && fresh(Repr - old(Repr)) && old(Repr) <= Repr && old(nodes) <= nodes
      ensures forall s: Side, p: Price :: p in old(levels)[s.Index()] ==>
        p in levels[s.Index()] && levels[s.Index()][p] == old(levels)[s.Index()][p]
      ensures out.Returned? ==> price in levels[side.Index()] && out.value == levels[side.Index()][price]
      ensures alloc.Never? ==> rest.Never? && out.Returned?
    {
      hide Book.Queue, Book.Valid, Shown, PriceIndex.Valid, PriceLevel.Chain, PriceLevel.Holds, LevelOk, IndexOk;
      rest := alloc;
      if price in levels[side.Index()] {
        return Returned(levels[side.Index()][price]), rest;
      }
      if rest.Fails() {
        return Threw, rest;
      }
      rest := rest.Next();
      if rest.Fails() {
        return Threw, rest;
      }
      rest := rest.Next();
      CreateLevel(side, price);
      out := Returned(levels[side.Index()][price]);
    }

    method CreateLevel(side: Side, price: Price)
      requires Linked({}) && price !in levels[side.Index()]
      modifies `levels, `nodes, `Repr
      ensures Linked({}) && fresh(Repr - old(Repr)) && old(Repr) <= Repr && old(nodes) <= nodes
      ensures price in levels[side.Index()]
      ensures forall s: Side, p: Price :: p in old(levels)[s.Index()] ==>
        p in levels[s.Index()] && levels[s.Index()][p] == old(levels)[s.Index()][p]
    {
      hide Book.Queue, Book.Valid, Shown, PriceIndex.Valid, PriceLevel.Chain, PriceLevel.Holds, IndexOk;
      assert LevelOk(side, price, model);
      var level := new PriceLevel(price, side);
      var sideLevels: LevelMap := levels[side.Index()];
      sideLevels := sideLevels[price := level];
      levels := levels[side.Index() := sideLevels];
      nodes, Repr := nodes + {level}, Repr + {level};
      level.EmptyHolds(nodes, orders, model);
      forall s: Side, p: Price
        ensures LevelOk(s, p, model) && IndexOk(s, p, model, {})
      {
        assert old(LevelOk(s, p, model) && IndexOk(s, p, model, {}));
        if p in levels[s.Index()] && levels[s.Index()][p] != level {
          levels[s.Index()][p].Rebook(old(nodes), orders, model, nodes, orders, model);
        }
      }
    }

    /** Mark a price in the index of its side, ahead of its first order. */
    method Activate(side: Side, price: Price, alloc: Alloc) returns (out: Outcome<()>, rest: Alloc)
      requires Linked({})
      modifies Indices(side).Repr, `Repr
      ensures Linked(if out.Returned? then {(side, price)} else {})
      ensures fresh(Repr - old(Repr)) && old(Repr) <= Repr
      ensures alloc.Never? ==> rest.Never? && out.Returned?
    {
      hide Book.Queue, Book.Valid, Shown, PriceIndex.Valid, PriceLevel.Chain, PriceLevel.Holds;
      out, rest := Indices(side).Add(price, alloc);
      Repr := Repr + Indices(side).Repr;
      ghost var pending := if out.Returned? then {(side, price)} else {};
      forall s: Side, p: Price
        ensures LevelOk(s, p, model) && IndexOk(s, p, model, pending)
      {
        assert old(LevelOk(s, p, model) && IndexOk(s, p, model, {}));
      }
    }

    /** Levels never share a node, and their nodes are orders of the model. */
    lemma LevelsApart(level: PriceLevel)
      requires forall side: Side, price: Price :: LevelOk(side, price, model)
      requires level.price in levels[level.side.Index()] && level == levels[level.side.Index()][level.price]
      ensures forall s: Side, p: Price :: p in levels[s.Index()] ==>
        && (forall n :: n in levels[s.Index()][p].queue ==> n.id in model.orders)
        && (levels[s.Index()][p] != level ==> forall n :: n in levels[s.Index()][p].queue ==> n !in level.queue)
    {
      hide PriceLevel.Holds, PriceLevel.Chain, PriceIndex.Valid, Book.Queue;
      assert LevelOk(level.side, level.price, model);
      level.Owns(nodes, orders, model);
      forall s: Side, p: Price | p in levels[s.Index()]
        ensures forall n :: n in levels[s.Index()][p].queue ==> n.level == levels[s.Index()][p] && n.id in model.orders
      {
        assert LevelOk(s, p, model);
        levels[s.Index()][p].Owns(nodes, orders, model);
      }
    }

    /** A level and its nodes are owned by this book. */
    lemma InLevels(side: Side, price: Price)
      requires LevelOk(side, price, model) && price in levels[side.Index()]
      ensures var l := levels[side.Index()][price];
        l in nodes && l.side == side && l.price == price && forall n :: n in l.queue ==> n in nodes
    {
      hide PriceLevel.Holds;
    }

    /** Append an order, already in the id map, to its level. */
    method Link(level: PriceLevel, order: OrderNode)
      requires Linked({(order.side, order.price)})
      requires order.price in levels[order.side.Index()] && level == levels[order.side.Index()][order.price]
      requires order.id !in model.orders && order.quantity != 0
      requires order in nodes && order.id in orders && orders[order.id] == order
      modifies Repr
      ensures Linked({}) && Repr == old(Repr) && orders == old(orders)
      ensures model == old(model.Add(order.id, order.side, order.price, order.quantity)).book
    {
      hide Book.Queue, Book.Valid, Book.Add, Shown, Ids, PriceIndex.Valid, LevelOk;
      hide PriceLevel.Chain, PriceLevel.Holds, IndexOk, LevelOkMid;
      ghost var b := model;
      ghost var b' := b.Add(order.id, order.side, order.price, order.quantity).book;
      AddValid(b, order.id, order.side, order.price, order.quantity);
      InLevels(order.side, order.price);
      LinkAmong(level, order, b, b');
      LinkRebook(level, order, b, b');
      model := b';
    }

    /** Appending to one level leaves all the others as they were. */
    method LinkAmong(level: PriceLevel, order: OrderNode, ghost b: Book, ghost b': Book)
      requires Owned() && b == model && b.Valid()
      requires forall side: Side, price: Price :: LevelOk(side, price, b)
      requires order.price in levels[order.side.Index()] && level == levels[order.side.Index()][order.price]
      requires order.id !in b.orders && order.quantity != 0
      requires order in nodes && order.id in orders && orders[order.id] == order
      requires b' == b.Add(order.id, order.side, order.price, order.quantity).book
      modifies level, order`level, order`previous, order`next, (set n: OrderNode | n in level.queue)`next
      ensures Owned()
      ensures forall s: Side, p: Price :: LevelOkMid(s, p, order.side, order.price, b', b)
    {
      hide Book.Queue, Book.Valid, Book.Add, Shown, Ids, PriceIndex.Valid, PriceLevel.Chain, PriceLevel.Holds;
      assert LevelOk(order.side, order.price, b);
      LevelsApart(level);
      LinkTail(level, order, b, b');
      forall s: Side, p: Price
        ensures LevelOkMid(s, p, order.side, order.price, b', b)
      {
        assert old(LevelOk(s, p, b));
      }
    }

    /** The other levels show the new book as well as the old one. */
    lemma LinkRebook(level: PriceLevel, order: OrderNode, b: Book, b': Book)
      requires b.Valid() && order.id !in b.orders && order.quantity != 0
      requires b' == b.Add(order.id, order.side, order.price, order.quantity).book
      requires forall s: Side, p: Price :: LevelOkMid(s, p, order.side, order.price, b', b)
      requires forall s: Side, p: Price :: IndexOk(s, p, b, {(order.side, order.price)})
      ensures forall s: Side, p: Price :: LevelOk(s, p, b') && IndexOk(s, p, b', {})
    {
      AddQueues(b, order.id, order.side, order.price, order.quantity);
      hide Book.Queue, Book.Valid, Book.Add, Shown, PriceLevel.Chain, PriceLevel.Holds;
      forall s: Side, p: Price
        ensures LevelOk(s, p, b') && IndexOk(s, p, b', {})
      {
        assert LevelOkMid(s, p, order.side, order.price, b', b);
        assert IndexOk(s, p, b, {(order.side, order.price)});
        if p in levels[s.Index()] && (s != order.side || p != order.price) {
          AddShown(b, order.id, order.side, order.price, order.quantity, s, p);
          levels[s.Index()][p].Rebook(nodes, orders, b, nodes, orders, b');
        }
      }
    }

    /** The level an order is appended to shows the enlarged queue. */
    method LinkTail(level: PriceLevel, order: OrderNode, ghost b: Book, ghost b': Book)
      requires b.Valid() && level.Holds(nodes, orders, b)
      requires level.side == order.side && level.price == order.price && order !in level.queue
      requires order.id !in b.orders && order.quantity != 0
      requires order in nodes && order.id in orders && orders[order.id] == order
      requires b' == b.Add(order.id, order.side, order.price, order.quantity).book
      modifies level, order`level, order`previous, order`next, (set n: OrderNode | n in level.queue)`next
      ensures level.queue == old(level.queue) + [order]
      ensures level.Holds(nodes, orders, b')
    {
      hide Book.Queue, Book.Valid, Book.Add, Shown, Ids, Unique;
      AddQueues(b, order.id, order.side, order.price, order.quantity);
      AddShown(b, order.id, order.side, order.price, order.quantity, order.side, order.price);
      level.Append(order);
      IdsAppend(old(level.queue), order);
    }

    /** An order of the book stands in the queue of its own side and price. */
    lemma InPlace(order: OrderNode) returns (l: PriceLevel, i: nat)
      requires order.id in model.orders && order.id in orders && orders[order.id] == order
      requires model.Valid() && LevelOk(model.orders[order.id].side, model.orders[order.id].price, model)
      ensures order.price in levels[order.side.Index()] && l == levels[order.side.Index()][order.price]
      ensures i < |l.queue| && l.queue[i] == order && order.level == l && l.side == order.side && l.price == order.price
      ensures model.orders[order.id] == Order(order.side, order.price, order.quantity)
      ensures Ids(l.queue)[i] == order.id && IndexOf(Ids(l.queue), order.id) == i
    {
      var o := model.orders[order.id];
      assert model.OrderOk(order.id) && model.QueueOk(o.side, o.price);
      l := levels[o.side.Index()][o.price];
      i := IndexOf(Ids(l.queue), order.id);
      assert l.queue[i].id == order.id;
      assert l.NodeOk(l.queue[i], orders, model);
      assert l.queue[i].level == l;
    }

    /** Take an order out of the list of its level. */
    method UnlinkFrom(level: PriceLevel, order: OrderNode, ghost i: nat, ghost b: Book, ghost b': Book)
      requires b.Valid() && level.Holds(nodes, orders, b)
      requires level.side == order.side && level.price == order.price
      requires i < |level.queue| && level.queue[i] == order && i == IndexOf(Ids(level.queue), order.id)
      requires order.id in b.orders && b.orders[order.id] == Order(order.side, order.price, order.quantity)
      requires b' == b.Erase(order.id).book
      modifies level, order`level, (set n: OrderNode | n in level.queue)`next, (set n: OrderNode | n in level.queue)`previous
      ensures level.Holds(nodes, orders, b') && forall n :: n in level.queue ==> n in nodes
      ensures level.orderCount == 0 <==> b'.Queue(order.side, order.price) == []
    {
      hide Book.Queue, Book.Valid, Book.Erase, Shown, Unique, Ids, IndexOf, RemoveId, PriceLevel.NodeOk;
      EraseQueues(b, order.id);
      EraseShown(b, order.id, order.side, order.price);
      IdsCut(level.queue, i);
      IdsAre(level.queue);
      RemoveIs(Ids(level.queue), order.id);
      level.quantity := (level.quantity - order.quantity) % TWO_64;
      TakeOut(level, order, i, b);
      IdsAre(level.queue);
      level.Rehold(order.id, nodes, orders, b, b');
    }

    /** Detach an order; the nodes that stay are as they were. */
    method TakeOut(level: PriceLevel, order: OrderNode, ghost i: nat, ghost b: Book)
      requires level.Chain() && i < |level.queue| && level.queue[i] == order
      requires forall n :: n in level.queue ==> n in nodes && level.NodeOk(n, orders, b)
      modifies level`head, level`tail, level`orderCount, level`queue, order`level
      modifies (set n: OrderNode | n in level.queue)`next, (set n: OrderNode | n in level.queue)`previous
      ensures level.Chain() && level.queue == old(level.queue[..i] + level.queue[i + 1..])
      ensures forall n :: n in level.queue ==> n in nodes && level.NodeOk(n, orders, b)
    {
      hide PriceLevel.NodeOk, PriceLevel.Chain;
      level.Detach(order, i);
      forall n | n in level.queue
        ensures n in nodes && level.NodeOk(n, orders, b)
      {
        assert n in old(level.queue) && old(level.NodeOk(n, orders, b));
      }
    }

    /** Unlinking from one level leaves all the others as they were. */
    method UnlinkAmong(level: PriceLevel, order: OrderNode, ghost i: nat, ghost b: Book, ghost b': Book)
      requires Owned() && b == model && b.Valid()
      requires forall side: Side, price: Price :: LevelOk(side, price, b)
      requires order.price in levels[order.side.Index()] && level == levels[order.side.Index()][order.price]
      requires level.side == order.side && level.price == order.price
      requires i < |level.queue| && level.queue[i] == order && i == IndexOf(Ids(level.queue), order.id)
      requires order.id in b.orders && b.orders[order.id] == Order(order.side, order.price, order.quantity)
      requires b' == b.Erase(order.id).book
      modifies level, order`level, (set n: OrderNode | n in level.queue)`next, (set n: OrderNode | n in level.queue)`previous
      ensures Owned()
      ensures forall s: Side, p: Price :: LevelOkMid(s, p, order.side, order.price, b', b)
      ensures level.orderCount == 0 <==> b'.Queue(order.side, order.price) == []
    {
      hide Book.Queue, Book.Valid, Book.Erase, Shown, Ids, PriceIndex.Valid, PriceLevel.Chain, PriceLevel.Holds, IndexOf;
      assert LevelOk(order.side, order.price, b);
      LevelsApart(level);
      assert order in level.queue;
      UnlinkFrom(level, order, i, b, b');
      forall s: Side, p: Price
        ensures LevelOkMid(s, p, order.side, order.price, b', b)
      {
        assert old(LevelOk(s, p, b));
      }
    }

    /** The other levels show the new book as well as the old one. */
    lemma UnlinkRebook(level: PriceLevel, order: OrderNode, b: Book, b': Book,
                       pending: set<(Side, Price)>, emptied: set<(Side, Price)>)
      requires emptied == if level.orderCount == 0 then {(order.side, order.price)} else {}
      requires b.Valid() && order.id in b.orders && b' == b.Erase(order.id).book
      requires b.orders[order.id] == Order(order.side, order.price, order.quantity)
      requires forall s: Side, p: Price :: LevelOkMid(s, p, order.side, order.price, b', b)
      requires forall s: Side, p: Price :: IndexOk(s, p, b, pending)
      requires level.orderCount == 0 <==> b'.Queue(order.side, order.price) == []
      requires order.price in levels[order.side.Index()]
      ensures forall s: Side, p: Price :: LevelOk(s, p, b')
      ensures forall s: Side, p: Price :: IndexOk(s, p, b', pending + emptied)
    {
      hide Book.Queue, Book.Valid, Book.Erase, Shown, PriceLevel.Chain, PriceLevel.Holds, RemoveId;
      EraseQueues(b, order.id);
      QueueMembers(b, order.id, order.side, order.price);
      forall s: Side, p: Price
        ensures LevelOk(s, p, b')
        ensures IndexOk(s, p, b', pending + emptied)
      {
        assert LevelOkMid(s, p, order.side, order.price, b', b);
        assert IndexOk(s, p, b, pending);
        if p in levels[s.Index()] && (s != order.side || p != order.price) {
          EraseShown(b, order.id, s, p);
          levels[s.Index()][p].Rebook(nodes, orders, b, nodes, orders, b');
        }
      }
    }

    /** Drop an empty level and its mark in the index. */
    method Deactivate(side: Side, price: Price, ghost pending: set<(Side, Price)>)
      requires Linked(pending + {(side, price)}) && (side, price) !in pending
      requires price in levels[side.Index()] && model.Queue(side, price) == []
      modifies Indices(side).Repr, `levels
      ensures Linked(pending)
      ensures forall s: Side, p: Price :: p in levels[s.Index()] <==> p in old(levels)[s.Index()] && (s != side || p != price)
      ensures forall s: Side, p: Price :: p in levels[s.Index()] ==> levels[s.Index()][p] == old(levels)[s.Index()][p]
      ensures Indices(side).Repr == old(Indices(side).Repr)
    {
      hide Book.Queue, Book.Valid, Shown, PriceIndex.Valid, PriceIndex.PathOk, PriceIndex.PathTo;
      hide PriceLevel.Chain, PriceLevel.Holds;
      assert IndexOk(side, price, model, pending + {(side, price)});
      Indices(side).OnPath(price);
      Indices(side).Remove(price);
      var sideLevels: LevelMap := levels[side.Index()];
      sideLevels := sideLevels - {price};
      levels := levels[side.Index() := sideLevels];
      forall s: Side, p: Price
        ensures LevelOk(s, p, model) && IndexOk(s, p, model, pending)
      {
        assert old(LevelOk(s, p, model) && IndexOk(s, p, model, pending + {(side, price)}));
      }
    }

    /** Take an order out of its level, and drop a level that is left empty unless it is about to be
        used again. */
    method Unlink(order: OrderNode, keep: bool, ghost pending: set<(Side, Price)>)
      requires Linked(pending) && (keep <==> (order.side, order.price) in pending)
      requires order.id in model.orders && order.id in orders && orders[order.id] == order
      modifies Repr
      ensures Linked(pending) && Repr == old(Repr) && nodes == old(nodes) && orders == old(orders)
      ensures model == old(model).Erase(order.id).book
      ensures order.price == old(order.price) && order.quantity == old(order.quantity)
      ensures forall s: Side, p: Price :: p in old(levels)[s.Index()] && (keep || s != order.side || p != order.price) ==>
        p in levels[s.Index()] && levels[s.Index()][p] == old(levels)[s.Index()][p]
      ensures !keep ==> (order.price in levels[order.side.Index()] <==> model.Queue(order.side, order.price) != [])
    {
      hide Book.Queue, Book.Valid, Book.Erase, Shown, Ids, PriceIndex.Valid;
      hide PriceLevel.Chain, PriceLevel.Holds, IndexOk, LevelOk, LevelOkMid;
      ghost var b := model;
      ghost var b' := b.Erase(order.id).book;
      EraseValid(b, order.id);
      assert LevelOk(b.orders[order.id].side, b.orders[order.id].price, b);
      ghost var l, i := InPlace(order);
      InLevels(order.side, order.price);
      var level := order.level;
      UnlinkAmong(level, order, i, b, b');
      ghost var emptied := if level.orderCount == 0 then {(order.side, order.price)} else {};
      UnlinkRebook(level, order, b, b', pending, emptied);
      model := b';
      assert Linked(pending + emptied);
      if level.orderCount == 0 && !keep {
        Deactivate(order.side, order.price, pending);
      } else {
        assert pending + emptied == pending;
      }
    }

    /** Put a new node into the id map; no level holds it yet. */
    method Enter(order: OrderNode)
      requires Linked({}) && order.id !in model.orders && order.id !in orders && allocated(order)
      requires order !in Repr
      modifies `orders, `nodes, `Repr
      ensures Linked({}) && orders == old(orders)[order.id := order] && nodes == old(nodes) + {order}
      ensures Repr == old(Repr) + {order}
    {
      hide Book.Queue, Book.Valid, Shown, PriceIndex.Valid, PriceLevel.Chain, PriceLevel.Holds;
      orders := orders[order.id := order];
      nodes, Repr := nodes + {order}, Repr + {order};
      forall s: Side, p: Price
        ensures LevelOk(s, p, model) && IndexOk(s, p, model, {})
      {
        assert old(LevelOk(s, p, model) && IndexOk(s, p, model, {}));
        if p in levels[s.Index()] {
          levels[s.Index()][p].Rebook(old(nodes), old(orders), model, nodes, orders, model);
        }
      }
    }

    /** Take an order no level holds out of the id map. */
    method Forget(id: OrderId)
      requires Linked({}) && id !in model.orders
      modifies `orders
      ensures Linked({}) && orders == old(orders) - {id}
    {
      hide Book.Queue, Book.Valid, Shown, PriceIndex.Valid, PriceLevel.Chain, PriceLevel.Holds;
      orders := orders - {id};
      forall s: Side, p: Price
        ensures LevelOk(s, p, model) && IndexOk(s, p, model, {})
      {
        assert old(LevelOk(s, p, model) && IndexOk(s, p, model, {}));
        if p in levels[s.Index()] {
          levels[s.Index()][p].Rebook(nodes, old(orders), model, nodes, orders, model);
        }
      }
    }

    /** Change the price and quantity of an order no level holds. */
    method Reprice(order: OrderNode, price: Price, quantity: Quantity, ghost pending: set<(Side, Price)>)
      requires Linked(pending) && order.id !in model.orders && order in nodes
      modifies order`price, order`quantity
      ensures Linked(pending) && order.price == price && order.quantity == quantity
    {
      hide Book.Queue, Book.Valid, Shown, PriceIndex.Valid, PriceLevel.Chain, PriceLevel.Holds;
      forall s: Side, p: Price | p in levels[s.Index()]
        ensures order !in levels[s.Index()][p].queue
      {
        assert LevelOk(s, p, model);
        levels[s.Index()][p].Owns(nodes, orders, model);
      }
      order.price := price;
      order.quantity := quantity;
      forall s: Side, p: Price
        ensures LevelOk(s, p, model) && IndexOk(s, p, model, pending)
      {
        assert old(LevelOk(s, p, model) && IndexOk(s, p, model, pending));
      }
    }

    /** Reduce an order where it stands. */
    method Reduce(order: OrderNode, quantity: Quantity)
      requires Valid() && order.id in orders && orders[order.id] == order
      requires 0 < quantity <= order.quantity
      modifies Repr
      ensures Valid() && Repr == old(Repr) && model == old(model).Resize(order.id, quantity)
    {
      hide Book.Queue, Book.Valid, Book.Resize, Shown, Ids, PriceIndex.Valid;
      hide PriceLevel.Chain, PriceLevel.Holds, IndexOk, LevelOk, LevelOkMid;
      ghost var b := model;
      ghost var b' := b.Resize(order.id, quantity);
      assert LevelOk(b.orders[order.id].side, b.orders[order.id].price, b);
      ghost var l, i := InPlace(order);
      InLevels(order.side, order.price);
      ResizeValid(b, order.id, quantity);
      ResizedOrder(b, order.id, quantity);
      var level := order.level;
      ReduceAmong(level, order, i, quantity, b, b');
      ReduceRebook(order, quantity, b, b');
      model := b';
    }

    lemma ResizedOrder(b: Book, id: OrderId, quantity: Quantity)
      requires id in b.orders
      ensures b.Resize(id, quantity).orders.Keys == b.orders.Keys
    {
    }

    method ReduceIn(level: PriceLevel, order: OrderNode, ghost i: nat, quantity: Quantity, ghost b: Book, ghost b': Book)
      requires b.Valid() && level.Holds(nodes, orders, b)
      requires level.side == order.side && level.price == order.price
      requires i < |level.queue| && level.queue[i] == order && quantity <= order.quantity
      requires order.id in b.orders && b.orders[order.id] == Order(order.side, order.price, order.quantity)
      requires b' == b.Resize(order.id, quantity)
      modifies level`quantity, order`quantity
      ensures level.Holds(nodes, orders, b')
    {
      hide Book.Queue, Book.Valid, Shown, Unique;
      ResizeShown(b, order.id, quantity, order.side, order.price);
      SameLevels(b, b');
      level.quantity := (level.quantity - (order.quantity - quantity)) % TWO_64;
      order.quantity := quantity;
      forall n | n in level.queue
        ensures n in nodes && level.NodeOk(n, orders, b')
      {
        assert old(level.NodeOk(n, orders, b) && level.NodeOk(order, orders, b));
      }
    }

    method ReduceAmong(level: PriceLevel, order: OrderNode, ghost i: nat, quantity: Quantity, ghost b: Book, ghost b': Book)
      requires Owned() && b == model && b.Valid()
      requires forall side: Side, price: Price :: LevelOk(side, price, b)
      requires order.price in levels[order.side.Index()] && level == levels[order.side.Index()][order.price]
      requires i < |level.queue| && level.queue[i] == order && quantity <= order.quantity
      requires order.id in b.orders && b.orders[order.id] == Order(order.side, order.price, order.quantity)
      requires b' == b.Resize(order.id, quantity)
      modifies level`quantity, order`quantity
      ensures Owned()
      ensures forall s: Side, p: Price :: LevelOkMid(s, p, order.side, order.price, b', b)
    {
      hide Book.Queue, Book.Valid, Shown, Ids, PriceIndex.Valid, PriceLevel.Chain, PriceLevel.Holds, IndexOk;
      SameLevels(b, b');
      assert LevelOk(order.side, order.price, b);
      LevelsApart(level);
      assert order in level.queue;
      ReduceIn(level, order, i, quantity, b, b');
      forall s: Side, p: Price
        ensures LevelOkMid(s, p, order.side, order.price, b', b)
      {
        assert old(LevelOk(s, p, b));
      }
    }

    lemma ReduceRebook(order: OrderNode, quantity: Quantity, b: Book, b': Book)
      requires b.Valid() && order.id in b.orders && b' == b.Resize(order.id, quantity)
      requires quantity <= b.orders[order.id].quantity
      requires b.orders[order.id].side == order.side && b.orders[order.id].price == order.price
      requires forall s: Side, p: Price :: LevelOkMid(s, p, order.side, order.price, b', b)
      requires forall s: Side, p: Price :: IndexOk(s, p, b, {})
      ensures forall s: Side, p: Price :: LevelOk(s, p, b') && IndexOk(s, p, b', {})
    {
      forall s: Side, p: Price
        ensures LevelOk(s, p, b') && IndexOk(s, p, b', {})
      {
        hide PriceLevel.Holds, Shown, Total;
        assert LevelOkMid(s, p, order.side, order.price, b', b);
        assert IndexOk(s, p, b, {});
        assert b.QueueOk(s, p);
        assert b'.Queue(s, p) == b.Queue(s, p);
        if p in levels[s.Index()] && (s != order.side || p != order.price) {
          ResizeShown(b, order.id, quantity, s, p);
          levels[s.Index()][p].Rebook(nodes, orders, b, nodes, orders, b');
        }
      }
    }

    /** Rest a new order at the tail of its level. If an allocation fails the book is unchanged. */
    method Add(id: OrderId, side: Side, price: Price, quantity: Quantity, alloc: Alloc)
      returns (out: Outcome<bool>, rest: Alloc)
      requires Valid()
      modifies Repr
      ensures Valid() && fresh(Repr - old(Repr)) && old(Repr) <= Repr
      ensures out.Returned? ==> Step(model, out.value) == old(model).Add(id, side, price, quantity)
      ensures out.Threw? ==> model == old(model) && old(model).Add(id, side, price, quantity).ok
      ensures alloc.Never? ==> rest.Never? && out.Returned?
    {
      hide Book.Add, Book.Queue, Book.Valid, PriceLevel.Chain, PriceLevel.Holds, PriceIndex.Valid, LevelOk, IndexOk;
      AddAnswers(model, id, side, price, quantity);
      rest := alloc;
      if quantity == 0 || id in orders {
        return Returned(false), rest;
      }
      var got, a := GetOrCreateLevel(side, price, rest);
      rest := a;
      if got.Threw? || rest.Fails() {
        return Threw, rest;
      }
      rest := rest.Next();
      var level := got.value;
      var order := new OrderNode(id, side, price, quantity);
      if rest.Fails() {
        return Threw, rest;
      }
      rest := rest.Next();
      Enter(order);
      out, rest := Place(level, order, rest);
    }

    /** Link an order that is in the id map, or take it out again if its price cannot be marked. */
    method Place(level: PriceLevel, order: OrderNode, alloc: Alloc) returns (out: Outcome<bool>, rest: Alloc)
      requires Linked({}) && orders.Keys == model.orders.Keys + {order.id}
      requires order.price in levels[order.side.Index()] && level == levels[order.side.Index()][order.price]
      requires order.id !in model.orders && order.quantity != 0 && orders[order.id] == order
      modifies Repr
      ensures Valid() && fresh(Repr - old(Repr)) && old(Repr) <= Repr
      ensures out.Returned? ==> Step(model, out.value) == old(model.Add(order.id, order.side, order.price, order.quantity))
      ensures out.Threw? ==> model == old(model)
      ensures alloc.Never? ==> rest.Never? && out.Returned?
    {
      hide Book.Queue, Book.Valid, PriceLevel.Chain, PriceLevel.Holds, PriceIndex.Valid, LevelOk, IndexOk;
      out, rest := ActivateIfEmpty(level, order.side, order.price, alloc);
      if out.Threw? {
        Forget(order.id);
        return Threw, rest;
      }
      Link(level, order);
    }

    /** Mark the price of a level in the index unless it already has orders. */
    method ActivateIfEmpty(level: PriceLevel, side: Side, price: Price, alloc: Alloc) returns (out: Outcome<bool>, rest: Alloc)
      requires Linked({}) && price in levels[side.Index()] && level == levels[side.Index()][price]
      modifies Indices(side).Repr, `Repr
      ensures out.Returned? ==> out.value
      ensures Linked(if out.Returned? then {(side, price)} else {})
      ensures fresh(Repr - old(Repr)) && old(Repr) <= Repr
      ensures alloc.Never? ==> rest.Never? && out.Returned?
    {
      hide Book.Queue, Book.Valid, Shown, PriceIndex.Valid;
      out, rest := Returned(true), alloc;
      assert LevelOk(side, price, model);
      var wasEmpty := level.orderCount == 0;
      if wasEmpty {
        var act, a := Activate(side, price, alloc);
        return if act.Threw? then Threw else Returned(true), a;
      }
      assert |Ids(level.queue)| > 0;
      forall s: Side, p: Price
        ensures LevelOk(s, p, model) && IndexOk(s, p, model, {(side, price)})
      {
        assert LevelOk(s, p, model) && IndexOk(s, p, model, {});
      }
    }

    /** `erase_node` of the source. */
    method EraseNode(order: OrderNode)
      requires Valid() && order.id in orders && orders[order.id] == order
      modifies Repr
      ensures Valid() && Repr == old(Repr)
      ensures model == old(model).Erase(order.id).book
      ensures order.price == old(order.price)
      ensures order.price in levels[order.side.Index()] <==> model.Queue(order.side, order.price) != []
    {
      hide Book.Queue, Book.Valid, Shown, PriceLevel.Chain, PriceLevel.Holds, PriceIndex.Valid;
      Unlink(order, false, {});
      Forget(order.id);
    }

    /** Cancel part or all of an order's quantity. */
    method Cancel(id: OrderId, quantity: Quantity) returns (ok: bool)
      requires Valid()
      modifies Repr
      ensures Valid() && Repr == old(Repr)
      ensures Step(model, ok) == old(model).Cancel(id, quantity)
    {
      hide Book.Queue, Book.Valid, Shown, PriceLevel.Chain, PriceLevel.Holds, PriceIndex.Valid;
      if id !in orders {
        return false;
      }
      var order := orders[id];
      Carries(order);
      if quantity == 0 || quantity > order.quantity {
        return false;
      }
      if quantity == order.quantity {
        EraseNode(order);
        return true;
      }
      Reduce(order, order.quantity - quantity);
      ok := true;
    }

    /** An order node carries what the model holds. */
    lemma Carries(order: OrderNode)
      requires Valid() && order.id in orders && orders[order.id] == order
      ensures model.orders[order.id] == Order(order.side, order.price, order.quantity)
      ensures order.price in levels[order.side.Index()] && order.level == levels[order.side.Index()][order.price]
      ensures order.quantity != 0
    {
      assert model.OrderOk(order.id);
      var o := model.orders[order.id];
      assert LevelOk(o.side, o.price, model);
      var l, i := InPlace(order);
    }

    method Execute(id: OrderId, quantity: Quantity) returns (ok: bool)
      requires Valid()
      modifies Repr
      ensures Valid() && Repr == old(Repr)
      ensures Step(model, ok) == old(model).Execute(id, quantity)
    {
      ok := Cancel(id, quantity);
    }

    method Erase(id: OrderId) returns (ok: bool)
      requires Valid()
      modifies Repr
      ensures Valid() && Repr == old(Repr)
      ensures Step(model, ok) == old(model).Erase(id)
    {
      hide Book.Queue, Book.Valid, Shown, PriceLevel.Chain, PriceLevel.Holds, PriceIndex.Valid;
      if id !in orders {
        return false;
      }
      EraseNode(orders[id]);
      ok := true;
    }

    /** Reduce an order in place, or move it to the tail of its new level. If an allocation fails the
        book is unchanged. */
    method Modify(id: OrderId, newPrice: Price, newQuantity: Quantity, alloc: Alloc)
      returns (out: Outcome<bool>, rest: Alloc)
      requires Valid()
      modifies Repr
      ensures Valid() && fresh(Repr - old(Repr)) && old(Repr) <= Repr
      ensures out.Returned? ==> Step(model, out.value) == old(model).Modify(id, newPrice, newQuantity)
      ensures out.Threw? ==> model == old(model) && old(model).Modify(id, newPrice, newQuantity).ok
      ensures alloc.Never? ==> rest.Never? && out.Returned?
    {
      rest := alloc;
      if id !in orders || newQuantity == 0 {
        return Returned(false), rest;
      }
      var order := orders[id];
      Carries(order);
      hide Book.Queue, Book.Valid, Book.RemoveFromLevel, Book.WithQueue, Book.Requeue;
      hide PriceLevel.Chain, PriceLevel.Holds, PriceIndex.Valid, LevelOk, IndexOk;
      if newPrice == order.price && newQuantity <= order.quantity {
        Reduce(order, newQuantity);
        return Returned(true), rest;
      }

      var side := order.side;
      var got, a := GetOrCreateLevel(side, newPrice, rest);
      rest := a;
      if got.Threw? {
        return Threw, rest;
      }
      var newLevel := got.value;
      out, rest := ActivateIfEmpty(newLevel, side, newPrice, rest);
      if out.Threw? {
        return Threw, rest;
      }
      Move(order, newLevel, newPrice, newQuantity);
    }

    /** Move an order to the tail of a level whose price is marked. */
    method Move(order: OrderNode, newLevel: PriceLevel, newPrice: Price, newQuantity: Quantity)
      requires Linked({(order.side, newPrice)}) && orders.Keys == model.orders.Keys
      requires order.id in orders && orders[order.id] == order && newQuantity != 0
      requires model.orders[order.id] == Order(order.side, order.price, order.quantity)
      requires newPrice in levels[order.side.Index()] && newLevel == levels[order.side.Index()][newPrice]
      modifies Repr
      ensures Valid() && Repr == old(Repr)
      ensures model == old(model).Requeue(order.id, newPrice, newQuantity)
    {
      RequeueIsEraseAdd(model, order.id, newPrice, newQuantity);
      hide Book.Queue, Book.Valid, Book.RemoveFromLevel, Book.WithQueue, Book.Requeue;
      hide PriceLevel.Chain, PriceLevel.Holds, PriceIndex.Valid, LevelOk, IndexOk;
      Unlink(order, newPrice == order.price, {(order.side, newPrice)});
      Reprice(order, newPrice, newQuantity, {(order.side, newPrice)});
      Link(newLevel, order);
    }

    /** Replace an order by a new one at the tail of its level, of the same side. With `oldId == newId`
        this is `Modify`. If an allocation fails the book is unchanged. */
    method Replace(oldId: OrderId, newId: OrderId, newPrice: Price, newQuantity: Quantity, alloc: Alloc)
      returns (out: Outcome<bool>, rest: Alloc)
      requires Valid()
      modifies Repr
      ensures Valid() && fresh(Repr - old(Repr)) && old(Repr) <= Repr
      ensures out.Returned? ==> Step(model, out.value) == old(model).Replace(oldId, newId, newPrice, newQuantity)
      ensures out.Threw? ==> model == old(model) && old(model).Replace(oldId, newId, newPrice, newQuantity).ok
      ensures alloc.Never? ==> rest.Never? && out.Returned?
    {
      hide Book.Queue, Book.Valid, Shown, PriceLevel.Chain, PriceLevel.Holds, PriceIndex.Valid;
      rest := alloc;
      if oldId !in orders || newQuantity == 0 {
        return Returned(false), rest;
      }
      if oldId == newId {
        out, rest := Modify(oldId, newPrice, newQuantity, rest);
        return;
      }
      if newId in orders {
        return Returned(false), rest;
      }
      Carries(orders[oldId]);
      out, rest := Add(newId, orders[oldId].side, newPrice, newQuantity, rest);
      if out.Threw? || !out.value {
        return;
      }
      var ok := Erase(oldId);
      out := Returned(ok);
    }

    lemma NothingQueued()
      ensures EMPTY_BOOK.Valid() && forall s: Side, p: Price :: EMPTY_BOOK.Queue(s, p) == []
    {
    }

    method Contains(id: OrderId) returns (found: bool)
      requires Valid()
      ensures found <==> id in model.orders
    {
      found := id in orders;
    }

    method OrderOf(id: OrderId) returns (view: Option<OrderView>)
      requires Valid()
      ensures view == model.View(id) && ViewIs(model, id, view)
    {
      ViewMeans(model, id);
      if id !in orders {
        return None;
      }
      var order := orders[id];
      Carries(order);
      view := Some(OrderView(order.id, order.side, order.price, order.quantity));
    }

    method OrderCount() returns (count: nat)
      requires Valid()
      ensures count == |model.orders|
    {
      assert |orders.Keys| == |orders| && |model.orders.Keys| == |model.orders|;
      count := |orders|;
    }

    /** The best price of a side, from the index alone. */
    method Best(side: Side) returns (best: Option<Price>)
      requires Valid()
      ensures model.IsBest(side, best) && BestIs(model, side, best)
      ensures best.Some? ==> model.Queue(side, best.value) != []
    {
      if side == Buy {
        best := bidIndex.Find(true);
      } else {
        best := askIndex.Find(false);
      }
      forall p: Price
        ensures p in Indices(side).prices <==> p in model.Levels(side)
        ensures p in model.Levels(side) ==> model.Queue(side, p) != []
      {
        assert IndexOk(side, p, model, {}) && model.Kept(side, p);
      }
      if best == None {
        assert forall p: Price :: p !in model.Levels(side);
      }
      BestMeans(model, side, best);
    }

    method BestBid() returns (best: Option<Price>)
      requires Valid()
      ensures model.IsBest(Buy, best) && BestIs(model, Buy, best)
    {
      best := Best(Buy);
    }

    method BestAsk() returns (best: Option<Price>)
      requires Valid()
      ensures model.IsBest(Sell, best) && BestIs(model, Sell, best)
    {
      best := Best(Sell);
    }

    method BestBidDepth() returns (depth: Option<Depth>)
      requires Valid()
      ensures depth.None? ==> BestIs(model, Buy, None)
      ensures depth.Some? ==>
        BestIs(model, Buy, Some(depth.value.price)) && DepthIs(model, Buy, depth.value.price, depth)
    {
      var price := BestBid();
      depth := None;
      if price.Some? {
        depth := DepthAt(Buy, price.value);
      }
    }

    method BestAskDepth() returns (depth: Option<Depth>)
      requires Valid()
      ensures depth.None? ==> BestIs(model, Sell, None)
      ensures depth.Some? ==>
        BestIs(model, Sell, Some(depth.value.price)) && DepthIs(model, Sell, depth.value.price, depth)
    {
      var price := BestAsk();
      depth := None;
      if price.Some? {
        depth := DepthAt(Sell, price.value);
      }
    }

    /** The displayed depth of a level; a level left without orders shows none. */
    method DepthAt(side: Side, price: Price) returns (depth: Option<Depth>)
      requires Valid()
      ensures depth == model.DepthAt(side, price) && DepthIs(model, side, price, depth)
    {
      DepthMeans(model, side, price);
      assert LevelOk(side, price, model);
      hide Book.Queue, Total, PriceIndex.Valid;
      if price !in levels[side.Index()] {
        return None;
      }
      var level := levels[side.Index()][price];
      assert |Ids(level.queue)| == |level.queue|;
      if level.orderCount == 0 {
        return None;
      }
      depth := Some(Depth(level.price, level.quantity, level.orderCount));
    }

    /** The oldest order of a level. */
    method FrontOrder(side: Side, price: Price) returns (view: Option<OrderView>)
      requires Valid()
      ensures view == model.Front(side, price) && FrontIs(model, side, price, view)
    {
      FrontMeans(model, side, price);
      assert LevelOk(side, price, model);
      hide Book.Queue, Shown, PriceIndex.Valid;
      if price !in levels[side.Index()] {
        return None;
      }
      var level := levels[side.Index()][price];
      assert |Ids(level.queue)| == |level.queue|;
      if level.head == null {
        assert level.queue == [];
        return None;
      }
      var order := level.head;
      assert order == level.queue[0] && Ids(level.queue)[0] == order.id;
      assert level.NodeOk(order, orders, model);
      view := Some(OrderView(order.id, order.side, order.price, order.quantity));
    }

    method Clear()
      requires Valid()
      modifies Repr
      ensures Valid() && Repr == old(Repr)
      ensures model == EMPTY_BOOK
    {
      hide PriceIndex.Valid, PriceLevel.Chain, PriceLevel.Holds, Shown, Book.Valid, Book.Queue;
      orders := map[];
      levels := [map[], map[]];
      bidIndex.Reset();
      askIndex.Reset();
      model := EMPTY_BOOK;
      NothingQueued();
    }
  }
}
