/** Whole runs of operations on the pointer-based book, with an allocator that may fail anywhere, and
    what a valid book looks like on the heap. */
module BookRuns {
  import opened Bits
  import opened Common
  import opened BookModel
  import opened BookLaws
  import opened BookMeaning
  import opened OrderBooks

  /** Operations that allocate may throw. */
  predicate MayThrow(op: Op) {
    op.Add? || op.Modify? || op.Replace?
  }

  /** `results` are what the reference book answers to `ops`, except that an operation whose allocation
      failed answers nothing and does nothing; `b'` is where the reference book ends. */
  ghost predicate Explains(b: Book, ops: seq<Op>, results: seq<Outcome<bool>>, b': Book)
    decreases |ops|
  {
    if ops == [] then results == [] && b' == b
    else
      && results != []
      && if results[0].Threw? then MayThrow(ops[0]) && Explains(b, ops[1..], results[1..], b')
         else results[0].value == Apply(b, ops[0]).ok && Explains(Apply(b, ops[0]).book, ops[1..], results[1..], b')
  }

  lemma {:induction false} ExplainsOneMore(b: Book, ops: seq<Op>, results: seq<Outcome<bool>>, mid: Book, op: Op,
                                           r: Outcome<bool>, b': Book)
    requires Explains(b, ops, results, mid)
    requires if r.Threw? then MayThrow(op) && b' == mid else Step(b', r.value) == Apply(mid, op)
    ensures Explains(b, ops + [op], results + [r], b')
    decreases |ops|
  {
    if ops == [] {
      assert (ops + [op])[1..] == [] && (results + [r])[1..] == [];
    } else {
      assert (ops + [op])[1..] == ops[1..] + [op] && (results + [r])[1..] == results[1..] + [r];
      ExplainsOneMore(if results[0].Threw? then b else Apply(b, ops[0]).book, ops[1..], results[1..], mid, op, r, b');
    }
  }

  /** One operation on the pointer-based book. */
  method Perform(book: OrderBook, op: Op, alloc: Alloc) returns (r: Outcome<bool>, rest: Alloc)
    requires book.Valid()
    modifies book.Repr
    ensures book.Valid() && fresh(book.Repr - old(book.Repr))
    ensures if r.Threw? then MayThrow(op) && book.model == old(book.model)
            else Step(book.model, r.value) == Apply(old(book.model), op) && Means(old(book.model), op, Step(book.model, r.value))
    ensures alloc.Never? ==> rest.Never? && r.Returned?
  {
    ModelMeans(book, op);
    hide OrderBook.Valid, Book.Add, Book.Cancel, Book.Erase, Book.Modify, Book.Replace, Means;
    rest := alloc;
    var ok;
    match op
    case Add(id, side, price, quantity) => r, rest := book.Add(id, side, price, quantity, alloc);
    case Cancel(id, quantity) => ok := book.Cancel(id, quantity); r := Returned(ok);
    case Execute(id, quantity) => ok := book.Execute(id, quantity); r := Returned(ok);
    case Erase(id) => ok := book.Erase(id); r := Returned(ok);
    case Modify(id, price, quantity) => r, rest := book.Modify(id, price, quantity, alloc);
    case Replace(oldId, newId, price, quantity) => r, rest := book.Replace(oldId, newId, price, quantity, alloc);
    case Clear => book.Clear(); r := Returned(true);
  }

  lemma ModelMeans(book: OrderBook, op: Op)
    requires book.Valid()
    ensures Means(book.model, op, Apply(book.model, op))
  {
    OperationMeans(book.model, op);
  }

  /** The sequences of the model test, for every sequence, with an allocator for each operation that may run out
      anywhere in it: the pointer-based book answers as the reference book and ends where it ends, also after
      operations that failed. */
  method RunModelSequence(book: OrderBook, ops: seq<Op>, allocs: seq<Alloc>) returns (results: seq<Outcome<bool>>)
    requires book.Valid() && |allocs| == |ops|
    modifies book.Repr
    ensures book.Valid() && fresh(book.Repr - old(book.Repr))
    ensures Explains(old(book.model), ops, results, book.model) && |results| == |ops|
    ensures forall i :: 0 <= i < |ops| && allocs[i].Never? ==> results[i].Returned?
  {
    hide OrderBook.Valid, Apply, MayThrow, Means;
    results := [];
    for i := 0 to |ops|
      invariant book.Valid() && fresh(book.Repr - old(book.Repr)) && |results| == i
      invariant Explains(old(book.model), ops[..i], results, book.model)
      invariant forall k :: 0 <= k < i && allocs[k].Never? ==> results[k].Returned?
    {
      ghost var mid := book.model;
      var r, _ := Perform(book, ops[i], allocs[i]);
      ExplainsOneMore(old(book.model), ops[..i], results, mid, ops[i], r, book.model);
      assert ops[..i + 1] == ops[..i] + [ops[i]];
      results := results + [r];
    }
    assert ops[..|ops|] == ops;
  }

  // ---- the shape of a valid book on the heap ----

  /** Every live order stands in the list of its own side and price, at exactly one place, and in no
      other list; its neighbours point back at it. */
  lemma EveryOrderInItsList(book: OrderBook, id: OrderId) returns (l: PriceLevel, i: nat)
    requires book.Valid() && id in book.orders
    ensures var n := book.orders[id];
      && n.id == id && n.price in book.levels[n.side.Index()] && l == book.levels[n.side.Index()][n.price]
      && n.level == l && l.price == n.price
      && i < |l.queue| && l.queue[i] == n
      && (forall j :: 0 <= j < |l.queue| && l.queue[j] == n ==> j == i)
      && (n.previous == null <==> l.head == n) && (n.next == null <==> l.tail == n)
      && (n.previous != null ==> n.previous.next == n && n.previous.level == l)
      && (n.next != null ==> n.next.previous == n && n.next.level == l)
      && (forall s: Side, p: Price :: p in book.levels[s.Index()] && book.levels[s.Index()][p] != l ==>
        n !in book.levels[s.Index()][p].queue)
  {
    var n := book.orders[id];
    book.Carries(n);
    assert book.LevelOk(n.side, n.price, book.model);
    l, i := book.InPlace(n);
    book.LevelsApart(l);
    NeighboursPointBack(l, i);
    assert n in l.queue;
    forall s: Side, p: Price | p in book.levels[s.Index()] && book.levels[s.Index()][p] != l
      ensures n !in book.levels[s.Index()][p].queue
    {
    }
  }

  lemma NeighboursPointBack(l: PriceLevel, i: nat)
    requires l.Chain() && i < |l.queue|
    ensures var n := l.queue[i];
      && (n.previous == null <==> l.head == n) && (n.next == null <==> l.tail == n)
      && (n.previous != null ==> n.previous.next == n && n.previous.level == l)
      && (n.next != null ==> n.next.previous == n && n.next.level == l)
      && (forall j :: 0 <= j < |l.queue| && l.queue[j] == n ==> j == i)
  {
    var n := l.queue[i];
    assert n.previous == if i == 0 then null else l.queue[i - 1];
    assert n.next == if i == |l.queue| - 1 then null else l.queue[i + 1];
    if i > 0 {
      assert l.queue[i - 1].next == l.queue[i] && l.queue[i - 1].level == l;
    }
    if i < |l.queue| - 1 {
      assert l.queue[i + 1].previous == l.queue[i] && l.queue[i + 1].level == l;
    }
  }

  /** A level shows the number of its orders and, with at most 2^32 of them, their exact total; and its
      price is in the index exactly when it has orders. */
  lemma LevelTotals(book: OrderBook, side: Side, price: Price)
    requires book.Valid() && price in book.levels[side.Index()]
    ensures var l := book.levels[side.Index()][price];
      && l.orderCount == |book.model.Queue(side, price)|
      && (l.orderCount <= TWO_32 ==> l.quantity == Total(book.model.orders, book.model.Queue(side, price)))
      && (price in book.Indices(side).prices <==> l.orderCount > 0)
  {
    assert book.LevelOk(side, price, book.model) && book.IndexOk(side, price, book.model, {});
    var l := book.levels[side.Index()][price];
    assert |Ids(l.queue)| == |l.queue|;
    TotalBound(book.model.orders, book.model.Queue(side, price));
  }
}
