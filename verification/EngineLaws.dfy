/** What the matching engine keeps over every run. */
module EngineLaws {
  import opened Bits
  import opened Common
  import opened Itch
  import opened BookModel
  import opened BookLaws
  import opened Sweep
  import opened EngineModel

  // ---- the global counter ----

  lemma {:induction false} SumSplit(books: Books, locates: set<StockLocate>, l: StockLocate)
    requires l in locates
    ensures SumOver(books, locates) == OrdersAt(books, l) + SumOver(books, locates - {l})
    decreases |locates|
  {
    var l0 := Pick(locates);
    if l0 != l {
      SumSplit(books, locates - {l0}, l);
      SumSplit(books, locates - {l}, l0);
      assert locates - {l0} - {l} == locates - {l} - {l0};
    }
  }

  lemma {:induction false} SumFrame(books: Books, books': Books, locates: set<StockLocate>)
    requires forall l :: l in locates ==> OrdersAt(books, l) == OrdersAt(books', l)
    ensures SumOver(books, locates) == SumOver(books', locates)
    decreases |locates|
  {
    if locates != {} {
      SumFrame(books, books', locates - {Pick(locates)});
    }
  }

  /** Changing one book changes the sum by that book's change. */
  lemma SumUpdate(books: Books, l: StockLocate, b: Book)
    ensures SumOrders(books[l := b]) == SumOrders(books) - OrdersAt(books, l) + |b.orders|
  {
    hide SumOver;
    var books', rest := books[l := b], books.Keys - {l};
    SumSplit(books', books'.Keys, l);
    OthersSame(books, l, b);
    SumFrame(books, books', rest);
    assert books'.Keys - {l} == rest;
    SumWithout(books, l);
  }

  lemma OthersSame(books: Books, l: StockLocate, b: Book)
    ensures OrdersAt(books[l := b], l) == |b.orders|
    ensures forall k :: k != l ==> OrdersAt(books, k) == OrdersAt(books[l := b], k)
  {
  }

  lemma SumWithout(books: Books, l: StockLocate)
    ensures SumOrders(books) == OrdersAt(books, l) + SumOver(books, books.Keys - {l})
  {
    hide SumOver;
    if l in books {
      SumSplit(books, books.Keys, l);
    } else {
      assert books.Keys - {l} == books.Keys;
    }
  }

  lemma ShiftExact(n: Word, d: int)
    requires 0 <= n + d < TWO_64
    ensures Shift(n, d) == n + d
  {
  }

  lemma ShiftZero(n: Word)
    ensures Shift(n, 0) == n
  {
  }

  lemma ShiftTwice(n: Word, c: int, d: int)
    ensures Shift(Shift(n, c), d) == Shift(n, c + d)
  {
  }

  // ---- how many orders each operation adds or removes ----

  lemma AddCount(b: Book, id: OrderId, side: Side, price: Price, quantity: Quantity)
    ensures var s := b.Add(id, side, price, quantity); |s.book.orders| == |b.orders| + if s.ok then 1 else 0
  {
    if quantity != 0 && id !in b.orders {
      AddQueues(b, id, side, price, quantity);
    }
  }

  lemma EraseCount(b: Book, id: OrderId)
    requires b.Valid()
    ensures var s := b.Erase(id); (s.ok ==> id in b.orders) && |s.book.orders| == |b.orders| - if s.ok then 1 else 0
  {
    if id in b.orders {
      EraseQueues(b, id);
      assert b.orders == (b.orders - {id})[id := b.orders[id]];
    }
  }

  lemma CancelCount(b: Book, id: OrderId, quantity: Quantity)
    requires b.Valid()
    ensures var s := b.Cancel(id, quantity);
      (s.ok ==> id in b.orders)
      && |s.book.orders| == |b.orders| - if s.ok && b.orders[id].quantity == quantity then 1 else 0
  {
    EraseCount(b, id);
    if b.Cancel(id, quantity).ok && quantity != b.orders[id].quantity {
      var q: Quantity := b.orders[id].quantity - quantity;
      assert b.Resize(id, q).orders.Keys == b.orders.Keys;
      assert |b.Resize(id, q).orders.Keys| == |b.orders.Keys|;
    }
  }

  lemma ModifyCount(b: Book, id: OrderId, price: Price, quantity: Quantity)
    requires b.Valid()
    ensures |b.Modify(id, price, quantity).book.orders| == |b.orders|
  {
    if id in b.orders && quantity != 0 {
      if price == b.orders[id].price && quantity <= b.orders[id].quantity {
        assert b.Resize(id, quantity).orders.Keys == b.orders.Keys;
        assert |b.Resize(id, quantity).orders.Keys| == |b.orders.Keys|;
      } else {
        RequeueIsEraseAdd(b, id, price, quantity);
        EraseCount(b, id);
        EraseQueues(b, id);
        AddCount(b.Erase(id).book, id, b.orders[id].side, price, quantity);
      }
    }
  }

  lemma ReplaceCount(b: Book, oldId: OrderId, newId: OrderId, price: Price, quantity: Quantity)
    requires b.Valid()
    ensures |b.Replace(oldId, newId, price, quantity).book.orders| == |b.orders|
  {
    if oldId in b.orders && quantity != 0 {
      if oldId == newId {
        ModifyCount(b, oldId, price, quantity);
      } else if newId !in b.orders {
        var side := b.orders[oldId].side;
        AddCount(b, newId, side, price, quantity);
        AddValid(b, newId, side, price, quantity);
        AddQueues(b, newId, side, price, quantity);
        EraseCount(b.Add(newId, side, price, quantity).book, oldId);
      }
    }
  }

  /** A sweep never adds an order. */
  lemma {:induction false} SweepCount(b: Book, t: Taker, quantity: Quantity)
    requires b.Valid()
    ensures |Swept(b, t, quantity).orders| <= |b.orders|
    decreases quantity
  {
    hide Swept, Flatten, Fills, Leftover, Book.Cancel, Book.Valid;
    var flat := Flatten(b, t.side.Opposite());
    if quantity != 0 && flat != [] && t.Accepts(flat[0].price) {
      SweepUnfold(b, t, quantity);
      var f := Min(quantity, flat[0].quantity);
      CancelCount(b, flat[0].id, f);
      SweepCount(b.Execute(flat[0].id, f).book, t, quantity - f);
    } else {
      SweepDone(b, t, quantity);
    }
  }

  /** A sweep brings in no order. */
  lemma {:induction false} SweepNoNewIds(b: Book, t: Taker, quantity: Quantity, id: OrderId)
    requires b.Valid() && id !in b.orders
    ensures id !in Swept(b, t, quantity).orders
    decreases quantity
  {
    hide Swept, Flatten, Fills, Leftover, Book.Valid;
    var flat := Flatten(b, t.side.Opposite());
    if quantity != 0 && flat != [] && t.Accepts(flat[0].price) {
      SweepUnfold(b, t, quantity);
      var f := Min(quantity, flat[0].quantity);
      SweepNoNewIds(b.Execute(flat[0].id, f).book, t, quantity - f, id);
    } else {
      SweepDone(b, t, quantity);
    }
  }

  /** The order of a limit submission is still unknown after the sweep, so adding its rest succeeds. */
  lemma RestCanBeAdded(e: Engine, l: StockLocate, t: Taker, quantity: Quantity, id: OrderId)
    requires e.Valid() && id !in e.BookAt(l).orders
    ensures id !in e.Matched(l, t, quantity).BookAt(l).orders
  {
    MatchedKeeps(e, l, t, quantity);
    BookCounts(e, l);
    SweepNoNewIds(e.BookAt(l), t, quantity, id);
  }

  // ---- the invariant of the engine ----

  lemma NewEngineValid(limits: Limits)
    ensures NewEngine(limits).Valid()
  {
    assert SumOrders(map[]) == 0;
  }

  /** Counting a message and its outcome keeps the statistics balanced. */
  lemma BumpBalanced(st: Stats, action: Action, thrown: nat)
    requires st.Balanced(thrown)
    ensures st.(messages := Inc(st.messages)).Bump(action).Balanced(thrown)
  {
    hide Inc, CountedTo;
    var st' := st.(messages := Inc(st.messages)).Bump(action);
    IncIs(st.messages);
    IncIs(st.ignored);
    IncIs(st.adds);
    IncIs(st.executions);
    IncIs(st.cancels);
    IncIs(st.deletes);
    IncIs(st.replacements);
    IncIs(st.rejected);
    var n := st.Outcomes() + thrown;
    OneMoreCounted(n);
    assert st'.Outcomes() == st.Outcomes() + 1 || st'.Outcomes() == st.Outcomes() + 1 - TWO_64;
  }

  /** Counting a message without an outcome, too. */
  lemma ThrowBalanced(st: Stats, thrown: nat)
    requires st.Balanced(thrown)
    ensures st.(messages := Inc(st.messages)).Balanced(thrown + 1)
  {
    OneMoreCounted(st.Outcomes() + thrown);
  }

  lemma {:induction false} CountedIsRemainder(n: nat)
    ensures CountedTo(n) == n % TWO_64
  {
    if n > 0 {
      CountedIsRemainder(n - 1);
    }
  }

  /** One more increment; 2^64 of them make no difference. */
  lemma OneMoreCounted(n: nat)
    ensures CountedTo(n + 1) == Inc(CountedTo(n))
    ensures n + 1 >= TWO_64 ==> CountedTo(n + 1 - TWO_64) == CountedTo(n + 1)
  {
    hide Inc;
    if n + 1 >= TWO_64 {
      CountedAround(n + 1 - TWO_64);
    }
  }

  lemma CountedAround(n: nat)
    ensures CountedTo(n + TWO_64) == CountedTo(n)
  {
    hide CountedTo;
    CountedIsRemainder(n + TWO_64);
    CountedIsRemainder(n);
  }

  lemma IncIs(n: Word)
    ensures Inc(n) == if n == TWO_64 - 1 then 0 else n + 1
  {
  }

  /** Replacing one book by a valid one, with the counter moved along, keeps the engine valid. */
  lemma WithBookValid(e: Engine, l: StockLocate, b: Book, n: Word, st: Stats)
    requires e.Valid() && b.Valid() && st.Balanced(e.thrown) && l !in e.hollow
    requires l in e.books || e.Entries() < e.limits.maxInstruments
    requires n == e.resting - |e.BookAt(l).orders| + |b.orders| <= e.limits.maxRestingOrders
    ensures e.WithBook(l, b).(resting := n, stats := st).Valid()
  {
    hide Book.Valid, Stats.Balanced, SumOrders;
    var e' := e.WithBook(l, b).(resting := n, stats := st);
    SumUpdate(e.books, l, b);
    assert |e'.books| == |e.books| + if l in e.books then 0 else 1;
  }

  lemma BookCounts(e: Engine, l: StockLocate)
    requires e.Valid()
    ensures e.BookAt(l).Valid() && (l in e.books ==> l !in e.hollow)
    ensures |e.BookAt(l).orders| <= e.resting <= e.limits.maxRestingOrders && e.stats.Balanced(e.thrown)
  {
    if l in e.books {
      SumSplit(e.books, e.books.Keys, l);
    }
  }

  /** Every event keeps the counter equal to the number of resting orders, the caps respected and the
      statistics balanced. */
  lemma ApplyKeeps(e: Engine, event: ItchEvent)
    requires e.Valid() && !e.Crashes(event)
    ensures e.Apply(event).engine.Valid() && e.Apply(event).engine.limits == e.limits
  {
    hide Engine.ApplyAdd, Engine.ApplyReduce, Engine.ApplyDelete, Engine.ApplyReplace, Engine.Valid, Engine.Received;
    match event
    case AddOrder(h, id, side, shares, _, price) => AddKeeps(e, h.stockLocate, id, side, price, shares);
    case AddAttributedOrder(h, id, side, shares, _, price, _) => AddKeeps(e, h.stockLocate, id, side, price, shares);
    case OrderExecuted(h, id, shares, _) => ReduceKeeps(e, h.stockLocate, id, shares, false);
    case OrderExecutedWithPrice(h, id, shares, _, _, _) => ReduceKeeps(e, h.stockLocate, id, shares, false);
    case OrderCancel(h, id, shares) => ReduceKeeps(e, h.stockLocate, id, shares, true);
    case OrderDelete(h, id) => DeleteKeeps(e, h.stockLocate, id);
    case OrderReplace(h, oldId, newId, shares, price) => ReplaceKeeps(e, h.stockLocate, oldId, newId, price, shares);
    case SkippedMessage(_, h) => IgnoreKeeps(e, if h.Some? then h.value.stockLocate else 0);
    case other => IgnoreKeeps(e, other.header.stockLocate);
  }

  lemma IgnoreKeeps(e: Engine, l: StockLocate)
    requires e.Valid()
    ensures e.Received().Ignore(l).engine.Valid() && e.Received().Ignore(l).engine.limits == e.limits
    ensures e.Received().Reject(l).engine.Valid() && e.Received().Reject(l).engine.limits == e.limits
  {
    BumpBalanced(e.stats, Ignored, e.thrown);
    BumpBalanced(e.stats, Rejected, e.thrown);
    hide Stats.Balanced, Stats.Bump, SumOrders, Book.Valid;
  }

  lemma AddKeeps(e: Engine, l: StockLocate, id: OrderId, side: Side, price: Price, shares: Quantity)
    requires e.Valid() && !e.Dereferences(l)
    ensures var a := e.Received().ApplyAdd(l, id, side, price, shares).engine; a.Valid() && a.limits == e.limits
  {
    hide Stats.Balanced, Stats.Bump, Inc, Shift, Book.Valid, Book.Add, Engine.Valid;
    var e1 := e.Received();
    IgnoreKeeps(e, l);
    if e1.CanCreate(l) {
      BookCounts(e, l);
      var b := e.BookAt(l);
      var s := b.Add(id, side, price, shares);
      AddCount(b, id, side, price, shares);
      AddValid(b, id, side, price, shares);
      var st := e1.stats.Bump(if s.ok then Added else Rejected);
      BumpBalanced(e.stats, if s.ok then Added else Rejected, e.thrown);
      WithBookValid(e, l, s.book, if s.ok then e.resting + 1 else e.resting, st);
      if s.ok {
        ShiftExact(e.resting, 1);
      }
    }
  }

  lemma ReduceKeeps(e: Engine, l: StockLocate, id: OrderId, shares: Quantity, cancelled: bool)
    requires e.Valid()
    ensures var a := e.Received().ApplyReduce(l, id, shares, cancelled).engine; a.Valid() && a.limits == e.limits
  {
    hide Stats.Balanced, Stats.Bump, Inc, Shift, Book.Valid, Book.Cancel, Engine.Valid;
    var e1 := e.Received();
    var b := e.BookAt(l);
    var s := b.Cancel(id, shares);
    IgnoreKeeps(e, l);
    if l in e.books && s.ok {
      BookCounts(e, l);
      CancelCount(b, id, shares);
      CancelValid(b, id, shares);
      assert id in b.orders;
      var gone := if b.orders[id].quantity == shares then 1 else 0;
      var action := if cancelled then Cancelled else Executed;
      BumpBalanced(e.stats, action, e.thrown);
      assert |b.orders| >= 1;
      ShiftExact(e.resting, -gone);
      WithBookValid(e, l, s.book, e.resting - gone, e1.stats.Bump(action));
    }
  }

  lemma DeleteKeeps(e: Engine, l: StockLocate, id: OrderId)
    requires e.Valid()
    ensures var a := e.Received().ApplyDelete(l, id).engine; a.Valid() && a.limits == e.limits
  {
    hide Stats.Balanced, Stats.Bump, Inc, Shift, Book.Valid, Book.Erase, Engine.Valid;
    var e1 := e.Received();
    var b := e.BookAt(l);
    var s := b.Erase(id);
    IgnoreKeeps(e, l);
    if l in e.books && s.ok {
      BookCounts(e, l);
      EraseCount(b, id);
      EraseValid(b, id);
      assert id in b.orders;
      BumpBalanced(e.stats, Deleted, e.thrown);
      assert |b.orders| >= 1;
      ShiftExact(e.resting, -1);
      WithBookValid(e, l, s.book, e.resting - 1, e1.stats.Bump(Deleted));
    }
  }

  lemma ReplaceKeeps(e: Engine, l: StockLocate, oldId: OrderId, newId: OrderId, price: Price, shares: Quantity)
    requires e.Valid()
    ensures var a := e.Received().ApplyReplace(l, oldId, newId, price, shares).engine; a.Valid() && a.limits == e.limits
  {
    hide Stats.Balanced, Stats.Bump, Inc, Shift, Book.Valid, Book.Replace, Engine.Valid;
    var e1 := e.Received();
    var b := e.BookAt(l);
    var s := b.Replace(oldId, newId, price, shares);
    IgnoreKeeps(e, l);
    if l in e.books && s.ok {
      BookCounts(e, l);
      ReplaceCount(b, oldId, newId, price, shares);
      ApplyValid(b, Op.Replace(oldId, newId, price, shares));
      BumpBalanced(e.stats, Replaced, e.thrown);
      WithBookValid(e, l, s.book, e.resting, e1.stats.Bump(Replaced));
    }
  }

  /** A sweep changes the book of its locate and nothing else. */
  lemma MatchedShape(e: Engine, l: StockLocate, t: Taker, quantity: Quantity)
    ensures var m := e.Matched(l, t, quantity);
      && m.limits == e.limits && m.hollow == e.hollow && m.stats == e.stats && m.thrown == e.thrown
      && m.books.Keys == e.books.Keys && m.BookAt(l) == Swept(e.BookAt(l), t, quantity)
      && (l !in e.books ==> m == e)
  {
    EmptySweep(t, quantity);
    hide Swept, Shift;
  }

  lemma SweptKeeps(e: Engine, l: StockLocate, t: Taker, quantity: Quantity)
    requires e.Valid() && l in e.books
    ensures e.Matched(l, t, quantity).Valid()
  {
    hide Engine.Valid, Engine.Matched, Book.Valid, Swept, Shift, Stats.Balanced;
    var b := e.books[l];
    var b' := Swept(b, t, quantity);
    BookCounts(e, l);
    SweptBook(b, t, quantity);
    var n: Word := e.resting + |b'.orders| - |b.orders|;
    ShiftExact(e.resting, |b'.orders| - |b.orders|);
    WithBookValid(e, l, b', n, e.stats);
    MatchedIs(e, l, t, quantity);
    SameStats(e.WithBook(l, b').(resting := n));
  }

  lemma SweptBook(b: Book, t: Taker, quantity: Quantity)
    requires b.Valid()
    ensures Swept(b, t, quantity).Valid() && |Swept(b, t, quantity).orders| <= |b.orders|
  {
    hide Book.Valid, Swept, Flatten, Leftover;
    SweepLeaves(b, t, quantity);
    SweepCount(b, t, quantity);
  }

  lemma MatchedIs(e: Engine, l: StockLocate, t: Taker, quantity: Quantity)
    requires l in e.books
    ensures var b := Swept(e.books[l], t, quantity);
      e.Matched(l, t, quantity) == e.WithBook(l, b).(resting := Shift(e.resting, |b.orders| - |e.books[l].orders|))
  {
    hide Swept, Shift;
  }

  lemma SameStats(e: Engine)
    ensures e.(stats := e.stats) == e
  {
  }

  /** A sweep keeps the engine valid, and its counter moves by the orders it consumed. */
  lemma MatchedKeeps(e: Engine, l: StockLocate, t: Taker, quantity: Quantity)
    requires e.Valid()
    ensures var m := e.Matched(l, t, quantity);
      && m.Valid() && m.limits == e.limits && m.hollow == e.hollow
      && m.books.Keys == e.books.Keys && m.BookAt(l) == Swept(e.BookAt(l), t, quantity)
      && (l !in e.books ==> m == e)
  {
    hide Engine.Valid, Engine.Matched, Swept;
    MatchedShape(e, l, t, quantity);
    if l in e.books {
      SweptKeeps(e, l, t, quantity);
    }
  }

  lemma EmptySweep(t: Taker, quantity: Quantity)
    ensures Fills(EMPTY_BOOK, t, quantity) == [] && Swept(EMPTY_BOOK, t, quantity) == EMPTY_BOOK
  {
  }

  /** Resting an order that the caps allow keeps the engine valid. */
  lemma RestKeeps(e: Engine, l: StockLocate, id: OrderId, side: Side, price: Price, rest: Quantity)
    requires e.Valid() && e.CanCreate(l) && l !in e.hollow
    ensures var s := e.BookAt(l).Add(id, side, price, rest);
      s.ok ==> e.WithBook(l, s.book).(resting := Shift(e.resting, 1)).Valid()
  {
    hide Book.Valid, Book.Add, Shift;
    var b := e.BookAt(l);
    BookCounts(e, l);
    AddCount(b, id, side, price, rest);
    AddValid(b, id, side, price, rest);
    var s := b.Add(id, side, price, rest);
    if s.ok {
      ShiftExact(e.resting, 1);
      WithBookValid(e, l, s.book, e.resting + 1, e.stats);
    }
  }

  lemma SubmitLimitKeeps(e: Engine, l: StockLocate, id: OrderId, side: Side, price: Price, quantity: Quantity, capacity: nat)
    requires e.Valid() && !e.LimitCrashes(l, quantity)
    ensures var s := e.SubmitLimit(l, id, side, price, quantity, capacity).engine; s.Valid() && s.limits == e.limits
  {
    hide Book.Valid, Book.Add, Swept, Flatten, Fills, Filled, Engine.Matched, Engine.Valid, Shift;
    if quantity != 0 && id !in e.BookAt(l).orders {
      var t := Taker(side, price, true);
      MatchedKeeps(e, l, t, quantity);
      BookCounts(e, l);
      var m := e.Match(l, t, quantity, capacity);
      if m.result.resting != 0 && m.engine.CanCreate(l) {
        RestKeeps(m.engine, l, id, side, price, m.result.resting);
      }
    }
  }

  lemma SubmitMarketKeeps(e: Engine, l: StockLocate, side: Side, quantity: Quantity, capacity: nat)
    requires e.Valid()
    ensures var s := e.SubmitMarket(l, side, quantity, capacity).engine; s.Valid() && s.limits == e.limits
  {
    MatchedKeeps(e, l, Taker(side, 0, false), quantity);
  }

  // ---- exceptions ----

  /** A failed allocation leaves a valid engine behind. */
  lemma FailedKeeps(e: Engine, l: StockLocate, f: Failure, fits: bool)
    requires e.Valid() && e.CanFail(l, f, fits)
    ensures e.Failed(l, f).Valid() && e.Failed(l, f).limits == e.limits && e.Failed(l, f).thrown == e.thrown
    ensures e.Failed(l, f).stats == e.stats && forall k :: e.Failed(l, f).BookAt(k) == e.BookAt(k)
  {
    hide Book.Valid, Stats.Balanced, SumOver;
    BookCounts(e, l);
    if f.OrderFails? {
      hide Engine.Valid;
      WithBookValid(e, l, e.BookAt(l), e.resting, e.stats);
      assert e.WithBook(l, e.BookAt(l)) == e.WithBook(l, e.BookAt(l)).(resting := e.resting, stats := e.stats);
    } else if f.BookFails? {
      assert |e.hollow + {l}| == |e.hollow| + 1;
    }
  }

  lemma ReceivedKeeps(e: Engine)
    requires e.Valid()
    ensures e.Received().(thrown := e.thrown + 1).Valid()
  {
    ThrowBalanced(e.stats, e.thrown);
    hide Book.Valid, Stats.Balanced, SumOrders;
  }

  /** An event that ends in an exception changes no order of any book, and keeps the engine valid. */
  lemma ThrowKeeps(e: Engine, event: ItchEvent, f: Failure)
    requires e.Valid() && e.CanThrow(event, f)
    ensures e.ApplyThrows(event, f).Valid() && e.ApplyThrows(event, f).limits == e.limits
    ensures forall k :: e.ApplyThrows(event, f).BookAt(k) == e.BookAt(k)
  {
    hide Engine.Valid, Engine.ApplyThrows, Engine.Failed, Engine.CanFail, Book.Add, Book.Replace;
    ReceivedKeeps(e);
    var e1 := e.Received().(thrown := e.thrown + 1);
    var l := event.header.stockLocate;
    ThrowIs(e, event, f);
    if event.OrderReplace? {
      SameAgain(e1, l);
    } else {
      SameCanFail(e, e1, l, f);
      FailedKeeps(e1, l, f, true);
    }
  }

  lemma ThrowIs(e: Engine, event: ItchEvent, f: Failure)
    requires !event.SkippedMessage? && e.CanThrow(event, f)
    ensures e.ApplyThrows(event, f) == e.Received().(thrown := e.thrown + 1).Failed(event.header.stockLocate, f)
  {
    hide Engine.Failed, Engine.CanThrow, Inc;
    ThrownAside(e.Received(), event.header.stockLocate, f, e.thrown + 1);
  }

  lemma ThrownAside(e: Engine, l: StockLocate, f: Failure, n: nat)
    ensures e.Failed(l, f).(thrown := n) == e.(thrown := n).Failed(l, f)
  {
  }

  /** Putting back the book that is there changes nothing. */
  lemma SameAgain(e: Engine, l: StockLocate)
    requires l in e.books
    ensures e.Failed(l, OrderFails) == e
  {
    assert e.books[l := e.books[l]] == e.books;
  }

  lemma SameCanFail(e: Engine, e1: Engine, l: StockLocate, f: Failure)
    requires e1.books == e.books && e1.hollow == e.hollow && e1.resting == e.resting && e1.limits == e.limits
    ensures forall fits: bool :: e.CanFail(l, f, fits) ==> e1.CanFail(l, f, true)
  {
  }

  lemma LimitThrowKeeps(e: Engine, l: StockLocate, id: OrderId, side: Side, price: Price, quantity: Quantity, f: Failure)
    requires e.Valid() && e.LimitCanThrow(l, id, side, price, quantity, f)
    ensures e.LimitThrows(l, side, price, quantity, f).Valid() && e.LimitThrows(l, side, price, quantity, f).limits == e.limits
    ensures forall k :: e.LimitThrows(l, side, price, quantity, f).BookAt(k) == e.Matched(l, Taker(side, price, true), quantity).BookAt(k)
  {
    hide Engine.Valid, Engine.Matched, Fills, Filled;
    MatchedKeeps(e, l, Taker(side, price, true), quantity);
    FailedKeeps(e.Matched(l, Taker(side, price, true), quantity), l, f, true);
  }
}
