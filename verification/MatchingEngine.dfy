/** The matching engine over pointer-based books (src/engine/matching_engine.cpp), proved to step as
    EngineModel says, with an allocator that may fail anywhere. */
module MatchingEngines {
  import opened Bits
  import opened Common
  import opened Itch
  import opened BookModel
  import opened BookLaws
  import opened Sweep
  import opened EngineModel
  import opened EngineLaws
  import opened OrderBooks
  import EngineMeaning
  import SubmissionMeaning

  class MatchingEngine {
    /** The entries of the map of books that have a book, and those that hold a null pointer. */
    var books: map<StockLocate, OrderBook>
    var hollow: set<StockLocate>
    const limits: Limits
    var restingOrderCount: Word
    var stats: Stats
    ghost var Repr: set<object>
    /** What each book shows. */
    ghost var shown: Books
    /** How many events have ended in an exception. */
    ghost var thrown: nat

    /** The book of a locate is valid and shows what `shown` says. */
    ghost predicate BookOk(l: StockLocate)
      reads this, Repr
    {
      l in books ==>
        && books[l] in Repr && books[l].Repr <= Repr && this !in books[l].Repr
        && books[l].Valid() && l in shown && books[l].model == shown[l]
    }

    /** Two books share no object. */
    ghost predicate Apart(l: StockLocate, k: StockLocate)
      requires BookOk(l) && BookOk(k)
      reads this, Repr
    {
      l in books && k in books && l != k ==> books[l].Repr !! books[k].Repr
    }

    ghost predicate Owned()
      reads this, Repr
    {
      && this in Repr && shown.Keys == books.Keys
      && (forall l: StockLocate :: BookOk(l))
      && (forall l: StockLocate, k: StockLocate :: Apart(l, k))
    }

    ghost function State(): Engine
      reads this
    {
      Engine(shown, hollow, restingOrderCount, stats, thrown, limits)
    }

    ghost predicate Valid()
      reads this, Repr
      ensures Valid() ==> this in Repr
    {
      Owned() && State().Valid()
    }

    constructor (limits: Limits)
      ensures Valid() && fresh(Repr) && State() == NewEngine(limits)
    {
      hide Engine.Valid, OrderBook.Valid;
      books, hollow, shown := map[], {}, map[];
      this.limits := limits;
      restingOrderCount, stats, thrown := 0, NO_STATS, 0;
      Repr := {this};
      NewEngineValid(limits);
    }

    method Clear()
      requires Valid()
      modifies this
      ensures Valid() && State() == NewEngine(limits)
    {
      hide Engine.Valid, OrderBook.Valid;
      NewEngineValid(limits);
      books, hollow, shown := map[], {}, map[];
      restingOrderCount, stats, thrown := 0, NO_STATS, 0;
    }

    predicate CanCreateOrder(locate: StockLocate)
      reads this
    {
      restingOrderCount < limits.maxRestingOrders && (locate in books || |books| + |hollow| < limits.maxInstruments)
    }

    /** Everything but the books and the number of resting orders. */
    ghost predicate SameHistory(was: Engine)
      reads this
    {
      stats == was.stats && hollow == was.hollow && thrown == was.thrown
    }

    ghost predicate SameCounters(was: Engine)
      reads this
    {
      restingOrderCount == was.resting && SameHistory(was)
    }

    lemma CanCreateIs(locate: StockLocate)
      requires Owned()
      ensures CanCreateOrder(locate) <==> State().CanCreate(locate)
    {
      assert |shown.Keys| == |shown| && |books.Keys| == |books|;
    }

    /** The book of a locate, created when absent: an entry of the map, then the book and its parts. If the
        book cannot be allocated its entry stays. */
    method EnsureBook(locate: StockLocate, alloc: Alloc) returns (out: Outcome<OrderBook>, rest: Alloc, ghost f: Failure)
      requires Owned() && locate !in hollow
      modifies `books, `hollow, `shown, `Repr
      ensures Owned() && fresh(Repr - old(Repr)) && old(Repr) <= Repr
      ensures out.Returned? ==> locate in books && out.value == books[locate] && hollow == old(hollow)
      ensures out.Returned? ==> shown == old(shown)[locate := old(State()).BookAt(locate)]
      ensures out.Threw? ==> !f.OrderFails? && locate !in old(books) && State() == old(State()).Failed(locate, f)
      ensures alloc.Never? ==> rest.Never? && out.Returned?
    {
      hide OrderBook.Valid;
      rest, f := alloc, EntryFails;
      if locate !in books {
        if rest.Fails() {
          return Threw, rest, EntryFails;
        }
        rest := rest.Next();
        if rest.Fails() || rest.Next().Fails() {
          LeaveHollow(locate);
          return Threw, rest, BookFails;
        }
        rest := rest.Next().Next();
        CreateBook(locate);
      }
      assert BookOk(locate);
      out := Returned(books[locate]);
    }

    /** An entry whose book could not be allocated. */
    method LeaveHollow(locate: StockLocate)
      requires Owned() && locate !in books
      modifies `hollow
      ensures Owned() && hollow == old(hollow) + {locate}
    {
      hide OrderBook.Valid;
      hollow := hollow + {locate};
      StillOwned();
    }

    method CreateBook(locate: StockLocate)
      requires Owned() && locate !in books
      modifies `books, `shown, `Repr
      ensures Owned() && fresh(Repr - old(Repr)) && old(Repr) <= Repr
      ensures locate in books && shown == old(shown)[locate := EMPTY_BOOK]
    {
      hide OrderBook.Valid;
      var created := new OrderBook();
      books := books[locate := created];
      shown := shown[locate := EMPTY_BOOK];
      Repr := Repr + created.Repr;
      forall l: StockLocate
        ensures BookOk(l)
      {
        assert old(BookOk(l));
      }
      forall l: StockLocate, k: StockLocate
        ensures Apart(l, k)
      {
        assert old(BookOk(l) && BookOk(k) && Apart(l, k));
      }
    }

    /** `ensure_book(locate).add(...)`. */
    method AddTo(locate: StockLocate, id: OrderId, side: Side, price: Price, quantity: Quantity, alloc: Alloc)
      returns (out: Outcome<bool>, rest: Alloc, ghost f: Failure)
      requires Owned() && locate !in hollow
      modifies Repr
      ensures Owned() && fresh(Repr - old(Repr)) && old(Repr) <= Repr
      ensures var s := old(State()).BookAt(locate).Add(id, side, price, quantity);
        if out.Returned? then State() == old(State()).WithBook(locate, s.book) && out.value == s.ok
        else State() == old(State()).Failed(locate, f) && if f.OrderFails? then s.ok else locate !in old(books)
      ensures alloc.Never? ==> rest.Never? && out.Returned?
    {
      assert this in Repr;
      hide OrderBook.Valid, Book.Add, Owned;
      var made, a;
      made, a, f := EnsureBook(locate, alloc);
      if made.Threw? {
        return Threw, a, f;
      }
      ghost var was := shown;
      out, rest := AddKnown(locate, id, side, price, quantity, a);
      f := OrderFails;
      TwiceSet(old(shown), locate, was[locate], shown[locate]);
    }

    lemma TwiceSet(books: Books, l: StockLocate, b: Book, c: Book)
      ensures books[l := b][l := c] == books[l := c]
    {
    }

    method AddKnown(locate: StockLocate, id: OrderId, side: Side, price: Price, quantity: Quantity, alloc: Alloc)
      returns (out: Outcome<bool>, rest: Alloc)
      requires Owned() && locate in books
      modifies Repr
      ensures Owned() && fresh(Repr - old(Repr)) && old(Repr) <= Repr && SameCounters(old(State()))
      ensures books == old(books)
      ensures var s := old(shown)[locate].Add(id, side, price, quantity);
        if out.Returned? then shown == old(shown)[locate := s.book] && out.value == s.ok
        else shown == old(shown)[locate := old(shown)[locate]] && s.ok
      ensures alloc.Never? ==> rest.Never? && out.Returned?
    {
      hide OrderBook.Valid, Book.Add;
      assert BookOk(locate);
      out, rest := books[locate].Add(id, side, price, quantity, alloc);
      Repr := Repr + books[locate].Repr;
      shown := shown[locate := books[locate].model];
      forall l: StockLocate
        ensures BookOk(l)
      {
        assert old(BookOk(l) && Apart(l, locate));
      }
      forall l: StockLocate, k: StockLocate
        ensures Apart(l, k)
      {
        assert old(BookOk(l) && BookOk(k) && Apart(l, k) && Apart(l, locate) && Apart(k, locate));
      }
    }

    /** An execution or cancellation on an existing book. */
    method CancelAt(locate: StockLocate, id: OrderId, shares: Quantity) returns (ok: bool)
      requires Owned() && locate in books
      modifies Repr
      ensures Owned() && Repr == old(Repr) && SameCounters(old(State()))
      ensures books == old(books)
      ensures var s := old(shown)[locate].Cancel(id, shares);
        shown == old(shown)[locate := s.book] && ok == s.ok
    {
      hide OrderBook.Valid, Book.Cancel;
      assert BookOk(locate);
      ok := books[locate].Cancel(id, shares);
      shown := shown[locate := books[locate].model];
      forall l: StockLocate
        ensures BookOk(l)
      {
        assert old(BookOk(l) && Apart(l, locate));
      }
      forall l: StockLocate, k: StockLocate
        ensures Apart(l, k)
      {
        assert old(BookOk(l) && BookOk(k) && Apart(l, k) && Apart(l, locate) && Apart(k, locate));
      }
    }

    method EraseAt(locate: StockLocate, id: OrderId) returns (ok: bool)
      requires Owned() && locate in books
      modifies Repr
      ensures Owned() && Repr == old(Repr) && SameCounters(old(State()))
      ensures books == old(books)
      ensures var s := old(shown)[locate].Erase(id);
        shown == old(shown)[locate := s.book] && ok == s.ok
    {
      hide OrderBook.Valid, Book.Erase;
      assert BookOk(locate);
      ok := books[locate].Erase(id);
      shown := shown[locate := books[locate].model];
      forall l: StockLocate
        ensures BookOk(l)
      {
        assert old(BookOk(l) && Apart(l, locate));
      }
      forall l: StockLocate, k: StockLocate
        ensures Apart(l, k)
      {
        assert old(BookOk(l) && BookOk(k) && Apart(l, k) && Apart(l, locate) && Apart(k, locate));
      }
    }

    method ReplaceAt(locate: StockLocate, oldId: OrderId, newId: OrderId, price: Price, shares: Quantity, alloc: Alloc)
      returns (out: Outcome<bool>, rest: Alloc)
      requires Owned() && locate in books
      modifies Repr
      ensures Owned() && fresh(Repr - old(Repr)) && old(Repr) <= Repr && SameCounters(old(State()))
      ensures books == old(books)
      ensures var s := old(shown)[locate].Replace(oldId, newId, price, shares);
        if out.Returned? then shown == old(shown)[locate := s.book] && out.value == s.ok
        else shown == old(shown)[locate := old(shown)[locate]] && s.ok
      ensures alloc.Never? ==> rest.Never? && out.Returned?
    {
      hide OrderBook.Valid, Book.Replace;
      assert BookOk(locate);
      out, rest := books[locate].Replace(oldId, newId, price, shares, alloc);
      Repr := Repr + books[locate].Repr;
      shown := shown[locate := books[locate].model];
      forall l: StockLocate
        ensures BookOk(l)
      {
        assert old(BookOk(l) && Apart(l, locate));
      }
      forall l: StockLocate, k: StockLocate
        ensures Apart(l, k)
      {
        assert old(BookOk(l) && BookOk(k) && Apart(l, k) && Apart(l, locate) && Apart(k, locate));
      }
    }

    method Reject(locate: StockLocate) returns (result: ApplyResult)
      requires Owned()
      modifies `stats
      ensures Owned() && Applied(State(), result) == old(State()).Reject(locate)
    {
      hide OrderBook.Valid;
      stats := stats.Bump(Rejected);
      result := ApplyResult(Rejected, locate, false);
      StillOwned();
    }

    method Ignore(locate: StockLocate) returns (result: ApplyResult)
      requires Owned()
      modifies `stats
      ensures Owned() && Applied(State(), result) == old(State()).Ignore(locate)
    {
      hide OrderBook.Valid;
      stats := stats.Bump(Ignored);
      result := ApplyResult(Ignored, locate, false);
      StillOwned();
    }

    /** The counters are no part of what `Owned` says. */
    twostate lemma StillOwned()
      requires old(Owned())
      requires books == old(books) && shown == old(shown) && Repr == old(Repr)
      requires forall o :: o in Repr && o != this ==> unchanged(o)
      ensures Owned()
    {
      hide OrderBook.Valid;
      forall l: StockLocate
        ensures BookOk(l)
      {
        assert old(BookOk(l));
        if l in books {
          assert forall o :: o in old(books[l].Repr) ==> o in Repr && o != this;
        }
      }
      forall l: StockLocate, k: StockLocate
        ensures Apart(l, k)
      {
        assert old(BookOk(l) && BookOk(k) && Apart(l, k));
      }
    }

    /** Record an outcome and step the global counter. */
    method Count(action: Action, d: int)
      requires Owned()
      modifies `stats, `restingOrderCount
      ensures Owned()
      ensures State() == old(State()).(resting := Shift(old(restingOrderCount), d), stats := old(stats).Bump(action))
    {
      hide OrderBook.Valid;
      restingOrderCount := Shift(restingOrderCount, d);
      stats := stats.Bump(action);
      StillOwned();
    }

    method ApplyAdd(locate: StockLocate, id: OrderId, side: Side, price: Price, shares: Quantity, alloc: Alloc)
      returns (out: Outcome<ApplyResult>, rest: Alloc, ghost f: Failure)
      requires Owned() && !State().Dereferences(locate)
      modifies Repr
      ensures Owned() && fresh(Repr - old(Repr)) && old(Repr) <= Repr
      ensures out.Returned? ==> Applied(State(), out.value) == old(State()).ApplyAdd(locate, id, side, price, shares)
      ensures out.Threw? ==>
        && old(State()).CanFail(locate, f, old(State()).BookAt(locate).Add(id, side, price, shares).ok)
        && State() == old(State()).Failed(locate, f)
      ensures alloc.Never? ==> rest.Never? && out.Returned?
    {
      CanCreateIs(locate);
      assert this in Repr && shown.Keys == books.Keys;
      hide Owned, Book.Add, Stats.Bump, Shift;
      var result;
      rest, f := alloc, OrderFails;
      if !CanCreateOrder(locate) {
        result := Reject(locate);
        return Returned(result), rest, f;
      }
      var added;
      added, rest, f := AddTo(locate, id, side, price, shares, alloc);
      if added.Threw? {
        return Threw, rest, f;
      }
      if !added.value {
        result := Reject(locate);
        return Returned(result), rest, f;
      }
      Count(Added, 1);
      out := Returned(ApplyResult(Added, locate, true));
    }

    /** The handlers of executions and of cancellations. */
    method ApplyReduce(locate: StockLocate, id: OrderId, shares: Quantity, cancelled: bool) returns (result: ApplyResult)
      requires Owned()
      modifies Repr
      ensures Owned() && Repr == old(Repr)
      ensures Applied(State(), result) == old(State()).ApplyReduce(locate, id, shares, cancelled)
    {
      hide Owned, OrderBook.Valid, Shift, Stats.Bump;
      Knows(locate);
      ShiftZero(restingOrderCount);
      if locate !in books {
        result := Reject(locate);
        return;
      }
      var order := books[locate].OrderOf(id);
      if order.None? {
        result := Reject(locate);
        return;
      }
      var reduced := CancelAt(locate, id, shares);
      if !reduced {
        assert shown == old(shown);
        result := Reject(locate);
        return;
      }
      var action := if cancelled then Cancelled else Executed;
      Count(action, if order.value.quantity == shares then -1 else 0);
      result := ApplyResult(action, locate, true);
    }

    method ApplyDelete(locate: StockLocate, id: OrderId) returns (result: ApplyResult)
      requires Owned()
      modifies Repr
      ensures Owned() && Repr == old(Repr)
      ensures Applied(State(), result) == old(State()).ApplyDelete(locate, id)
    {
      hide Owned, OrderBook.Valid, Shift, Stats.Bump;
      Knows(locate);
      if locate !in books {
        result := Reject(locate);
        return;
      }
      var erased := EraseAt(locate, id);
      if !erased {
        assert shown == old(shown);
        result := Reject(locate);
        return;
      }
      Count(Deleted, -1);
      result := ApplyResult(Deleted, locate, true);
    }

    method ApplyReplace(locate: StockLocate, oldId: OrderId, newId: OrderId, price: Price, shares: Quantity, alloc: Alloc)
      returns (out: Outcome<ApplyResult>, rest: Alloc)
      requires Owned()
      modifies Repr
      ensures Owned() && fresh(Repr - old(Repr)) && old(Repr) <= Repr
      ensures out.Returned? ==> Applied(State(), out.value) == old(State()).ApplyReplace(locate, oldId, newId, price, shares)
      ensures out.Threw? ==>
        && locate in old(shown) && old(shown)[locate].Replace(oldId, newId, price, shares).ok
        && State() == old(State()).Failed(locate, OrderFails)
      ensures alloc.Never? ==> rest.Never? && out.Returned?
    {
      assert this in Repr && shown.Keys == books.Keys;
      hide Owned, OrderBook.Valid, Engine.Valid, Book.Replace, Stats.Bump, Shift;
      BookValid(locate);
      var result;
      rest := alloc;
      if locate !in books {
        result := Reject(locate);
        return Returned(result), rest;
      }
      ReplaceRefused(shown[locate], oldId, newId, price, shares);
      ShiftZero(restingOrderCount);
      var replaced;
      replaced, rest := ReplaceAt(locate, oldId, newId, price, shares, alloc);
      if replaced.Threw? {
        return Threw, rest;
      }
      if !replaced.value {
        assert shown == old(shown);
        result := Reject(locate);
        return Returned(result), rest;
      }
      Count(Replaced, 0);
      out := Returned(ApplyResult(Replaced, locate, true));
    }

    lemma BookValid(locate: StockLocate)
      requires Owned()
      ensures locate in books ==> shown[locate].Valid()
    {
      assert BookOk(locate);
    }

    lemma ReplaceRefused(b: Book, oldId: OrderId, newId: OrderId, price: Price, shares: Quantity)
      requires b.Valid()
      ensures !b.Replace(oldId, newId, price, shares).ok ==> b.Replace(oldId, newId, price, shares).book == b
    {
      ApplyValid(b, Op.Replace(oldId, newId, price, shares));
    }

    /** `MatchingEngine::apply`. */
    method Apply(event: ItchEvent, alloc: Alloc) returns (out: Outcome<ApplyResult>, rest: Alloc, ghost f: Failure)
      requires Valid() && !State().Crashes(event)
      modifies Repr
      ensures Valid() && fresh(Repr - old(Repr)) && old(Repr) <= Repr
      ensures out.Returned? ==> Applied(State(), out.value) == old(State()).Apply(event)
      ensures out.Returned? ==> EngineMeaning.EventIs(old(State()), event, Applied(State(), out.value))
      ensures out.Threw? ==> old(State()).CanThrow(event, f) && State() == old(State()).ApplyThrows(event, f)
      ensures alloc.Never? ==> rest.Never? && out.Returned?
    {
      hide Engine.Valid, Engine.Visit, OrderBook.Valid, Engine.CanCreate, Book.Add, Book.Replace, Engine.Failed;
      hide EngineMeaning.EventIs;
      ApplyKeeps(State(), event);
      EngineMeaning.EventMeans(State(), event);
      ghost var e := State();
      stats := stats.(messages := Inc(stats.messages));
      StillOwned();
      assert this in Repr;
      SameAfterReceived(e, event);
      out, rest, f := Visit(event, alloc);
      if out.Threw? {
        ThrownKept(e.Received(), event.header.stockLocate, f);
        NoteThrow();
        assert State() == e.ApplyThrows(event, f);
        ThrowKeeps(e, event, f);
      }
    }

    /** The exception passes through; nothing else happens. */
    ghost method NoteThrow()
      requires Owned()
      modifies `thrown
      ensures Owned() && State() == old(State()).(thrown := old(thrown) + 1)
    {
      hide OrderBook.Valid;
      thrown := thrown + 1;
      StillOwned();
    }

    lemma ThrownKept(e: Engine, l: StockLocate, f: Failure)
      ensures e.Failed(l, f).thrown == e.thrown
    {
    }

    lemma SameAfterReceived(e: Engine, event: ItchEvent)
      ensures e.Received().Crashes(event) <==> e.Crashes(event)
      ensures forall f: Failure :: e.Received().CanThrow(event, f) <==> e.CanThrow(event, f)
    {
      hide Book.Add, Book.Replace, Inc;
    }

    method Visit(event: ItchEvent, alloc: Alloc) returns (out: Outcome<ApplyResult>, rest: Alloc, ghost f: Failure)
      requires Owned() && !State().Crashes(event)
      modifies Repr
      ensures Owned() && fresh(Repr - old(Repr)) && old(Repr) <= Repr
      ensures out.Returned? ==> Applied(State(), out.value) == old(State()).Visit(event)
      ensures out.Threw? ==>
        old(State()).CanThrow(event, f) && State() == old(State()).Failed(event.header.stockLocate, f)
      ensures alloc.Never? ==> rest.Never? && out.Returned?
    {
      assert this in Repr;
      hide Owned, State, Engine.ApplyAdd, Engine.ApplyReduce, Engine.ApplyDelete, Engine.ApplyReplace, Engine.Ignore;
      hide Book.Add, Book.Replace, Engine.Failed, Engine.CanFail, Engine.Dereferences;
      rest, f := alloc, OrderFails;
      if event.AddOrder? || event.AddAttributedOrder? {
        out, rest, f := ApplyAdd(event.header.stockLocate, event.orderReference, event.side, event.price, event.shares, alloc);
      } else if event.OrderReplace? {
        out, rest := ApplyReplace(event.header.stockLocate, event.originalReference, event.newReference, event.price,
                                  event.shares, alloc);
      } else {
        var result := VisitOther(event);
        out := Returned(result);
      }
    }

    /** The handlers that allocate nothing. */
    method VisitOther(event: ItchEvent) returns (result: ApplyResult)
      requires Owned() && !event.AddOrder? && !event.AddAttributedOrder? && !event.OrderReplace?
      modifies Repr
      ensures Owned() && Repr == old(Repr)
      ensures Applied(State(), result) == old(State()).Visit(event)
    {
      assert this in Repr;
      hide Owned, State, Engine.ApplyReduce, Engine.ApplyDelete, Engine.Ignore;
      if event.OrderExecuted? || event.OrderExecutedWithPrice? {
        result := ApplyReduce(event.header.stockLocate, event.orderReference, event.executedShares, false);
      } else if event.OrderCancel? {
        result := ApplyReduce(event.header.stockLocate, event.orderReference, event.canceledShares, true);
      } else if event.OrderDelete? {
        result := ApplyDelete(event.header.stockLocate, event.orderReference);
      } else if event.SkippedMessage? {
        result := Ignore(if event.skippedHeader.Some? then event.skippedHeader.value.stockLocate else 0);
      } else {
        result := Ignore(event.header.stockLocate);
      }
    }

    /** Step the global counter. */
    method Uncount()
      requires Owned()
      modifies `restingOrderCount
      ensures Owned() && restingOrderCount == Shift(old(restingOrderCount), -1)
    {
      hide OrderBook.Valid;
      restingOrderCount := Shift(restingOrderCount, -1);
      StillOwned();
    }

    /** The next fill of the matching loop, if any: the front order of the best opposite price. The exit
        for a level without a front order is unreachable. */
    method NextFill(locate: StockLocate, side: Side, limitPrice: Price, hasLimit: bool, remaining: Quantity)
      returns (fill: Option<Fill>, whole: bool)
      requires Owned() && locate in books && remaining != 0
      ensures var t := Taker(side, limitPrice, hasLimit);
        if fill.None? then NoNext(shown[locate], t) else IsNext(shown[locate], t, remaining, fill.value, whole)
    {
      hide Owned, OrderBook.Valid, Flatten, Book.Valid;
      BookOf(locate);
      fill, whole := None, false;
      var oppositePrice: Option<Price>;
      if side == Buy {
        oppositePrice := books[locate].BestAsk();
      } else {
        oppositePrice := books[locate].BestBid();
      }
      KeysOfFlat(shown[locate], side.Opposite());
      if oppositePrice.None? {
        return;
      }
      var price := oppositePrice.value;
      FrontIsHead(shown[locate], side.Opposite(), price);
      var crosses := if side == Buy then limitPrice >= price else limitPrice <= price;
      if hasLimit && !crosses {
        return;
      }
      var resting := books[locate].FrontOrder(side.Opposite(), price);
      if resting.None? {
        assert false;
      }
      var fillQuantity := if remaining < resting.value.quantity then remaining else resting.value.quantity;
      fill := Some(Fill(resting.value.orderId, price, fillQuantity));
      whole := fillQuantity == resting.value.quantity;
    }

    /** Execute a fill on the book. The exit for an order that cannot be executed is unreachable. */
    method Consume(locate: StockLocate, fill: Fill, whole: bool)
      requires Owned() && locate in books
      requires shown[locate].Execute(fill.restingOrder, fill.quantity).ok
      requires whole == (shown[locate].orders[fill.restingOrder].quantity == fill.quantity)
      modifies Repr
      ensures Owned() && Repr == old(Repr) && books == old(books) && SameHistory(old(State()))
      ensures locate in shown && shown[locate] == old(shown)[locate].Execute(fill.restingOrder, fill.quantity).book
      ensures OnlyAt(old(shown), locate, shown)
      ensures restingOrderCount == Shift(old(restingOrderCount), |shown[locate].orders| - |old(shown)[locate].orders|)
    {
      hide Owned, OrderBook.Valid, Book.Cancel, Book.Valid, Shift, OnlyAt;
      Knows(locate);
      BookOf(locate);
      ShiftZero(restingOrderCount);
      OnlyAtSet(shown, locate, shown[locate].Cancel(fill.restingOrder, fill.quantity).book);
      CancelCount(shown[locate], fill.restingOrder, fill.quantity);
      var executed := CancelAt(locate, fill.restingOrder, fill.quantity);
      if !executed {
        assert false;
      }
      if whole {
        Uncount();
      }
    }

    /** The buffer holds the first fills, as many as fit, and is unchanged behind them. */
    ghost predicate Buffered(fillOutput: array<Fill>, before: seq<Fill>, fills: seq<Fill>)
      reads fillOutput
    {
      && fillOutput.Length == |before|
      && forall i :: 0 <= i < fillOutput.Length ==> fillOutput[i] == if i < |fills| then fills[i] else before[i]
    }

    lemma StartBuffer(fillOutput: array<Fill>)
      ensures Buffered(fillOutput, fillOutput[..], [])
    {
    }

    /** Write one fill to the buffer, or note that it was too short. */
    method Record(fillOutput: array<Fill>, fillCount: nat, fill: Fill, wasTruncated: bool, ghost before: seq<Fill>,
                  ghost fills: seq<Fill>) returns (truncated: bool)
      requires Buffered(fillOutput, before, fills) && fillCount == |fills|
      modifies fillOutput
      ensures Buffered(fillOutput, before, fills + [fill])
      ensures truncated == (wasTruncated || |fills| >= fillOutput.Length)
    {
      truncated := wasTruncated;
      if fillCount < fillOutput.Length {
        fillOutput[fillCount] := fill;
      } else {
        truncated := true;
      }
    }

    /** `MatchingEngine::match`: take from the best opposite price, oldest order first, until nothing is
        left to fill or nothing left may trade. */
    method Match(locate: StockLocate, side: Side, limitPrice: Price, quantity: Quantity, hasLimit: bool,
                 fillOutput: array<Fill>) returns (result: MatchResult)
      requires Owned() && fillOutput !in Repr
      modifies Repr, fillOutput
      ensures Owned() && Repr == old(Repr)
      ensures var m := old(State()).Match(locate, Taker(side, limitPrice, hasLimit), quantity, fillOutput.Length);
        State() == m.engine && result == m.result && Buffered(fillOutput, old(fillOutput[..]), m.fills)
    {
      ghost var t := Taker(side, limitPrice, hasLimit);
      assert shown.Keys == books.Keys;
      hide Owned, OrderBook.Valid, Swept, Flatten, Book.Cancel, Book.Valid, Buffered;
      if locate !in books {
        EmptySweep(t, quantity);
        StartBuffer(fillOutput);
        return MatchResult(0, quantity, 0, 0, false, true);
      }
      hide OnlyAt, Counted;
      result := MatchBook(locate, side, limitPrice, quantity, hasLimit, fillOutput);
      OnlyAtEnd(old(shown), locate, shown);
      CountedEnd(old(shown), old(restingOrderCount), locate);
    }

    /** The counter has moved by what the book of `l` has lost. */
    ghost predicate Counted(was: Books, count: Word, l: StockLocate)
      reads this
    {
      l in was && l in shown && restingOrderCount == Shift(count, |shown[l].orders| - |was[l].orders|)
    }

    lemma CountedStart(l: StockLocate)
      requires l in shown
      ensures Counted(shown, restingOrderCount, l)
    {
      ShiftZero(restingOrderCount);
    }

    lemma CountedEnd(was: Books, count: Word, l: StockLocate)
      requires Counted(was, count, l)
      ensures l in was && l in shown && restingOrderCount == Shift(count, |shown[l].orders| - |was[l].orders|)
    {
    }

    /** The matching loop that started in `was` has done the first fills of its sweep of the book of `l`. */
    ghost predicate Midway(was: Engine, l: StockLocate, t: Taker, quantity: Quantity, done: seq<Fill>, remaining: Quantity)
      reads this
    {
      && SameHistory(was) && l in shown && OnlyAt(was.books, l, shown) && Counted(was.books, was.resting, l)
      && Progress(was.books[l], t, quantity, done, shown[l], remaining)
    }

    lemma MidwayStart(l: StockLocate, t: Taker, quantity: Quantity)
      requires l in shown
      ensures Midway(State(), l, t, quantity, [], quantity)
    {
      hide Progress, Counted, OnlyAt;
      OnlyAtStart(shown, l);
      CountedStart(l);
      ProgressStart(shown[l], t, quantity);
    }

    lemma MidwayEnd(was: Engine, l: StockLocate, t: Taker, quantity: Quantity, done: seq<Fill>, remaining: Quantity)
      requires Midway(was, l, t, quantity, done, remaining)
      requires remaining == 0 || (l in shown && NoNext(shown[l], t))
      ensures SameHistory(was) && l in shown && OnlyAt(was.books, l, shown) && Counted(was.books, was.resting, l)
      ensures l in was.books && done == Fills(was.books[l], t, quantity) && shown[l] == Swept(was.books[l], t, quantity)
      ensures Filled(done) + remaining == quantity
    {
      hide Fills, Swept, Filled, Progress;
      ProgressEnd(was.books[l], t, quantity, done, shown[l], remaining);
    }

    /** Execute the next fill: the sweep of the book is one fill further. */
    method Advance(locate: StockLocate, fill: Fill, whole: bool, ghost was: Engine, ghost t: Taker,
                   ghost quantity: Quantity, ghost done: seq<Fill>, ghost remaining: Quantity)
      requires Owned() && locate in books && locate in shown && remaining != 0
      requires Midway(was, locate, t, quantity, done, remaining)
      requires IsNext(shown[locate], t, remaining, fill, whole)
      modifies Repr
      ensures Owned() && Repr == old(Repr) && books == old(books)
      ensures 0 < fill.quantity <= remaining
      ensures Midway(was, locate, t, quantity, done + [fill], remaining - fill.quantity)
    {
      hide Owned, OrderBook.Valid, Progress, IsNext, Counted, OnlyAt, Shift, Book.Cancel, Book.Valid;
      CountedEnd(was.books, was.resting, locate);
      BookOf(locate);
      ProgressStep(was.books[locate], t, quantity, done, shown[locate], remaining, fill, whole);
      ghost var books1, count1 := shown, restingOrderCount;
      Consume(locate, fill, whole);
      Follow(was.books, was.resting, locate, books1, count1);
    }

    lemma Follow(was: Books, count: Word, l: StockLocate, mid: Books, midCount: Word)
      requires OnlyAt(was, l, mid) && OnlyAt(mid, l, shown) && l in was
      requires midCount == Shift(count, |mid[l].orders| - |was[l].orders|)
      requires restingOrderCount == Shift(midCount, |shown[l].orders| - |mid[l].orders|)
      ensures OnlyAt(was, l, shown) && Counted(was, count, l)
    {
      ShiftTwice(count, |mid[l].orders| - |was[l].orders|, |shown[l].orders| - |mid[l].orders|);
    }

    /** Look at the front of the best opposite price and trade with it, if it may be traded with. */
    method TakeNext(locate: StockLocate, side: Side, limitPrice: Price, hasLimit: bool, remaining: Quantity,
                    ghost was: Engine, ghost quantity: Quantity, ghost done: seq<Fill>) returns (fill: Option<Fill>)
      requires Owned() && locate in books && remaining != 0
      requires Midway(was, locate, Taker(side, limitPrice, hasLimit), quantity, done, remaining)
      modifies Repr
      ensures Owned() && Repr == old(Repr) && books == old(books)
      ensures var t := Taker(side, limitPrice, hasLimit);
        if fill.None? then locate in shown && NoNext(shown[locate], t) && Midway(was, locate, t, quantity, done, remaining)
        else 0 < fill.value.quantity <= remaining
             && Midway(was, locate, t, quantity, done + [fill.value], remaining - fill.value.quantity)
    {
      hide Owned, OrderBook.Valid, Midway, IsNext, NoNext;
      var whole;
      Knows(locate);
      fill, whole := NextFill(locate, side, limitPrice, hasLimit, remaining);
      if fill.Some? {
        Advance(locate, fill.value, whole, was, Taker(side, limitPrice, hasLimit), quantity, done, remaining);
      }
    }

    /** The matching loop on an existing book. */
    method MatchBook(locate: StockLocate, side: Side, limitPrice: Price, quantity: Quantity, hasLimit: bool,
                     fillOutput: array<Fill>) returns (result: MatchResult)
      requires Owned() && locate in books && locate in shown && fillOutput !in Repr
      modifies Repr, fillOutput
      ensures Owned() && Repr == old(Repr) && SameHistory(old(State())) && locate in shown
      ensures var t := Taker(side, limitPrice, hasLimit); var b := old(shown)[locate]; var fills := Fills(b, t, quantity);
        && OnlyAt(old(shown), locate, shown) && shown[locate] == Swept(b, t, quantity)
        && Counted(old(shown), old(restingOrderCount), locate)
        && Filled(fills) <= quantity
        && result == MatchResult(Filled(fills), quantity - Filled(fills), 0, |fills|, |fills| > fillOutput.Length, true)
        && Buffered(fillOutput, old(fillOutput[..]), fills)
    {
      hide Owned, OrderBook.Valid, Midway, Swept, Fills, Filled, Buffered, OnlyAt, Counted, NoNext, SameHistory;
      Knows(locate);
      ghost var t, was, before := Taker(side, limitPrice, hasLimit), State(), fillOutput[..];
      ghost var done: seq<Fill> := [];
      StartBuffer(fillOutput);
      MidwayStart(locate, t, quantity);
      var remaining: Quantity := quantity;
      var filled: Quantity := 0;
      var fillCount, truncated := 0, false;
      while remaining != 0
        invariant Owned() && Repr == old(Repr) && locate in books
        invariant Midway(was, locate, t, quantity, done, remaining)
        invariant fillCount == |done| && truncated == (|done| > fillOutput.Length) && filled + remaining == quantity
        invariant Buffered(fillOutput, before, done)
        decreases remaining
      {
        var fill := TakeNext(locate, side, limitPrice, hasLimit, remaining, was, quantity, done);
        if fill.None? {
          break;
        }
        truncated := Record(fillOutput, fillCount, fill.value, truncated, before, done);
        done := done + [fill.value];
        fillCount := fillCount + 1;
        filled := filled + fill.value.quantity;
        remaining := remaining - fill.value.quantity;
      }
      MidwayEnd(was, locate, t, quantity, done, remaining);
      result := MatchResult(filled, remaining, 0, fillCount, truncated, true);
    }

    /** Only the book of `l` has changed. */
    static ghost predicate OnlyAt(was: Books, l: StockLocate, now: Books) {
      l in now && now == was[l := now[l]]
    }

    static lemma OnlyAtSet(was: Books, l: StockLocate, b: Book)
      ensures OnlyAt(was, l, was[l := b])
    {
    }

    static lemma OnlyAtStart(books: Books, l: StockLocate)
      requires l in books
      ensures OnlyAt(books, l, books)
    {
    }

    static lemma OnlyAtEnd(was: Books, l: StockLocate, now: Books)
      requires OnlyAt(was, l, now)
      ensures now == was[l := now[l]]
    {
    }

    lemma BookOf(locate: StockLocate)
      requires Owned() && locate in books
      ensures books[locate].Valid() && books[locate].model == shown[locate] && shown[locate].Valid()
      ensures locate in shown
    {
      assert BookOk(locate);
    }

    /** `MatchingEngine::submit_limit`. */
    method SubmitLimit(locate: StockLocate, orderId: OrderId, side: Side, limitPrice: Price, quantity: Quantity,
                       fillOutput: array<Fill>, alloc: Alloc) returns (out: Outcome<MatchResult>, rest: Alloc, ghost f: Failure)
      requires Valid() && fillOutput !in Repr && !State().LimitCrashes(locate, quantity)
      modifies Repr, fillOutput
      ensures Valid() && fresh(Repr - old(Repr)) && old(Repr) <= Repr
      ensures var m := old(State()).SubmitLimit(locate, orderId, side, limitPrice, quantity, fillOutput.Length);
        && Buffered(fillOutput, old(fillOutput[..]), m.fills)
        && (out.Returned? ==> State() == m.engine && out.value == m.result)
        && (out.Returned? ==> SubmissionMeaning.LimitIs(old(State()), locate, orderId, side, limitPrice, quantity,
                                                        fillOutput.Length, Submission(State(), out.value, m.fills)))
      ensures out.Threw? ==>
        && old(State()).LimitCanThrow(locate, orderId, side, limitPrice, quantity, f)
        && State() == old(State()).LimitThrows(locate, side, limitPrice, quantity, f)
      ensures alloc.Never? ==> rest.Never? && out.Returned?
    {
      hide Owned, Engine.Valid, Engine.Match, Engine.Matched, OrderBook.Valid, Buffered, Book.Add, Engine.CanFail, Engine.Failed;
      hide SubmissionMeaning.LimitIs;
      SubmissionMeaning.LimitMeans(State(), locate, orderId, side, limitPrice, quantity, fillOutput.Length);
      SubmitLimitKeeps(State(), locate, orderId, side, limitPrice, quantity, fillOutput.Length);
      StartBuffer(fillOutput);
      Knows(locate);
      var taken := false;
      if locate in books {
        taken := books[locate].Contains(orderId);
      }
      if quantity == 0 || taken {
        return Returned(REFUSED), alloc, OrderFails;
      }
      ghost var e := State();
      out, rest, f := MatchAndRest(locate, orderId, side, limitPrice, quantity, fillOutput, alloc);
      if out.Threw? {
        LimitThrowKeeps(e, locate, orderId, side, limitPrice, quantity, f);
      }
    }

    /** What the queries of a book answer. */
    lemma Knows(locate: StockLocate)
      requires Owned()
      ensures this in Repr && (locate in books <==> locate in shown)
      ensures locate in books ==> books[locate].Valid() && books[locate].model == shown[locate]
    {
      assert BookOk(locate);
    }

    method MatchAndRest(locate: StockLocate, orderId: OrderId, side: Side, limitPrice: Price, quantity: Quantity,
                        fillOutput: array<Fill>, alloc: Alloc)
      returns (out: Outcome<MatchResult>, rest: Alloc, ghost f: Failure)
      requires Valid() && fillOutput !in Repr && quantity != 0 && orderId !in State().BookAt(locate).orders
      requires !State().LimitCrashes(locate, quantity)
      modifies Repr, fillOutput
      ensures Owned() && fresh(Repr - old(Repr)) && old(Repr) <= Repr
      ensures var m := old(State()).SubmitLimit(locate, orderId, side, limitPrice, quantity, fillOutput.Length);
        && Buffered(fillOutput, old(fillOutput[..]), m.fills)
        && (out.Returned? ==> State() == m.engine && out.value == m.result)
      ensures out.Threw? ==>
        && old(State()).LimitCanThrow(locate, orderId, side, limitPrice, quantity, f)
        && State() == old(State()).LimitThrows(locate, side, limitPrice, quantity, f)
      ensures alloc.Never? ==> rest.Never? && out.Returned?
    {
      hide Owned, Engine.Valid, Engine.Matched, Buffered, Fills, Filled, Book.Add, Engine.CanFail, Engine.Failed;
      ghost var t, e := Taker(side, limitPrice, true), State();
      RestCanBeAdded(e, locate, t, quantity, orderId);
      MatchedKeeps(e, locate, t, quantity);
      BookCounts(e, locate);
      var matched := Match(locate, side, limitPrice, quantity, true, fillOutput);
      rest, f := alloc, OrderFails;
      if matched.resting == 0 {
        return Returned(matched), rest, f;
      }
      out, rest, f := RestRemainder(locate, orderId, side, limitPrice, matched, alloc);
    }

    /** Rest what a limit order did not fill, unless a cap refuses it. */
    method RestRemainder(locate: StockLocate, orderId: OrderId, side: Side, limitPrice: Price, matched: MatchResult, alloc: Alloc)
      returns (out: Outcome<MatchResult>, rest: Alloc, ghost f: Failure)
      requires Owned() && matched.resting != 0 && matched.unfilled == 0 && orderId !in State().BookAt(locate).orders
      requires !State().Dereferences(locate)
      modifies Repr
      ensures Owned() && fresh(Repr - old(Repr)) && old(Repr) <= Repr
      ensures var e := old(State()); var s := e.BookAt(locate).Add(orderId, side, limitPrice, matched.resting);
        out.Returned? ==>
          if !e.CanCreate(locate) || !s.ok then
            State() == e && out.value == matched.(unfilled := matched.resting, resting := 0, accepted := false)
          else
            State() == e.WithBook(locate, s.book).(resting := Shift(e.resting, 1)) && out.value == matched
      ensures out.Threw? ==> old(State()).CanFail(locate, f, true) && State() == old(State()).Failed(locate, f)
      ensures alloc.Never? ==> rest.Never? && out.Returned?
    {
      assert this in Repr && shown.Keys == books.Keys;
      CanCreateIs(locate);
      hide Owned, Shift;
      var result := matched;
      rest, f := alloc, OrderFails;
      var rested := false;
      if CanCreateOrder(locate) {
        var added;
        added, rest, f := AddTo(locate, orderId, side, limitPrice, matched.resting, alloc);
        if added.Threw? {
          return Threw, rest, f;
        }
        rested := added.value;
      }
      if !rested {
        result := result.(unfilled := result.unfilled + result.resting, resting := 0, accepted := false);
      } else {
        CountOne();
      }
      out := Returned(result);
    }

    method CountOne()
      requires Owned()
      modifies `restingOrderCount
      ensures Owned() && restingOrderCount == Shift(old(restingOrderCount), 1)
    {
      hide OrderBook.Valid;
      restingOrderCount := Shift(restingOrderCount, 1);
      StillOwned();
    }

    /** `MatchingEngine::submit_market`. */
    method SubmitMarket(locate: StockLocate, side: Side, quantity: Quantity, fillOutput: array<Fill>)
      returns (result: MatchResult)
      requires Valid() && fillOutput !in Repr
      modifies Repr, fillOutput
      ensures Valid() && Repr == old(Repr)
      ensures var m := old(State()).SubmitMarket(locate, side, quantity, fillOutput.Length);
        && State() == m.engine && result == m.result && Buffered(fillOutput, old(fillOutput[..]), m.fills)
        && SubmissionMeaning.MarketIs(old(State()), locate, side, quantity, fillOutput.Length,
                                      Submission(State(), result, m.fills))
    {
      SubmitMarketKeeps(State(), locate, side, quantity, fillOutput.Length);
      SubmissionMeaning.MarketMeans(State(), locate, side, quantity, fillOutput.Length);
      StartBuffer(fillOutput);
      hide SubmissionMeaning.MarketIs, Owned, Engine.Valid, Engine.Matched, OrderBook.Valid, Buffered, Fills, Filled;
      if quantity == 0 {
        return REFUSED;
      }
      result := Match(locate, side, 0, quantity, false, fillOutput);
      result := result.(unfilled := result.resting);
      result := result.(resting := 0);
    }
  }
}
