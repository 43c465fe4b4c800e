/** Properties of whole runs of the matching engine. */
module EngineRuns {
  import opened Bits
  import opened Common
  import opened Itch
  import opened BookModel
  import opened BookLaws
  import opened Sweep
  import opened EngineModel
  import opened EngineLaws

  /** What can happen to the engine: calls that return, and calls that end in an exception because an
      allocation fails. */
  datatype Input =
    | Event(event: ItchEvent)
    | EventThrows(event: ItchEvent, failure: Failure)
    | Limit(locate: StockLocate, id: OrderId, side: Side, price: Price, quantity: Quantity, capacity: nat)
    | LimitThrows(locate: StockLocate, id: OrderId, side: Side, price: Price, quantity: Quantity, failure: Failure)
    | Market(locate: StockLocate, side: Side, quantity: Quantity, capacity: nat)
    | Clear

  /** The call can go this way, and dereferences no missing book. */
  ghost predicate Defined(e: Engine, i: Input) {
    match i
    case Event(event) => !e.Crashes(event)
    case EventThrows(event, f) => e.CanThrow(event, f)
    case Limit(l, _, _, _, quantity, _) => !e.LimitCrashes(l, quantity)
    case LimitThrows(l, id, side, price, quantity, f) => e.LimitCanThrow(l, id, side, price, quantity, f)
    case _ => true
  }

  ghost function Next(e: Engine, i: Input): Engine
    requires Defined(e, i)
  {
    match i
    case Event(event) => e.Apply(event).engine
    case EventThrows(event, f) => e.ApplyThrows(event, f)
    case Limit(l, id, side, price, quantity, capacity) => e.SubmitLimit(l, id, side, price, quantity, capacity).engine
    case LimitThrows(l, _, side, price, quantity, f) => e.LimitThrows(l, side, price, quantity, f)
    case Market(l, side, quantity, capacity) => e.SubmitMarket(l, side, quantity, capacity).engine
    case Clear => NewEngine(e.limits)
  }

  ghost predicate Sound(e: Engine, inputs: seq<Input>)
    decreases |inputs|
  {
    inputs == [] || (Defined(e, inputs[0]) && Sound(Next(e, inputs[0]), inputs[1..]))
  }

  ghost function Run(e: Engine, inputs: seq<Input>): Engine
    requires Sound(e, inputs)
    decreases |inputs|
  {
    if inputs == [] then e else Run(Next(e, inputs[0]), inputs[1..])
  }

  // ---- the counter, the caps and the statistics ----

  lemma {:induction false} RunKeeps(e: Engine, inputs: seq<Input>)
    requires e.Valid() && Sound(e, inputs)
    ensures Run(e, inputs).Valid() && Run(e, inputs).limits == e.limits
    decreases |inputs|
  {
    hide Engine.Valid, Next, Defined;
    if inputs != [] {
      NextKeeps(e, inputs[0]);
      RunKeeps(Next(e, inputs[0]), inputs[1..]);
    }
  }

  lemma NextKeeps(e: Engine, i: Input)
    requires e.Valid() && Defined(e, i)
    ensures Next(e, i).Valid() && Next(e, i).limits == e.limits
  {
    hide Engine.Valid, Engine.Apply, Engine.SubmitLimit, Engine.SubmitMarket, Engine.ApplyThrows, Engine.LimitThrows;
    hide Engine.Crashes, Engine.CanThrow, Engine.LimitCrashes, Engine.LimitCanThrow;
    NewEngineValid(e.limits);
    match i
    case Event(event) => ApplyKeeps(e, event);
    case EventThrows(event, f) => ThrowKeeps(e, event, f);
    case Limit(l, id, side, price, quantity, capacity) => SubmitLimitKeeps(e, l, id, side, price, quantity, capacity);
    case LimitThrows(l, id, side, price, quantity, f) => LimitThrowKeeps(e, l, id, side, price, quantity, f);
    case Market(l, side, quantity, capacity) => SubmitMarketKeeps(e, l, side, quantity, capacity);
    case Clear =>
  }

  /** In every reachable state, exceptions included, the global counter is the number of orders in all books
      and within its cap, the entries of the map of books are within theirs, and `messages` is the sum of
      the seven outcomes and of the events that ended in an exception. */
  lemma CountersHold(limits: Limits, inputs: seq<Input>)
    requires Sound(NewEngine(limits), inputs)
    ensures var e := Run(NewEngine(limits), inputs);
      && e.resting == SumOrders(e.books) <= limits.maxRestingOrders
      && e.Entries() <= limits.maxInstruments && e.hollow !! e.books.Keys
      && e.stats.messages == (e.stats.Outcomes() + e.thrown) % TWO_64
      && forall l :: l in e.books ==> e.books[l].Valid()
  {
    hide Engine.Valid, Run, Sound, SumOrders;
    NewEngineValid(limits);
    RunKeeps(NewEngine(limits), inputs);
    ValidMeans(Run(NewEngine(limits), inputs));
  }

  lemma ValidMeans(e: Engine)
    requires e.Valid()
    ensures e.resting == SumOrders(e.books) <= e.limits.maxRestingOrders
    ensures e.Entries() <= e.limits.maxInstruments && e.hollow !! e.books.Keys
    ensures e.stats.messages == (e.stats.Outcomes() + e.thrown) % TWO_64
    ensures forall l :: l in e.books ==> e.books[l].Valid()
  {
    hide Book.Valid, SumOrders, CountedTo, Stats.Outcomes;
    CountedIsRemainder(e.stats.Outcomes() + e.thrown);
  }

  // ---- which runs are sound ----

  function LocateOf(event: ItchEvent): StockLocate {
    match event
    case SkippedMessage(_, h) => if h.Some? then h.value.stockLocate else 0
    case other => other.header.stockLocate
  }

  /** The locate whose book could not be allocated in a call. */
  function BookFailed(i: Input): set<StockLocate> {
    match i
    case EventThrows(event, BookFails) => {LocateOf(event)}
    case LimitThrows(l, _, _, _, _, BookFails) => {l}
    case _ => {}
  }

  /** The locates whose book could not be allocated since the last `clear`. */
  function FailedSince(failed: set<StockLocate>, inputs: seq<Input>): set<StockLocate>
    decreases |inputs|
  {
    if inputs == [] then failed
    else FailedSince(if inputs[0].Clear? then {} else failed + BookFailed(inputs[0]), inputs[1..])
  }

  lemma ApplyHollow(e: Engine, event: ItchEvent)
    ensures e.Apply(event).engine.hollow == e.hollow
  {
    hide Engine.CanCreate, Book.Add, Book.Cancel, Book.Erase, Book.Replace, Stats.Bump, Shift, Inc;
  }

  lemma LimitHollow(e: Engine, l: StockLocate, id: OrderId, side: Side, price: Price, quantity: Quantity, capacity: nat)
    ensures e.SubmitLimit(l, id, side, price, quantity, capacity).engine.hollow == e.hollow
  {
    hide Engine.CanCreate, Book.Add, Swept, Fills, Filled, Shift;
  }

  lemma NextHollow(e: Engine, i: Input)
    requires Defined(e, i)
    ensures Next(e, i).hollow == if i.Clear? then {} else e.hollow + BookFailed(i)
  {
    hide Engine.Apply, Engine.SubmitLimit, Engine.CanFail, Swept, Fills, Filled, Shift, Inc;
    match i
    case Event(event) => ApplyHollow(e, event);
    case Limit(l, id, side, price, quantity, capacity) => LimitHollow(e, l, id, side, price, quantity, capacity);
    case _ =>
  }

  /** Entries without a book are exactly those of the locates whose book could not be allocated. */
  lemma {:induction false} HollowIs(e: Engine, inputs: seq<Input>)
    requires Sound(e, inputs)
    ensures Run(e, inputs).hollow == FailedSince(e.hollow, inputs)
    decreases |inputs|
  {
    hide Next, Defined;
    if inputs != [] {
      NextHollow(e, inputs[0]);
      HollowIs(Next(e, inputs[0]), inputs[1..]);
    }
  }

  /** When the engine dereferences a missing book: after a sound run from an empty engine, exactly on an order
      within the caps for a locate whose book could not be allocated since the last `clear`. */
  lemma CrashesExactly(limits: Limits, inputs: seq<Input>, event: ItchEvent)
    requires Sound(NewEngine(limits), inputs)
    ensures var e := Run(NewEngine(limits), inputs);
      e.Crashes(event) <==>
        (event.AddOrder? || event.AddAttributedOrder?) && SumOrders(e.books) < limits.maxRestingOrders
        && |e.books| + |e.hollow| < limits.maxInstruments && event.header.stockLocate in FailedSince({}, inputs)
  {
    hide Engine.Valid, Run, Sound, SumOrders, FailedSince;
    HollowIs(NewEngine(limits), inputs);
    CountersHold(limits, inputs);
    NewEngineValid(limits);
    RunKeeps(NewEngine(limits), inputs);
  }

  /** Such a run: the book of the first order cannot be allocated, and the second order finds its entry. */
  lemma FailedBookIsDereferenced(h: Header, stock: Chars8)
    ensures var order := AddOrder(h, 1, Buy, 10, stock, 100);
      var failure, e0 := EventThrows(order, BookFails), NewEngine(Limits(2, 1));
      && Sound(e0, [failure]) && Run(e0, [failure]).Crashes(order)
  {
    var order := AddOrder(h, 1, Buy, 10, stock, 100);
    var failure, e0 := EventThrows(order, BookFails), NewEngine(Limits(2, 1));
    assert e0.CanThrow(order, BookFails);
    var e1 := Next(e0, failure);
    assert e1.hollow == {h.stockLocate} && |e1.hollow| == 1;
    assert [failure][1..] == [] && Sound(e1, []);
  }

  /** Without a failed allocation every run is sound. */
  lemma {:induction false} NoFailureIsSound(e: Engine, inputs: seq<Input>)
    requires e.hollow == {} && forall i :: i in inputs ==> !i.EventThrows? && !i.LimitThrows?
    ensures Sound(e, inputs)
    decreases |inputs|
  {
    hide Next;
    if inputs != [] {
      assert inputs[0] in inputs;
      assert Defined(e, inputs[0]);
      NextHollow(e, inputs[0]);
      NoFailureIsSound(Next(e, inputs[0]), inputs[1..]);
    }
  }

  // ---- events touch one book, and only when they say so ----

  /** The book operation an event asks of a locate's book, if it is for that book. */
  function OpFor(event: ItchEvent, l: StockLocate): Option<Op> {
    match event
    case AddOrder(h, id, side, shares, _, price) =>
      if h.stockLocate == l then Some(Op.Add(id, side, price, shares)) else None
    case AddAttributedOrder(h, id, side, shares, _, price, _) =>
      if h.stockLocate == l then Some(Op.Add(id, side, price, shares)) else None
    case OrderExecuted(h, id, shares, _) => if h.stockLocate == l then Some(Op.Execute(id, shares)) else None
    case OrderExecutedWithPrice(h, id, shares, _, _, _) =>
      if h.stockLocate == l then Some(Op.Execute(id, shares)) else None
    case OrderCancel(h, id, shares) => if h.stockLocate == l then Some(Op.Cancel(id, shares)) else None
    case OrderDelete(h, id) => if h.stockLocate == l then Some(Op.Erase(id)) else None
    case OrderReplace(h, oldId, newId, shares, price) =>
      if h.stockLocate == l then Some(Op.Replace(oldId, newId, price, shares)) else None
    case _ => None
  }

  /** A cap refuses the order of an add event. */
  predicate Capped(e: Engine, event: ItchEvent) {
    (event.AddOrder? || event.AddAttributedOrder?) && !e.CanCreate(event.header.stockLocate)
  }

  /** What an event does to each book: its own operation on its own book, unless a cap refuses it. */
  ghost predicate DoesItsOp(e: Engine, event: ItchEvent, l: StockLocate) {
    e.Apply(event).engine.BookAt(l)
    == match OpFor(event, l)
       case None => e.BookAt(l)
       case Some(op) => if Capped(e, event) then e.BookAt(l) else Apply(e.BookAt(l), op).book
  }

  lemma EventOnBook(e: Engine, event: ItchEvent, l: StockLocate)
    requires (forall k :: k in e.books ==> e.books[k].Valid()) && !e.Crashes(event)
    ensures DoesItsOp(e, event, l)
  {
    hide DoesItsOp, Book.Valid;
    if event.AddOrder? || event.AddAttributedOrder? {
      AddEventOnBook(e, event, l);
    } else if event.OrderExecuted? || event.OrderExecutedWithPrice? || event.OrderCancel? {
      ReduceEventOnBook(e, event, l);
    } else {
      OtherEventOnBook(e, event, l);
    }
  }

  lemma AddEventOnBook(e: Engine, event: ItchEvent, l: StockLocate)
    requires event.AddOrder? || event.AddAttributedOrder?
    ensures DoesItsOp(e, event, l)
  {
    hide Engine.ApplyAdd, Book.Add;
    AddOnBook(e.Received(), event.header.stockLocate, event.orderReference, event.side, event.price, event.shares, l);
  }

  lemma ReduceEventOnBook(e: Engine, event: ItchEvent, l: StockLocate)
    requires event.OrderExecuted? || event.OrderExecutedWithPrice? || event.OrderCancel?
    ensures DoesItsOp(e, event, l)
  {
    hide Engine.ApplyReduce, Book.Cancel;
    var shares := if event.OrderCancel? then event.canceledShares else event.executedShares;
    ReduceOnBook(e.Received(), event.header.stockLocate, event.orderReference, shares, event.OrderCancel?, l);
  }

  lemma OtherEventOnBook(e: Engine, event: ItchEvent, l: StockLocate)
    requires forall k :: k in e.books ==> e.books[k].Valid()
    requires !event.AddOrder? && !event.AddAttributedOrder?
    requires !event.OrderExecuted? && !event.OrderExecutedWithPrice? && !event.OrderCancel?
    ensures DoesItsOp(e, event, l)
  {
    hide DoesItsOp, Book.Valid;
    if event.OrderDelete? {
      DeleteOnBook(e, event, l);
    } else if event.OrderReplace? {
      ReplaceEventOnBook(e, event, l);
    } else {
      IgnoredOnBook(e, event, l);
    }
  }

  lemma DeleteOnBook(e: Engine, event: ItchEvent, l: StockLocate)
    requires event.OrderDelete?
    ensures DoesItsOp(e, event, l)
  {
    hide Engine.ApplyDelete, Book.Erase;
    EndOnBook(e.Received(), event.header.stockLocate, event.orderReference, l);
  }

  lemma ReplaceEventOnBook(e: Engine, event: ItchEvent, l: StockLocate)
    requires (forall k :: k in e.books ==> e.books[k].Valid()) && event.OrderReplace?
    ensures DoesItsOp(e, event, l)
  {
    hide Engine.ApplyReplace, Book.Replace;
    ReplaceOnBook(e.Received(), event.header.stockLocate, event.originalReference, event.newReference, event.price,
                  event.shares, l);
  }

  lemma IgnoredOnBook(e: Engine, event: ItchEvent, l: StockLocate)
    requires OpFor(event, LocateOf(event)).None?
    ensures DoesItsOp(e, event, l)
  {
    hide Stats.Bump, Inc;
  }

  lemma AddOnBook(e: Engine, k: StockLocate, id: OrderId, side: Side, price: Price, shares: Quantity, l: StockLocate)
    ensures e.ApplyAdd(k, id, side, price, shares).engine.BookAt(l)
            == if k == l && e.CanCreate(k) then e.BookAt(l).Add(id, side, price, shares).book else e.BookAt(l)
  {
    hide Book.Add;
  }

  lemma ReduceOnBook(e: Engine, k: StockLocate, id: OrderId, shares: Quantity, cancelled: bool, l: StockLocate)
    ensures e.ApplyReduce(k, id, shares, cancelled).engine.BookAt(l)
            == if k == l then e.BookAt(l).Cancel(id, shares).book else e.BookAt(l)
  {
  }

  lemma EndOnBook(e: Engine, k: StockLocate, id: OrderId, l: StockLocate)
    ensures e.ApplyDelete(k, id).engine.BookAt(l) == if k == l then e.BookAt(l).Erase(id).book else e.BookAt(l)
  {
  }

  lemma ReplaceOnBook(e: Engine, k: StockLocate, oldId: OrderId, newId: OrderId, price: Price, shares: Quantity,
                      l: StockLocate)
    requires e.BookAt(l).Valid()
    ensures e.ApplyReplace(k, oldId, newId, price, shares).engine.BookAt(l)
            == if k == l then e.BookAt(l).Replace(oldId, newId, price, shares).book else e.BookAt(l)
  {
    ApplyValid(e.BookAt(l), Op.Replace(oldId, newId, price, shares));
    hide Book.Replace, Book.Valid;
    NoneToReplace(oldId, newId, price, shares);
  }

  lemma NoneToReplace(oldId: OrderId, newId: OrderId, price: Price, shares: Quantity)
    ensures EMPTY_BOOK.Replace(oldId, newId, price, shares) == Step(EMPTY_BOOK, false)
  {
  }

  /** A rejected or ignored event changes no order of any book, and a changing one only its own book. */
  lemma RejectedChangesNothing(e: Engine, event: ItchEvent, l: StockLocate)
    requires (forall k :: k in e.books ==> e.books[k].Valid()) && !e.Crashes(event)
    ensures var a := e.Apply(event);
      !a.result.changedBook || a.result.stockLocate != l ==> a.engine.BookAt(l) == e.BookAt(l)
  {
    hide Book.Add, Book.Cancel, Book.Erase, Book.Modify, Book.Replace, Stats.Bump, Shift, Inc;
    EventOnBook(e, event, l);
    match OpFor(event, l)
    case None =>
    case Some(op) => ApplyValid(e.BookAt(l), op);
  }

  /** A rejected event can use up an entry of the map of books: exactly an order of no shares, within the caps,
      for a locate without a book. */
  lemma RejectionMakesBook(e: Engine, event: ItchEvent)
    requires !e.Crashes(event) && e.Apply(event).result.action == Rejected
    ensures e.Apply(event).engine.books.Keys != e.books.Keys <==>
      && (event.AddOrder? || event.AddAttributedOrder?) && event.shares == 0
      && e.CanCreate(event.header.stockLocate) && event.header.stockLocate !in e.books
  {
    hide Book.Cancel, Book.Erase, Book.Replace;
    if (event.AddOrder? || event.AddAttributedOrder?) && event.header.stockLocate !in e.books {
      assert event.header.stockLocate in e.Apply(event).engine.books.Keys <==> e.CanCreate(event.header.stockLocate);
    }
  }

  /** The outcome reported for an operation that was carried out. */
  function Reported(op: Op): Action {
    match op
    case Add(_, _, _, _) => Added
    case Cancel(_, _) => Cancelled
    case Execute(_, _) => Executed
    case Erase(_) => Deleted
    case Replace(_, _, _, _) => Replaced
    case _ => Ignored
  }

  /** What `apply` reports, in terms of the operation the event asks for: it is ignored exactly when it asks
      for none, and rejected exactly when a cap refuses its order or its book refuses the operation; one
      outcome counter moves; and the global counter moves by what the book gains or loses. */
  ghost predicate OutcomeIs(e: Engine, event: ItchEvent) {
    var a := e.Apply(event);
    var l := LocateOf(event);
    var op := OpFor(event, l);
    && a.result.stockLocate == l
    && a.result.action == (if op.None? then Ignored
                           else if Capped(e, event) || !Apply(e.BookAt(l), op.value).ok then Rejected
                           else Reported(op.value))
    && (a.result.changedBook <==> a.result.action != Ignored && a.result.action != Rejected)
    && a.engine.stats == e.Received().stats.Bump(a.result.action)
    && a.engine.resting == Shift(e.resting, |a.engine.BookAt(l).orders| - |e.BookAt(l).orders|)
  }

  lemma ApplyOutcome(e: Engine, event: ItchEvent)
    requires e.Valid() && !e.Crashes(event)
    ensures OutcomeIs(e, event)
  {
    hide Engine.Valid, OutcomeIs;
    if event.AddOrder? || event.AddAttributedOrder? {
      AddOutcome(e, event);
    } else if event.OrderExecuted? || event.OrderExecutedWithPrice? || event.OrderCancel? {
      ReduceOutcome(e, event);
    } else {
      OtherOutcome(e, event);
    }
  }

  lemma AddOutcome(e: Engine, event: ItchEvent)
    requires e.Valid() && (event.AddOrder? || event.AddAttributedOrder?)
    ensures OutcomeIs(e, event)
  {
    hide Engine.Valid, Book.Valid, Book.Add, Shift, Inc, Stats.Bump;
    var l := event.header.stockLocate;
    BookCounts(e, l);
    ShiftZero(e.resting);
    AddCount(e.BookAt(l), event.orderReference, event.side, event.price, event.shares);
  }

  lemma ReduceOutcome(e: Engine, event: ItchEvent)
    requires e.Valid() && (event.OrderExecuted? || event.OrderExecutedWithPrice? || event.OrderCancel?)
    ensures OutcomeIs(e, event)
  {
    hide Engine.Valid, Engine.ApplyReduce, Book.Cancel, Inc, Stats.Bump, Shift;
    var l := event.header.stockLocate;
    var shares := if event.OrderCancel? then event.canceledShares else event.executedShares;
    ReduceMeans(e, l, event.orderReference, shares, event.OrderCancel?);
  }

  /** What the handlers of executions and cancellations answer. */
  lemma ReduceMeans(e: Engine, l: StockLocate, id: OrderId, shares: Quantity, cancelled: bool)
    requires e.Valid()
    ensures var a := e.Received().ApplyReduce(l, id, shares, cancelled);
      && a.result == (if !e.BookAt(l).Cancel(id, shares).ok then ApplyResult(Rejected, l, false)
                      else ApplyResult(if cancelled then Cancelled else Executed, l, true))
      && a.engine.stats == e.Received().stats.Bump(a.result.action)
      && a.engine.resting == Shift(e.resting, |a.engine.BookAt(l).orders| - |e.BookAt(l).orders|)
  {
    hide Engine.Valid, Book.Valid, Book.Cancel, Shift, Inc, Stats.Bump;
    BookCounts(e, l);
    ShiftZero(e.resting);
    RefusedByEmpty();
    CancelCount(e.BookAt(l), id, shares);
  }

  lemma OtherOutcome(e: Engine, event: ItchEvent)
    requires e.Valid() && !event.AddOrder? && !event.AddAttributedOrder?
    requires !event.OrderExecuted? && !event.OrderExecutedWithPrice? && !event.OrderCancel?
    ensures OutcomeIs(e, event)
  {
    hide Engine.Valid, OutcomeIs;
    if event.OrderDelete? {
      DeleteOutcome(e, event);
    } else if event.OrderReplace? {
      ReplaceOutcome(e, event);
    } else {
      IgnoredOutcome(e, event);
    }
  }

  lemma DeleteOutcome(e: Engine, event: ItchEvent)
    requires e.Valid() && event.OrderDelete?
    ensures OutcomeIs(e, event)
  {
    hide Engine.Valid, Book.Valid, Book.Erase, Shift, Inc, Stats.Bump;
    var l := event.header.stockLocate;
    BookCounts(e, l);
    ShiftZero(e.resting);
    RefusedByEmpty();
    EraseCount(e.BookAt(l), event.orderReference);
  }

  lemma ReplaceOutcome(e: Engine, event: ItchEvent)
    requires e.Valid() && event.OrderReplace?
    ensures OutcomeIs(e, event)
  {
    hide Engine.Valid, Book.Valid, Book.Replace, Shift, Inc, Stats.Bump;
    var l := event.header.stockLocate;
    BookCounts(e, l);
    ShiftZero(e.resting);
    RefusedByEmpty();
    ReplaceCount(e.BookAt(l), event.originalReference, event.newReference, event.price, event.shares);
  }

  lemma IgnoredOutcome(e: Engine, event: ItchEvent)
    requires OpFor(event, LocateOf(event)).None?
    ensures OutcomeIs(e, event)
  {
    hide Shift, Inc, Stats.Bump;
    ShiftZero(e.resting);
  }

  /** A book that was never created refuses everything that needs an order. */
  lemma RefusedByEmpty()
    ensures forall id: OrderId, shares: Quantity :: !EMPTY_BOOK.Cancel(id, shares).ok
    ensures forall id: OrderId :: !EMPTY_BOOK.Erase(id).ok
    ensures forall oldId: OrderId, newId: OrderId, price: Price, shares: Quantity ::
      !EMPTY_BOOK.Replace(oldId, newId, price, shares).ok
  {
  }

  ghost function RunEvents(e: Engine, events: seq<ItchEvent>): Engine
    decreases |events|
  {
    if events == [] then e else RunEvents(e.Apply(events[0]).engine, events[1..])
  }

  /** Events alone leave no entry without a book. */
  lemma {:induction false} EventsHollow(e: Engine, events: seq<ItchEvent>)
    ensures RunEvents(e, events).hollow == e.hollow
    decreases |events|
  {
    hide Engine.Apply;
    if events != [] {
      ApplyHollow(e, events[0]);
      EventsHollow(e.Apply(events[0]).engine, events[1..]);
    }
  }

  /** No cap refuses an order anywhere in a run. */
  ghost predicate NeverCapped(e: Engine, events: seq<ItchEvent>)
    decreases |events|
  {
    events != [] ==> !Capped(e, events[0]) && NeverCapped(e.Apply(events[0]).engine, events[1..])
  }

  // ---- when the caps refuse nothing ----

  function AddEvents(events: seq<ItchEvent>): nat {
    if events == [] then 0
    else (if events[0].AddOrder? || events[0].AddAttributedOrder? then 1 else 0) + AddEvents(events[1..])
  }

  function AddLocates(events: seq<ItchEvent>): set<StockLocate> {
    if events == [] then {}
    else (if events[0].AddOrder? || events[0].AddAttributedOrder? then {LocateOf(events[0])} else {})
         + AddLocates(events[1..])
  }

  lemma OpCount(b: Book, op: Op)
    requires b.Valid() && !op.Clear?
    ensures |Apply(b, op).book.orders| <= |b.orders| + if op.Add? then 1 else 0
  {
    hide Book.Valid, Book.Add, Book.Cancel, Book.Erase, Book.Modify, Book.Replace;
    match op
    case Add(id, side, price, quantity) => AddCount(b, id, side, price, quantity);
    case Cancel(id, quantity) => CancelCount(b, id, quantity);
    case Execute(id, quantity) => CancelCount(b, id, quantity);
    case Erase(id) => EraseCount(b, id);
    case Modify(id, price, quantity) => ModifyCount(b, id, price, quantity);
    case Replace(oldId, newId, price, quantity) => ReplaceCount(b, oldId, newId, price, quantity);
  }

  lemma ShiftBound(n: Word, d: int, most: nat)
    requires 0 <= n + d <= n + most
    ensures Shift(n, d) <= n + most
  {
  }

  /** An event adds at most one order, and only if it is an add. */
  lemma ApplyGrowth(e: Engine, event: ItchEvent)
    requires e.Valid() && !e.Crashes(event)
    ensures e.Apply(event).engine.resting <= e.resting + if event.AddOrder? || event.AddAttributedOrder? then 1 else 0
  {
    hide Engine.Valid, Engine.Apply, Engine.BookAt, Engine.Crashes, LocateOf, Shift;
    var b, b' := e.BookAt(LocateOf(event)), e.Apply(event).engine.BookAt(LocateOf(event));
    CounterMoves(e, event);
    BookGrowth(e, event);
    BookCounts(e, LocateOf(event));
    ShiftBound(e.resting, |b'.orders| - |b.orders|, if event.AddOrder? || event.AddAttributedOrder? then 1 else 0);
  }

  lemma CounterMoves(e: Engine, event: ItchEvent)
    requires e.Valid() && !e.Crashes(event)
    ensures e.Apply(event).engine.resting
            == Shift(e.resting, |e.Apply(event).engine.BookAt(LocateOf(event)).orders| - |e.BookAt(LocateOf(event)).orders|)
  {
    hide Engine.Valid, Engine.Apply, Shift, Apply, Stats.Bump, Reported, Capped;
    ApplyOutcome(e, event);
  }

  lemma BookGrowth(e: Engine, event: ItchEvent)
    requires e.Valid() && !e.Crashes(event)
    ensures |e.Apply(event).engine.BookAt(LocateOf(event)).orders|
            <= |e.BookAt(LocateOf(event)).orders| + if event.AddOrder? || event.AddAttributedOrder? then 1 else 0
  {
    hide Engine.Apply, Book.Valid, Apply, Capped;
    var l := LocateOf(event);
    EventOnBook(e, event, l);
    BookCounts(e, l);
    if OpFor(event, l).Some? {
      OpCount(e.BookAt(l), OpFor(event, l).value);
    }
  }

  /** And at most one book. */
  lemma ApplyBooks(e: Engine, event: ItchEvent)
    ensures e.Apply(event).engine.books.Keys
            <= e.books.Keys + (if event.AddOrder? || event.AddAttributedOrder? then {LocateOf(event)} else {})
  {
    hide Engine.CanCreate, Book.Add, Book.Cancel, Book.Erase, Book.Replace, Stats.Bump, Shift, Inc;
  }

  /** No cap refuses an order when the orders still to be added, and the locates they are for, fit in the caps. */
  lemma {:induction false} CapsSuffice(e: Engine, events: seq<ItchEvent>)
    requires e.Valid() && e.hollow == {}
    requires e.resting + AddEvents(events) <= e.limits.maxRestingOrders
    requires |e.books.Keys + AddLocates(events)| <= e.limits.maxInstruments
    ensures NeverCapped(e, events)
    decreases |events|
  {
    hide Engine.Valid, Engine.Apply;
    if events != [] {
      var event, e' := events[0], e.Apply(events[0]).engine;
      ApplyKeeps(e, event);
      ApplyHollow(e, event);
      ApplyGrowth(e, event);
      ApplyBooks(e, event);
      var all := e.books.Keys + AddLocates(events);
      SubsetSize(e'.books.Keys + AddLocates(events[1..]), all);
      if (event.AddOrder? || event.AddAttributedOrder?) && LocateOf(event) !in e.books {
        SubsetSize(e.books.Keys + {LocateOf(event)}, all);
        assert |e.books.Keys + {LocateOf(event)}| == |e.books.Keys| + 1;
      }
      assert |e.books.Keys| == |e.books|;
      CapsSuffice(e', events[1..]);
    }
  }

  lemma {:induction false} SubsetSize(a: set<StockLocate>, b: set<StockLocate>)
    requires a <= b
    ensures |a| <= |b|
    decreases |a|
  {
    if a != {} {
      var x :| x in a;
      SubsetSize(a - {x}, b - {x});
    }
  }

  function OpsFor(events: seq<ItchEvent>, l: StockLocate): seq<Op> {
    if events == [] then []
    else (match OpFor(events[0], l) case None => [] case Some(op) => [op]) + OpsFor(events[1..], l)
  }

  function RunOps(b: Book, ops: seq<Op>): Book
    decreases |ops|
  {
    if ops == [] then b else RunOps(Apply(b, ops[0]).book, ops[1..])
  }

  /** Reconstruction keeps the instruments independent: the book of a locate is one order book that was
      given just the lifecycle events of that locate. */
  lemma {:induction false} BooksAreIndependent(e: Engine, events: seq<ItchEvent>, l: StockLocate)
    requires e.Valid() && e.hollow == {} && NeverCapped(e, events)
    ensures RunEvents(e, events).BookAt(l) == RunOps(e.BookAt(l), OpsFor(events, l))
    decreases |events|
  {
    if events != [] {
      var e1 := e.Apply(events[0]).engine;
      ApplyKeeps(e, events[0]);
      NextHollow(e, Event(events[0]));
      EventOnBook(e, events[0], l);
      BooksAreIndependent(e1, events[1..], l);
      match OpFor(events[0], l)
      case None => assert OpsFor(events, l) == OpsFor(events[1..], l);
      case Some(op) =>
        assert OpsFor(events, l) == [op] + OpsFor(events[1..], l);
        assert OpsFor(events, l)[1..] == OpsFor(events[1..], l);
    }
  }

  // ---- one submission ----

  /** A limit submission with a quantity and a fresh id fills, rests or leaves open exactly its
      quantity. It is refused exactly when something is left over that a cap does not let rest; what
      rests is the order it named; every other book stays; and neither the fills nor the books depend
      on the size of the fill buffer. */
  lemma SubmitLimitOutcome(e: Engine, l: StockLocate, id: OrderId, side: Side, price: Price, quantity: Quantity,
                           capacity: nat, otherCapacity: nat)
    requires e.Valid() && quantity != 0 && id !in e.BookAt(l).orders && !e.LimitCrashes(l, quantity)
    ensures var s := e.SubmitLimit(l, id, side, price, quantity, capacity); var r := s.result;
      && r.filled + r.resting + r.unfilled == quantity
      && r.filled == Filled(s.fills) && r.fillCount == |s.fills| && r.fillsTruncated == (|s.fills| > capacity)
      && (r.accepted <==> r.filled == quantity || e.Matched(l, Taker(side, price, true), quantity).CanCreate(l))
      && (r.resting > 0 <==> r.accepted && r.filled < quantity)
      && s.engine.BookAt(l).View(id) == (if r.resting > 0 then Some(OrderView(id, side, price, r.resting)) else None)
      && (forall k :: k != l ==> s.engine.BookAt(k) == e.BookAt(k))
      && e.SubmitLimit(l, id, side, price, quantity, otherCapacity).engine == s.engine
      && e.SubmitLimit(l, id, side, price, quantity, otherCapacity).fills == s.fills
  {
    hide Book.Valid, Book.Add, Swept, Flatten, Fills, Filled, Engine.Matched, Engine.Valid;
    var t := Taker(side, price, true);
    RestCanBeAdded(e, l, t, quantity, id);
    OthersKept(e, l, t, quantity);
    var m := e.Match(l, t, quantity, capacity);
    var rest := m.result.resting;
    if rest != 0 {
      AddView(m.engine.BookAt(l), id, side, price, rest);
    }
  }

  lemma AddView(b: Book, id: OrderId, side: Side, price: Price, quantity: Quantity)
    requires quantity != 0 && id !in b.orders
    ensures b.Add(id, side, price, quantity).ok
    ensures b.Add(id, side, price, quantity).book.View(id) == Some(OrderView(id, side, price, quantity))
  {
    AddQueues(b, id, side, price, quantity);
  }

  /** The opposite side loses exactly what was filled. */
  lemma SubmitLimitConserves(e: Engine, l: StockLocate, id: OrderId, side: Side, price: Price, quantity: Quantity,
                             capacity: nat)
    requires e.Valid() && quantity != 0 && id !in e.BookAt(l).orders && !e.LimitCrashes(l, quantity)
    ensures var s := e.SubmitLimit(l, id, side, price, quantity, capacity); var opp := side.Opposite();
      Displayed(Flatten(s.engine.BookAt(l), opp)) + s.result.filled == Displayed(Flatten(e.BookAt(l), opp))
  {
    hide Book.Valid, Swept, Flatten, Displayed, Filled, Greedy, Leftover, Engine.Valid, Engine.Matched, Book.Add, Shift;
    var t := Taker(side, price, true);
    var b := e.BookAt(l);
    MatchedKeeps(e, l, t, quantity);
    BookCounts(e, l);
    SweepLeaves(b, t, quantity);
    SweepConserves(t, Flatten(b, side.Opposite()), quantity);
    RestCanBeAdded(e, l, t, quantity, id);
    var m := e.Match(l, t, quantity, capacity);
    var rest := m.result.resting;
    if rest != 0 {
      AddOwnSide(m.engine.BookAt(l), id, side, price, rest);
    }
  }

  /** Matching one instrument leaves the others alone. */
  lemma OthersKept(e: Engine, l: StockLocate, t: Taker, quantity: Quantity)
    ensures forall k :: k != l ==> e.Matched(l, t, quantity).BookAt(k) == e.BookAt(k)
  {
  }

  /** Adding an order leaves the other side of its book alone. */
  lemma AddOwnSide(b: Book, id: OrderId, side: Side, price: Price, quantity: Quantity)
    requires b.Valid() && quantity != 0 && id !in b.orders
    ensures var b' := b.Add(id, side, price, quantity).book;
      && b'.Levels(side.Opposite()) == b.Levels(side.Opposite())
      && Flatten(b', side.Opposite()) == Flatten(b, side.Opposite())
      && b'.View(id) == Some(OrderView(id, side, price, quantity))
      && (forall p: Price :: p in b'.Levels(side) <==> p == price || p in b.Levels(side))
  {
    var b', opp := b.Add(id, side, price, quantity).book, side.Opposite();
    AddQueues(b, id, side, price, quantity);
    AddValid(b, id, side, price, quantity);
    assert b'.Levels(opp) == b.Levels(opp);
    forall p, i | p in b.Levels(opp).Keys && i in b.Queue(opp, p)
      ensures i in b.orders && i in b'.orders && b.orders[i].quantity == b'.orders[i].quantity
    {
      assert b.QueueOk(opp, p);
    }
    FlattenFrame(b, b', opp, b.Levels(opp).Keys);
    KeysAreQueues(b, side);
    KeysAreQueues(b', side);
  }

  /** A market submission never rests: what it cannot fill it leaves open. */
  lemma SubmitMarketConserves(e: Engine, l: StockLocate, side: Side, quantity: Quantity, capacity: nat, otherCapacity: nat)
    requires e.Valid() && quantity != 0
    ensures var s := e.SubmitMarket(l, side, quantity, capacity); var r := s.result; var opp := side.Opposite();
      && r.accepted && r.resting == 0 && r.filled + r.unfilled == quantity
      && Displayed(Flatten(s.engine.BookAt(l), opp)) + r.filled == Displayed(Flatten(e.BookAt(l), opp))
      && (r.unfilled > 0 ==> Flatten(s.engine.BookAt(l), opp) == [])
      && Flatten(s.engine.BookAt(l), side) == Flatten(e.BookAt(l), side)
      && e.SubmitMarket(l, side, quantity, otherCapacity).engine == s.engine
  {
    var t := Taker(side, 0, false);
    MatchedKeeps(e, l, t, quantity);
    BookCounts(e, l);
    var b := e.BookAt(l);
    var flat := Flatten(b, side.Opposite());
    SweepLeaves(b, t, quantity);
    SweepConserves(t, flat, quantity);
    FlattenPositive(b, side.Opposite());
    LeftoverShape(t, flat, quantity);
  }

  // ---- the book stays uncrossed ----

  /** Every bid is below every ask. */
  ghost predicate Uncrossed(b: Book) {
    forall p, q :: p in b.bids && q in b.asks ==> p < q
  }

  /** Uncrossed means what the top of the book shows. */
  lemma UncrossedTop(b: Book, bid: Price, ask: Price)
    requires b.IsBest(Buy, Some(bid)) && b.IsBest(Sell, Some(ask))
    ensures Uncrossed(b) <==> bid < ask
  {
  }

  /** An input of the simulation: a submission, or the end of a resting order. */
  predicate Simulated(i: Input) {
    match i
    case Event(event) => event.OrderExecuted? || event.OrderExecutedWithPrice? || event.OrderCancel? || event.OrderDelete?
    case EventThrows(_, _) => false
    case _ => true
  }

  lemma {:induction false} LeftoverPrices(t: Taker, flat: seq<Resting>, quantity: Quantity)
    ensures forall r :: r in Leftover(t, flat, quantity) ==> exists r' :: r' in flat && r'.price == r.price
  {
    if quantity == 0 || flat == [] || !t.Accepts(flat[0].price) {
    } else if quantity < flat[0].quantity {
      var left := [flat[0].(quantity := flat[0].quantity - quantity)] + flat[1..];
      forall r | r in left
        ensures exists r' :: r' in flat && r'.price == r.price
      {
        if r in flat[1..] {
          assert r in flat;
        } else {
          assert flat[0] in flat;
        }
      }
    } else {
      LeftoverPrices(t, flat[1..], quantity - flat[0].quantity);
    }
  }

  /** A price is quoted exactly when an order waits there in the flattened side. */
  lemma QuotedMeansWaiting(b: Book, side: Side, p: Price)
    requires b.Valid()
    ensures p in b.Levels(side) <==> exists r :: r in Flatten(b, side) && r.price == p
  {
    FlattenIsTheSide(b, side);
    KeysAreQueues(b, side);
    if p in b.Levels(side) {
      var id := b.Queue(side, p)[0];
      assert b.QueueOk(side, p) && id in b.Queue(side, p);
      assert Resting(id, p, b.orders[id].quantity) in Flatten(b, side);
    }
    if r :| r in Flatten(b, side) && r.price == p {
      assert Waits(b, side, r) && b.OrderOk(r.id);
    }
  }

  /** A sweep quotes no new price. */
  lemma SweptPriceKept(b: Book, t: Taker, quantity: Quantity, p: Price)
    requires b.Valid() && p in Swept(b, t, quantity).Levels(t.side.Opposite())
    ensures p in b.Levels(t.side.Opposite())
  {
    var opp := t.side.Opposite();
    SweepLeaves(b, t, quantity);
    hide Book.Valid, Swept, Flatten, Leftover;
    QuotedMeansWaiting(Swept(b, t, quantity), opp, p);
    LeftoverPrices(t, Flatten(b, opp), quantity);
    QuotedMeansWaiting(b, opp, p);
  }

  /** With something left open nothing opposite may trade any more. */
  lemma SweptPriceShut(b: Book, t: Taker, quantity: Quantity, p: Price)
    requires b.Valid() && p in Swept(b, t, quantity).Levels(t.side.Opposite())
    requires Filled(Fills(b, t, quantity)) < quantity
    ensures !t.Accepts(p)
  {
    var opp := t.side.Opposite();
    var b', left := Swept(b, t, quantity), Leftover(t, Flatten(b, opp), quantity);
    SweepLeaves(b, t, quantity);
    FlattenSorted(b', opp, b'.Levels(opp).Keys);
    assert Sorted(opp, left);
    assert left == [] || !t.Accepts(left[0].price) by {
      hide Book.Valid, Swept, Flatten, Leftover, Greedy, Sorted;
      FlattenPositive(b, opp);
      LeftoverShape(t, Flatten(b, opp), quantity);
    }
    hide Book.Valid, Swept, Flatten, Leftover, Greedy, Sorted;
    QuotedMeansWaiting(b', opp, p);
    var r :| r in left && r.price == p;
    NothingAccepted(t, left, r);
  }

  /** Behind an order that may not be traded with, none may. */
  lemma NothingAccepted(t: Taker, left: seq<Resting>, r: Resting)
    requires Sorted(t.side.Opposite(), left) && r in left && !t.Accepts(left[0].price)
    ensures !t.Accepts(r.price)
  {
    var i :| 0 <= i < |left| && left[i] == r;
    if i > 0 {
      assert NoWorse(t.side.Opposite(), left[0].price, left[i].price);
    }
  }

  lemma SweptUncrossed(b: Book, t: Taker, quantity: Quantity)
    requires b.Valid() && Uncrossed(b)
    ensures Uncrossed(Swept(b, t, quantity))
  {
    var b' := Swept(b, t, quantity);
    SweepLeaves(b, t, quantity);
    forall p | p in b'.Levels(t.side.Opposite())
      ensures p in b.Levels(t.side.Opposite())
    {
      SweptPriceKept(b, t, quantity, p);
    }
  }

  /** A limit order that rests does so below every remaining ask, or above every remaining bid. */
  lemma RestUncrossed(b: Book, id: OrderId, side: Side, price: Price, quantity: Quantity)
    requires b.Valid() && Uncrossed(b) && id !in b.orders
    requires Filled(Fills(b, Taker(side, price, true), quantity)) < quantity
    requires id !in Swept(b, Taker(side, price, true), quantity).orders
    ensures var t := Taker(side, price, true);
      Uncrossed(Swept(b, t, quantity).Add(id, side, price, quantity - Filled(Fills(b, t, quantity))).book)
  {
    var t := Taker(side, price, true);
    var b' := Swept(b, t, quantity);
    SweepLeaves(b, t, quantity);
    SweptUncrossed(b, t, quantity);
    var rest: Quantity := quantity - Filled(Fills(b, t, quantity));
    AddOwnSide(b', id, side, price, rest);
    forall p | p in b'.Levels(side.Opposite())
      ensures if side == Buy then price < p else p < price
    {
      SweptPriceShut(b, t, quantity, p);
    }
  }

  /** Reducing or removing an order quotes no new price. */
  lemma OpUncrossed(b: Book, op: Op)
    requires b.Valid() && Uncrossed(b) && (op.Cancel? || op.Execute? || op.Erase?)
    ensures Uncrossed(Apply(b, op).book)
  {
    var b' := Apply(b, op).book;
    ApplyValid(b, op);
    forall side: Side, p | p in b'.Levels(side)
      ensures p in b.Levels(side)
    {
      KeysAreQueues(b, side);
      KeysAreQueues(b', side);
      if op.id in b.orders && Apply(b, op).ok {
        ReducedQueues(b, op, side, p);
      }
    }
  }

  lemma ReducedQueues(b: Book, op: Op, side: Side, p: Price)
    requires b.Valid() && (op.Cancel? || op.Execute? || op.Erase?) && op.id in b.orders && Apply(b, op).ok
    ensures b.Queue(side, p) == [] ==> Apply(b, op).book.Queue(side, p) == []
  {
    EraseQueues(b, op.id);
  }

  ghost predicate AllUncrossed(e: Engine) {
    forall l: StockLocate :: Uncrossed(e.BookAt(l))
  }

  lemma NextUncrossed(e: Engine, i: Input)
    requires e.Valid() && AllUncrossed(e) && Simulated(i) && Defined(e, i)
    ensures AllUncrossed(Next(e, i))
  {
    hide Engine.Valid, AllUncrossed, Engine.Apply, Engine.SubmitLimit, Engine.Matched, Engine.LimitCanThrow, Fills, Filled;
    match i
    case Event(event) => EventUncrossed(e, event);
    case Limit(l, id, side, price, quantity, capacity) => LimitUncrossed(e, l, id, side, price, quantity, capacity);
    case LimitThrows(l, id, side, price, quantity, f) => LimitThrowUncrossed(e, l, id, side, price, quantity, f);
    case Market(l, side, quantity, capacity) => MatchedUncrossed(e, l, Taker(side, 0, false), quantity);
    case Clear => NewUncrossed(e.limits);
  }

  lemma NewUncrossed(limits: Limits)
    ensures AllUncrossed(NewEngine(limits))
  {
  }

  lemma EventUncrossed(e: Engine, event: ItchEvent)
    requires e.Valid() && AllUncrossed(e) && Simulated(Event(event))
    ensures AllUncrossed(e.Apply(event).engine)
  {
    hide Engine.Apply, Uncrossed, Apply;
    forall l: StockLocate
      ensures Uncrossed(e.Apply(event).engine.BookAt(l))
    {
      EventOnBook(e, event, l);
      BookCounts(e, l);
      if OpFor(event, l).Some? {
        OpUncrossed(e.BookAt(l), OpFor(event, l).value);
      }
    }
  }

  lemma MatchedUncrossed(e: Engine, l: StockLocate, t: Taker, quantity: Quantity)
    requires e.Valid() && AllUncrossed(e)
    ensures AllUncrossed(e.Matched(l, t, quantity))
  {
    hide Engine.Valid, Engine.Matched, Swept, Uncrossed;
    MatchedKeeps(e, l, t, quantity);
    OthersKept(e, l, t, quantity);
    BookCounts(e, l);
    SweptUncrossed(e.BookAt(l), t, quantity);
    forall k: StockLocate
      ensures Uncrossed(e.Matched(l, t, quantity).BookAt(k))
    {
      assert Uncrossed(e.BookAt(k));
    }
  }

  lemma LimitThrowUncrossed(e: Engine, l: StockLocate, id: OrderId, side: Side, price: Price, quantity: Quantity, f: Failure)
    requires e.Valid() && AllUncrossed(e) && e.LimitCanThrow(l, id, side, price, quantity, f)
    ensures AllUncrossed(e.LimitThrows(l, side, price, quantity, f))
  {
    hide Engine.Valid, Engine.Matched, Engine.LimitCanThrow, Engine.LimitThrows, Uncrossed;
    MatchedUncrossed(e, l, Taker(side, price, true), quantity);
    LimitThrowKeeps(e, l, id, side, price, quantity, f);
    forall k: StockLocate
      ensures Uncrossed(e.LimitThrows(l, side, price, quantity, f).BookAt(k))
    {
      assert Uncrossed(e.Matched(l, Taker(side, price, true), quantity).BookAt(k));
    }
  }

  /** The book of a limit submission, and the others. */
  lemma LimitBooks(e: Engine, l: StockLocate, id: OrderId, side: Side, price: Price, quantity: Quantity, capacity: nat,
                   k: StockLocate)
    requires quantity != 0 && id !in e.BookAt(l).orders
    ensures var m := e.Matched(l, Taker(side, price, true), quantity);
      var rest := quantity - Filled(Fills(e.BookAt(l), Taker(side, price, true), quantity));
      var b := e.SubmitLimit(l, id, side, price, quantity, capacity).engine.BookAt(k);
      b == m.BookAt(k) || (k == l && 0 < rest <= quantity && b == m.BookAt(l).Add(id, side, price, rest).book)
  {
    hide Engine.Matched, Fills, Filled, Book.Add;
    FilledBound(e.BookAt(l), Taker(side, price, true), quantity);
  }

  lemma LimitUncrossed(e: Engine, l: StockLocate, id: OrderId, side: Side, price: Price, quantity: Quantity, capacity: nat)
    requires e.Valid() && AllUncrossed(e)
    ensures AllUncrossed(e.SubmitLimit(l, id, side, price, quantity, capacity).engine)
  {
    hide Engine.Valid, Engine.Matched, Engine.SubmitLimit, Swept, Fills, Filled, Uncrossed, Book.Add, Book.Valid;
    var t := Taker(side, price, true);
    var after := e.SubmitLimit(l, id, side, price, quantity, capacity).engine;
    if quantity == 0 || id in e.BookAt(l).orders {
      assert after == e by { LimitRefused(e, l, id, side, price, quantity, capacity); }
    } else {
      MatchedUncrossed(e, l, t, quantity);
      MatchedKeeps(e, l, t, quantity);
      RestCanBeAdded(e, l, t, quantity, id);
      BookCounts(e, l);
      forall k: StockLocate
        ensures Uncrossed(after.BookAt(k))
      {
        LimitBooks(e, l, id, side, price, quantity, capacity, k);
        assert Uncrossed(e.Matched(l, t, quantity).BookAt(k)) && Uncrossed(e.BookAt(l));
        if Filled(Fills(e.BookAt(l), t, quantity)) < quantity {
          RestUncrossed(e.BookAt(l), id, side, price, quantity);
        }
      }
    }
  }

  lemma LimitRefused(e: Engine, l: StockLocate, id: OrderId, side: Side, price: Price, quantity: Quantity, capacity: nat)
    requires quantity == 0 || id in e.BookAt(l).orders
    ensures e.SubmitLimit(l, id, side, price, quantity, capacity) == Submission(e, REFUSED, [])
  {
  }

  /** From an empty engine, a run of submissions, cancellations, executions and deletions keeps the best bid
      strictly below the best ask in every book, even where a submission ends in an exception. */
  lemma RunUncrossed(limits: Limits, inputs: seq<Input>)
    requires Sound(NewEngine(limits), inputs) && forall i :: i in inputs ==> Simulated(i)
    ensures var e := Run(NewEngine(limits), inputs);
      forall l, bid, ask :: l in e.books && e.books[l].IsBest(Buy, Some(bid)) && e.books[l].IsBest(Sell, Some(ask)) ==>
        bid < ask
  {
    hide Engine.Valid, Run, Sound;
    NewEngineValid(limits);
    NewUncrossed(limits);
    RunUncrossedFrom(NewEngine(limits), inputs);
    var e := Run(NewEngine(limits), inputs);
    assert forall l :: l in e.books ==> Uncrossed(e.BookAt(l));
  }

  lemma {:induction false} RunUncrossedFrom(e: Engine, inputs: seq<Input>)
    requires e.Valid() && AllUncrossed(e) && Sound(e, inputs) && forall i :: i in inputs ==> Simulated(i)
    ensures AllUncrossed(Run(e, inputs))
    decreases |inputs|
  {
    hide Engine.Valid, Next, Defined, AllUncrossed;
    if inputs != [] {
      NextKeeps(e, inputs[0]);
      NextUncrossed(e, inputs[0]);
      RunUncrossedFrom(Next(e, inputs[0]), inputs[1..]);
    }
  }
}
