/** What the engine does and reports, said of the orders of its books, the caps and the counters alone: for
    every event, for every submission, and for the counters of whole runs. */
module EngineMeaning {
  import opened Bits
  import opened Common
  import opened Itch
  import opened BookModel
  import opened BookLaws
  import opened BookMeaning
  import opened Sweep
  import opened EngineModel
  import opened EngineLaws
  import opened EngineRuns

  // ---- events ----

  /** The caps leave no room for one more order at a locate: too many orders, or too many entries for a new one. */
  ghost predicate NoRoom(e: Engine, l: StockLocate) {
    || SumOrders(e.books) >= e.limits.maxRestingOrders
    || (l !in e.books && |e.books| + |e.hollow| >= e.limits.maxInstruments)
  }

  /** An order event rests its order, and is rejected when there is no room, no quantity, or the id is taken. */
  ghost predicate AddsTo(e: Engine, l: StockLocate, id: OrderId, side: Side, price: Price, shares: Quantity, action: Action,
                         b': Book) {
    var b := e.BookAt(l);
    if NoRoom(e, l) || shares == 0 || id in b.orders then action == Rejected && b' == b
    else action == Added && Adds(b, id, side, price, shares, Step(b', true))
  }

  ghost predicate ReducesAt(b: Book, id: OrderId, shares: Quantity, done: Action, action: Action, b': Book) {
    if id in b.orders && 0 < shares <= b.orders[id].quantity then action == done && Reduces(b, id, shares, Step(b', true))
    else action == Rejected && b' == b
  }

  ghost predicate RemovesAt(b: Book, id: OrderId, action: Action, b': Book) {
    if id in b.orders then action == Deleted && Removes(b, id, b') else action == Rejected && b' == b
  }

  ghost predicate ReplacesAt(b: Book, oldId: OrderId, newId: OrderId, price: Price, shares: Quantity, action: Action, b': Book) {
    if oldId in b.orders && shares != 0 && (oldId == newId || newId !in b.orders) then
      action == Replaced && Replaces(b, oldId, newId, price, shares, Step(b', true))
    else action == Rejected && b' == b
  }

  /** What an event does to the book of its locate, and what is reported. */
  ghost predicate Effect(e: Engine, event: ItchEvent, l: StockLocate, action: Action, b': Book) {
    var b := e.BookAt(l);
    if event.AddOrder? || event.AddAttributedOrder? then
      AddsTo(e, l, event.orderReference, event.side, event.price, event.shares, action, b')
    else if event.OrderExecuted? || event.OrderExecutedWithPrice? then
      ReducesAt(b, event.orderReference, event.executedShares, Executed, action, b')
    else if event.OrderCancel? then ReducesAt(b, event.orderReference, event.canceledShares, Cancelled, action, b')
    else if event.OrderDelete? then RemovesAt(b, event.orderReference, action, b')
    else if event.OrderReplace? then
      ReplacesAt(b, event.originalReference, event.newReference, event.price, event.shares, action, b')
    else action == Ignored && b' == b
  }

  function Plus(n: Word, more: bool): Word {
    (n + if more then 1 else 0) % 0x1_0000_0000_0000_0000
  }

  /** One message has been counted under one outcome: the counter of that name grows by one, in 64 bits, and the
      other six stay. */
  predicate CountedAs(st: Stats, action: Action, st': Stats) {
    && st'.messages == Plus(st.messages, true)
    && st'.ignored == Plus(st.ignored, action == Ignored)
    && st'.adds == Plus(st.adds, action == Added)
    && st'.executions == Plus(st.executions, action == Executed)
    && st'.cancels == Plus(st.cancels, action == Cancelled)
    && st'.deletes == Plus(st.deletes, action == Deleted)
    && st'.replacements == Plus(st.replacements, action == Replaced)
    && st'.rejected == Plus(st.rejected, action == Rejected)
  }

  /** The locate of an event; a skipped message may have none. */
  predicate IsLocate(event: ItchEvent, l: StockLocate) {
    if !event.SkippedMessage? then l == event.header.stockLocate
    else if event.skippedHeader.Some? then l == event.skippedHeader.value.stockLocate
    else l == 0
  }

  /** Only an order for which there is room makes a book. */
  ghost predicate MakesBook(e: Engine, event: ItchEvent, l: StockLocate) {
    (event.AddOrder? || event.AddAttributedOrder?) && !NoRoom(e, l)
  }

  /** All that one event does. */
  ghost predicate EventIs(e: Engine, event: ItchEvent, a: Applied) {
    var l := a.result.stockLocate;
    var e' := a.engine;
    && IsLocate(event, l) && Effect(e, event, l, a.result.action, e'.BookAt(l))
    && (a.result.changedBook <==> a.result.action != Ignored && a.result.action != Rejected)
    && CountedAs(e.stats, a.result.action, e'.stats)
    && e'.resting == SumOrders(e'.books)
    && (forall k :: k != l ==> e'.BookAt(k) == e.BookAt(k))
    && e'.books.Keys == (if MakesBook(e, event, l) then e.books.Keys + {l} else e.books.Keys)
    && e'.hollow == e.hollow && e'.thrown == e.thrown && e'.limits == e.limits
  }

  // ---- every event does what it is to do ----

  lemma RoomIs(e: Engine, l: StockLocate)
    requires e.Valid()
    ensures e.CanCreate(l) <==> !NoRoom(e, l)
  {
    hide Book.Valid, SumOrders;
  }

  lemma CountedMeans(st: Stats, action: Action)
    ensures CountedAs(st, action, st.(messages := Inc(st.messages)).Bump(action))
  {
  }

  /** An operation was carried out on the book of an event's locate with the step `s`, or was refused. */
  ghost predicate Carried(e: Engine, event: ItchEvent, op: Op, s: Step) {
    var l := LocateOf(event);
    var a := e.Apply(event);
    if Capped(e, event) || !s.ok then a.result.action == Rejected && a.engine.BookAt(l) == e.BookAt(l)
    else a.result.action == Reported(op) && a.engine.BookAt(l) == s.book
  }

  lemma OperationCarried(e: Engine, event: ItchEvent) returns (s: Step)
    requires e.Valid() && !e.Crashes(event)
    ensures var l := LocateOf(event); var a := e.Apply(event);
      && a.result.stockLocate == l
      && match OpFor(event, l)
         case None => a.result.action == Ignored && a.engine.BookAt(l) == e.BookAt(l)
         case Some(op) => Means(e.BookAt(l), op, s) && Carried(e, event, op, s)
  {
    hide Engine.Valid, Engine.Apply, Engine.Crashes, Book.Valid, Apply, Means, Stats.Bump, Shift, Capped, Reported, OpFor;
    var l := LocateOf(event);
    BookCounts(e, l);
    ApplyOutcome(e, event);
    OnBook(e, event, l);
    s := Step(e.BookAt(l), false);
    if OpFor(event, l).Some? {
      var op := OpFor(event, l).value;
      s := Apply(e.BookAt(l), op);
      OperationMeans(e.BookAt(l), op);
      ApplyValid(e.BookAt(l), op);
    }
  }

  lemma OnBook(e: Engine, event: ItchEvent, l: StockLocate)
    requires e.Valid() && !e.Crashes(event)
    ensures DoesItsOp(e, event, l)
  {
    hide DoesItsOp, Book.Valid;
    EventOnBook(e, event, l);
  }

  lemma CappedIs(e: Engine, event: ItchEvent)
    requires e.Valid()
    ensures Capped(e, event) <==> (event.AddOrder? || event.AddAttributedOrder?) && NoRoom(e, event.header.stockLocate)
  {
    hide Engine.Valid, NoRoom, Engine.CanCreate;
    if event.AddOrder? || event.AddAttributedOrder? {
      RoomIs(e, event.header.stockLocate);
    }
  }

  lemma EffectMeans(e: Engine, event: ItchEvent)
    requires e.Valid() && !e.Crashes(event)
    ensures var a := e.Apply(event); var l := a.result.stockLocate;
      IsLocate(event, l) && Effect(e, event, l, a.result.action, a.engine.BookAt(l))
  {
    hide Engine.Valid, Engine.Apply, Engine.Crashes, Engine.BookAt, Capped, NoRoom, Removes, SameQueues, Requeues;
    CappedIs(e, event);
    var s := OperationCarried(e, event);
    assert s.ok ==> s == Step(s.book, true);
  }

  lemma CountersMean(e: Engine, event: ItchEvent)
    requires e.Valid() && !e.Crashes(event)
    ensures CountedAs(e.stats, e.Apply(event).result.action, e.Apply(event).engine.stats)
    ensures var action := e.Apply(event).result.action;
      e.Apply(event).result.changedBook <==> action != Ignored && action != Rejected
  {
    hide Engine.Valid, Engine.Apply, Engine.Crashes, Engine.BookAt, Apply, CountedAs, Stats.Bump, Inc, Shift, Capped;
    ApplyOutcome(e, event);
    CountedMeans(e.stats, e.Apply(event).result.action);
  }

  lemma OthersStay(e: Engine, event: ItchEvent, k: StockLocate)
    requires e.Valid() && !e.Crashes(event) && k != LocateOf(event)
    ensures e.Apply(event).engine.BookAt(k) == e.BookAt(k)
  {
    hide Engine.Valid, Engine.Apply, Engine.Crashes, Engine.BookAt;
    OnBook(e, event, k);
  }

  lemma AddKeys(e: Engine, l: StockLocate, id: OrderId, side: Side, price: Price, shares: Quantity)
    ensures var a := e.ApplyAdd(l, id, side, price, shares).engine;
      && a.books.Keys == (if e.CanCreate(l) then e.books.Keys + {l} else e.books.Keys)
      && a.hollow == e.hollow && a.thrown == e.thrown && a.limits == e.limits
  {
    hide Engine.CanCreate, Book.Add, Stats.Bump, Shift;
  }

  lemma OtherKeys(e: Engine, event: ItchEvent)
    requires !event.AddOrder? && !event.AddAttributedOrder?
    ensures var a := e.Visit(event).engine;
      a.books.Keys == e.books.Keys && a.hollow == e.hollow && a.thrown == e.thrown && a.limits == e.limits
  {
    hide Book.Cancel, Book.Erase, Book.Replace, Stats.Bump, Shift, Engine.ApplyAdd;
  }

  /** The entries of the map of books, and what no event changes. */
  lemma EntriesMean(e: Engine, event: ItchEvent)
    requires e.Valid()
    ensures var a := e.Apply(event).engine; var l := LocateOf(event);
      && a.books.Keys == (if MakesBook(e, event, l) then e.books.Keys + {l} else e.books.Keys)
      && a.hollow == e.hollow && a.thrown == e.thrown && a.limits == e.limits
  {
    hide Engine.Valid, Engine.CanCreate, NoRoom, Engine.ApplyAdd, Engine.ApplyReduce, Engine.ApplyDelete, Engine.ApplyReplace;
    if event.AddOrder? || event.AddAttributedOrder? {
      RoomIs(e, LocateOf(event));
      SameRoom(e, LocateOf(event));
      AddKeys(e.Received(), LocateOf(event), event.orderReference, event.side, event.price, event.shares);
    } else {
      OtherKeys(e.Received(), event);
    }
  }

  lemma SameRoom(e: Engine, l: StockLocate)
    ensures e.Received().CanCreate(l) <==> e.CanCreate(l)
  {
  }

  /** Everything one event does, from any valid engine. */
  lemma EventMeans(e: Engine, event: ItchEvent)
    requires e.Valid() && !e.Crashes(event)
    ensures EventIs(e, event, e.Apply(event))
  {
    hide Engine.Apply, Engine.Crashes, Engine.BookAt, Book.Valid, SumOrders, Effect, CountedAs, MakesBook, Stats.Balanced;
    EffectMeans(e, event);
    CountersMean(e, event);
    EntriesMean(e, event);
    ApplyKeeps(e, event);
    assert LocateOf(event) == e.Apply(event).result.stockLocate;
    forall k: StockLocate | k != LocateOf(event)
      ensures e.Apply(event).engine.BookAt(k) == e.BookAt(k)
    {
      OthersStay(e, event, k);
    }
  }

  // ---- the counters of a whole run ----

  /** How many events since the last `clear` were reported as `action`, when it were `n` before. */
  ghost function Times(e: Engine, inputs: seq<Input>, action: Action, n: nat): nat
    requires Sound(e, inputs)
    decreases |inputs|
  {
    if inputs == [] then n
    else
      Times(Next(e, inputs[0]), inputs[1..], action,
            match inputs[0]
            case Event(event) => if e.Apply(event).result.action == action then n + 1 else n
            case Clear => 0
            case _ => n)
  }

  /** How many events came since the last `clear`, also those that ended in an exception. */
  function Messages(inputs: seq<Input>, n: nat): nat
    decreases |inputs|
  {
    if inputs == [] then n
    else
      Messages(inputs[1..], if inputs[0].Event? || inputs[0].EventThrows? then n + 1 else if inputs[0].Clear? then 0 else n)
  }

  /** In every reachable state each counter of an outcome is the number of events that were reported so since the
      last `clear`, and `messages` the number of all events since then, in 64 bits. */
  lemma CountersCount(limits: Limits, inputs: seq<Input>)
    requires Sound(NewEngine(limits), inputs)
    ensures var e := NewEngine(limits); var st := Run(e, inputs).stats;
      && st.ignored == Times(e, inputs, Ignored, 0) % 0x1_0000_0000_0000_0000
      && st.adds == Times(e, inputs, Added, 0) % 0x1_0000_0000_0000_0000
      && st.executions == Times(e, inputs, Executed, 0) % 0x1_0000_0000_0000_0000
      && st.cancels == Times(e, inputs, Cancelled, 0) % 0x1_0000_0000_0000_0000
      && st.deletes == Times(e, inputs, Deleted, 0) % 0x1_0000_0000_0000_0000
      && st.replacements == Times(e, inputs, Replaced, 0) % 0x1_0000_0000_0000_0000
      && st.rejected == Times(e, inputs, Rejected, 0) % 0x1_0000_0000_0000_0000
      && st.messages == Messages(inputs, 0) % 0x1_0000_0000_0000_0000
  {
    hide Engine.Valid, Run, Sound, Times, Messages;
    var e := NewEngine(limits);
    NewEngineValid(limits);
    TimesCounted(e, inputs, Ignored, 0);
    TimesCounted(e, inputs, Added, 0);
    TimesCounted(e, inputs, Executed, 0);
    TimesCounted(e, inputs, Cancelled, 0);
    TimesCounted(e, inputs, Deleted, 0);
    TimesCounted(e, inputs, Replaced, 0);
    TimesCounted(e, inputs, Rejected, 0);
    MessagesCounted(e, inputs, 0);
  }

  function CounterOf(st: Stats, action: Action): Word {
    match action
    case Ignored => st.ignored
    case Added => st.adds
    case Executed => st.executions
    case Cancelled => st.cancels
    case Deleted => st.deletes
    case Replaced => st.replacements
    case Rejected => st.rejected
  }

  lemma {:induction false} TimesCounted(e: Engine, inputs: seq<Input>, action: Action, n: nat)
    requires e.Valid() && Sound(e, inputs) && CounterOf(e.stats, action) == n % TWO_64
    ensures CounterOf(Run(e, inputs).stats, action) == Times(e, inputs, action, n) % TWO_64
    decreases |inputs|
  {
    hide Engine.Valid, Next, Defined, CounterOf;
    if inputs != [] {
      var i, e' := inputs[0], Next(e, inputs[0]);
      NextKeeps(e, i);
      NextCounts(e, i, action);
      var more := i.Event? && e.Apply(i.event).result.action == action;
      PlusOne(n, more);
      TimesCounted(e', inputs[1..], action, if i.Clear? then 0 else if more then n + 1 else n);
    }
  }

  lemma PlusOne(n: nat, more: bool)
    ensures Plus(n % TWO_64, more) == (if more then n + 1 else n) % TWO_64
  {
  }

  /** What one input does to the counter of an outcome and to the counter of messages. */
  lemma NextCounts(e: Engine, i: Input, action: Action)
    requires e.Valid() && Defined(e, i)
    ensures CounterOf(Next(e, i).stats, action)
            == if i.Clear? then 0 else Plus(CounterOf(e.stats, action), i.Event? && e.Apply(i.event).result.action == action)
    ensures Next(e, i).stats.messages
            == if i.Clear? then 0 else Plus(e.stats.messages, i.Event? || i.EventThrows?)
  {
    hide Engine.Valid, Engine.Apply, Engine.SubmitLimit, Engine.SubmitMarket, Engine.ApplyThrows, Engine.LimitThrows;
    hide Engine.Crashes, Engine.CanThrow, Engine.LimitCrashes, Engine.LimitCanThrow;
    match i
    case Event(event) => CountersMean(e, event);
    case Clear =>
    case _ => StatsStay(e, i);
  }

  /** Submissions count no message, and an event that ends in an exception counts as a message only. */
  lemma StatsStay(e: Engine, i: Input)
    requires e.Valid() && Defined(e, i) && !i.Event? && !i.Clear?
    ensures Next(e, i).stats == if i.EventThrows? then e.stats.(messages := Plus(e.stats.messages, true)) else e.stats
  {
    hide Book.Valid, Book.Add, Book.Replace, Swept, Fills, Filled, Shift, Engine.CanCreate;
  }

  lemma {:induction false} MessagesCounted(e: Engine, inputs: seq<Input>, n: nat)
    requires e.Valid() && Sound(e, inputs) && e.stats.messages == n % TWO_64
    ensures Run(e, inputs).stats.messages == Messages(inputs, n) % TWO_64
    decreases |inputs|
  {
    hide Engine.Valid, Next, Defined;
    if inputs != [] {
      var i := inputs[0];
      NextKeeps(e, i);
      NextCounts(e, i, Ignored);
      PlusOne(n, i.Event? || i.EventThrows?);
      MessagesCounted(Next(e, i), inputs[1..], if i.Event? || i.EventThrows? then n + 1 else if i.Clear? then 0 else n);
    }
  }
}
