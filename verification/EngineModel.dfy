/** The matching engine as a function on values: one reference book per stock locate, the global
    counter, the statistics and the caps (src/engine/matching_engine.cpp). */
module EngineModel {
  import opened Bits
  import opened Common
  import opened Itch
  import opened BookModel
  import opened Sweep

  datatype Limits = Limits(maxInstruments: Word, maxRestingOrders: Word)

  datatype Stats = Stats(messages: Word, ignored: Word, adds: Word, executions: Word, cancels: Word, deletes: Word,
                         replacements: Word, rejected: Word) {
    /** `messages` counts the seven outcomes and the `thrown` events that had none. */
    predicate Balanced(thrown: nat) {
      messages == CountedTo(Outcomes() + thrown)
    }

    function Outcomes(): nat {
      ignored + adds + executions + cancels + deletes + replacements + rejected
    }

    /** `++` on the counter of an outcome. */
    function Bump(action: Action): Stats {
      match action
      case Ignored => this.(ignored := Inc(ignored))
      case Added => this.(adds := Inc(adds))
      case Executed => this.(executions := Inc(executions))
      case Cancelled => this.(cancels := Inc(cancels))
      case Deleted => this.(deletes := Inc(deletes))
      case Replaced => this.(replacements := Inc(replacements))
      case Rejected => this.(rejected := Inc(rejected))
    }
  }

  const NO_STATS := Stats(0, 0, 0, 0, 0, 0, 0, 0)

  datatype Action = Ignored | Added | Executed | Cancelled | Deleted | Replaced | Rejected

  datatype ApplyResult = ApplyResult(action: Action, stockLocate: StockLocate, changedBook: bool)

  datatype MatchResult = MatchResult(filled: Quantity, resting: Quantity, unfilled: Quantity, fillCount: nat,
                                     fillsTruncated: bool, accepted: bool)

  const REFUSED := MatchResult(0, 0, 0, 0, false, false)

  /** `++counter` on a 64-bit counter. */
  function Inc(n: Word): Word {
    (n + 1) % TWO_64
  }

  /** A 64-bit counter after it was stepped up or down `d` times. */
  function Shift(n: Word, d: int): Word {
    (n + d) % TWO_64
  }

  /** What a 64-bit counter shows after `n` increments. */
  function CountedTo(n: nat): Word {
    if n == 0 then 0 else Inc(CountedTo(n - 1))
  }

  type Books = map<StockLocate, Book>

  datatype Applied = Applied(engine: Engine, result: ApplyResult)

  /** Where an allocation fails while a new order is put into a book: for the entry of a new book, for the
      new book itself, or inside the book. */
  datatype Failure = EntryFails | BookFails | OrderFails

  /** `hollow` are the locates whose entry has no book, because allocating it failed; `thrown` counts the
      events that ended in an exception. */
  datatype Engine = Engine(books: Books, hollow: set<StockLocate>, resting: Word, stats: Stats, thrown: nat,
                           limits: Limits) {
    /** The book of a locate; one that was never created shows nothing. */
    function BookAt(locate: StockLocate): Book {
      if locate in books then books[locate] else EMPTY_BOOK
    }

    /** The size of the map of books. */
    function Entries(): nat {
      |books| + |hollow|
    }

    predicate CanCreate(locate: StockLocate) {
      resting < limits.maxRestingOrders && (locate in books || Entries() < limits.maxInstruments)
    }

    /** `ensure_book` finds an entry without a book and dereferences it. */
    predicate Dereferences(locate: StockLocate) {
      CanCreate(locate) && locate in hollow
    }

    /** `ensure_book` and `add` can fail like this; `fits` says that the book would take the order. */
    predicate CanFail(locate: StockLocate, failure: Failure, fits: bool) {
      CanCreate(locate) && locate !in hollow && if failure.OrderFails? then fits else locate !in books
    }

    /** What such a failure leaves behind: nothing, an entry without a book, or a book as it was. */
    function Failed(locate: StockLocate, failure: Failure): Engine {
      match failure
      case EntryFails => this
      case BookFails => this.(hollow := hollow + {locate})
      case OrderFails => WithBook(locate, BookAt(locate))
    }

    function Received(): Engine {
      this.(stats := stats.(messages := Inc(stats.messages)))
    }

    function Reject(locate: StockLocate): Applied {
      Applied(this.(stats := stats.Bump(Rejected)), ApplyResult(Rejected, locate, false))
    }

    function Ignore(locate: StockLocate): Applied {
      Applied(this.(stats := stats.Bump(Ignored)), ApplyResult(Ignored, locate, false))
    }

    function WithBook(locate: StockLocate, b: Book): Engine {
      this.(books := books[locate := b])
    }

    function ApplyAdd(locate: StockLocate, id: OrderId, side: Side, price: Price, shares: Quantity): Applied {
      if !CanCreate(locate) then Reject(locate)
      else
        var s := BookAt(locate).Add(id, side, price, shares);
        if !s.ok then WithBook(locate, s.book).Reject(locate)
        else
          Applied(WithBook(locate, s.book).(resting := Shift(resting, 1), stats := stats.Bump(Added)),
                  ApplyResult(Added, locate, true))
    }

    /** An execution, or with `cancelled` a cancellation, of a resting order. */
    function ApplyReduce(locate: StockLocate, id: OrderId, shares: Quantity, cancelled: bool): Applied {
      var s := BookAt(locate).Cancel(id, shares);
      if locate !in books || !s.ok then Reject(locate)
      else
        var n := if books[locate].orders[id].quantity == shares then Shift(resting, -1) else resting;
        var action := if cancelled then Cancelled else Executed;
        Applied(WithBook(locate, s.book).(resting := n, stats := stats.Bump(action)),
                ApplyResult(action, locate, true))
    }

    function ApplyDelete(locate: StockLocate, id: OrderId): Applied {
      var s := BookAt(locate).Erase(id);
      if locate !in books || !s.ok then Reject(locate)
      else
        Applied(WithBook(locate, s.book).(resting := Shift(resting, -1), stats := stats.Bump(Deleted)),
                ApplyResult(Deleted, locate, true))
    }

    function ApplyReplace(locate: StockLocate, oldId: OrderId, newId: OrderId, price: Price, shares: Quantity): Applied {
      var s := BookAt(locate).Replace(oldId, newId, price, shares);
      if locate !in books || !s.ok then Reject(locate)
      else
        Applied(WithBook(locate, s.book).(stats := stats.Bump(Replaced)),
                ApplyResult(Replaced, locate, true))
    }

    /** `MatchingEngine::apply`. */
    function Apply(event: ItchEvent): Applied {
      Received().Visit(event)
    }

    /** The handler of each alternative of an event. */
    function Visit(event: ItchEvent): Applied {
      match event
      case AddOrder(h, id, side, shares, _, price) => ApplyAdd(h.stockLocate, id, side, price, shares)
      case AddAttributedOrder(h, id, side, shares, _, price, _) => ApplyAdd(h.stockLocate, id, side, price, shares)
      case OrderExecuted(h, id, shares, _) => ApplyReduce(h.stockLocate, id, shares, false)
      case OrderExecutedWithPrice(h, id, shares, _, _, _) => ApplyReduce(h.stockLocate, id, shares, false)
      case OrderCancel(h, id, shares) => ApplyReduce(h.stockLocate, id, shares, true)
      case OrderDelete(h, id) => ApplyDelete(h.stockLocate, id)
      case OrderReplace(h, oldId, newId, shares, price) => ApplyReplace(h.stockLocate, oldId, newId, price, shares)
      case SkippedMessage(_, h) => Ignore(if h.Some? then h.value.stockLocate else 0)
      case other => Ignore(other.header.stockLocate)
    }

    /** `apply` dereferences a book that was never allocated: exactly for an order within the caps on a
        locate whose book could not be allocated before. */
    predicate Crashes(event: ItchEvent) {
      (event.AddOrder? || event.AddAttributedOrder?) && Dereferences(event.header.stockLocate)
    }

    /** `apply` can end in an exception like this. */
    predicate CanThrow(event: ItchEvent, failure: Failure) {
      match event
      case AddOrder(h, id, side, shares, _, price) =>
        CanFail(h.stockLocate, failure, BookAt(h.stockLocate).Add(id, side, price, shares).ok)
      case AddAttributedOrder(h, id, side, shares, _, price, _) =>
        CanFail(h.stockLocate, failure, BookAt(h.stockLocate).Add(id, side, price, shares).ok)
      case OrderReplace(h, oldId, newId, shares, price) =>
        failure.OrderFails? && h.stockLocate in books
        && BookAt(h.stockLocate).Replace(oldId, newId, price, shares).ok
      case _ => false
    }

    /** The engine after such an exception: the message has been counted, and has no outcome. */
    function ApplyThrows(event: ItchEvent, failure: Failure): Engine
      requires CanThrow(event, failure)
    {
      Received().Failed(event.header.stockLocate, failure).(thrown := thrown + 1)
    }

    /** The engine after the sweep of `match`, which creates no book. */
    ghost function Matched(locate: StockLocate, t: Taker, quantity: Quantity): Engine {
      if locate !in books then this
      else
        var b := Swept(books[locate], t, quantity);
        WithBook(locate, b).(resting := Shift(resting, |b.orders| - |books[locate].orders|))
    }

    /** `MatchingEngine::match`: the fills are those of the greedy sweep, and the rest stays open. The
        fill buffer of the caller holds `capacity` fills. */
    ghost function Match(locate: StockLocate, t: Taker, quantity: Quantity, capacity: nat): Submission {
      var fills := Fills(BookAt(locate), t, quantity);
      FilledBound(BookAt(locate), t, quantity);
      Submission(Matched(locate, t, quantity),
                 MatchResult(Filled(fills), quantity - Filled(fills), 0, |fills|, |fills| > capacity, true), fills)
    }

    /** `MatchingEngine::submit_limit`. */
    ghost function SubmitLimit(locate: StockLocate, id: OrderId, side: Side, price: Price, quantity: Quantity,
                               capacity: nat): Submission {
      if quantity == 0 || id in BookAt(locate).orders then Submission(this, REFUSED, [])
      else
        var m := Match(locate, Taker(side, price, true), quantity, capacity);
        if m.result.resting == 0 then m
        else
          var s := m.engine.BookAt(locate).Add(id, side, price, m.result.resting);
          if !m.engine.CanCreate(locate) || !s.ok then
            m.(result := m.result.(unfilled := m.result.resting, resting := 0, accepted := false))
          else
            m.(engine := m.engine.WithBook(locate, s.book).(resting := Shift(m.engine.resting, 1)))
    }

    /** `submit_limit` dereferences a book that was never allocated. */
    predicate LimitCrashes(locate: StockLocate, quantity: Quantity) {
      quantity != 0 && Dereferences(locate)
    }

    /** `submit_limit` can end in an exception like this, when something is left to rest. */
    ghost predicate LimitCanThrow(locate: StockLocate, id: OrderId, side: Side, price: Price, quantity: Quantity,
                                  failure: Failure) {
      && quantity != 0 && id !in BookAt(locate).orders
      && Filled(Fills(BookAt(locate), Taker(side, price, true), quantity)) < quantity
      && Matched(locate, Taker(side, price, true), quantity).CanFail(locate, failure, true)
    }

    /** The engine after such an exception: the fills stay. */
    ghost function LimitThrows(locate: StockLocate, side: Side, price: Price, quantity: Quantity, failure: Failure): Engine {
      Matched(locate, Taker(side, price, true), quantity).Failed(locate, failure)
    }

    /** `MatchingEngine::submit_market`. */
    ghost function SubmitMarket(locate: StockLocate, side: Side, quantity: Quantity, capacity: nat): Submission {
      if quantity == 0 then Submission(this, REFUSED, [])
      else
        var m := Match(locate, Taker(side, 0, false), quantity, capacity);
        m.(result := m.result.(unfilled := m.result.resting, resting := 0))
    }

    ghost predicate Valid() {
      && (forall locate :: locate in books ==> books[locate].Valid())
      && resting == SumOrders(books) <= limits.maxRestingOrders
      && hollow !! books.Keys && Entries() <= limits.maxInstruments
      && stats.Balanced(thrown)
    }
  }

  datatype Submission = Submission(engine: Engine, result: MatchResult, fills: seq<Fill>)

  function NewEngine(limits: Limits): Engine {
    Engine(map[], {}, 0, NO_STATS, 0, limits)
  }

  /** The number of orders in all books. */
  ghost function SumOrders(books: Books): nat {
    SumOver(books, books.Keys)
  }

  ghost function SumOver(books: Books, locates: set<StockLocate>): nat {
    if locates == {} then 0
    else
      var l := Pick(locates);
      OrdersAt(books, l) + SumOver(books, locates - {l})
  }

  function OrdersAt(books: Books, l: StockLocate): nat {
    if l in books then |books[l].orders| else 0
  }

  ghost function Pick(locates: set<StockLocate>): (l: StockLocate)
    requires locates != {}
    ensures l in locates
  {
    var l: StockLocate :| l in locates;
    l
  }

  lemma {:induction false} GreedyBound(t: Taker, flat: seq<Resting>, quantity: Quantity)
    ensures Filled(Greedy(t, flat, quantity)) <= quantity
  {
    if quantity != 0 && flat != [] && t.Accepts(flat[0].price) {
      var f := Min(quantity, flat[0].quantity);
      GreedyBound(t, flat[1..], quantity - f);
      assert Greedy(t, flat, quantity)[1..] == Greedy(t, flat[1..], quantity - f);
    }
  }

  lemma FilledBound(b: Book, t: Taker, quantity: Quantity)
    ensures Filled(Fills(b, t, quantity)) <= quantity
  {
    GreedyBound(t, Flatten(b, t.side.Opposite()), quantity);
  }
}
