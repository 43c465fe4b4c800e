/** The replay program from end to end (src/app/itch_replay.cpp): the producer reads and decodes the input, the
    ring carries the events, and the consumer applies them to the matching engine. */
module Replay {
  import opened Common
  import opened Itch
  import opened ItchCodec
  import opened FrameReader
  import opened RingProtocol
  import opened ReplayPipeline
  import opened BookModel
  import opened EngineModel
  import opened EngineRuns
  import opened EngineLaws

  type ReplayAction = ReplayPipeline.Action<ItchEvent>

  /** The input that is left, the engine, and the two threads. The steps below never look at `threads.events`
      and `threads.inputFails`, which foretell what the input decodes to. */
  datatype Program = Program(rest: seq<Byte>, broken: bool, engine: Engine, threads: Pipeline<ItchEvent>)

  /** The program on an input, with a new engine and a new ring. */
  ghost function Launch(input: seq<Byte>, broken: bool, limits: Limits, ring: Ring<ItchEvent>): Program {
    var d := Decoded(input, broken);
    Program(input, broken, NewEngine(limits),
            Pipeline(d.0, d.1 != AtEnd, ring, Reading, 0, None, false, false, 0, Top, false, []))
  }

  /** The frame at the front of the input. */
  function FrontFrame(rest: seq<Byte>): seq<Byte> {
    if |rest| >= 2 && |rest| >= 2 + Read2(rest, 0) then rest[..2 + Read2(rest, 0)] else []
  }

  /** `next_frame` returns a frame, and `decode_next` completes on it. */
  predicate NextDecodes(p: Program) {
    FrameStatus(p.rest, p.broken).Frame? && DecodeNext(FrontFrame(p.rest)).Complete?
  }

  ghost predicate CanStep(p: Program, action: ReplayAction) {
    match action
    case Decode => p.threads.producer.Reading? && NextDecodes(p)
    case InputEnds => p.threads.producer.Reading? && !NextDecodes(p)
    case _ => CanDo(p.threads, action)
  }

  ghost function StepProgram(p: Program, action: ReplayAction): Program
    requires CanStep(p, action)
  {
    match action
    case Decode =>
      var event := DecodeNext(FrontFrame(p.rest)).event;
      p.(rest := p.rest[|FrontFrame(p.rest)|..],
         threads := p.threads.(producer := Pushing, decoded := p.threads.decoded + 1, queued := Some(event)))
    case InputEnds =>
      p.(threads := p.threads.(producer := if FrameStatus(p.rest, p.broken).EndOfFile? then Finishing else Failing))
    case Apply =>
      p.(engine := p.engine.Apply(p.threads.consumer.event).engine, threads := AfterAction(p.threads, action))
    case _ => p.(threads := AfterAction(p.threads, action))
  }

  ghost predicate CanRunProgram(p: Program, actions: seq<ReplayAction>)
    decreases |actions|
  {
    actions == [] || (CanStep(p, actions[0]) && CanRunProgram(StepProgram(p, actions[0]), actions[1..]))
  }

  ghost function RunProgram(p: Program, actions: seq<ReplayAction>): Program
    requires CanRunProgram(p, actions)
    decreases |actions|
  {
    if actions == [] then p else RunProgram(StepProgram(p, actions[0]), actions[1..])
  }

  // ---- the program is its threads, its input and its engine ----

  /** What the rest of the input decodes to is what the threads have still to decode, and the engine is what
      the applied events make of a new one. */
  ghost predicate Agrees(p: Program, limits: Limits) {
    && InputAgrees(p.rest, p.broken, p.threads)
    && p.engine == RunEvents(NewEngine(limits), p.threads.applied)
  }

  ghost predicate InputAgrees(rest: seq<Byte>, broken: bool, t: Pipeline<ItchEvent>) {
    && t.decoded <= |t.events| && Decoded(rest, broken).0 == t.events[t.decoded..]
    && (t.inputFails <==> Decoded(rest, broken).1 != AtEnd)
  }

  /** What one turn of the producer finds at the front of the input. */
  lemma FrontMeans(rest: seq<Byte>, broken: bool)
    ensures var f := FrontFrame(rest);
      if FrameStatus(rest, broken).Frame? then
        && f <= rest
        && if DecodeNext(f).Complete? then
             Decoded(rest, broken) == ([DecodeNext(f).event] + Decoded(rest[|f|..], broken).0, Decoded(rest[|f|..], broken).1)
           else Decoded(rest, broken).0 == [] && Decoded(rest, broken).1 != AtEnd
      else Decoded(rest, broken).0 == [] && (Decoded(rest, broken).1 == AtEnd <==> FrameStatus(rest, broken).EndOfFile?)
  {
    hide Decoded, DecodeNext, Read2;
    StatusMeans(rest, broken);
    if FrameStatus(rest, broken).Frame? {
      var f := FrontFrame(rest);
      FrontIsFrame(rest);
      assert rest == f + rest[|f|..];
      FrameMeans(f, rest[|f|..], broken);
    }
  }

  lemma FrontIsFrame(rest: seq<Byte>)
    requires |rest| >= 2 && |rest| >= 2 + Read2(rest, 0)
    ensures IsFrame(rest[..2 + Read2(rest, 0)])
  {
    hide BigEndian;
    assert rest[..2 + Read2(rest, 0)][0..2] == rest[0..2];
  }

  lemma DecodeAgrees(p: Program)
    requires InputAgrees(p.rest, p.broken, p.threads) && p.threads.producer.Reading?
    ensures CanStep(p, Decode) <==> CanDo(p.threads, Decode)
    ensures CanStep(p, Decode) ==> StepProgram(p, Decode).threads == AfterAction(p.threads, Decode)
    ensures CanStep(p, Decode) ==> InputAgrees(StepProgram(p, Decode).rest, p.broken, StepProgram(p, Decode).threads)
    ensures CanStep(p, InputEnds) <==> CanDo(p.threads, InputEnds)
    ensures CanStep(p, InputEnds) ==> StepProgram(p, InputEnds).threads == AfterAction(p.threads, InputEnds)
  {
    hide Decoded, DecodeNext, FrameStatus, FrontFrame;
    FrontMeans(p.rest, p.broken);
    var t := p.threads;
    if NextDecodes(p) {
      assert t.events[t.decoded..][1..] == t.events[t.decoded + 1..];
    }
  }

  lemma {:induction false} RunOneMore(e: Engine, events: seq<ItchEvent>, event: ItchEvent)
    ensures RunEvents(e, events + [event]) == RunEvents(e, events).Apply(event).engine
    decreases |events|
  {
    hide Engine.Apply;
    if events == [] {
      assert (events + [event])[1..] == [];
    } else {
      assert (events + [event])[1..] == events[1..] + [event];
      RunOneMore(e.Apply(events[0]).engine, events[1..], event);
    }
  }

  /** The program can do what its threads can do, and its parts stay in agreement. */
  lemma StepAgrees(p: Program, action: ReplayAction, limits: Limits)
    requires Agrees(p, limits)
    ensures CanStep(p, action) <==> CanDo(p.threads, action)
    ensures CanStep(p, action) ==> StepProgram(p, action).threads == AfterAction(p.threads, action) && Agrees(StepProgram(p, action), limits)
  {
    hide InputAgrees, NextDecodes, Decoded, RunEvents, Engine.Apply, FrontFrame, DecodeNext, FrameStatus, CanDo, AfterAction;
    if p.threads.producer.Reading? {
      DecodeAgrees(p);
    } else {
      OnlyReading(p.threads);
    }
    if CanStep(p, action) {
      ThreadsFrame(p.threads, action);
      if !action.Decode? {
        SameInput(p.rest, p.broken, p.threads, AfterAction(p.threads, action));
      }
      if action.Apply? {
        RunOneMore(NewEngine(limits), p.threads.applied, p.threads.consumer.event);
      }
    }
  }

  lemma OnlyReading(t: Pipeline<ItchEvent>)
    requires !t.producer.Reading?
    ensures !CanDo(t, Decode) && !CanDo(t, InputEnds)
  {
  }

  /** What an action leaves alone. */
  lemma ThreadsFrame(t: Pipeline<ItchEvent>, action: ReplayAction)
    requires CanDo(t, action)
    ensures var t' := AfterAction(t, action);
      && t'.events == t.events && t'.inputFails == t.inputFails
      && (!action.Decode? ==> t'.decoded == t.decoded)
      && if action.Apply? then t.consumer.Applying? && t'.applied == t.applied + [t.consumer.event]
         else t'.applied == t.applied
  {
    hide Do, Enabled, AfterRing;
    if action.OnRing? {
      RingFrame(t.(ring := Do(t.ring, action.step)), t.ring, action.step);
    }
  }

  lemma SameInput(rest: seq<Byte>, broken: bool, t: Pipeline<ItchEvent>, t': Pipeline<ItchEvent>)
    ensures t'.events == t.events && t'.inputFails == t.inputFails && t'.decoded == t.decoded ==>
      (InputAgrees(rest, broken, t) <==> InputAgrees(rest, broken, t'))
  {
    hide Decoded;
  }

  lemma {:induction false} RunAgrees(p: Program, actions: seq<ReplayAction>, limits: Limits)
    requires Agrees(p, limits)
    ensures CanRunProgram(p, actions) <==> CanRun(p.threads, actions)
    ensures CanRunProgram(p, actions) ==>
      RunProgram(p, actions).threads == RunPipeline(p.threads, actions) && Agrees(RunProgram(p, actions), limits)
    decreases |actions|
  {
    hide Agrees, CanStep, StepProgram, CanDo, AfterAction;
    if actions != [] {
      StepAgrees(p, actions[0], limits);
      if CanStep(p, actions[0]) {
        RunAgrees(StepProgram(p, actions[0]), actions[1..], limits);
      }
    }
  }

  lemma LaunchAgrees(input: seq<Byte>, broken: bool, limits: Limits, ring: Ring<ItchEvent>)
    requires Initial(ring)
    ensures Agrees(Launch(input, broken, limits, ring), limits) && Starts(Launch(input, broken, limits, ring).threads)
  {
    hide Decoded, Initial;
    var d := Decoded(input, broken).0;
    assert d[0..] == d;
  }

  // ---- what a replay computes ----

  /** For every input, however it ends, and every interleaving of the two threads: the engine is at any moment
      what the events applied so far make of a new one, and those are the first events of the input; when the
      consumer has left its loop they are all of them, and `producer_failed` is set exactly when the input
      does not end after a whole, valid frame. */
  lemma ReplayIsTheFold(input: seq<Byte>, broken: bool, limits: Limits, ring: Ring<ItchEvent>, actions: seq<ReplayAction>)
    requires Initial(ring) && CanRunProgram(Launch(input, broken, limits, ring), actions)
    ensures var p := RunProgram(Launch(input, broken, limits, ring), actions); var d := Decoded(input, broken);
      && p.engine == RunEvents(NewEngine(limits), p.threads.applied) && p.threads.applied <= d.0 && p.engine.hollow == {}
      && (p.threads.consumer.Exited? ==>
            p.engine == RunEvents(NewEngine(limits), d.0) && (p.threads.failed <==> d.1 != AtEnd))
  {
    hide Decoded, RunEvents, RunPipeline, CanRun, Starts, InputAgrees, NoFault, Initial;
    var p0 := Launch(input, broken, limits, ring);
    LaunchAgrees(input, broken, limits, ring);
    RunAgrees(p0, actions, limits);
    EventsHollow(NewEngine(limits), RunProgram(p0, actions).threads.applied);
    NothingLost(p0.threads, actions);
  }

  /** A replay reconstructs the books: where no cap refuses an order, each locate has, at the end, the book that
      the reference book reaches with just the operations that the input holds for that locate. */
  lemma ReplayReconstructs(input: seq<Byte>, broken: bool, limits: Limits, ring: Ring<ItchEvent>, actions: seq<ReplayAction>,
                           l: StockLocate)
    requires Initial(ring) && CanRunProgram(Launch(input, broken, limits, ring), actions)
    requires RunProgram(Launch(input, broken, limits, ring), actions).threads.consumer.Exited?
    requires NeverCapped(NewEngine(limits), Decoded(input, broken).0)
    ensures RunProgram(Launch(input, broken, limits, ring), actions).engine.BookAt(l)
            == RunOps(EMPTY_BOOK, OpsFor(Decoded(input, broken).0, l))
  {
    hide Decoded, RunEvents, RunProgram, CanRunProgram, Launch, NeverCapped, RunOps, OpsFor, Engine.Valid, Initial;
    ReplayIsTheFold(input, broken, limits, ring, actions);
    NewEngineValid(limits);
    BooksAreIndependent(NewEngine(limits), Decoded(input, broken).0, l);
  }

  /** In particular for a file written from a list of events whose orders and locates fit in the caps. */
  lemma FileIsReconstructed(events: seq<ItchEvent>, limits: Limits, ring: Ring<ItchEvent>, actions: seq<ReplayAction>,
                            l: StockLocate)
    requires forall e :: e in events ==> !e.SkippedMessage?
    requires AddEvents(events) <= limits.maxRestingOrders && |AddLocates(events)| <= limits.maxInstruments
    requires Initial(ring) && CanRunProgram(Launch(EncodeAll(events), false, limits, ring), actions)
    requires RunProgram(Launch(EncodeAll(events), false, limits, ring), actions).threads.consumer.Exited?
    ensures var p := RunProgram(Launch(EncodeAll(events), false, limits, ring), actions);
      !p.threads.failed && p.engine.BookAt(l) == RunOps(EMPTY_BOOK, OpsFor(events, l))
  {
    hide RunEvents, RunProgram, CanRunProgram, Launch, NeverCapped, RunOps, OpsFor, Engine.Valid, Initial, AddEvents, AddLocates;
    FileRoundTrip(events, [], false);
    assert EncodeAll(events) + [] == EncodeAll(events) && events + [] == events;
    NewEngineValid(limits);
    assert NewEngine(limits).books.Keys + AddLocates(events) == AddLocates(events);
    CapsSuffice(NewEngine(limits), events);
    ReplayIsTheFold(EncodeAll(events), false, limits, ring, actions);
    ReplayReconstructs(EncodeAll(events), false, limits, ring, actions, l);
  }

  /** Every replay can be continued to its end. */
  lemma ReplayNeverStuck(input: seq<Byte>, broken: bool, limits: Limits, ring: Ring<ItchEvent>, actions: seq<ReplayAction>)
    returns (rest: seq<ReplayAction>)
    requires Initial(ring) && CanRunProgram(Launch(input, broken, limits, ring), actions)
    ensures CanRunProgram(Launch(input, broken, limits, ring), actions + rest)
    ensures RunProgram(Launch(input, broken, limits, ring), actions + rest).threads.consumer.Exited?
  {
    hide Decoded, Starts, Agrees, Initial, CanRun, RunPipeline;
    var p0 := Launch(input, broken, limits, ring);
    LaunchAgrees(input, broken, limits, ring);
    RunAgrees(p0, actions, limits);
    rest := NeverStuck(p0.threads, actions);
    RunAgrees(p0, actions + rest, limits);
  }
}
