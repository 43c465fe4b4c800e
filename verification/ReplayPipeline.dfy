/** The two threads of the replay program (src/app/itch_replay.cpp): a producer that decodes events and
    pushes them, retrying while the ring refuses, and a consumer that pops and applies them until it has
    seen `producer_done` and then found the ring empty. The steps on the ring are those of RingProtocol. */
module ReplayPipeline {
  import opened Bits
  import opened Common
  import opened RingProtocol

  /** Where the producer thread stands. `Failing` is before the store of `producer_failed`, `Finishing`
      before the store of `producer_done`. */
  datatype ProducerPhase = Reading | Pushing | Failing | Finishing | Finished

  /** Where the consumer loop stands: at the load of `producer_done`, before or in `empty`, before or in
      `try_pop`, holding a popped event, or out of the loop. */
  datatype ConsumerPhase<T> = Top | TestEmpty | InEmpty | AtPop | InPop | Applying(event: T) | Exited

  /** `events` and `inputFails` are what the input decodes to: the events before its end, and whether it
      ends in an error. `queued` is the producer's local variable, None once it has been moved from. */
  datatype Pipeline<T> = Pipeline(
    events: seq<T>, inputFails: bool, ring: Ring<T>,
    producer: ProducerPhase, decoded: nat, queued: Option<T>, done: bool, failed: bool, writtenAtDone: nat,
    consumer: ConsumerPhase<T>, doneKnown: bool, applied: seq<T>)

  datatype Action<T> =
    | Decode | InputEnds | StoreFailed | StoreDone
    | LoadDone(seen: bool) | Apply
    | OnRing(step: Step<T>)

  ghost predicate Starts<T(!new)>(p: Pipeline<T>) {
    && Initial(p.ring)
    && p == Pipeline(p.events, p.inputFails, p.ring, Reading, 0, None, false, false, 0, Top, false, [])
  }

  /** Which thread may take a step of the ring, and with which argument. */
  ghost predicate RingStepAllowed<T(!new)>(p: Pipeline<T>, step: Step<T>) {
    match step
    case PushCall(v) => p.producer.Pushing? && p.queued == Some(v)
    case PushLoadRead(_) => p.producer.Pushing?
    case PushTest => p.producer.Pushing?
    case PushConstruct => p.producer.Pushing?
    case PushPublish => p.producer.Pushing?
    case PushReturn => p.producer.Pushing?
    case EmptyCall => p.consumer.TestEmpty?
    case EmptyLoadWrite(_) => p.consumer.InEmpty?
    case EmptyReturn => p.consumer.InEmpty?
    case PopCall => p.consumer.AtPop?
    // The replay program never asks whether the ring is full.
    case FullCall => false
    case FullLoadRead(_) => false
    case FullReturn => false
    case _ => p.consumer.InPop?
  }

  ghost predicate CanDo<T(!new)>(p: Pipeline<T>, action: Action<T>) {
    match action
    case Decode => p.producer.Reading? && p.decoded < |p.events|
    case InputEnds => p.producer.Reading? && p.decoded == |p.events|
    case StoreFailed => p.producer.Failing?
    case StoreDone => p.producer.Finishing?
    // A stale `false` may be read, but not after a `true`.
    case LoadDone(seen) => p.consumer.Top? && (seen ==> p.done) && (p.doneKnown ==> seen)
    case Apply => p.consumer.Applying?
    case OnRing(step) => RingStepAllowed(p, step) && Enabled(p.ring, step)
  }

  ghost function AfterAction<T(!new)>(p: Pipeline<T>, action: Action<T>): Pipeline<T>
    requires CanDo(p, action)
  {
    match action
    case Decode => p.(producer := Pushing, decoded := p.decoded + 1, queued := Some(p.events[p.decoded]))
    case InputEnds => p.(producer := if p.inputFails then Failing else Finishing)
    case StoreFailed => p.(producer := Finishing, failed := true)
    case StoreDone => p.(producer := Finished, done := true, writtenAtDone := p.ring.written)
    case LoadDone(seen) =>
      // Reading `true` makes every publication before the store visible.
      var known := if seen && p.ring.knownWritten < p.writtenAtDone then p.writtenAtDone else p.ring.knownWritten;
      p.(consumer := if seen then TestEmpty else AtPop, doneKnown := seen, ring := p.ring.(knownWritten := known))
    case Apply => p.(consumer := Top, applied := p.applied + [p.consumer.event])
    case OnRing(step) => AfterRing(p.(ring := Do(p.ring, step)), p.ring, step)
  }

  /** What a step on the ring means for the thread that takes it. */
  ghost function AfterRing<T(!new)>(p: Pipeline<T>, before: Ring<T>, step: Step<T>): Pipeline<T> {
    match step
    // The argument is moved from only when the object is constructed.
    case PushConstruct => p.(queued := None)
    case PushReturn => if before.producer.PReturns? && before.producer.ok then p.(producer := Reading) else p
    case EmptyCall => p.(consumer := InEmpty)
    case EmptyReturn => p.(consumer := if before.consumer.EReturns? && before.consumer.isEmpty then Exited else AtPop)
    case PopCall => p.(consumer := InPop)
    case PopReturn =>
      p.(consumer := if before.consumer.CReturns? && before.consumer.result.Some?
                     then Applying(before.consumer.result.value) else Top)
    case _ => p
  }

  // ---- the invariant ----

  /** The event being pushed is the one behind those published, and `queued` still holds it. */
  ghost predicate Holding<T>(p: Pipeline<T>) {
    && p.decoded == p.ring.written + 1 <= |p.events|
    && p.queued == Some(p.events[p.ring.written])
  }

  ghost predicate PushingOk<T>(p: Pipeline<T>) {
    match p.ring.producer
    case PIdle => Holding(p)
    case PHasWrite(v, _) => Holding(p) && p.queued == Some(v)
    case PTest(v, _, _) => Holding(p) && p.queued == Some(v)
    case PConstruct(v, _) => Holding(p) && p.queued == Some(v)
    case PPublish(v, _) => p.decoded == p.ring.written + 1 <= |p.events| && v == p.events[p.ring.written]
    case PReturns(v, ok) => if ok then p.decoded == p.ring.written <= |p.events| else Holding(p) && p.queued == Some(v)
    case _ => false
  }

  ghost predicate ProducerInv<T>(p: Pipeline<T>) {
    && p.decoded <= |p.events| && p.ring.written <= |p.events| && p.ring.pushed == p.events[..p.ring.written]
    && (p.done <==> p.producer.Finished?) && (p.done ==> p.writtenAtDone == p.ring.written)
    && (p.failed <==> p.inputFails && (p.producer.Finishing? || p.producer.Finished?))
    && (p.producer.Failing? ==> p.inputFails)
    && (p.producer.Pushing? ==> PushingOk(p))
    && (!p.producer.Pushing? ==> p.ring.producer.PIdle? && p.decoded == p.ring.written)
    && (!p.producer.Pushing? && !p.producer.Reading? ==> p.decoded == |p.events|)
  }

  ghost predicate ConsumerInv<T>(p: Pipeline<T>) {
    && (p.doneKnown ==> p.done && p.ring.knownWritten == p.ring.written)
    && match p.consumer
       case Top => p.ring.consumer.CIdle? && p.applied == p.ring.popped
       case AtPop => p.ring.consumer.CIdle? && p.applied == p.ring.popped
       case TestEmpty => p.ring.consumer.CIdle? && p.applied == p.ring.popped && p.doneKnown
       case InEmpty => (p.ring.consumer.EHasRead? || p.ring.consumer.EReturns?) && p.applied == p.ring.popped && p.doneKnown
       case InPop =>
         && !p.ring.consumer.CIdle? && !p.ring.consumer.EHasRead? && !p.ring.consumer.EReturns?
         && p.ring.popped == if p.ring.consumer.CReturns? && p.ring.consumer.result.Some?
                             then p.applied + [p.ring.consumer.result.value] else p.applied
       case Applying(v) => p.ring.consumer.CIdle? && p.ring.popped == p.applied + [v]
       case Exited => p.ring.consumer.CIdle? && p.applied == p.ring.popped && p.doneKnown && p.ring.taken == p.ring.written
  }

  ghost predicate PipelineInv<T>(p: Pipeline<T>) {
    Inv(p.ring) && ProducerInv(p) && ConsumerInv(p)
  }

  // ---- every action keeps it ----

  ghost predicate IsPush<T>(step: Step<T>) {
    step.PushCall? || step.PushLoadRead? || step.PushTest? || step.PushConstruct? || step.PushPublish? || step.PushReturn?
  }

  ghost predicate SameConsumer<T>(p: Pipeline<T>, q: Pipeline<T>) {
    && q.consumer == p.consumer && q.doneKnown == p.doneKnown && q.done == p.done && q.applied == p.applied
    && q.ring.consumer == p.ring.consumer && q.ring.popped == p.ring.popped && q.ring.taken == p.ring.taken
    && q.ring.knownWritten == p.ring.knownWritten && (p.done ==> q.ring.written == p.ring.written)
  }

  lemma ConsumerFrame<T(!new)>(p: Pipeline<T>, q: Pipeline<T>)
    requires ConsumerInv(p) && SameConsumer(p, q)
    ensures ConsumerInv(q)
  {
  }

  lemma PushFrame<T(!new)>(p: Pipeline<T>, step: Step<T>)
    requires ProducerInv(p) && CanDo(p, OnRing(step)) && IsPush(step)
    ensures SameConsumer(p, AfterAction(p, OnRing(step)))
  {
    hide SlotOfRead, SlotOfWrite, SetSlot, PushingOk;
  }

  lemma PushStepKeeps<T(!new)>(p: Pipeline<T>, step: Step<T>)
    requires PipelineInv(p) && CanDo(p, OnRing(step)) && IsPush(step)
    ensures PipelineInv(AfterAction(p, OnRing(step)))
  {
    hide Inv, ConsumerInv, SameConsumer, SlotOfRead, SlotOfWrite, SetSlot;
    StepKeeps(p.ring, step);
    InvCounts(p.ring);
    PushFrame(p, step);
    ConsumerFrame(p, AfterAction(p, OnRing(step)));
    var w := p.ring.written;
    assert w < |p.events| ==> p.events[..w + 1] == p.events[..w] + [p.events[w]];
  }

  ghost predicate IsEmptyTest<T>(step: Step<T>) {
    step.EmptyCall? || step.EmptyLoadWrite? || step.EmptyReturn?
  }

  /** The steps of one thread leave alone what the other's invariant speaks of. */
  ghost predicate SameProducer<T>(p: Pipeline<T>, q: Pipeline<T>) {
    && q.events == p.events && q.inputFails == p.inputFails && q.producer == p.producer && q.decoded == p.decoded
    && q.queued == p.queued && q.done == p.done && q.failed == p.failed && q.writtenAtDone == p.writtenAtDone
    && q.ring.producer == p.ring.producer && q.ring.written == p.ring.written && q.ring.pushed == p.ring.pushed
  }

  lemma ProducerFrame<T(!new)>(p: Pipeline<T>, q: Pipeline<T>)
    requires ProducerInv(p) && SameProducer(p, q)
    ensures ProducerInv(q)
  {
  }

  lemma TakeFrame<T(!new)>(p: Pipeline<T>, step: Step<T>)
    requires CanDo(p, OnRing(step)) && !IsPush(step)
    ensures SameProducer(p, AfterAction(p, OnRing(step)))
  {
    hide SlotOfRead, SlotOfWrite, SetSlot;
  }

  lemma EmptyStepKeeps<T(!new)>(p: Pipeline<T>, step: Step<T>)
    requires PipelineInv(p) && CanDo(p, OnRing(step)) && IsEmptyTest(step)
    ensures PipelineInv(AfterAction(p, OnRing(step)))
  {
    hide Inv, ProducerInv, SameProducer, SlotOfRead, SlotOfWrite, SetSlot;
    StepKeeps(p.ring, step);
    InvCounts(p.ring);
    InvCounts(Do(p.ring, step));
    ConsumerFacts(p.ring);
    TakeFrame(p, step);
    ProducerFrame(p, AfterAction(p, OnRing(step)));
  }

  /** The steps of `try_pop` that work on a slot. */
  ghost predicate IsTaking<T>(step: Step<T>) {
    step.PopMove? || step.PopDestroy? || step.PopPublish?
  }

  lemma PopTakeKeeps<T(!new)>(p: Pipeline<T>, step: Step<T>)
    requires PipelineInv(p) && CanDo(p, OnRing(step)) && IsTaking(step)
    ensures PipelineInv(AfterAction(p, OnRing(step)))
  {
    hide Inv, ProducerInv, SameProducer, SlotOfRead, SlotOfWrite, SetSlot;
    StepKeeps(p.ring, step);
    InvCounts(p.ring);
    TakeFrame(p, step);
    ProducerFrame(p, AfterAction(p, OnRing(step)));
  }

  lemma PopStepKeeps<T(!new)>(p: Pipeline<T>, step: Step<T>)
    requires PipelineInv(p) && CanDo(p, OnRing(step)) && !IsPush(step) && !IsEmptyTest(step) && !IsTaking(step)
    ensures PipelineInv(AfterAction(p, OnRing(step)))
  {
    hide Inv, ProducerInv, SameProducer, SlotOfRead, SlotOfWrite, SetSlot;
    StepKeeps(p.ring, step);
    InvCounts(p.ring);
    ConsumerFacts(p.ring);
    TakeFrame(p, step);
    ProducerFrame(p, AfterAction(p, OnRing(step)));
  }

  lemma InvCounts<T(!new)>(s: Ring<T>)
    requires Inv(s)
    ensures s.taken <= s.knownWritten <= s.written <= s.taken + s.capacity
    ensures |s.pushed| == s.written && s.popped == s.pushed[..s.taken] && s.capacity > 0
  {
  }

  /** What the consumer's local state says about the queue. */
  lemma ConsumerFacts<T(!new)>(s: Ring<T>)
    requires Inv(s)
    ensures s.consumer.EReturns? ==> (s.consumer.isEmpty <==> s.taken == s.knownWritten)
    ensures s.consumer.CTest? ==> (s.consumer.r == s.consumer.w <==> s.taken == s.knownWritten)
    ensures s.consumer.EHasRead? || s.consumer.CHasRead? ==>
      forall n: nat :: s.knownWritten <= n <= s.written ==> (s.consumer.r == n % TWO_64 <==> s.taken == n)
    ensures s.consumer.CMove? || s.consumer.CDestroy? || s.consumer.CPublish? ==> s.taken < s.knownWritten
  {
    WrapEqual(s.knownWritten, s.taken, s.capacity);
    forall n: nat | s.knownWritten <= n <= s.written
      ensures s.readIndex == n % TWO_64 <==> s.taken == n
    {
      WrapEqual(n, s.taken, s.capacity);
    }
  }

  /** Learning of a publication keeps the ring's invariant when no load is in use. */
  lemma LearnKeeps<T(!new)>(s: Ring<T>, known: nat)
    requires Inv(s) && s.consumer.CIdle? && s.knownWritten <= known <= s.written
    ensures Inv(s.(knownWritten := known))
  {
    var s' := s.(knownWritten := known);
    hide PowerOfTwo;
    NoSlot(s, s');
  }

  lemma LoadDoneKeeps<T(!new)>(p: Pipeline<T>, seen: bool)
    requires PipelineInv(p) && CanDo(p, LoadDone(seen))
    ensures PipelineInv(AfterAction(p, LoadDone(seen)))
  {
    hide Inv, PushingOk;
    InvCounts(p.ring);
    LearnKeeps(p.ring, AfterAction(p, LoadDone(seen)).ring.knownWritten);
    ProducerFrame(p, AfterAction(p, LoadDone(seen)));
  }

  lemma LocalKeeps<T(!new)>(p: Pipeline<T>, action: Action<T>)
    requires PipelineInv(p) && CanDo(p, action) && !action.OnRing? && !action.LoadDone?
    ensures PipelineInv(AfterAction(p, action))
  {
    hide Inv;
    InvCounts(p.ring);
  }

  /** What a step on the ring leaves alone. */
  lemma RingFrame<T(!new)>(p: Pipeline<T>, before: Ring<T>, step: Step<T>)
    ensures var q := AfterRing(p, before, step);
      q.events == p.events && q.inputFails == p.inputFails && q.decoded == p.decoded && q.applied == p.applied
  {
  }

  lemma InputStays<T(!new)>(p: Pipeline<T>, action: Action<T>)
    requires CanDo(p, action)
    ensures AfterAction(p, action).events == p.events && AfterAction(p, action).inputFails == p.inputFails
  {
    hide Do, Enabled, AfterRing;
    if action.OnRing? {
      RingFrame(p.(ring := Do(p.ring, action.step)), p.ring, action.step);
    }
  }

  lemma ActionKeeps<T(!new)>(p: Pipeline<T>, action: Action<T>)
    requires PipelineInv(p) && CanDo(p, action)
    ensures PipelineInv(AfterAction(p, action))
    ensures AfterAction(p, action).events == p.events && AfterAction(p, action).inputFails == p.inputFails
  {
    hide PipelineInv, AfterAction, CanDo;
    InputStays(p, action);
    match action
    case OnRing(step) =>
      if IsPush(step) {
        PushStepKeeps(p, step);
      } else if IsEmptyTest(step) {
        EmptyStepKeeps(p, step);
      } else if IsTaking(step) {
        PopTakeKeeps(p, step);
      } else {
        PopStepKeeps(p, step);
      }
    case LoadDone(seen) => LoadDoneKeeps(p, seen);
    case _ => LocalKeeps(p, action);
  }

  lemma StartsInv<T(!new)>(p: Pipeline<T>)
    requires Starts(p)
    ensures PipelineInv(p)
  {
    InitialInv(p.ring);
    InvCounts(p.ring);
  }

  // ---- runs ----

  ghost predicate CanRun<T(!new)>(p: Pipeline<T>, actions: seq<Action<T>>)
    decreases |actions|
  {
    actions == [] || (CanDo(p, actions[0]) && CanRun(AfterAction(p, actions[0]), actions[1..]))
  }

  ghost function RunPipeline<T(!new)>(p: Pipeline<T>, actions: seq<Action<T>>): Pipeline<T>
    requires CanRun(p, actions)
    decreases |actions|
  {
    if actions == [] then p else RunPipeline(AfterAction(p, actions[0]), actions[1..])
  }

  lemma {:induction false} RunKeepsInv<T(!new)>(p: Pipeline<T>, actions: seq<Action<T>>)
    requires PipelineInv(p) && CanRun(p, actions)
    ensures PipelineInv(RunPipeline(p, actions))
    ensures RunPipeline(p, actions).events == p.events && RunPipeline(p, actions).inputFails == p.inputFails
    decreases |actions|
  {
    hide PipelineInv, CanDo, AfterAction;
    if actions != [] {
      ActionKeeps(p, actions[0]);
      RunKeepsInv(AfterAction(p, actions[0]), actions[1..]);
    }
  }

  /** Safety, in every interleaving with stale but coherent loads: what has been applied is a prefix of
      what was decoded, in order; when the consumer has left its loop it is all of it, the producer has
      finished, and `producer_failed` says whether the input ended in an error. */
  lemma NothingLost<T(!new)>(p0: Pipeline<T>, actions: seq<Action<T>>)
    requires Starts(p0) && CanRun(p0, actions)
    ensures var p := RunPipeline(p0, actions);
      && p.applied <= p0.events
      && NoFault(p.ring)
      && (p.consumer.Exited? ==>
            p.applied == p0.events && p.producer.Finished? && p.failed == p0.inputFails && Queued(p.ring) == [])
  {
    StartsInv(p0);
    RunKeepsInv(p0, actions);
    var p := RunPipeline(p0, actions);
    InvNoFault(p.ring);
    InvCounts(p.ring);
    hide RunPipeline, CanRun, Inv, NoFault;
    assert p.ring.popped == p.events[..p.ring.taken];
  }

  // ---- no reachable unfinished state is stuck ----

  /** The producer has something to do other than wait for room in the ring. */
  ghost predicate ProducerCanMove<T>(p: Pipeline<T>) {
    && !p.producer.Finished?
    && !(p.producer.Pushing? && p.ring.producer.PIdle? && p.ring.written == p.ring.taken + p.ring.capacity)
  }

  /** The producer's next action, with the newest value in its loads. */
  ghost function ProducerAction<T(!new)>(p: Pipeline<T>): Action<T> {
    match p.producer
    case Reading => if p.decoded < |p.events| then Decode else InputEnds
    case Failing => StoreFailed
    case Finishing => StoreDone
    case Finished => StoreDone
    case Pushing =>
      match p.ring.producer
      case PIdle => if p.queued.Some? then OnRing(PushCall(p.queued.value)) else OnRing(PushReturn)
      case PHasWrite(_, _) => OnRing(PushLoadRead(p.ring.taken))
      case PTest(_, _, _) => OnRing(PushTest)
      case PConstruct(_, _) => OnRing(PushConstruct)
      case PPublish(_, _) => OnRing(PushPublish)
      case _ => OnRing(PushReturn)
  }

  /** The consumer's next action, with the newest value in its loads. */
  ghost function ConsumerAction<T(!new)>(p: Pipeline<T>): Action<T> {
    match p.consumer
    case Top => LoadDone(p.done)
    case TestEmpty => OnRing(EmptyCall)
    case InEmpty => if p.ring.consumer.EHasRead? then OnRing(EmptyLoadWrite(p.ring.written)) else OnRing(EmptyReturn)
    case AtPop => OnRing(PopCall)
    case InPop =>
      (match p.ring.consumer
       case CHasRead(_) => OnRing(PopLoadWrite(p.ring.written))
       case CTest(_, _) => OnRing(PopTest)
       case CMove(_) => OnRing(PopMove)
       case CDestroy(_, _) => OnRing(PopDestroy)
       case CPublish(_, _) => OnRing(PopPublish)
       case _ => OnRing(PopReturn))
    case Applying(_) => Apply
    case Exited => Apply
  }

  /** What is left to do: decodings, publications, takings, applications, the producer's stores and the exit. */
  ghost function Work<T>(p: Pipeline<T>): int {
    4 * |p.events| - p.decoded - p.ring.written - p.ring.taken - |p.applied|
    + (match p.producer case Reading => 3 case Pushing => 3 case Failing => 2 case Finishing => 1 case Finished => 0)
    + (if p.consumer.Exited? then 0 else 1)
  }

  /** How far the producer is from publishing, or from giving up on a full ring. */
  ghost function ProducerRank<T>(p: Pipeline<T>): nat {
    if !p.producer.Pushing? then 0
    else
      match p.ring.producer
      case PPublish(_, _) => 1
      case PConstruct(_, _) => 2
      case PTest(_, _, _) => if p.ring.written == p.ring.knownTaken + p.ring.capacity then 8 else 3
      case PHasWrite(_, _) => if p.ring.written == p.ring.taken + p.ring.capacity then 9 else 5
      case PIdle => 6
      case _ => 7
  }

  /** How far the consumer is from taking an event, or from leaving the loop. */
  ghost function ConsumerRank<T>(p: Pipeline<T>): nat {
    match p.consumer
    case Exited => 0
    case Applying(_) => 0
    case Top => if p.done then 10 else 7
    case TestEmpty => 9
    case InEmpty => if p.ring.consumer.EHasRead? then 8 else 7
    case AtPop => if p.ring.taken < p.ring.written then 6 else 14
    case InPop =>
      match p.ring.consumer
      case CHasRead(_) => if p.ring.taken < p.ring.written then 5 else 13
      case CTest(r, w) => if r == w then 12 else 4
      case CMove(_) => 3
      case CDestroy(_, _) => 2
      case CPublish(_, _) => 1
      case CReturns(result) => if result.Some? then 1 else 11
      case _ => 0
  }

  ghost function Rank<T>(p: Pipeline<T>): nat {
    ProducerRank(p) + ConsumerRank(p)
  }

  /** `q` is nearer the end of the run than `p`. */
  ghost predicate Nearer<T>(q: Pipeline<T>, p: Pipeline<T>) {
    Work(q) < Work(p) || (Work(q) == Work(p) && Rank(q) < Rank(p))
  }

  /** An unfinished thread that is not waiting for room can take its next action, and comes nearer the end. */
  lemma ProducerMoves<T(!new)>(p: Pipeline<T>)
    requires PipelineInv(p) && ProducerCanMove(p)
    ensures CanDo(p, ProducerAction(p)) && Nearer(AfterAction(p, ProducerAction(p)), p)
  {
    hide PipelineInv, ProducerCanMove, CanDo, AfterAction, Nearer, ProducerAction;
    if !p.producer.Pushing? {
      ReaderMoves(p);
    } else if p.ring.producer.PHasWrite? || p.ring.producer.PTest? {
      PushTestMoves(p);
    } else if p.ring.producer.PIdle? || p.ring.producer.PReturns? {
      PushCallMoves(p);
    } else {
      PushingMeans(p);
      PushWorkMoves(p);
    }
  }

  lemma ReaderMoves<T(!new)>(p: Pipeline<T>)
    requires PipelineInv(p) && ProducerCanMove(p) && !p.producer.Pushing?
    ensures CanDo(p, ProducerAction(p)) && Nearer(AfterAction(p, ProducerAction(p)), p)
  {
    hide Inv, ConsumerInv;
    InvCounts(p.ring);
  }

  lemma PushTestMoves<T(!new)>(p: Pipeline<T>)
    requires PipelineInv(p) && p.producer.Pushing? && (p.ring.producer.PHasWrite? || p.ring.producer.PTest?)
    ensures CanDo(p, ProducerAction(p)) && Nearer(AfterAction(p, ProducerAction(p)), p)
  {
    hide Inv, ConsumerInv;
    InvCounts(p.ring);
    KnownTaken(p.ring);
  }

  lemma PushCallMoves<T(!new)>(p: Pipeline<T>)
    requires PipelineInv(p) && ProducerCanMove(p) && p.producer.Pushing?
    requires p.ring.producer.PIdle? || p.ring.producer.PReturns?
    ensures CanDo(p, ProducerAction(p)) && Nearer(AfterAction(p, ProducerAction(p)), p)
  {
    hide Inv, ConsumerInv, SlotOfRead, SlotOfWrite, SetSlot;
    InvCounts(p.ring);
  }

  lemma PushWorkMoves<T(!new)>(p: Pipeline<T>)
    requires PipelineInv(p) && p.producer.Pushing? && (p.ring.producer.PConstruct? || p.ring.producer.PPublish?)
    ensures CanDo(p, ProducerAction(p)) && Nearer(AfterAction(p, ProducerAction(p)), p)
  {
    hide Inv, ConsumerInv, SlotOfRead, SlotOfWrite, SetSlot;
    InvCounts(p.ring);
  }

  lemma PushingMeans<T(!new)>(p: Pipeline<T>)
    requires PipelineInv(p) && p.producer.Pushing?
    ensures !p.ring.producer.FHasWrite? && !p.ring.producer.FReturns?
  {
    hide Inv, ConsumerInv;
  }

  lemma KnownTaken<T(!new)>(s: Ring<T>)
    requires Inv(s)
    ensures s.knownTaken <= s.taken
    ensures s.producer.PTest? ==>
      ((s.producer.w - s.producer.r) % TWO_64 == s.capacity <==> s.written == s.knownTaken + s.capacity)
  {
    WrapDistance(s.written, s.knownTaken, s.capacity);
  }

  /** A producer that waits has left something to take. */
  lemma Waiting<T(!new)>(p: Pipeline<T>)
    requires PipelineInv(p) && !ProducerCanMove(p)
    ensures p.done ==> p.producer.Finished?
    ensures p.done || p.ring.taken < p.ring.written
  {
    InvCounts(p.ring);
  }

  lemma PopTestMoves<T(!new)>(p: Pipeline<T>)
    requires PipelineInv(p) && !ProducerCanMove(p) && p.consumer.InPop? && (p.ring.consumer.CHasRead? || p.ring.consumer.CTest?)
    ensures CanDo(p, ConsumerAction(p)) && Nearer(AfterAction(p, ConsumerAction(p)), p)
  {
    hide Inv, NoFault, ProducerInv, ProducerCanMove, PushingOk, SlotOfRead, SlotOfWrite, SetSlot;
    Waiting(p);
    InvCounts(p.ring);
    ConsumerFacts(p.ring);
  }

  lemma PopTakeMoves<T(!new)>(p: Pipeline<T>)
    requires PipelineInv(p) && p.consumer.InPop?
    requires p.ring.consumer.CMove? || p.ring.consumer.CDestroy? || p.ring.consumer.CPublish?
    ensures CanDo(p, ConsumerAction(p)) && Nearer(AfterAction(p, ConsumerAction(p)), p)
  {
    hide Inv, NoFault, ProducerInv, PushingOk, SlotOfRead, SlotOfWrite, SetSlot;
    InvCounts(p.ring);
    InvNoFault(p.ring);
    ConsumerFacts(p.ring);
  }

  lemma PopReturnMoves<T(!new)>(p: Pipeline<T>)
    requires PipelineInv(p) && p.consumer.InPop? && p.ring.consumer.CReturns?
    ensures CanDo(p, ConsumerAction(p)) && Nearer(AfterAction(p, ConsumerAction(p)), p)
  {
    hide Inv, ProducerInv, PushingOk, SlotOfRead, SlotOfWrite, SetSlot;
    InvCounts(p.ring);
  }

  lemma EmptyMoves<T(!new)>(p: Pipeline<T>)
    requires PipelineInv(p) && !ProducerCanMove(p) && p.consumer.InEmpty?
    ensures CanDo(p, ConsumerAction(p)) && Nearer(AfterAction(p, ConsumerAction(p)), p)
  {
    hide Inv, NoFault, ProducerInv, ProducerCanMove, PushingOk, SlotOfRead, SlotOfWrite, SetSlot;
    Waiting(p);
    InvCounts(p.ring);
    ConsumerFacts(p.ring);
  }

  lemma LoopMoves<T(!new)>(p: Pipeline<T>)
    requires PipelineInv(p) && (p.consumer.TestEmpty? || p.consumer.AtPop? || p.consumer.Applying?)
    ensures CanDo(p, ConsumerAction(p)) && Nearer(AfterAction(p, ConsumerAction(p)), p)
  {
    hide Inv, NoFault, ProducerInv, PushingOk;
    InvCounts(p.ring);
  }

  lemma TopMoves<T(!new)>(p: Pipeline<T>)
    requires PipelineInv(p) && !ProducerCanMove(p) && p.consumer.Top?
    ensures CanDo(p, ConsumerAction(p)) && Nearer(AfterAction(p, ConsumerAction(p)), p)
  {
    hide Inv, NoFault, ProducerInv, ProducerCanMove, PushingOk;
    Waiting(p);
    InvCounts(p.ring);
  }

  lemma ConsumerMoves<T(!new)>(p: Pipeline<T>)
    requires PipelineInv(p) && !ProducerCanMove(p) && !p.consumer.Exited?
    ensures CanDo(p, ConsumerAction(p)) && Nearer(AfterAction(p, ConsumerAction(p)), p)
  {
    hide PipelineInv, ProducerCanMove, CanDo, AfterAction, Nearer, ConsumerAction;
    if p.consumer.InPop? {
      InPopMeans(p);
      if p.ring.consumer.CHasRead? || p.ring.consumer.CTest? {
        PopTestMoves(p);
      } else if p.ring.consumer.CReturns? {
        PopReturnMoves(p);
      } else {
        PopTakeMoves(p);
      }
    } else if p.consumer.InEmpty? {
      EmptyMoves(p);
    } else if p.consumer.Top? {
      TopMoves(p);
    } else {
      LoopMoves(p);
    }
  }

  lemma InPopMeans<T(!new)>(p: Pipeline<T>)
    requires PipelineInv(p) && p.consumer.InPop?
    ensures !p.ring.consumer.CIdle? && !p.ring.consumer.EHasRead? && !p.ring.consumer.EReturns?
  {
    hide Inv, ProducerInv;
  }

  /** Where `a` is followed by `b`. */
  lemma {:induction false} RunsConcatenate<T(!new)>(p: Pipeline<T>, a: seq<Action<T>>, b: seq<Action<T>>)
    requires CanRun(p, a) && CanRun(RunPipeline(p, a), b)
    ensures CanRun(p, a + b) && RunPipeline(p, a + b) == RunPipeline(RunPipeline(p, a), b)
    decreases |a|
  {
    hide AfterAction, CanDo;
    if a == [] {
      assert a + b == b;
    } else {
      RunsConcatenate(AfterAction(p, a[0]), a[1..], b);
      assert (a + b)[1..] == a[1..] + b;
    }
  }

  /** From every state that satisfies the invariant some continuation leads the consumer out of its loop. */
  lemma {:induction false} CanFinish<T(!new)>(p: Pipeline<T>) returns (rest: seq<Action<T>>)
    requires PipelineInv(p)
    ensures CanRun(p, rest) && RunPipeline(p, rest).consumer.Exited?
    decreases WorkLeft(p), Rank(p)
  {
    hide PipelineInv, ProducerCanMove, CanDo, AfterAction, Rank, Work, ProducerAction, ConsumerAction;
    if p.consumer.Exited? {
      return [];
    }
    var action;
    if ProducerCanMove(p) {
      ProducerMoves(p);
      action := ProducerAction(p);
    } else {
      ConsumerMoves(p);
      action := ConsumerAction(p);
    }
    ActionKeeps(p, action);
    WorkIsNat(p);
    WorkIsNat(AfterAction(p, action));
    var more := CanFinish(AfterAction(p, action));
    rest := [action] + more;
    assert rest[1..] == more;
  }

  ghost function WorkLeft<T>(p: Pipeline<T>): nat {
    if Work(p) < 0 then 0 else Work(p)
  }

  lemma WorkIsNat<T(!new)>(p: Pipeline<T>)
    requires PipelineInv(p)
    ensures Work(p) >= 0
  {
    hide Inv;
    InvCounts(p.ring);
    assert |p.applied| <= |p.ring.popped|;
  }

  /** No reachable state is stuck: every run can be continued until all decoded events have been applied
      and the consumer has left its loop. */
  lemma NeverStuck<T(!new)>(p0: Pipeline<T>, actions: seq<Action<T>>) returns (rest: seq<Action<T>>)
    requires Starts(p0) && CanRun(p0, actions)
    ensures CanRun(p0, actions + rest)
    ensures var p := RunPipeline(p0, actions + rest); p.consumer.Exited? && p.applied == p0.events
  {
    hide Starts;
    StartsInv(p0);
    RunKeepsInv(p0, actions);
    rest := CanFinish(RunPipeline(p0, actions));
    RunsConcatenate(p0, actions, rest);
    NothingLost(p0, actions + rest);
  }

  /** Nothing forces the end: while the consumer sees neither `producer_done` nor a new value, which may both be
      there, a turn of its loop leaves everything as it was. */
  lemma MaySpin<T(!new)>(p: Pipeline<T>)
    requires PipelineInv(p) && p.consumer.Top? && !p.doneKnown && p.ring.taken == p.ring.knownWritten
    ensures CanRun(p, Turn(p.ring.knownWritten)) && RunPipeline(p, Turn(p.ring.knownWritten)) == p
  {
    hide CanDo, AfterAction, Inv, ProducerInv;
    var n := p.ring.knownWritten;
    InvCounts(p.ring);
    ReadWhereKnown(p.ring);
    var r := p.ring.readIndex;
    var p1 := p.(consumer := AtPop);
    var p2 := p.(consumer := InPop, ring := p.ring.(consumer := CHasRead(r)));
    var p3 := p.(consumer := InPop, ring := p.ring.(consumer := CTest(r, r)));
    var p4 := p.(consumer := InPop, ring := p.ring.(consumer := CReturns(None)));
    MissesEnd(p);
    Calls(p1);
    SeesNothing(p2);
    FindsNothing(p3);
    GoesOn(p4);
    assert p4.(consumer := Top, ring := p4.ring.(consumer := CIdle)) == p;
    FirstAction(p4, OnRing(PopReturn), []);
    FirstAction(p3, OnRing(PopTest), [OnRing(PopReturn)]);
    FirstAction(p2, OnRing(PopLoadWrite(n)), [OnRing(PopTest), OnRing(PopReturn)]);
    FirstAction(p1, OnRing(PopCall), [OnRing(PopLoadWrite(n)), OnRing(PopTest), OnRing(PopReturn)]);
    FirstAction(p, LoadDone(false), [OnRing(PopCall), OnRing(PopLoadWrite(n)), OnRing(PopTest), OnRing(PopReturn)]);
  }

  lemma MissesEnd<T(!new)>(p: Pipeline<T>)
    requires p.consumer.Top? && !p.doneKnown
    ensures CanDo(p, LoadDone(false)) && AfterAction(p, LoadDone(false)) == p.(consumer := AtPop)
  {
  }

  lemma Calls<T(!new)>(p: Pipeline<T>)
    requires p.consumer.AtPop? && p.ring.consumer.CIdle?
    ensures CanDo(p, OnRing(PopCall))
    ensures AfterAction(p, OnRing(PopCall)) == p.(consumer := InPop, ring := p.ring.(consumer := CHasRead(p.ring.readIndex)))
  {
  }

  lemma SeesNothing<T(!new)>(p: Pipeline<T>)
    requires p.consumer.InPop? && p.ring.consumer.CHasRead? && p.ring.consumer.r == p.ring.knownWritten % TWO_64
    requires p.ring.knownWritten <= p.ring.written
    ensures var load := OnRing(PopLoadWrite(p.ring.knownWritten)); var r := p.ring.consumer.r;
      CanDo(p, load) && AfterAction(p, load) == p.(ring := p.ring.(consumer := CTest(r, r)))
  {
  }

  lemma FindsNothing<T(!new)>(p: Pipeline<T>)
    requires p.consumer.InPop? && p.ring.consumer.CTest? && p.ring.consumer.r == p.ring.consumer.w
    ensures CanDo(p, OnRing(PopTest))
    ensures AfterAction(p, OnRing(PopTest)) == p.(ring := p.ring.(consumer := CReturns(None)))
  {
  }

  lemma GoesOn<T(!new)>(p: Pipeline<T>)
    requires p.consumer.InPop? && p.ring.consumer == CReturns(None)
    ensures CanDo(p, OnRing(PopReturn))
    ensures AfterAction(p, OnRing(PopReturn)) == p.(consumer := Top, ring := p.ring.(consumer := CIdle))
  {
  }

  lemma ReadWhereKnown<T(!new)>(s: Ring<T>)
    requires Inv(s) && s.taken == s.knownWritten
    ensures s.readIndex == s.knownWritten % TWO_64
  {
    hide PowerOfTwo, SlotOk;
  }

  /** A turn of the consumer's loop that misses the end and finds nothing. */
  function Turn<T>(n: nat): seq<Action<T>> {
    [LoadDone(false), OnRing(PopCall), OnRing(PopLoadWrite(n)), OnRing(PopTest), OnRing(PopReturn)]
  }

  lemma FirstAction<T(!new)>(p: Pipeline<T>, action: Action<T>, rest: seq<Action<T>>)
    requires CanDo(p, action) && CanRun(AfterAction(p, action), rest)
    ensures CanRun(p, [action] + rest) && RunPipeline(p, [action] + rest) == RunPipeline(AfterAction(p, action), rest)
  {
    hide CanDo, AfterAction;
    assert ([action] + rest)[1..] == rest;
  }
}
