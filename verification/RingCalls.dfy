/** What one call of each operation of the ring means while the other thread goes on: from the step that
    begins a call to the step before it returns, in every interleaving with stale but coherent loads. */
module RingCalls {
  import opened Bits
  import opened Common
  import opened RingProtocol

  /** The queue only grows at its back and shrinks at its front, and neither thread forgets what it knows. */
  ghost predicate Later<T>(s0: Ring<T>, s: Ring<T>) {
    && s.capacity == s0.capacity && s0.pushed <= s.pushed && s0.popped <= s.popped
    && s0.knownTaken <= s.knownTaken && s0.knownWritten <= s.knownWritten && s0.taken <= s.taken && s0.written <= s.written
  }

  lemma DoLater<T(!new)>(s: Ring<T>, step: Step<T>)
    requires Inv(s) && Enabled(s, step)
    ensures Later(s, Do(s, step))
  {
    hide PowerOfTwo, SlotOk, SlotOfRead, SlotOfWrite, SetSlot;
  }

  /** What is known of a call of `emplace(v)` that began in `s0`. */
  ghost predicate Pushing<T>(s0: Ring<T>, v: T, s: Ring<T>) {
    && Later(s0, s)
    && match s.producer
       case PHasWrite(a, _) => a == v && s.pushed == s0.pushed
       case PTest(a, _, _) => a == v && s.pushed == s0.pushed
       case PConstruct(a, _) => a == v && s.pushed == s0.pushed
       case PPublish(a, _) => a == v && s.pushed == s0.pushed
       case PReturns(a, ok) => a == v && PushedIs(s0, v, s, ok)
       case _ => false
  }

  /** The outcome of a push: it appends exactly its argument, or it leaves the queue alone because, as far as
      the producer then knew, the ring was full. */
  ghost predicate PushedIs<T>(s0: Ring<T>, v: T, s: Ring<T>, ok: bool) {
    && s.pushed == (if ok then s0.pushed + [v] else s0.pushed)
    && (!ok <==> s0.written == s.knownTaken + s.capacity)
  }

  ghost predicate Popping<T>(s0: Ring<T>, s: Ring<T>) {
    && Later(s0, s)
    && match s.consumer
       case CHasRead(_) => s.popped == s0.popped
       case CTest(_, _) => s.popped == s0.popped
       case CMove(_) => s.popped == s0.popped && s0.taken < s.knownWritten
       case CDestroy(_, _) => s.popped == s0.popped && s0.taken < s.knownWritten
       case CPublish(_, _) => s.popped == s0.popped && s0.taken < s.knownWritten
       case CReturns(result) => PoppedIs(s0, s, result)
       case _ => false
  }

  /** The outcome of a pop: it takes the value that was at the front of the queue, or it leaves the queue alone
      because, as far as the consumer then knew, there was none. */
  ghost predicate PoppedIs<T>(s0: Ring<T>, s: Ring<T>, result: Option<T>) {
    && (result.None? <==> s0.taken == s.knownWritten)
    && s.popped == (match result case None => s0.popped case Some(x) => s0.popped + [x])
    && (result.Some? ==> s0.taken < |s.pushed| && result.value == s.pushed[s0.taken])
  }

  ghost predicate TestingEmpty<T>(s0: Ring<T>, s: Ring<T>) {
    && Later(s0, s) && s.popped == s0.popped
    && (s.consumer.EHasRead? || (s.consumer.EReturns? && (s.consumer.isEmpty <==> s0.taken == s.knownWritten)))
  }

  ghost predicate TestingFull<T>(s0: Ring<T>, s: Ring<T>) {
    && Later(s0, s) && s.pushed == s0.pushed
    && (s.producer.FHasWrite? || (s.producer.FReturns? && (s.producer.isFull <==> s0.written == s.knownTaken + s.capacity)))
  }

  // ---- every step of either thread ----

  lemma PushingStep<T(!new)>(s0: Ring<T>, v: T, s: Ring<T>, step: Step<T>)
    requires Inv(s0) && Inv(s) && Enabled(s, step) && Pushing(s0, v, s) && !step.PushReturn?
    ensures Pushing(s0, v, Do(s, step))
  {
    hide PowerOfTwo, SlotOk, SlotOfRead, SlotOfWrite, SetSlot;
    DoLater(s, step);
    WrapDistance(s.written, s.knownTaken, s.capacity);
    assert |s.pushed| == s.written && |s0.pushed| == s0.written;
  }

  lemma PoppingStep<T(!new)>(s0: Ring<T>, s: Ring<T>, step: Step<T>)
    requires Inv(s0) && Inv(s) && Enabled(s, step) && Popping(s0, s) && !step.PopReturn?
    ensures Popping(s0, Do(s, step))
  {
    hide PowerOfTwo, SlotOk, SlotOfRead, SlotOfWrite, SetSlot;
    DoLater(s, step);
    WrapEqual(s.knownWritten, s.taken, s.capacity);
    assert |s.popped| == s.taken && |s0.popped| == s0.taken;
  }

  lemma EmptyStep<T(!new)>(s0: Ring<T>, s: Ring<T>, step: Step<T>)
    requires Inv(s0) && Inv(s) && Enabled(s, step) && TestingEmpty(s0, s) && !step.EmptyReturn?
    ensures TestingEmpty(s0, Do(s, step))
  {
    hide PowerOfTwo, SlotOk, SlotOfRead, SlotOfWrite, SetSlot;
    DoLater(s, step);
    assert |s.popped| == s.taken && |s0.popped| == s0.taken;
    if step.EmptyLoadWrite? {
      WrapEqual(step.seen, s.taken, s.capacity);
    }
  }

  lemma FullStep<T(!new)>(s0: Ring<T>, s: Ring<T>, step: Step<T>)
    requires Inv(s0) && Inv(s) && Enabled(s, step) && TestingFull(s0, s) && !step.FullReturn?
    ensures TestingFull(s0, Do(s, step))
  {
    hide PowerOfTwo, SlotOk, SlotOfRead, SlotOfWrite, SetSlot;
    DoLater(s, step);
    assert |s.pushed| == s.written && |s0.pushed| == s0.written;
    if step.FullLoadRead? {
      WrapDistance(s.written, step.seen, s.capacity);
    }
  }

  // ---- whole calls ----

  lemma {:induction false} PushingRun<T(!new)>(s0: Ring<T>, v: T, s: Ring<T>, steps: seq<Step<T>>)
    requires Inv(s0) && Inv(s) && Possible(s, steps) && Pushing(s0, v, s) && PushReturn !in steps
    ensures Pushing(s0, v, RunRing(s, steps))
    decreases |steps|
  {
    hide Inv, Enabled, Do, Pushing;
    if steps != [] {
      assert steps[0] in steps;
      StepKeeps(s, steps[0]);
      PushingStep(s0, v, s, steps[0]);
      PushingRun(s0, v, Do(s, steps[0]), steps[1..]);
    }
  }

  /** A call of `emplace(v)`, with any steps of the consumer in between: when it returns, it has appended
      exactly `v`, or left the queue alone; it refuses exactly when the ring was full by the newest
      publication of the consumer that it has seen, so never when the producer knew of room at the call. */
  lemma PushCallMeans<T(!new)>(s0: Ring<T>, v: T, steps: seq<Step<T>>)
    requires Inv(s0) && Possible(s0, [PushCall(v)] + steps) && PushReturn !in steps
    requires RunRing(s0, [PushCall(v)] + steps).producer.PReturns?
    ensures var s := RunRing(s0, [PushCall(v)] + steps);
      && Inv(s) && Later(s0, s) && s.producer.arg == v && PushedIs(s0, v, s, s.producer.ok)
      && (s0.written < s0.knownTaken + s0.capacity ==> s.producer.ok)
  {
    hide Inv, Pushing;
    var all := [PushCall(v)] + steps;
    assert all[1..] == steps;
    StepKeeps(s0, PushCall(v));
    RunKeepsInv(s0, all);
    PushBegins(s0, v);
    PushingRun(s0, v, Do(s0, PushCall(v)), steps);
    PushEnds(s0, v, RunRing(s0, all));
  }

  lemma PushBegins<T(!new)>(s0: Ring<T>, v: T)
    requires Inv(s0) && Enabled(s0, PushCall(v))
    ensures Pushing(s0, v, Do(s0, PushCall(v)))
  {
    DoLater(s0, PushCall(v));
  }

  lemma PushEnds<T(!new)>(s0: Ring<T>, v: T, s: Ring<T>)
    requires Pushing(s0, v, s) && s.producer.PReturns?
    ensures Later(s0, s) && s.producer.arg == v && PushedIs(s0, v, s, s.producer.ok)
    ensures s0.written < s0.knownTaken + s0.capacity ==> s.producer.ok
  {
  }

  lemma {:induction false} PoppingRun<T(!new)>(s0: Ring<T>, s: Ring<T>, steps: seq<Step<T>>)
    requires Inv(s0) && Inv(s) && Possible(s, steps) && Popping(s0, s) && PopReturn !in steps
    ensures Popping(s0, RunRing(s, steps))
    decreases |steps|
  {
    hide Inv, Enabled, Do, Popping;
    if steps != [] {
      assert steps[0] in steps;
      StepKeeps(s, steps[0]);
      PoppingStep(s0, s, steps[0]);
      PoppingRun(s0, Do(s, steps[0]), steps[1..]);
    }
  }

  /** A call of `try_pop`, with any steps of the producer in between: it takes the front value, or leaves the
      queue alone; it refuses exactly when the queue was empty by the newest publication of the producer that
      it has seen, so never when the consumer knew of a value at the call. */
  lemma PopCallMeans<T(!new)>(s0: Ring<T>, steps: seq<Step<T>>)
    requires Inv(s0) && Possible(s0, [PopCall] + steps) && PopReturn !in steps
    requires RunRing(s0, [PopCall] + steps).consumer.CReturns?
    ensures var s := RunRing(s0, [PopCall] + steps);
      && Inv(s) && Later(s0, s) && PoppedIs(s0, s, s.consumer.result)
      && (s0.taken < s0.knownWritten ==> s.consumer.result == Some(s0.pushed[s0.taken]))
  {
    hide Inv, Popping;
    var all := [PopCall] + steps;
    assert all[1..] == steps;
    StepKeeps(s0, PopCall);
    RunKeepsInv(s0, all);
    PopBegins(s0);
    PoppingRun(s0, Do(s0, PopCall), steps);
    PopEnds(s0, RunRing(s0, all));
  }

  lemma PopBegins<T(!new)>(s0: Ring<T>)
    requires Inv(s0) && Enabled(s0, PopCall)
    ensures Popping(s0, Do(s0, PopCall))
  {
    DoLater(s0, PopCall);
  }

  lemma PopEnds<T(!new)>(s0: Ring<T>, s: Ring<T>)
    requires Inv(s0) && Inv(s) && Popping(s0, s) && s.consumer.CReturns?
    ensures Later(s0, s) && PoppedIs(s0, s, s.consumer.result)
    ensures s0.taken < s0.knownWritten ==> s0.taken < |s0.pushed| && s.consumer.result == Some(s0.pushed[s0.taken])
  {
    hide PowerOfTwo, SlotOk;
  }

  lemma {:induction false} EmptyRun<T(!new)>(s0: Ring<T>, s: Ring<T>, steps: seq<Step<T>>)
    requires Inv(s0) && Inv(s) && Possible(s, steps) && TestingEmpty(s0, s) && EmptyReturn !in steps
    ensures TestingEmpty(s0, RunRing(s, steps))
    decreases |steps|
  {
    hide Inv, Enabled, Do, TestingEmpty;
    if steps != [] {
      assert steps[0] in steps;
      StepKeeps(s, steps[0]);
      EmptyStep(s0, s, steps[0]);
      EmptyRun(s0, Do(s, steps[0]), steps[1..]);
    }
  }

  /** A call of `empty`: a negative answer is true when it is given, and stays true until the next pop; a
      positive one says that the queue was empty by the newest publication the consumer has seen. */
  lemma EmptyCallMeans<T(!new)>(s0: Ring<T>, steps: seq<Step<T>>)
    requires Inv(s0) && Possible(s0, [EmptyCall] + steps) && EmptyReturn !in steps
    requires RunRing(s0, [EmptyCall] + steps).consumer.EReturns?
    ensures var s := RunRing(s0, [EmptyCall] + steps);
      && Inv(s) && Later(s0, s) && s.popped == s0.popped
      && (s.consumer.isEmpty <==> s0.taken == s.knownWritten) && (!s.consumer.isEmpty ==> Queued(s) != [])
  {
    hide Inv;
    var all := [EmptyCall] + steps;
    assert all[1..] == steps;
    StepKeeps(s0, EmptyCall);
    RunKeepsInv(s0, all);
    DoLater(s0, EmptyCall);
    EmptyRun(s0, Do(s0, EmptyCall), steps);
    Sizes(s0);
    Sizes(RunRing(s0, all));
  }

  lemma {:induction false} FullRun<T(!new)>(s0: Ring<T>, s: Ring<T>, steps: seq<Step<T>>)
    requires Inv(s0) && Inv(s) && Possible(s, steps) && TestingFull(s0, s) && FullReturn !in steps
    ensures TestingFull(s0, RunRing(s, steps))
    decreases |steps|
  {
    hide Inv, Enabled, Do, TestingFull;
    if steps != [] {
      assert steps[0] in steps;
      StepKeeps(s, steps[0]);
      FullStep(s0, s, steps[0]);
      FullRun(s0, Do(s, steps[0]), steps[1..]);
    }
  }

  /** A call of `full`: a negative answer is true when it is given, and stays true until the next push; a
      positive one says that the ring was full by the newest publication the producer has seen. */
  lemma FullCallMeans<T(!new)>(s0: Ring<T>, steps: seq<Step<T>>)
    requires Inv(s0) && Possible(s0, [FullCall] + steps) && FullReturn !in steps
    requires RunRing(s0, [FullCall] + steps).producer.FReturns?
    ensures var s := RunRing(s0, [FullCall] + steps);
      && Inv(s) && Later(s0, s) && s.pushed == s0.pushed
      && (s.producer.isFull <==> s0.written == s.knownTaken + s.capacity)
      && (!s.producer.isFull ==> |Queued(s)| < s.capacity)
  {
    hide Inv;
    var all := [FullCall] + steps;
    assert all[1..] == steps;
    StepKeeps(s0, FullCall);
    RunKeepsInv(s0, all);
    DoLater(s0, FullCall);
    FullRun(s0, Do(s0, FullCall), steps);
    Sizes(s0);
    Sizes(RunRing(s0, all));
  }

  lemma Sizes<T(!new)>(s: Ring<T>)
    requires Inv(s)
    ensures |s.pushed| == s.written && |s.popped| == s.taken && s.knownTaken <= s.taken <= s.knownWritten <= s.written
    ensures s.written <= s.knownTaken + s.capacity
  {
    hide PowerOfTwo, SlotOk;
  }

  // ---- what the loads may see ----

  /** A push that begins now may see any publication of the consumer between the newest it knows and the last one,
      and answers by that: so it may refuse although there is room, but need not. */
  lemma PushMaySee<T(!new)>(s: Ring<T>, v: T, n: nat)
    requires Inv(s) && s.producer.PIdle? && s.knownTaken <= n <= s.taken
    ensures var steps := [PushCall(v), PushLoadRead(n), PushTest];
      && Possible(s, steps)
      && var s' := RunRing(s, steps);
      && s'.pushed == s.pushed && s'.taken == s.taken && s'.knownTaken == n
      && if s.written == n + s.capacity then s'.producer == PReturns(v, false) else s'.producer == PConstruct(v, s.writeIndex)
  {
    hide Inv;
    var s1 := Do(s, PushCall(v));
    var s2 := Do(s1, PushLoadRead(n));
    ThreeSteps(s, PushCall(v), PushLoadRead(n), PushTest);
    Sizes(s);
    Indices(s);
    WrapDistance(s.written, n, s.capacity);
  }

  /** A pop that begins now may see any publication of the producer between the newest it knows and the last one:
      so it may miss a value, but need not. */
  lemma PopMaySee<T(!new)>(s: Ring<T>, n: nat)
    requires Inv(s) && s.consumer.CIdle? && s.knownWritten <= n <= s.written
    ensures var steps := [PopCall, PopLoadWrite(n), PopTest];
      && Possible(s, steps)
      && var s' := RunRing(s, steps);
      && s'.popped == s.popped && s'.written == s.written && s'.knownWritten == n
      && if s.taken == n then s'.consumer == CReturns(None) else s'.consumer == CMove(s.readIndex)
  {
    hide Inv;
    ThreeSteps(s, PopCall, PopLoadWrite(n), PopTest);
    Sizes(s);
    Indices(s);
    WrapEqual(n, s.taken, s.capacity);
  }

  lemma Indices<T(!new)>(s: Ring<T>)
    requires Inv(s)
    ensures s.writeIndex == s.written % TWO_64 && s.readIndex == s.taken % TWO_64 && s.written <= s.taken + s.capacity
  {
    hide PowerOfTwo, SlotOk;
  }

  lemma ThreeSteps<T(!new)>(s: Ring<T>, a: Step<T>, b: Step<T>, c: Step<T>)
    requires Enabled(s, a) && Enabled(Do(s, a), b) && Enabled(Do(Do(s, a), b), c)
    ensures Possible(s, [a, b, c]) && RunRing(s, [a, b, c]) == Do(Do(Do(s, a), b), c)
  {
    hide Enabled, Do;
    var s1 := Do(s, a);
    var s2 := Do(s1, b);
    assert [a, b, c][1..] == [b, c] && [b, c][1..] == [c] && [c][1..] == [];
    assert Possible(s2, [c]) && RunRing(s2, [c]) == Do(s2, c);
    assert Possible(s1, [b, c]) && RunRing(s1, [b, c]) == Do(s2, c);
  }
}
