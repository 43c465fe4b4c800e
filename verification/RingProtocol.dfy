/** The single-producer single-consumer ring (include/lob/spsc_ring.hpp) as a protocol of micro-steps.

    Each thread loads its own index, loads the other's, tests, works on a slot and publishes. A load of
    the other thread's index may return any value published so far, but never one older than the thread
    already knows (read coherence, section 6.9.2.1 of ISO/IEC 14882:2020). Indices are 64-bit and wrap;
    `written` and `taken` count the publications without bound. */
module RingProtocol {
  import opened Bits
  import opened Common

  /** A slot holds no object, an object, or an object that has been moved from. */
  datatype Slot<T> = Raw | Live(value: T) | MovedFrom

  /** Where the producer stands in `emplace`, or in `full`. */
  datatype Producer<T> =
    | PIdle
    | PHasWrite(arg: T, w: Word)
    | PTest(arg: T, w: Word, r: Word)
    | PConstruct(arg: T, w: Word)
    | PPublish(arg: T, w: Word)
    | PReturns(arg: T, ok: bool)
    | FHasWrite(w: Word)
    | FReturns(isFull: bool)

  /** Where the consumer stands in `try_pop`, or in `empty`. */
  datatype Consumer<T> =
    | CIdle
    | CHasRead(r: Word)
    | CTest(r: Word, w: Word)
    | CMove(r: Word)
    | CDestroy(out: T, r: Word)
    | CPublish(out: T, r: Word)
    | CReturns(result: Option<T>)
    | EHasRead(r: Word)
    | EReturns(isEmpty: bool)

  datatype Ring<T> = Ring(
    capacity: Word, writeIndex: Word, readIndex: Word, slots: seq<Slot<T>>, producer: Producer<T>, consumer: Consumer<T>,
    written: nat, taken: nat, knownTaken: nat, knownWritten: nat, pushed: seq<T>, popped: seq<T>)

  datatype Step<T> =
    | PushCall(value: T) | PushLoadRead(seen: nat) | PushTest | PushConstruct | PushPublish | PushReturn
    | PopCall | PopLoadWrite(seen: nat) | PopTest | PopMove | PopDestroy | PopPublish | PopReturn
    | EmptyCall | EmptyLoadWrite(seen: nat) | EmptyReturn
    | FullCall | FullLoadRead(seen: nat) | FullReturn

  /** `index & mask_`. */
  function SlotAt(capacity: Word, index: Word): nat
    requires capacity > 0
  {
    BitAnd(index, capacity - 1)
  }

  /** Whether a step may be taken; a load may see any publication between the known and the last one. */
  ghost predicate Enabled<T(!new)>(s: Ring<T>, step: Step<T>) {
    match step
    case PushCall(_) => s.producer.PIdle?
    case PushLoadRead(seen) => s.producer.PHasWrite? && s.knownTaken <= seen <= s.taken
    case PushTest => s.producer.PTest?
    case PushConstruct => s.producer.PConstruct?
    case PushPublish => s.producer.PPublish?
    case PushReturn => s.producer.PReturns?
    case PopCall => s.consumer.CIdle?
    case PopLoadWrite(seen) => s.consumer.CHasRead? && s.knownWritten <= seen <= s.written
    case PopTest => s.consumer.CTest?
    case PopMove => s.consumer.CMove? && SlotOfRead(s) < |s.slots| && s.slots[SlotOfRead(s)].Live?
    case PopDestroy => s.consumer.CDestroy?
    case PopPublish => s.consumer.CPublish?
    case PopReturn => s.consumer.CReturns?
    case EmptyCall => s.consumer.CIdle?
    case EmptyLoadWrite(seen) => s.consumer.EHasRead? && s.knownWritten <= seen <= s.written
    case EmptyReturn => s.consumer.EReturns?
    case FullCall => s.producer.PIdle?
    case FullLoadRead(seen) => s.producer.FHasWrite? && s.knownTaken <= seen <= s.taken
    case FullReturn => s.producer.FReturns?
  }

  ghost function SlotOfRead<T>(s: Ring<T>): nat {
    if s.capacity == 0 then 0 else SlotAt(s.capacity, s.readIndex)
  }

  ghost function SlotOfWrite<T>(s: Ring<T>): nat {
    if s.capacity == 0 then 0 else SlotAt(s.capacity, s.writeIndex)
  }

  function SetSlot<T>(slots: seq<Slot<T>>, i: nat, slot: Slot<T>): seq<Slot<T>> {
    if i < |slots| then slots[i := slot] else slots
  }

  ghost function Do<T(!new)>(s: Ring<T>, step: Step<T>): Ring<T>
    requires Enabled(s, step)
  {
    match step
    case PushCall(v) => s.(producer := PHasWrite(v, s.writeIndex))
    case PushLoadRead(seen) =>
      s.(producer := PTest(s.producer.arg, s.producer.w, seen % TWO_64), knownTaken := seen)
    case PushTest =>
      var p := s.producer;
      s.(producer := if (p.w - p.r) % TWO_64 == s.capacity then PReturns(p.arg, false) else PConstruct(p.arg, p.w))
    case PushConstruct =>
      s.(producer := PPublish(s.producer.arg, s.producer.w),
         slots := SetSlot(s.slots, SlotOfWrite(s), Live(s.producer.arg)))
    case PushPublish =>
      s.(producer := PReturns(s.producer.arg, true), writeIndex := (s.producer.w + 1) % TWO_64,
         written := s.written + 1, pushed := s.pushed + [s.producer.arg])
    case PushReturn => s.(producer := PIdle)
    case PopCall => s.(consumer := CHasRead(s.readIndex))
    case PopLoadWrite(seen) => s.(consumer := CTest(s.consumer.r, seen % TWO_64), knownWritten := seen)
    case PopTest =>
      s.(consumer := if s.consumer.r == s.consumer.w then CReturns(None) else CMove(s.consumer.r))
    case PopMove =>
      s.(consumer := CDestroy(s.slots[SlotOfRead(s)].value, s.consumer.r),
         slots := SetSlot(s.slots, SlotOfRead(s), MovedFrom))
    case PopDestroy =>
      s.(consumer := CPublish(s.consumer.out, s.consumer.r), slots := SetSlot(s.slots, SlotOfRead(s), Raw))
    case PopPublish =>
      s.(consumer := CReturns(Some(s.consumer.out)), readIndex := (s.consumer.r + 1) % TWO_64,
         taken := s.taken + 1, popped := s.popped + [s.consumer.out])
    case PopReturn => s.(consumer := CIdle)
    case EmptyCall => s.(consumer := EHasRead(s.readIndex))
    case EmptyLoadWrite(seen) =>
      s.(consumer := EReturns(s.consumer.r == seen % TWO_64), knownWritten := seen)
    case EmptyReturn => s.(consumer := CIdle)
    case FullCall => s.(producer := FHasWrite(s.writeIndex))
    case FullLoadRead(seen) =>
      s.(producer := FReturns((s.producer.w - seen % TWO_64) % TWO_64 == s.capacity), knownTaken := seen)
    case FullReturn => s.(producer := PIdle)
  }

  ghost predicate Initial<T(!new)>(s: Ring<T>) {
    && PowerOfTwo(s.capacity)
    && s == Ring(s.capacity, 0, 0, s.slots, PIdle, CIdle, 0, 0, 0, 0, [], [])
    && |s.slots| == s.capacity && forall i :: 0 <= i < |s.slots| ==> s.slots[i] == Raw
  }

  /** The capacities the constructor accepts. */
  predicate PowerOfTwo(capacity: Word) {
    capacity != 0 && BitAnd(capacity, capacity - 1) == 0
  }

  // ---- the invariant ----

  /** What the slot for position `i` holds; positions are counted without bound. */
  ghost function Expected<T>(s: Ring<T>, i: nat): Slot<T>
    requires |s.pushed| == s.written
  {
    if i < s.taken then Raw
    else if i == s.taken && s.consumer.CDestroy? then MovedFrom
    else if i == s.taken && s.consumer.CPublish? then Raw
    else if i < s.written then Live(s.pushed[i])
    else if i == s.written && s.producer.PPublish? then Live(s.producer.arg)
    else Raw
  }

  ghost predicate SlotOk<T>(s: Ring<T>, i: nat)
    requires |s.pushed| == s.written && 0 < s.capacity == |s.slots|
  {
    s.slots[i % s.capacity] == Expected(s, i)
  }

  ghost predicate ProducerOk<T>(s: Ring<T>) {
    match s.producer
    case PIdle => true
    case PHasWrite(_, w) => w == s.writeIndex
    case PTest(_, w, r) => w == s.writeIndex && r == s.knownTaken % TWO_64
    case PConstruct(_, w) => w == s.writeIndex && s.written < s.knownTaken + s.capacity
    case PPublish(_, w) => w == s.writeIndex && s.written < s.knownTaken + s.capacity
    case PReturns(_, _) => true
    case FHasWrite(w) => w == s.writeIndex
    case FReturns(isFull) => isFull <==> s.written == s.knownTaken + s.capacity
  }

  ghost predicate ConsumerOk<T>(s: Ring<T>)
    requires |s.pushed| == s.written
  {
    match s.consumer
    case CIdle => true
    case CHasRead(r) => r == s.readIndex
    case CTest(r, w) => r == s.readIndex && w == s.knownWritten % TWO_64
    case CMove(r) => r == s.readIndex && s.taken < s.knownWritten
    case CDestroy(out, r) => r == s.readIndex && s.taken < s.knownWritten && s.taken < s.written && out == s.pushed[s.taken]
    case CPublish(out, r) => r == s.readIndex && s.taken < s.knownWritten && s.taken < s.written && out == s.pushed[s.taken]
    case CReturns(_) => true
    case EHasRead(r) => r == s.readIndex
    case EReturns(isEmpty) => isEmpty <==> s.taken == s.knownWritten
  }

  ghost predicate Counters<T>(s: Ring<T>) {
    && 0 < s.capacity == |s.slots| && PowerOfTwo(s.capacity)
    && s.writeIndex == s.written % TWO_64 && s.readIndex == s.taken % TWO_64
    && s.knownTaken <= s.taken <= s.knownWritten <= s.written <= s.knownTaken + s.capacity
    && |s.pushed| == s.written && s.popped == s.pushed[..s.taken]
  }

  ghost predicate Inv<T>(s: Ring<T>) {
    && Counters(s) && ProducerOk(s) && ConsumerOk(s)
    && forall i :: s.taken <= i < s.taken + s.capacity ==> SlotOk(s, i)
  }

  /** No step works on a slot in the wrong state: construction needs a raw slot, a move a live object, a
      destruction the object that was moved from. */
  ghost predicate NoFault<T>(s: Ring<T>) {
    && (s.producer.PConstruct? ==> SlotOfWrite(s) < |s.slots| && s.slots[SlotOfWrite(s)] == Raw)
    && (s.consumer.CMove? ==> SlotOfRead(s) < |s.slots| && s.slots[SlotOfRead(s)].Live?)
    && (s.consumer.CDestroy? ==> SlotOfRead(s) < |s.slots| && s.slots[SlotOfRead(s)] == MovedFrom)
  }

  // ---- lemmas ----

  lemma PowerDivides(c: Word)
    requires PowerOfTwo(c)
    ensures exists m: nat :: TWO_64 == c * m && m > 0
  {
    PowerOfTwoTest(c);
    var k := BitWidth(c) - 1;
    BitWidthOfWord(c);
    assert c > 0 && k >= 0;
    Pow2Add(k, 64 - k);
    Pow2Values();
    assert TWO_64 == c * Pow2(64 - k);
  }

  /** The accepted capacities are exactly the powers of two. */
  lemma PowersAre(c: Word)
    ensures PowerOfTwo(c) <==> exists k: nat :: c == Pow2(k)
  {
    if c != 0 {
      PowerOfTwoTest(c);
      if k: nat :| c == Pow2(k) {
        PowerWidth(k);
      }
    }
  }

  lemma {:induction false} PowerWidth(k: nat)
    ensures BitWidth(Pow2(k)) == k + 1
  {
    if k > 0 {
      PowerWidth(k - 1);
    }
  }

  /** A wrapped index and its unbounded count name the same slot. */
  lemma SlotIs(c: Word, n: nat)
    requires PowerOfTwo(c)
    ensures SlotAt(c, n % TWO_64) == n % c
  {
    hide BitAnd, BitWidth, Pow2;
    Remainder(n);
    HasWidth(c);
    PowerOfTwoTest(c);
    AndLowMask(n % TWO_64, BitWidth(c) - 1);
    PowerDivides(c);
    var m: nat :| TWO_64 == c * m && m > 0;
    ModOfMod(n, c, m, TWO_64);
  }

  lemma HasWidth(c: nat)
    requires c > 0
    ensures BitWidth(c) > 0
  {
  }

  lemma Remainder(n: nat)
    ensures 0 <= n % TWO_64 < TWO_64
  {
  }

  lemma ModOfMod(n: nat, c: nat, m: nat, d: nat)
    requires c > 0 && m > 0 && d == c * m && d > 0
    ensures (n % d) % c == n % c
  {
    var q, r := n / d, n % d;
    DivMod(n, d);
    MulAssoc(c, m, q);
    ModShift(r, c, m * q);
  }

  lemma DivMod(n: nat, d: nat)
    requires d > 0
    ensures n == d * (n / d) + n % d
  {
  }

  lemma MulAssoc(a: nat, b: nat, c: nat)
    ensures (a * b) * c == a * (b * c)
  {
  }

  lemma ModShift(y: nat, c: nat, k: nat)
    requires c > 0
    ensures (y + c * k) % c == y % c
  {
    Distribute(c, y / c, k);
    DivModUnique(y + c * k, c, y / c + k, y % c);
  }

  lemma Distribute(c: nat, a: nat, b: nat)
    ensures c * (a + b) == c * a + c * b
  {
  }

  /** Two positions less than a capacity apart have different slots. */
  lemma SlotsDiffer(c: nat, i: nat, j: nat)
    requires c > 0 && i < j < i + c
    ensures i % c != j % c
  {
    if i % c == j % c {
      var d := j / c - i / c;
      assert j - i == c * d;
      if d >= 1 {
        MulMonotone(c, 1, d);
      } else {
        MulMonotone(c, d, 0);
      }
    }
  }

  lemma WrapDistance(a: nat, b: nat, c: Word)
    requires b <= a <= b + c
    ensures (a % TWO_64 - b % TWO_64) % TWO_64 == c <==> a - b == c
  {
  }

  lemma WrapAdd(n: nat, k: nat)
    ensures (n % TWO_64 + k) % TWO_64 == (n + k) % TWO_64
  {
  }

  lemma WrapEqual(a: nat, b: nat, c: Word)
    requires b <= a <= b + c
    ensures a % TWO_64 == b % TWO_64 <==> a == b
  {
  }

  lemma InitialInv<T(!new)>(s: Ring<T>)
    requires Initial(s)
    ensures Inv(s)
  {
    forall i: nat | i < s.capacity
      ensures SlotOk(s, i)
    {
    }
  }

  /** Writing one slot of the window changes that position's content and no other's. */
  lemma OneSlot<T(!new)>(s: Ring<T>, s': Ring<T>, at: nat, slot: Slot<T>)
    requires Inv(s) && s.taken <= at < s.taken + s.capacity
    requires s'.capacity == s.capacity && s'.taken == s.taken && |s'.pushed| == s'.written
    requires s'.slots == SetSlot(s.slots, at % s.capacity, slot)
    requires Expected(s', at) == slot
    requires forall i: nat :: s.taken <= i < s.taken + s.capacity && i != at ==> Expected(s', i) == Expected(s, i)
    ensures |s'.slots| == s'.capacity
    ensures forall i :: s'.taken <= i < s'.taken + s'.capacity ==> SlotOk(s', i)
  {
    forall i: nat | s'.taken <= i < s'.taken + s'.capacity
      ensures SlotOk(s', i)
    {
      assert SlotOk(s, i);
      if i < at {
        SlotsDiffer(s.capacity, i, at);
      } else if at < i {
        SlotsDiffer(s.capacity, at, i);
      }
    }
  }

  /** Where no slot is written and every position of the window is expected as before. */
  lemma NoSlot<T(!new)>(s: Ring<T>, s': Ring<T>)
    requires Inv(s) && s'.capacity == s.capacity && s'.taken == s.taken && s'.slots == s.slots && |s'.pushed| == s'.written
    requires forall i: nat :: s.taken <= i < s.taken + s.capacity ==> Expected(s', i) == Expected(s, i)
    ensures forall i :: s'.taken <= i < s'.taken + s'.capacity ==> SlotOk(s', i)
  {
    forall i: nat | s'.taken <= i < s'.taken + s'.capacity
      ensures SlotOk(s', i)
    {
      assert SlotOk(s, i);
    }
  }

  /** The steps of the producer keep the invariant. */
  lemma PushKeeps<T(!new)>(s: Ring<T>, step: Step<T>)
    requires Inv(s) && Enabled(s, step)
    requires step.PushCall? || step.PushLoadRead? || step.PushTest? || step.PushReturn?
             || step.FullCall? || step.FullLoadRead? || step.FullReturn?
    ensures Inv(Do(s, step))
  {
    hide PowerOfTwo;
    WrapDistance(s.written, s.knownTaken, s.capacity);
    if step.FullLoadRead? {
      WrapDistance(s.written, step.seen, s.capacity);
    }
    NoSlot(s, Do(s, step));
  }

  lemma ConstructKeeps<T(!new)>(s: Ring<T>)
    requires Inv(s) && Enabled(s, PushConstruct)
    ensures Inv(Do(s, PushConstruct))
  {
    SlotIs(s.capacity, s.written);
    hide SlotAt, PowerOfTwo;
    OneSlot(s, Do(s, PushConstruct), s.written, Live(s.producer.arg));
  }

  lemma PublishKeeps<T(!new)>(s: Ring<T>)
    requires Inv(s) && Enabled(s, PushPublish)
    ensures Inv(Do(s, PushPublish))
  {
    hide PowerOfTwo, SlotOk;
    WrapAdd(s.written, 1);
    var s' := Do(s, PushPublish);
    assert Counters(s') && ProducerOk(s') && ConsumerOk(s');
    assert s'.capacity == s.capacity && s'.taken == s.taken && s'.slots == s.slots;
    hide Counters, ProducerOk, ConsumerOk;
    assert s'.pushed == s.pushed + [s.producer.arg] && s'.written == s.written + 1 && s'.consumer == s.consumer;
    NoSlot(s, s');
  }

  /** The steps of the consumer keep the invariant. */
  lemma PopKeeps<T(!new)>(s: Ring<T>, step: Step<T>)
    requires Inv(s) && Enabled(s, step)
    requires step.PopCall? || step.PopLoadWrite? || step.PopTest? || step.PopReturn?
             || step.EmptyCall? || step.EmptyLoadWrite? || step.EmptyReturn?
    ensures Inv(Do(s, step))
  {
    hide PowerOfTwo;
    WrapEqual(s.knownWritten, s.taken, s.capacity);
    if step.EmptyLoadWrite? {
      WrapEqual(step.seen, s.taken, s.capacity);
    }
    NoSlot(s, Do(s, step));
  }

  lemma MoveKeeps<T(!new)>(s: Ring<T>)
    requires Inv(s) && Enabled(s, PopMove)
    ensures Inv(Do(s, PopMove))
  {
    SlotIs(s.capacity, s.taken);
    hide SlotAt, PowerOfTwo;
    assert SlotOk(s, s.taken);
    OneSlot(s, Do(s, PopMove), s.taken, MovedFrom);
  }

  lemma DestroyKeeps<T(!new)>(s: Ring<T>)
    requires Inv(s) && Enabled(s, PopDestroy)
    ensures Inv(Do(s, PopDestroy))
  {
    SlotIs(s.capacity, s.taken);
    hide SlotAt, PowerOfTwo;
    OneSlot(s, Do(s, PopDestroy), s.taken, Raw);
  }

  lemma TakeKeeps<T(!new)>(s: Ring<T>)
    requires Inv(s) && Enabled(s, PopPublish)
    ensures Inv(Do(s, PopPublish))
  {
    hide PowerOfTwo, SlotOk;
    WrapAdd(s.taken, 1);
    assert s.pushed[..s.taken + 1] == s.pushed[..s.taken] + [s.pushed[s.taken]];
    TakeShifts(s);
  }

  /** The window moves on by one: the slot that was taken from is the raw slot of the new last position. */
  lemma TakeShifts<T(!new)>(s: Ring<T>)
    requires Inv(s) && Enabled(s, PopPublish)
    ensures var s' := Do(s, PopPublish);
      |s'.pushed| == s'.written && 0 < s'.capacity == |s'.slots|
      && forall i :: s'.taken <= i < s'.taken + s'.capacity ==> SlotOk(s', i)
  {
    var s' := Do(s, PopPublish);
    assert s'.slots == s.slots && s'.capacity == s.capacity && s'.taken == s.taken + 1 && s'.pushed == s.pushed;
    assert s'.producer == s.producer && s'.written == s.written;
    assert SlotOk(s, s.taken);
    assert s.producer.PPublish? ==> s.written < s.taken + s.capacity;
    hide PowerOfTwo, Counters, ProducerOk, ConsumerOk, Do;
    forall i: nat | s'.taken <= i < s'.taken + s'.capacity
      ensures SlotOk(s', i)
    {
      if i < s.taken + s.capacity {
        assert SlotOk(s, i);
      } else {
        ModShift(s.taken, s.capacity, 1);
      }
    }
  }

  lemma StepKeeps<T(!new)>(s: Ring<T>, step: Step<T>)
    requires Inv(s) && Enabled(s, step)
    ensures Inv(Do(s, step))
  {
    hide Inv, Enabled, Do;
    match step
    case PushConstruct => ConstructKeeps(s);
    case PushPublish => PublishKeeps(s);
    case PopMove => MoveKeeps(s);
    case PopDestroy => DestroyKeeps(s);
    case PopPublish => TakeKeeps(s);
    case PushCall(_) => PushKeeps(s, step);
    case PushLoadRead(_) => PushKeeps(s, step);
    case PushTest => PushKeeps(s, step);
    case PushReturn => PushKeeps(s, step);
    case FullCall => PushKeeps(s, step);
    case FullLoadRead(_) => PushKeeps(s, step);
    case FullReturn => PushKeeps(s, step);
    case _ => PopKeeps(s, step);
  }

  /** In a reachable state no thread is about to touch a slot in the wrong state, so no step it wants
      to take is refused for that reason. */
  lemma InvNoFault<T(!new)>(s: Ring<T>)
    requires Inv(s)
    ensures NoFault(s)
    ensures s.consumer.CMove? ==> Enabled(s, PopMove)
  {
    SlotIs(s.capacity, s.written);
    SlotIs(s.capacity, s.taken);
    hide SlotAt, PowerOfTwo;
    assert SlotOk(s, s.taken);
    if s.producer.PConstruct? {
      assert SlotOk(s, s.written);
    }
  }

  // ---- runs ----

  /** `steps` can be taken one after the other. */
  ghost predicate Possible<T(!new)>(s: Ring<T>, steps: seq<Step<T>>)
    decreases |steps|
  {
    steps == [] || (Enabled(s, steps[0]) && Possible(Do(s, steps[0]), steps[1..]))
  }

  ghost function RunRing<T(!new)>(s: Ring<T>, steps: seq<Step<T>>): Ring<T>
    requires Possible(s, steps)
    decreases |steps|
  {
    if steps == [] then s else RunRing(Do(s, steps[0]), steps[1..])
  }

  lemma {:induction false} RunKeepsInv<T(!new)>(s: Ring<T>, steps: seq<Step<T>>)
    requires Inv(s) && Possible(s, steps)
    ensures Inv(RunRing(s, steps))
    decreases |steps|
  {
    hide Inv, Enabled, Do;
    if steps != [] {
      StepKeeps(s, steps[0]);
      RunKeepsInv(Do(s, steps[0]), steps[1..]);
    }
  }

  /** The values that are in the queue: published and not yet taken. */
  function Queued<T>(s: Ring<T>): seq<T> {
    if s.taken <= |s.pushed| then s.pushed[s.taken..] else []
  }

  /** In every interleaving of micro-steps with stale but coherent loads, from a new ring: what was
      popped and what is queued is what was pushed, in order; occupancy stays within the capacity; the
      queued values are where the 64-bit indices say; and no slot is touched in the wrong state, or without
      knowing that the other thread is done with it. */
  lemma RingIsAQueue<T(!new)>(s0: Ring<T>, steps: seq<Step<T>>)
    requires Initial(s0) && Possible(s0, steps)
    ensures var s := RunRing(s0, steps);
      && s.popped + Queued(s) == s.pushed
      && |Queued(s)| == s.written - s.taken <= s.capacity
      && s.writeIndex == s.written % TWO_64 && s.readIndex == s.taken % TWO_64
      && NoFault(s) && NoRace(s)
      && forall k: nat :: k < |Queued(s)| && (k > 0 || !BeingTaken(s)) ==> QueuedInSlot(s, k)
  {
    InitialInv(s0);
    RunKeepsInv(s0, steps);
    var s := RunRing(s0, steps);
    InvNoFault(s);
    InvNoRace(s);
    hide PowerOfTwo, SlotAt, RunRing, Possible, NoFault, ProducerOk, ConsumerOk;
    forall k: nat | k < |Queued(s)| && (k > 0 || !BeingTaken(s))
      ensures QueuedInSlot(s, k)
    {
      QueuedIsInSlot(s, k);
    }
  }

  /** The front value has been moved out of its slot but not yet taken off the queue. */
  ghost predicate BeingTaken<T>(s: Ring<T>) {
    s.consumer.CDestroy? || s.consumer.CPublish?
  }

  /** What orders the two threads' accesses to a slot: the producer constructs only where it knows that the
      slot was given back, and the consumer touches only what it knows to be published. */
  ghost predicate NoRace<T>(s: Ring<T>) {
    && (s.producer.PConstruct? ==> s.written < s.knownTaken + s.capacity)
    && (s.consumer.CMove? || s.consumer.CDestroy? ==> s.taken < s.knownWritten)
  }

  lemma InvNoRace<T(!new)>(s: Ring<T>)
    requires Inv(s)
    ensures NoRace(s)
  {
    hide PowerOfTwo, SlotOk;
  }

  /** The queued value behind `k` others is the live object `k` places from the wrapped read index. */
  ghost predicate QueuedInSlot<T>(s: Ring<T>, k: nat)
    requires k < |Queued(s)|
  {
    && s.capacity > 0
    && SlotAt(s.capacity, (s.readIndex + k) % TWO_64) < |s.slots|
    && s.slots[SlotAt(s.capacity, (s.readIndex + k) % TWO_64)] == Live(Queued(s)[k])
  }

  lemma QueueCounts<T(!new)>(s: Ring<T>)
    requires Inv(s)
    ensures PowerOfTwo(s.capacity) && 0 < s.capacity == |s.slots| && s.readIndex == s.taken % TWO_64
    ensures s.taken <= s.written == |s.pushed| <= s.taken + s.capacity
  {
    hide PowerOfTwo, ProducerOk, ConsumerOk, SlotOk;
  }

  /** A queued position's slot holds its value. */
  lemma LiveAt<T(!new)>(s: Ring<T>, i: nat)
    requires Inv(s) && s.taken <= i < s.written && (s.taken < i || !BeingTaken(s))
    ensures i < |s.pushed| && s.capacity > 0 && SlotAt(s.capacity, i % TWO_64) < |s.slots|
    ensures s.slots[SlotAt(s.capacity, i % TWO_64)] == Live(s.pushed[i])
  {
    hide PowerOfTwo, SlotAt, Counters, ProducerOk, ConsumerOk;
    QueueCounts(s);
    SlotIs(s.capacity, i);
    assert SlotOk(s, i);
  }

  lemma QueuedIsInSlot<T(!new)>(s: Ring<T>, k: nat)
    requires Inv(s) && k < |Queued(s)| && (k > 0 || !BeingTaken(s))
    ensures QueuedInSlot(s, k)
  {
    hide Inv, SlotAt, BeingTaken;
    QueueCounts(s);
    WrapAdd(s.taken, k);
    LiveAt(s, s.taken + k);
  }

  /** What a call of `emplace` answers: it refuses exactly when, as far as the producer knows, the ring
      is full, and then it leaves the queue and its argument alone. */
  lemma PushAnswer<T(!new)>(s: Ring<T>)
    requires Inv(s) && Enabled(s, PushTest)
    ensures var s' := Do(s, PushTest);
      && s'.producer.arg == s.producer.arg && s'.pushed == s.pushed && s'.slots == s.slots
      && (s'.producer.PReturns? <==> s.written - s.knownTaken == s.capacity)
      && (s'.producer.PReturns? ==> !s'.producer.ok)
      && (s'.producer.PConstruct? ==> s.written - s.taken < s.capacity)
  {
    WrapDistance(s.written, s.knownTaken, s.capacity);
  }

  /** What a call of `try_pop` answers: it refuses exactly when it knows of no value to take. */
  lemma PopAnswer<T(!new)>(s: Ring<T>)
    requires Inv(s) && Enabled(s, PopTest)
    ensures var s' := Do(s, PopTest);
      && s'.popped == s.popped && s'.slots == s.slots
      && (s'.consumer == CReturns(None) <==> s.taken == s.knownWritten)
      && (s'.consumer.CMove? <==> s.taken < s.knownWritten)
  {
    WrapEqual(s.knownWritten, s.taken, s.capacity);
  }
}
