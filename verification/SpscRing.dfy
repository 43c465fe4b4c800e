/** The code of the ring over an array of slots (include/lob/spsc_ring.hpp). Each method takes the
    micro-steps of RingProtocol one after the other, here with no other thread in between. */
module SpscRings {
  import opened Bits
  import opened Common
  import opened RingProtocol

  class SpscRing<T(!new)> {
    const capacity: Word
    const mask: Word
    const slots: array<Slot<T>>
    var writeIndex: Word
    var readIndex: Word
    /** The protocol state this object is in; no call is under way. */
    ghost var ring: Ring<T>

    ghost predicate Valid()
      reads this, slots
    {
      && capacity > 0 && mask == capacity - 1
      && ring.capacity == capacity && ring.slots == slots[..]
      && ring.writeIndex == writeIndex && ring.readIndex == readIndex
      && ring.producer.PIdle? && ring.consumer.CIdle? && Inv(ring)
    }

    constructor (capacity: Word)
      requires PowerOfTwo(capacity)
      ensures Valid() && fresh(slots) && this.capacity == capacity && Initial(ring)
    {
      this.capacity, mask := capacity, capacity - 1;
      slots := new Slot<T>[capacity](_ => Raw);
      writeIndex, readIndex := 0, 0;
      new;
      ring := Ring(capacity, 0, 0, slots[..], PIdle, CIdle, 0, 0, 0, 0, [], []);
      InitialInv(ring);
    }

    /** The check the source makes before it allocates the slots. */
    static method Create(capacity: Word) returns (ring: Option<SpscRing<T>>)
      ensures ring.Some? <==> exists k: nat :: capacity == Pow2(k)
      ensures ring.Some? ==> ring.value.capacity == capacity && ring.value.slots.Length == capacity
      ensures ring.Some? ==> fresh(ring.value) && fresh(ring.value.slots) && ring.value.Valid() && Initial(ring.value.ring)
    {
      PowersAre(capacity);
      if capacity == 0 || BitAnd(capacity, capacity - 1) != 0 {
        return None;
      }
      var created := new SpscRing<T>(capacity);
      ring := Some(created);
    }

    /** Take a step of the protocol. */
    ghost method Take(step: Step<T>)
      requires Inv(ring) && Enabled(ring, step)
      modifies `ring
      ensures ring == Do(old(ring), step) && Inv(ring)
    {
      StepKeeps(ring, step);
      ring := Do(ring, step);
    }

    method Emplace(value: T) returns (ok: bool)
      requires Valid()
      modifies this, slots
      ensures Valid()
      ensures ok <==> |old(Queued(ring))| < capacity
      ensures Queued(ring) == if ok then old(Queued(ring)) + [value] else old(Queued(ring))
      ensures ring.popped == old(ring.popped)
    {
      hide Inv, PowerOfTwo, Do, Enabled;
      Facts();
      CountersHold(ring);
      var write, read := writeIndex, readIndex;
      BeginPush(value);
      if (write - read) % TWO_64 == capacity {
        EndPush(false);
        return false;
      }
      ConstructAt(write, value);
      writeIndex := (write + 1) % TWO_64;
      EndPush(true);
      ok := true;
    }

    /** The steps of a push up to its test, when no other thread is at work. */
    ghost method BeginPush(value: T)
      requires Inv(ring) && ring.producer.PIdle?
      modifies `ring
      ensures Inv(ring) && |old(Queued(ring))| <= ring.capacity
      ensures ring.producer == if |old(Queued(ring))| == ring.capacity then PReturns(value, false) else PConstruct(value, ring.writeIndex)
      ensures (ring.writeIndex - ring.readIndex) % TWO_64 == ring.capacity <==> |old(Queued(ring))| == ring.capacity
      ensures ring == old(ring).(producer := ring.producer, knownTaken := ring.taken)
    {
      hide Inv, PowerOfTwo;
      CountersHold(ring);
      WrapDistance(ring.written, ring.taken, ring.capacity);
      Take(PushCall(value));
      Take(PushLoadRead(ring.taken));
      Take(PushTest);
    }

    /** The steps of a push after its last action on the slots. */
    ghost method EndPush(ok: bool)
      requires Inv(ring) && if ok then ring.producer.PPublish? else ring.producer.PReturns?
      modifies `ring
      ensures Inv(ring) && |old(ring.pushed)| == old(ring.written)
      ensures ring == if !ok then old(ring).(producer := PIdle) else
        old(ring).(producer := PIdle, writeIndex := (old(ring.producer.w) + 1) % TWO_64, written := old(ring.written) + 1,
                   pushed := old(ring.pushed) + [old(ring.producer.arg)])
    {
      hide Inv, PowerOfTwo;
      CountersHold(ring);
      if ok {
        Take(PushPublish);
      }
      Take(PushReturn);
    }

    /** Construct the object in the slot of `write`. */
    method ConstructAt(write: Word, value: T)
      requires capacity > 0 && mask == capacity - 1 && ring.capacity == capacity && ring.slots == slots[..]
      requires Inv(ring) && ring.producer == PConstruct(value, write)
      modifies `ring, slots
      ensures ring.slots == slots[..] && Inv(ring)
      ensures ring == old(ring).(slots := slots[..], producer := PPublish(value, write))
    {
      hide Inv, PowerOfTwo, SlotOk, Counters;
      InvNoFault(ring);
      WriteIsIndex(ring);
      slots[BitAnd(write, mask)] := Live(value);
      Take(PushConstruct);
      assert ring.slots == slots[..];
    }

    method TryPop() returns (out: Option<T>)
      requires Valid()
      modifies this, slots
      ensures Valid()
      ensures out == if old(Queued(ring)) == [] then None else Some(old(Queued(ring))[0])
      ensures Queued(ring) == if out.None? then old(Queued(ring)) else old(Queued(ring))[1..]
      ensures ring.pushed == old(ring.pushed)
    {
      hide Inv, PowerOfTwo, Do, Enabled;
      Facts();
      var read, write := readIndex, writeIndex;
      BeginPop();
      if read == write {
        EndPop(false);
        return None;
      }
      var value := MoveOut(read);
      readIndex := (read + 1) % TWO_64;
      EndPop(true);
      out := Some(value);
    }

    /** The steps of a pop up to its test, when no other thread is at work. */
    ghost method BeginPop()
      requires Inv(ring) && ring.consumer.CIdle?
      modifies `ring
      ensures Inv(ring)
      ensures ring.consumer == if old(Queued(ring)) == [] then CReturns(None) else CMove(ring.readIndex)
      ensures ring.readIndex == ring.writeIndex <==> old(Queued(ring)) == []
      ensures ring == old(ring).(consumer := ring.consumer, knownWritten := ring.written)
    {
      hide Inv, PowerOfTwo;
      CountersHold(ring);
      WrapEqual(ring.written, ring.taken, ring.capacity);
      Take(PopCall);
      Take(PopLoadWrite(ring.written));
      Take(PopTest);
    }

    /** The steps of a pop after its last action on the slots. */
    ghost method EndPop(taken: bool)
      requires Inv(ring) && if taken then ring.consumer.CPublish? else ring.consumer.CReturns?
      modifies `ring
      ensures Inv(ring)
      ensures ring == if !taken then old(ring).(consumer := CIdle) else
        old(ring).(consumer := CIdle, readIndex := (old(ring.consumer.r) + 1) % TWO_64, taken := old(ring.taken) + 1,
                   popped := old(ring.popped) + [old(ring.consumer.out)])
    {
      hide Inv, PowerOfTwo;
      if taken {
        Take(PopPublish);
      }
      Take(PopReturn);
    }

    /** Move the object out of the slot of `read` and destroy what is left of it. */
    method MoveOut(read: Word) returns (out: T)
      requires capacity > 0 && mask == capacity - 1 && ring.capacity == capacity && ring.slots == slots[..]
      requires Inv(ring) && ring.consumer == CMove(read)
      modifies `ring, slots
      ensures ring.slots == slots[..] && Inv(ring)
      ensures ring == old(ring).(slots := slots[..], consumer := CPublish(out, read))
      ensures old(ring.taken < |ring.pushed|) && out == old(ring.pushed[ring.taken])
    {
      hide Inv, PowerOfTwo, SlotOk, Counters;
      InvNoFault(ring);
      ReadIsIndex(ring);
      var slot := BitAnd(read, mask);
      out := slots[slot].value;
      assert slot == SlotOfRead(ring);
      slots[slot] := MovedFrom;
      Take(PopMove);
      assert ring.consumer == CDestroy(out, read) && ring.slots == slots[..];
      FrontIsMoved(ring);
      InvNoFault(ring);
      slots[slot] := Raw;
      Take(PopDestroy);
      assert ring.slots == slots[..];
    }

    method Full() returns (full: bool)
      requires Valid()
      ensures full <==> |Queued(ring)| == capacity
    {
      CountersHold(ring);
      WrapDistance(ring.written, ring.taken, capacity);
      full := (writeIndex - readIndex) % TWO_64 == capacity;
    }

    method Empty() returns (empty: bool)
      requires Valid()
      ensures empty <==> Queued(ring) == []
    {
      CountersHold(ring);
      WrapEqual(ring.written, ring.taken, capacity);
      empty := readIndex == writeIndex;
    }

    /** The destructor's loop: every slot it destroys holds a live object, and no slot holds one afterwards. */
    method Clear()
      requires Valid()
      modifies slots
      ensures forall i :: 0 <= i < slots.Length ==> slots[i] == Raw
    {
      hide Inv, PowerOfTwo, Cleared, Counters, IndexOf;
      StartClear(ring);
      CountersHold(ring);
      ghost var at := ring.taken;
      FirstIndex(ring);
      var read: Word, write: Word := readIndex, writeIndex;
      while read != write
        invariant ring.taken <= at <= ring.written && IndexOf(read, at)
        invariant read == write <==> at == ring.written
        invariant Cleared(ring, slots[..], at)
        decreases ring.written - at
      {
        DestroyAt(read, at);
        NextIndex(ring, read, at);
        read := (read + 1) % TWO_64;
        at := at + 1;
      }
      AllClear(ring, slots[..]);
    }

    /** One turn of the loop. */
    method DestroyAt(read: Word, ghost at: nat)
      requires capacity > 0 && mask == capacity - 1 && ring.capacity == capacity && Counters(ring)
      requires ring.producer.PIdle? && ring.consumer.CIdle? && ring.taken <= at < ring.written && IndexOf(read, at)
      requires Cleared(ring, slots[..], at)
      modifies slots
      ensures Cleared(ring, slots[..], at + 1)
    {
      hide Cleared;
      SlotIs(capacity, at);
      ClearOne(ring, slots[..], at);
      SizeOf(ring, slots[..], at);
      assert slots[BitAnd(read, mask)].Live?;
      ghost var was := slots[..];
      slots[BitAnd(read, mask)] := Raw;
      assert slots[..] == was[at % capacity := Raw];
    }

    lemma Facts()
      requires Valid()
      ensures Inv(ring)
    {
    }
  }

  lemma CountersHold<T(!new)>(s: Ring<T>)
    requires Inv(s)
    ensures Counters(s)
  {
  }

  lemma WriteIsIndex<T(!new)>(s: Ring<T>)
    requires Inv(s) && s.producer.PConstruct?
    ensures s.producer.w == s.writeIndex
  {
  }

  lemma ReadIsIndex<T(!new)>(s: Ring<T>)
    requires Inv(s) && s.consumer.CMove?
    ensures s.consumer.r == s.readIndex
  {
  }

  /** What is moved out of the ring is the front of the queue. */
  lemma FrontIsMoved<T(!new)>(s: Ring<T>)
    requires Inv(s) && s.consumer.CDestroy?
    ensures s.taken < s.written == |s.pushed| && s.consumer.out == s.pushed[s.taken] && s.popped == s.pushed[..s.taken]
  {
  }

  /** The 64-bit index of position `at`. */
  ghost predicate IndexOf(index: Word, at: nat) {
    index == at % TWO_64
  }

  lemma FirstIndex<T(!new)>(s: Ring<T>)
    requires Counters(s)
    ensures IndexOf(s.readIndex, s.taken) && (s.readIndex == s.writeIndex <==> s.taken == s.written)
    ensures s.taken <= s.written
  {
    hide PowerOfTwo;
    WrapEqual(s.written, s.taken, s.capacity);
  }

  lemma NextIndex<T(!new)>(s: Ring<T>, index: Word, at: nat)
    requires Counters(s) && IndexOf(index, at) && s.taken <= at < s.written
    ensures IndexOf((index + 1) % TWO_64, at + 1)
    ensures (index + 1) % TWO_64 == s.writeIndex <==> at + 1 == s.written
  {
    hide PowerOfTwo;
    WrapAdd(at, 1);
    WrapEqual(s.written, at + 1, s.capacity);
  }

  lemma SizeOf<T(!new)>(s: Ring<T>, slots: seq<Slot<T>>, at: nat)
    requires Cleared(s, slots, at)
    ensures |slots| == s.capacity
  {
  }

  /** The loop of `clear` has destroyed the positions below `at`. */
  ghost predicate Cleared<T>(s: Ring<T>, slots: seq<Slot<T>>, at: nat) {
    && |slots| == s.capacity > 0 && |s.pushed| == s.written
    && forall i: nat :: s.taken <= i < s.taken + s.capacity ==> ClearedAt(s, slots, at, i)
  }

  ghost predicate ClearedAt<T>(s: Ring<T>, slots: seq<Slot<T>>, at: nat, i: nat)
    requires |slots| == s.capacity > 0 && |s.pushed| == s.written
  {
    slots[i % s.capacity] == if i < at then Raw else Expected(s, i)
  }

  lemma StartClear<T(!new)>(s: Ring<T>)
    requires Inv(s)
    ensures Cleared(s, s.slots, s.taken)
  {
    hide PowerOfTwo;
    forall i: nat | s.taken <= i < s.taken + s.capacity
      ensures ClearedAt(s, s.slots, s.taken, i)
    {
      assert SlotOk(s, i);
    }
  }

  lemma ClearOne<T(!new)>(s: Ring<T>, slots: seq<Slot<T>>, at: nat)
    requires Counters(s) && s.producer.PIdle? && s.consumer.CIdle?
    requires Cleared(s, slots, at) && s.taken <= at < s.written
    ensures slots[at % s.capacity].Live? && Cleared(s, slots[at % s.capacity := Raw], at + 1)
  {
    hide PowerOfTwo;
    assert ClearedAt(s, slots, at, at);
    var slots', next := slots[at % s.capacity := Raw], at + 1;
    forall i: nat | s.taken <= i < s.taken + s.capacity
      ensures ClearedAt(s, slots', next, i)
    {
      assert ClearedAt(s, slots, at, i);
      if i < at {
        SlotsDiffer(s.capacity, i, at);
      } else if at < i {
        SlotsDiffer(s.capacity, at, i);
      }
    }
  }

  lemma AllClear<T(!new)>(s: Ring<T>, slots: seq<Slot<T>>)
    requires Counters(s) && s.producer.PIdle? && s.consumer.CIdle? && Cleared(s, slots, s.written)
    ensures forall i :: 0 <= i < |slots| ==> slots[i] == Raw
  {
    hide PowerOfTwo;
    forall i | 0 <= i < |slots|
      ensures slots[i] == Raw
    {
      var j := PositionOf(s.capacity, s.taken, i);
      assert ClearedAt(s, slots, s.written, j);
    }
  }

  /** Every slot is the slot of a position in the window that starts at `start`. */
  lemma PositionOf(c: nat, start: nat, i: nat) returns (j: nat)
    requires i < c
    ensures start <= j < start + c && j % c == i
  {
    var q, r := start / c, start % c;
    DivMod(start, c);
    if r <= i {
      DivModUnique(c * q + i, c, q, i);
      j := c * q + i;
    } else {
      Distribute(c, q, 1);
      DivModUnique(c * (q + 1) + i, c, q + 1, i);
      j := c * (q + 1) + i;
    }
  }
}
