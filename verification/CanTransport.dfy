/** The transmit queue object: one array of sixteen messages, shifted in place, and its counters. */
module CanTransport {
  import opened Machine
  import opened TxQueue

  class CanTransport {
    const queue: array<Message>
    var count: nat
    var initialized: bool
    var sentDirect: u32
    var enqueued: u32
    var coalesced: u32
    var highEnqueued: u32
    var evicted: u32
    var sentFromQueue: u32
    var overflow: u32
    var halError: u32
    var watermark: nat
    // what the hardware has taken
    ghost var wire: seq<Message>
    ghost var spec: Spec

    /**
     * The array is the two FIFOs one behind the other, the counters are the true counts, and what has
     * gone to the hardware is what was to be sent.
     */
    ghost predicate Ready()
      reads this, queue
    {
      && queue.Length == CAPACITY && Kept(spec)
      && count == |Waiting(spec)| && queue[..count] == Waiting(spec)
      && enqueued == Wrap32(spec.enqueued) && sentFromQueue == Wrap32(spec.sentFromQueue)
      && evicted == Wrap32(spec.evicted)
      && wire == spec.sent
    }

    constructor (blank: Message)
      ensures Ready() && !initialized && spec == EMPTY && fresh(queue)
    {
      queue := new Message[CAPACITY](i => blank);
      EmptyIsKept();
      count, initialized, spec := 0, false, EMPTY;
      sentDirect, enqueued, coalesced, highEnqueued, evicted := 0, 0, 0, 0, 0;
      sentFromQueue, overflow, halError, watermark, wire := 0, 0, 0, 0, [];
    }

    method Init(handle: bool)
      requires queue.Length == CAPACITY
      modifies this
      ensures Ready() && initialized == handle && spec == EMPTY
    {
      hide Kept, Wrap32, Waiting;
      EmptyIsKept();
      initialized, count, spec := handle, 0, EMPTY;
      sentDirect, enqueued, coalesced, highEnqueued, evicted := 0, 0, 0, 0, 0;
      sentFromQueue, overflow, halError, watermark, wire := 0, 0, 0, 0, [];
    }

    /** enqueued = sent from the queue + evicted + pending, in 32-bit arithmetic. */
    lemma Balance()
      requires Ready()
      ensures enqueued == Add32(Add32(sentFromQueue, evicted), count)
    {
      WrapOfSum(spec.sentFromQueue, spec.evicted);
      AddIsWrapped(spec.sentFromQueue, Wrap32(spec.evicted));
      AddIsWrapped(spec.sentFromQueue + spec.evicted, count);
    }

    /** CAN_Transport_TryHardwareSend: the FIFO may be full, the driver may fail. */
    method Offer(m: Message, hw: Hardware)
      modifies this`halError, this`wire
      ensures wire == if hw == Taken then old(wire) + [m] else old(wire)
      ensures halError == if hw == HalError then Add32(old(halError), 1) else old(halError)
    {
      if hw == HalError {
        halError := Add32(halError, 1);
      } else if hw == Taken {
        wire := wire + [m];
      }
    }

    /** Closes the gap at `i`. */
    method ShiftDown(i: nat)
      requires i < count <= queue.Length
      modifies this`count, queue
      ensures count == old(count) - 1
      ensures queue[..count] == Without(old(queue[..count]), i)
    {
      ghost var was := queue[..count];
      var move := i;
      while move + 1 < count
        invariant i <= move < count == old(count)
        invariant forall j :: 0 <= j < i ==> queue[j] == was[j]
        invariant forall j :: i <= j < move ==> queue[j] == was[j + 1]
        invariant forall j :: move < j < count ==> queue[j] == was[j]
      {
        queue[move] := queue[move + 1];
        move := move + 1;
      }
      count := count - 1;
    }

    /** Opens a gap at `i` and fills it. */
    method ShiftUpAndPut(i: nat, m: Message)
      requires i <= count < queue.Length
      modifies this`count, queue
      ensures count == old(count) + 1
      ensures queue[..count] == old(queue[..count])[..i] + [m] + old(queue[..count])[i..]
    {
      ghost var was := queue[..count];
      var move := count;
      while move > i
        invariant i <= move <= count == old(count)
        invariant forall j :: 0 <= j < move ==> queue[j] == was[j]
        invariant forall j :: move < j <= count ==> queue[j] == was[j - 1]
      {
        queue[move] := queue[move - 1];
        move := move - 1;
      }
      queue[i] := m;
      count := count + 1;
      OneInserted(queue[..count], was, i, m);
    }

    /** The loops that look for a message to give up, from the back, and for the place to insert. */
    method FindEvictable() returns (i: nat)
      requires 0 < count <= queue.Length
      ensures i < count && IsEvictable(queue[..count], i)
    {
      i := count;
      while i > 0
        invariant 0 <= i <= count
        invariant forall j :: i <= j < count ==> !queue[j].newestOnly
      {
        i := i - 1;
        if queue[i].newestOnly {
          return;
        }
      }
    }

    method FindInsertion(high: bool) returns (i: nat)
      requires count <= queue.Length
      ensures i <= count && IsBoundary(queue[..count], high, i)
    {
      i := count;
      if high {
        i := 0;
        while i < count && queue[i].high
          invariant 0 <= i <= count
          invariant forall j :: 0 <= j < i ==> queue[j].high
        {
          i := i + 1;
        }
      }
    }

    /** CAN_Transport_Enqueue */
    method EnqueueMessage(m: Message) returns (r: Result)
      requires Ready() && Sendable(m)
      requires m.newestOnly ==> Find(spec.normal, m) == |spec.normal|
      modifies this, queue
      ensures Ready() && initialized == old(initialized)
      ensures (r, spec) == Enqueue(old(spec), m)
    {
      hide Kept, Insert, Evict, LastEvictable, Wrap32, Find;
      if count >= CAPACITY {
        KeptFits(spec);
        if !m.high {
          overflow := Add32(overflow, 1);
          return QueueFull;
        }
        var found := EvictLast();
        if !found {
          overflow := Add32(overflow, 1);
          return QueueFull;
        }
      }
      r := PutMessage(m);
    }

    /** The newest replaceable message gives up its place. */
    method EvictLast() returns (found: bool)
      requires Ready() && count > 0
      modifies this`count, this`evicted, this`spec, queue
      ensures Ready()
      ensures found <==> LastEvictable(old(spec).normal) < |old(spec).normal|
      ensures spec == if found then Evict(old(spec), LastEvictable(old(spec).normal)) else old(spec)
      ensures found ==> count < CAPACITY
    {
      hide Kept, Waiting, LastEvictable, Wrap32, Without, IsEvictable, Evict;
      KeptFits(spec);
      WaitingSize(spec);
      var i := FindEvictable();
      EvictableIsNormal(spec, i);
      found := queue[i].newestOnly;
      assert queue[i] == queue[..count][i];
      if found {
        ghost var e := LastEvictable(spec.normal);
        LastIsEvictable(spec.normal);
        EvictKeeps(spec, e);
        EvictedWaiting(spec, e);
        ShiftDown(i);
        AddIsWrapped(spec.evicted, 1);
        spec := Evict(spec, e);
        evicted := Add32(evicted, 1);
      }
    }

    method PutMessage(m: Message) returns (r: Result)
      requires Ready() && Sendable(m) && count < CAPACITY
      requires m.newestOnly ==> Find(spec.normal, m) == |spec.normal|
      modifies this`count, this`enqueued, this`highEnqueued, this`watermark, this`spec, queue
      ensures Ready()
      ensures r == Queued && spec == Insert(old(spec), m)
    {
      hide Kept, Waiting, Find, Wrap32, Insert, IsBoundary, Sendable;
      var i := FindInsertion(m.high);
      InsertionIsBoundary(spec, m.high, i);
      KeptFits(spec);
      InsertKeeps(spec, m);
      InsertedWaiting(spec, m, i);
      ShiftUpAndPut(i, m);
      AddIsWrapped(spec.enqueued, 1);
      spec := Insert(spec, m);
      enqueued := Add32(enqueued, 1);
      if m.high {
        highEnqueued := Add32(highEnqueued, 1);
      }
      if count > watermark {
        watermark := count;
      }
      r := Queued;
    }

    /** CAN_Transport_FindPending: the length if there is none. */
    method FindPending(m: Message) returns (i: nat)
      requires Ready() && m.newestOnly
      ensures i == |spec.high| + Find(spec.normal, m)
    {
      i := 0;
      while i < count
        invariant 0 <= i <= count
        invariant forall j :: 0 <= j < i ==> !SameKey(queue[j], m)
      {
        if queue[i].id == m.id && queue[i].extended == m.extended && queue[i].newestOnly {
          break;
        }
        i := i + 1;
      }
      assert forall j :: 0 <= j < i ==> Waiting(spec)[j] == queue[j];
      assert i < count ==> Waiting(spec)[i] == queue[i];
      FoundIs(spec, m, i);
    }

    /**
     * CAN_Transport_SendClassicInternal. The hardware is asked only when nothing waits; whatever it
     * answers, the two FIFOs do what they are specified to do.
     */
    method Send(m: Message, hw: Hardware) returns (r: Result)
      requires Ready() && Sendable(m)
      modifies this, queue
      ensures Ready() && initialized == old(initialized)
      ensures r == NotInitialized <==> !initialized
      ensures r == InvalidId <==>
                initialized && m.id > if m.extended then MAX_EXTENDED_ID else MAX_STANDARD_ID
      ensures r in {NotInitialized, InvalidId} ==> spec == old(spec)
      ensures r !in {NotInitialized, InvalidId} ==> (r, spec) == Submit(old(spec), m, hw)
      ensures r == QueueFull <==>
                && initialized && m.id <= (if m.extended then MAX_EXTENDED_ID else MAX_STANDARD_ID)
                && old(count) == 16 && !KeyWaits(old(spec), m) && !(m.high && SomeReplaceable(old(spec)))
      ensures r == Sent <==>
                && initialized && m.id <= (if m.extended then MAX_EXTENDED_ID else MAX_STANDARD_ID)
                && old(count) == 0 && hw == Taken
    {
      hide Kept, Waiting, Wrap32, Find, Enqueue, Submit, KeyWaits, SomeReplaceable;
      SubmissionIsExact(spec, m, hw);
      WaitingSize(spec);
      if !initialized {
        return NotInitialized;
      }
      if m.id > (if m.extended then MAX_EXTENDED_ID else MAX_STANDARD_ID) {
        return InvalidId;
      }
      if count == 0 {
        Offer(m, hw);
        if hw == Taken {
          SubmitKeeps(spec, m, Taken);
          DirectWaiting(spec, m);
          spec := Submit(spec, m, Taken).1;
          sentDirect := Add32(sentDirect, 1);
          return Sent;
        }
      }
      r := Defer(m, hw);
    }

    /** Not sent at once: replace a waiting message of the same key, or enqueue. */
    method Defer(m: Message, ghost hw: Hardware) returns (r: Result)
      requires Ready() && Sendable(m) && !(Waiting(spec) == [] && hw == Taken)
      modifies this, queue
      ensures Ready() && initialized == old(initialized)
      ensures (r, spec) == Submit(old(spec), m, hw) && r in {Queued, QueueFull}
    {
      hide Kept, Waiting, Wrap32, Find, Enqueue, Submit;
      KeptFits(spec);
      WaitingSize(spec);
      if m.newestOnly {
        var i := FindPending(m);
        if i < count {
          SubmitKeeps(spec, m, hw);
          CoalescedWaiting(spec, m, hw);
          spec := Submit(spec, m, hw).1;
          queue[i] := queue[i].(data := m.data);
          assert queue[..count] == old(queue[..count])[i := queue[i]];
          coalesced := Add32(coalesced, 1);
          return Queued;
        }
      }
      EnqueueIsSubmit(spec, m, hw);
      r := EnqueueMessage(m);
    }

    /**
     * CAN_Transport_Process: the hardware takes up to `room` messages and answers `refusal` to the
     * next; that many leave from the front, in order.
     */
    method Process(room: nat, refusal: Hardware)
      requires Ready() && refusal != Taken
      modifies this, queue
      ensures Ready() && initialized == old(initialized)
      ensures spec == SendHeads(old(spec), if !initialized then 0
                                           else if room < |Waiting(old(spec))| then room
                                           else |Waiting(old(spec))|)
    {
      hide Kept, SendHead, Waiting;
      var n := 0;
      if !initialized {
        return;
      }
      while count > 0
        invariant Ready() && initialized
        invariant n <= room && n <= |Waiting(old(spec))| && spec == SendHeads(old(spec), n)
        decreases count
      {
        KeptFits(spec);
        var answer := if n < room then Taken else refusal;
        OfferFront(answer);
        if answer != Taken {
          break;
        }
        n := n + 1;
      }
    }

    /** The message at the front is offered, and leaves if it is taken. */
    method OfferFront(answer: Hardware)
      requires Ready() && count > 0
      modifies this`count, this`sentFromQueue, this`spec, this`halError, this`wire, queue
      ensures Ready()
      ensures answer == Taken ==> count == old(count) - 1 && spec == SendHead(old(spec))
      ensures answer != Taken ==> count == old(count) && spec == old(spec)
    {
      hide Kept, Wrap32, SendHead, Waiting, Add32, Without;
      KeptFits(spec);
      assert queue[0] == queue[..count][0];
      Offer(queue[0], answer);
      if answer == Taken {
        SendHeadKeeps(spec);
        HeadGone(spec);
        ShiftDown(0);
        AddIsWrapped(spec.sentFromQueue, 1);
        spec := SendHead(spec);
        sentFromQueue := Add32(sentFromQueue, 1);
      }
    }
  }

  lemma OneInserted(now: seq<Message>, was: seq<Message>, i: nat, m: Message)
    requires i <= |was| && |now| == |was| + 1 && now[i] == m
    requires forall j :: 0 <= j < i ==> now[j] == was[j]
    requires forall j :: i < j < |now| ==> now[j] == was[j - 1]
    ensures now == was[..i] + [m] + was[i..]
  {
  }

  lemma EmptyIsKept()
    ensures Kept(EMPTY) && Waiting(EMPTY) == [] && Wrap32(0) == 0
  {
  }

  lemma HeadGone(s: Spec)
    requires Waiting(s) != []
    ensures Waiting(SendHead(s)) == Without(Waiting(s), 0)
    ensures SendHead(s).enqueued == s.enqueued && SendHead(s).evicted == s.evicted
    ensures SendHead(s).sentFromQueue == s.sentFromQueue + 1 && SendHead(s).sent == s.sent + [Waiting(s)[0]]
  {
  }

  lemma EvictedWaiting(s: Spec, e: nat)
    requires e < |s.normal|
    ensures |s.high| + e < |Waiting(s)| && Waiting(Evict(s, e)) == Without(Waiting(s), |s.high| + e)
    ensures |Waiting(Evict(s, e))| == |Waiting(s)| - 1
    ensures Evict(s, e).enqueued == s.enqueued && Evict(s, e).sentFromQueue == s.sentFromQueue
    ensures Evict(s, e).evicted == s.evicted + 1 && Evict(s, e).sent == s.sent
  {
  }

  lemma InsertedWaiting(s: Spec, m: Message, i: nat)
    requires i == if m.high then |s.high| else |Waiting(s)|
    ensures i <= |Waiting(s)| && Waiting(Insert(s, m)) == Waiting(s)[..i] + [m] + Waiting(s)[i..]
    ensures Insert(s, m).enqueued == s.enqueued + 1 && Insert(s, m).sentFromQueue == s.sentFromQueue
    ensures Insert(s, m).evicted == s.evicted && Insert(s, m).sent == s.sent
  {
  }

  lemma LastIsEvictable(q: seq<Message>)
    requires LastEvictable(q) < |q|
    ensures q[LastEvictable(q)].newestOnly
  {
  }

  lemma DirectWaiting(s: Spec, m: Message)
    requires |Waiting(s)| == 0
    ensures Waiting(s) == [] && Waiting(Submit(s, m, Taken).1) == Waiting(s)
    ensures Submit(s, m, Taken).0 == Sent && SameCounts(s, Submit(s, m, Taken).1)
    ensures Submit(s, m, Taken).1.sent == s.sent + [m]
  {
  }

  predicate SameCounts(s: Spec, t: Spec) {
    s.enqueued == t.enqueued && s.sentFromQueue == t.sentFromQueue && s.evicted == t.evicted
  }

  lemma CoalescedWaiting(s: Spec, m: Message, hw: Hardware)
    requires m.newestOnly && Find(s.normal, m) < |s.normal|
    ensures var i := |s.high| + Find(s.normal, m);
            && i < |Waiting(s)|
            && Waiting(Submit(s, m, hw).1) == Waiting(s)[i := Waiting(s)[i].(data := m.data)]
    ensures Submit(s, m, hw).0 == Queued && SameCounts(s, Submit(s, m, hw).1)
    ensures Submit(s, m, hw).1.sent == s.sent
  {
  }

  lemma WaitingSize(s: Spec)
    ensures |Waiting(s)| == |s.high| + |s.normal|
  {
  }

  lemma EnqueueIsSubmit(s: Spec, m: Message, hw: Hardware)
    requires !(Waiting(s) == [] && hw == Taken)
    requires m.newestOnly ==> Find(s.normal, m) == |s.normal|
    ensures Enqueue(s, m) == Submit(s, m, hw) && Enqueue(s, m).0 in {Queued, QueueFull}
  {
  }

  lemma KeptFits(s: Spec)
    requires Kept(s)
    ensures |Waiting(s)| <= CAPACITY
  {
  }

  /** Who stands where in the array. */
  lemma Positions(s: Spec)
    requires Kept(s)
    ensures forall k :: 0 <= k < |s.high| ==>
              Waiting(s)[k] == s.high[k] && Waiting(s)[k].high && !Waiting(s)[k].newestOnly
    ensures forall k :: 0 <= k < |s.normal| ==>
              Waiting(s)[|s.high| + k] == s.normal[k] && !s.normal[k].high
    ensures forall k :: |s.high| <= k < |Waiting(s)| ==>
              Waiting(s)[k] == s.normal[k - |s.high|] && !Waiting(s)[k].high
  {
    assert forall k :: 0 <= k < |s.high| ==> s.high[k] in s.high;
    assert forall k :: 0 <= k < |s.normal| ==> s.normal[k] in s.normal;
  }

  /** The last replaceable message, or any if there is none. */
  predicate IsEvictable(q: seq<Message>, i: nat)
    requires i < |q|
  {
    && (q[i].newestOnly ==> forall j :: i < j < |q| ==> !q[j].newestOnly)
    && (!q[i].newestOnly ==> forall j :: 0 <= j < |q| ==> !q[j].newestOnly)
  }

  /** Behind the leading high-priority messages, or at the end. */
  predicate IsBoundary(q: seq<Message>, high: bool, i: nat)
    requires i <= |q|
  {
    if high then (forall j :: 0 <= j < i ==> q[j].high) && (i < |q| ==> !q[i].high) else i == |q|
  }

  /** Nothing high-priority is replaceable, so the last replaceable message is a normal one. */
  lemma EvictableIsNormal(s: Spec, i: nat)
    requires Kept(s) && i < |Waiting(s)| && IsEvictable(Waiting(s), i)
    ensures Waiting(s)[i].newestOnly ==> i == |s.high| + LastEvictable(s.normal)
    ensures !Waiting(s)[i].newestOnly ==> LastEvictable(s.normal) == |s.normal|
  {
    Positions(s);
    hide Kept, Waiting;
    var e := LastEvictable(s.normal);
    assert e < |s.normal| ==> Waiting(s)[|s.high| + e] == s.normal[e];
  }

  lemma InsertionIsBoundary(s: Spec, high: bool, i: nat)
    requires Kept(s) && i <= |Waiting(s)| && IsBoundary(Waiting(s), high, i)
    ensures i == if high then |s.high| else |Waiting(s)|
  {
    Positions(s);
    hide Kept;
    assert |s.high| < |Waiting(s)| ==> !Waiting(s)[|s.high|].high;
  }

  lemma FoundIs(s: Spec, m: Message, i: nat)
    requires Kept(s) && i <= |Waiting(s)|
    requires forall j :: 0 <= j < i ==> !SameKey(Waiting(s)[j], m)
    requires i < |Waiting(s)| ==> SameKey(Waiting(s)[i], m)
    ensures i == |s.high| + Find(s.normal, m)
  {
    Positions(s);
    hide Kept;
    var f := Find(s.normal, m);
    assert f < |s.normal| ==> Waiting(s)[|s.high| + f] == s.normal[f];
  }
}
