/**
 * Whole lives of the retained log: entries, clears, and power failures inside either. Beside the
 * machine stands a shelf, whose records come and go by place, without any look at the memory.
 */
module EventLogLives {
  import opened Machine
  import opened EventLog
  import opened EventLogClear

  /**
   * An entry is logged, or all is cleared; or the power fails after some of the nine stores of the
   * one or the 512 of the other.
   */
  datatype Event =
    | Logs(e: Entry)
    | LosesPower(e: Entry, stores: nat)
    | Clears
    | ClearsPartly(words: nat)

  function Bounded(n: nat, limit: nat): (m: nat)
    ensures m <= limit
  {
    if n < limit then n else limit
  }

  // ---------------------------------------------------------------- the machine

  /** The retained memory and the ring through a life; after a power failure they are recovered. */
  function MachineLife(crc: Checksum, events: seq<Event>): (r: (Memory, Ring))
    ensures r.1.head < CAPACITY && r.1.tail < CAPACITY && r.1.next != 0
  {
    if events == [] then (seq<Slot>(CAPACITY, i => EMPTY_SLOT), EMPTY_RING)
    else
      var (mem, ring) := MachineLife(crc, events[..|events| - 1]);
      match events[|events| - 1]
      case Logs(e) =>
        (MemoryAfter(mem, ring.head, Stamped(crc, e, ring.next), 9), RingAfter(ring, 9))
      case LosesPower(e, stores) =>
        var cut := MemoryAfter(mem, ring.head, Stamped(crc, e, ring.next), Bounded(stores, 9));
        RecoveredRange(crc, cut);
        (RecoveredMemory(crc, cut), Recovered(crc, cut))
      case Clears => (seq<Slot>(CAPACITY, i => EMPTY_SLOT), EMPTY_RING)
      case ClearsPartly(words) =>
        var cut := ClearedAfter(mem, Bounded(words, ALL_WORDS));
        RecoveredRange(crc, cut);
        (RecoveredMemory(crc, cut), Recovered(crc, cut))
  }

  // ---------------------------------------------------------------- the shelf

  /** 64 places in a circle, the place the next record goes to, and its number. */
  datatype Shelf = Shelf(places: seq<Option<Slot>>, head: nat, next: u32)

  function Nothing(): (places: seq<Option<Slot>>)
    ensures |places| == CAPACITY
  {
    seq(CAPACITY, i => None)
  }

  predicate IsShelf(shelf: Shelf) {
    |shelf.places| == CAPACITY && shelf.head < CAPACITY && shelf.next != 0
  }

  /** The records that stand side by side just before the place `head`, oldest first. */
  function Row(places: seq<Option<Slot>>, head: nat, limit: nat): (log: seq<Slot>)
    requires |places| == CAPACITY && head < CAPACITY
    ensures |log| <= limit
    decreases limit
  {
    var before := At(head, CAPACITY - 1);
    if limit == 0 || places[before] == None then []
    else Row(places, before, limit - 1) + [places[before].value]
  }

  /** The log is the unbroken row of records that ends before the head. */
  function LogOf(shelf: Shelf): (log: seq<Slot>)
    requires IsShelf(shelf)
    ensures |log| <= CAPACITY
  {
    Row(shelf.places, shelf.head, CAPACITY)
  }

  /** Stepping back over empty places, the first place after a record; none if all are empty. */
  function AfterNewest(places: seq<Option<Slot>>, head: nat, limit: nat): (r: Option<nat>)
    requires |places| == CAPACITY && head < CAPACITY
    ensures r.Some? ==> r.value < CAPACITY && places[At(r.value, CAPACITY - 1)].Some?
    decreases limit
  {
    if limit == 0 then None
    else if places[At(head, CAPACITY - 1)].Some? then Some(head)
    else AfterNewest(places, At(head, CAPACITY - 1), limit - 1)
  }

  function Settled(places: seq<Option<Slot>>, head: nat): (s: Shelf)
    requires |places| == CAPACITY && head < CAPACITY
    ensures IsShelf(s)
  {
    match AfterNewest(places, head, CAPACITY)
    case None => Shelf(Nothing(), 0, 1)
    case Some(after) =>
      Shelf(places, after, NextNonZero(SequenceOf(places[At(after, CAPACITY - 1)].value)))
  }

  /** Of a clear of `words` words every slot it has begun is lost. */
  function TakenOff(places: seq<Option<Slot>>, words: nat): (p: seq<Option<Slot>>)
    requires |places| == CAPACITY
    ensures |p| == CAPACITY
  {
    seq(CAPACITY, k requires 0 <= k < CAPACITY => if SLOT_WORDS * k < words then None else places[k])
  }

  function ShelfLife(crc: Checksum, events: seq<Event>): (r: Shelf)
    ensures IsShelf(r)
  {
    if events == [] then Shelf(Nothing(), 0, 1)
    else
      var shelf := ShelfLife(crc, events[..|events| - 1]);
      match events[|events| - 1]
      case Logs(e) => Placed(shelf, Stamped(crc, e, shelf.next), 9)
      case LosesPower(e, stores) => Placed(shelf, Stamped(crc, e, shelf.next), Bounded(stores, 9))
      case Clears => Shelf(Nothing(), 0, 1)
      case ClearsPartly(words) => Settled(TakenOff(shelf.places, words), shelf.head)
  }

  /** The first of the nine stores empties the place, the last fills it. */
  function Placed(shelf: Shelf, r: Slot, stores: nat): (s: Shelf)
    requires IsShelf(shelf)
    ensures IsShelf(s)
  {
    if stores == 0 then shelf
    else if stores < 9 then shelf.(places := shelf.places[shelf.head := None])
    else Shelf(shelf.places[shelf.head := Some(r)], At(shelf.head, 1), NextNonZero(shelf.next))
  }

  // ---------------------------------------------------------------- the memory shows the shelf

  /** The places with a record are the valid slots. */
  predicate Shows(crc: Checksum, mem: Memory, places: seq<Option<Slot>>) {
    && |places| == CAPACITY
    && forall k :: 0 <= k < CAPACITY ==> places[k] == if IsValid(crc, mem[k]) then Some(mem[k]) else None
  }

  lemma {:induction false} RowIsLog(crc: Checksum, mem: Memory, ring: Ring, log: seq<Slot>,
                                    places: seq<Option<Slot>>, i: nat, limit: nat)
    requires Holds(crc, mem, ring, log) && Shows(crc, mem, places) && i <= |log|
    requires limit == i || (limit > i && |log| < CAPACITY)
    ensures ring.tail < CAPACITY && |log| <= CAPACITY
    ensures Row(places, At(ring.tail, i), limit) == log[..i]
    decreases i
  {
    hide Holds, IsValid, SequenceOf, SequencePlus, At;
    InRange(crc, mem, ring, log);
    OneAgeBack(ring.tail, i);
    if i > 0 {
      HeldRecord(crc, mem, ring, log, i - 1);
      RowIsLog(crc, mem, ring, log, places, i - 1, limit - 1);
      assert log[..i - 1] + [log[i - 1]] == log[..i];
    } else if log == [] {
      HeldRing(crc, mem, ring, log);
    } else {
      NothingBefore(crc, mem, ring, log);
    }
  }

  lemma OneAgeBack(tail: nat, i: nat)
    requires tail < CAPACITY && i <= CAPACITY
    ensures At(At(tail, i), CAPACITY - 1) == if i > 0 then At(tail, i - 1) else At(tail, CAPACITY - 1)
  {
  }

  /** A memory that holds a log and shows a shelf holds the log of that shelf. */
  lemma ShelfLog(crc: Checksum, mem: Memory, ring: Ring, log: seq<Slot>, shelf: Shelf)
    requires Holds(crc, mem, ring, log) && IsShelf(shelf)
    requires Shows(crc, mem, shelf.places) && ring.head == shelf.head
    ensures LogOf(shelf) == log
  {
    hide Holds, Shows;
    InRange(crc, mem, ring, log);
    RowIsLog(crc, mem, ring, log, shelf.places, |log|, CAPACITY);
    assert log[..|log|] == log;
  }

  lemma PlacedShows(crc: Checksum, mem: Memory, shelf: Shelf, r: Slot, stores: nat)
    requires IsShelf(shelf) && Shows(crc, mem, shelf.places) && IsValid(crc, r) && stores <= 9
    ensures Shows(crc, MemoryAfter(mem, shelf.head, r, stores), Placed(shelf, r, stores).places)
  {
    hide IsValid, SlotAfter;
    if stores == 0 {
      Untouched(mem, shelf.head, r);
    } else if stores < 9 {
      UnfinishedIsInvalid(crc, mem[shelf.head], r, stores);
    } else {
      Finished(mem[shelf.head], r);
    }
  }

  lemma TakenOffShows(crc: Checksum, mem: Memory, places: seq<Option<Slot>>, words: nat)
    requires Shows(crc, mem, places)
    ensures Shows(crc, ClearedAfter(mem, Bounded(words, ALL_WORDS)), TakenOff(places, words))
  {
    hide IsValid, ClearedAfter;
    forall k | 0 <= k < CAPACITY
      ensures var now := ClearedAfter(mem, Bounded(words, ALL_WORDS))[k];
              TakenOff(places, words)[k] == if IsValid(crc, now) then Some(now) else None
    {
      BegunIsLost(crc, mem, Bounded(words, ALL_WORDS), k);
    }
  }

  lemma BegunIsLost(crc: Checksum, mem: Memory, n: nat, k: nat)
    requires n <= ALL_WORDS && k < CAPACITY
    ensures if SLOT_WORDS * k < n then !IsValid(crc, ClearedAfter(mem, n)[k]) else ClearedAfter(mem, n)[k] == mem[k]
  {
    if k == n / SLOT_WORDS && n % SLOT_WORDS == 0 {
      assert SlotCleared(mem[k], 0) == mem[k];
    }
  }

  lemma NothingShows(crc: Checksum)
    ensures Shows(crc, seq<Slot>(CAPACITY, i => EMPTY_SLOT), Nothing())
  {
  }

  /** Recovery changes no valid slot. */
  lemma RecoveredShows(crc: Checksum, mem: Memory, places: seq<Option<Slot>>)
    requires Shows(crc, mem, places)
    ensures Shows(crc, RecoveredMemory(crc, mem), places)
  {
    hide NewestUpTo, IsValid;
    if NewestUpTo(crc, mem, CAPACITY) == None {
      forall k | 0 <= k < CAPACITY
        ensures places[k] == None
      {
        if IsValid(crc, mem[k]) {
          FoundUpTo(crc, mem, k, CAPACITY);
        }
      }
      assert places == Nothing();
      NothingShows(crc);
    }
  }

  /** Stepping back over empty places leads to the youngest record. */
  lemma {:induction false} YoungestStands(places: seq<Option<Slot>>, head: nat, d: nat)
    requires |places| == CAPACITY && head < CAPACITY && d <= CAPACITY
    requires forall k :: 0 <= k < CAPACITY && Age(head, k) >= CAPACITY - d ==> places[k] == None
    ensures match AfterNewest(places, At(head, CAPACITY - d), CAPACITY - d)
            case None => forall k :: 0 <= k < CAPACITY ==> places[k] == None
            case Some(after) =>
              forall k :: 0 <= k < CAPACITY && places[k].Some? ==>
                Age(head, k) <= Age(head, At(after, CAPACITY - 1))
    decreases CAPACITY - d
  {
    var now := At(head, CAPACITY - d);
    if d < CAPACITY {
      var before := At(now, CAPACITY - 1);
      StepBack(head, d);
      hide Age, At;
      if places[before] == None {
        forall k | 0 <= k < CAPACITY && Age(head, k) >= CAPACITY - (d + 1)
          ensures places[k] == None
        {
          if Age(head, k) == Age(head, before) {
            SameAge(head, k, before);
          }
        }
        YoungestStands(places, head, d + 1);
      }
    }
  }

  lemma StepBack(head: nat, d: nat)
    requires head < CAPACITY && d < CAPACITY
    ensures At(At(head, CAPACITY - d), CAPACITY - 1) == At(head, CAPACITY - (d + 1))
    ensures Age(head, At(head, CAPACITY - (d + 1))) == CAPACITY - (d + 1)
  {
  }

  /** Recovery by numbers settles where stepping back by places does. */
  lemma SettledIsRecovered(crc: Checksum, mem: Memory, head: nat, next: u32, places: seq<Option<Slot>>)
    requires head < CAPACITY && next != 0 && Aligned(crc, mem, head, next) && Shows(crc, mem, places)
    ensures var ring, shelf := Recovered(crc, mem), Settled(places, head);
            ring.head == shelf.head && ring.next == shelf.next && shelf.places == places
  {
    hide IsValid, Aligned, NewestUpTo, Chain, SequenceOf, NextNonZero, AfterNewest;
    ScanFindsYoungest(crc, mem, head, next, CAPACITY);
    YoungestStands(places, head, 0);
    assert At(head, CAPACITY) == head;
    match NewestUpTo(crc, mem, CAPACITY) {
      case None =>
        assert places == Nothing();
        NothingStands(head);
      case Some(newest) =>
        assert places[newest].Some?;
        SettledAfter(places, head, newest);
    }
  }

  lemma NothingStands(head: nat)
    requires head < CAPACITY
    ensures AfterNewest(Nothing(), head, CAPACITY) == None
  {
    hide AfterNewest;
    YoungestStands(Nothing(), head, 0);
    assert At(head, CAPACITY) == head;
  }

  lemma SettledAfter(places: seq<Option<Slot>>, head: nat, newest: nat)
    requires |places| == CAPACITY && head < CAPACITY && newest < CAPACITY && places[newest].Some?
    requires forall k :: 0 <= k < CAPACITY && places[k].Some? ==> Age(head, k) <= Age(head, newest)
    ensures AfterNewest(places, head, CAPACITY) == Some(At(newest, 1))
    ensures At(At(newest, 1), CAPACITY - 1) == newest
  {
    hide AfterNewest;
    YoungestStands(places, head, 0);
    assert At(head, CAPACITY) == head;
    var after := AfterNewest(places, head, CAPACITY).value;
    SameAge(head, newest, At(after, CAPACITY - 1));
  }

  // ---------------------------------------------------------------- agreement

  /** Memory and ring stand for the shelf. */
  predicate Agree(crc: Checksum, mem: Memory, ring: Ring, shelf: Shelf) {
    && IsShelf(shelf)
    && Shows(crc, mem, shelf.places)
    && ring.head == shelf.head && ring.next == shelf.next
    && Holds(crc, mem, ring, LogOf(shelf))
  }

  lemma Agreed(crc: Checksum, mem: Memory, ring: Ring, log: seq<Slot>, shelf: Shelf)
    requires Holds(crc, mem, ring, log) && IsShelf(shelf) && Shows(crc, mem, shelf.places)
    requires ring.head == shelf.head && ring.next == shelf.next
    ensures Agree(crc, mem, ring, shelf) && LogOf(shelf) == log
  {
    hide Holds, Shows, LogOf, IsShelf;
    ShelfLog(crc, mem, ring, log, shelf);
  }

  lemma NothingAgrees(crc: Checksum)
    ensures Agree(crc, seq<Slot>(CAPACITY, i => EMPTY_SLOT), EMPTY_RING, Shelf(Nothing(), 0, 1))
    ensures LogOf(Shelf(Nothing(), 0, 1)) == []
  {
    hide Holds, Shows, LogOf;
    ClearedHoldsNothing(crc);
    NothingShows(crc);
    Agreed(crc, seq<Slot>(CAPACITY, i => EMPTY_SLOT), EMPTY_RING, [], Shelf(Nothing(), 0, 1));
  }

  lemma LoggingAgrees(crc: Checksum, mem: Memory, ring: Ring, shelf: Shelf, r: Slot)
    requires Agree(crc, mem, ring, shelf) && IsValid(crc, r) && SequenceOf(r) == shelf.next
    ensures ring.tail < CAPACITY
    ensures Agree(crc, MemoryAfter(mem, ring.head, r, 9), RingAfter(ring, 9), Placed(shelf, r, 9))
    ensures LogOf(Placed(shelf, r, 9)) == Pushed(LogOf(shelf), r)
  {
    hide Holds, Shows, LogOf, IsValid, SequenceOf, Pushed, MemoryAfter;
    InRange(crc, mem, ring, LogOf(shelf));
    CutHolds(crc, mem, ring, LogOf(shelf), r, 9);
    PlacedShows(crc, mem, shelf, r, 9);
    Agreed(crc, MemoryAfter(mem, ring.head, r, 9), RingAfter(ring, 9), Pushed(LogOf(shelf), r), Placed(shelf, r, 9));
  }

  lemma LosingAgrees(crc: Checksum, mem: Memory, ring: Ring, shelf: Shelf, r: Slot, k: nat)
    requires Agree(crc, mem, ring, shelf) && IsValid(crc, r) && SequenceOf(r) == shelf.next && k <= 9
    ensures var cut := MemoryAfter(mem, ring.head, r, k);
            Agree(crc, RecoveredMemory(crc, cut), Recovered(crc, cut), Placed(shelf, r, k))
    ensures LogOf(Placed(shelf, r, k)) == LogAfter(LogOf(shelf), r, k)
  {
    hide Holds, Shows, LogOf, IsValid, SequenceOf, LogAfter, MemoryAfter, Recovered, RecoveredMemory;
    var cut := MemoryAfter(mem, ring.head, r, k);
    InRange(crc, mem, ring, LogOf(shelf));
    CutIsRecovered(crc, mem, ring, LogOf(shelf), r, k);
    PlacedShows(crc, mem, shelf, r, k);
    RecoveredShows(crc, cut, Placed(shelf, r, k).places);
    Agreed(crc, RecoveredMemory(crc, cut), Recovered(crc, cut), LogAfter(LogOf(shelf), r, k), Placed(shelf, r, k));
  }

  lemma ClearingAgrees(crc: Checksum, mem: Memory, ring: Ring, shelf: Shelf, words: nat)
    requires Agree(crc, mem, ring, shelf)
    ensures var cut, after := ClearedAfter(mem, Bounded(words, ALL_WORDS)),
                              Settled(TakenOff(shelf.places, words), shelf.head);
            && Agree(crc, RecoveredMemory(crc, cut), Recovered(crc, cut), after)
            && LogOf(after) == NewestRun(crc, cut)
  {
    hide Holds, Shows, LogOf, Aligned, ClearedAfter, Recovered, RecoveredMemory, TakenOff, Settled, NewestRun;
    var n, places := Bounded(words, ALL_WORDS), TakenOff(shelf.places, words);
    var cut := ClearedAfter(mem, n);
    HeldRing(crc, mem, ring, LogOf(shelf));
    TakenOffShows(crc, mem, shelf.places, words);
    ClearedIsAligned(crc, mem, ring.head, ring.next, n);
    SettledIsRecovered(crc, cut, ring.head, ring.next, places);
    RecoveredShows(crc, cut, places);
    ClearCutIsRecovered(crc, mem, ring, LogOf(shelf), n);
    Agreed(crc, RecoveredMemory(crc, cut), Recovered(crc, cut), NewestRun(crc, cut), Settled(places, shelf.head));
  }

  /** However often the power fails, memory and ring hold exactly the log of the shelf. */
  lemma {:induction false} MachineHoldsShelf(crc: Checksum, events: seq<Event>)
    ensures var (mem, ring) := MachineLife(crc, events);
            Agree(crc, mem, ring, ShelfLife(crc, events))
  {
    hide Agree, Stamped, MemoryAfter, RingAfter, Recovered, RecoveredMemory, ClearedAfter, Placed, Settled, TakenOff,
         LogOf;
    if events == [] {
      NothingAgrees(crc);
    } else {
      var before := events[..|events| - 1];
      MachineHoldsShelf(crc, before);
      var (mem, ring) := MachineLife(crc, before);
      var shelf := ShelfLife(crc, before);
      SameNext(crc, mem, ring, shelf);
      match events[|events| - 1] {
        case Logs(e) => LoggingAgrees(crc, mem, ring, shelf, Stamped(crc, e, shelf.next));
        case LosesPower(e, stores) =>
          LosingAgrees(crc, mem, ring, shelf, Stamped(crc, e, shelf.next), Bounded(stores, 9));
        case Clears => NothingAgrees(crc);
        case ClearsPartly(words) => ClearingAgrees(crc, mem, ring, shelf, words);
      }
    }
  }

  lemma SameNext(crc: Checksum, mem: Memory, ring: Ring, shelf: Shelf)
    requires Agree(crc, mem, ring, shelf)
    ensures ring.next == shelf.next && ring.head == shelf.head
  {
  }

  // ---------------------------------------------------------------- what each event does to the log

  function LogBefore(crc: Checksum, events: seq<Event>): (log: seq<Slot>)
    ensures |log| <= CAPACITY
  {
    LogOf(ShelfLife(crc, events))
  }

  /** An entry is appended, a cut costs at most the record giving way, a clear empties the log. */
  lemma EventsMoveLog(crc: Checksum, events: seq<Event>, event: Event)
    ensures var log, next := LogBefore(crc, events), ShelfLife(crc, events).next;
            var log' := LogBefore(crc, events + [event]);
            match event
            case Logs(e) => log' == Pushed(log, Stamped(crc, e, next))
            case LosesPower(e, stores) => log' == LogAfter(log, Stamped(crc, e, next), Bounded(stores, 9))
            case Clears => log' == []
            case ClearsPartly(words) =>
              log' == NewestRun(crc, ClearedAfter(MachineLife(crc, events).0, Bounded(words, ALL_WORDS)))
  {
    hide Agree, Stamped, MemoryAfter, RingAfter, Recovered, RecoveredMemory, ClearedAfter, Placed, Settled, TakenOff,
         LogOf, Pushed, LogAfter, NewestRun;
    assert (events + [event])[..|events + [event]| - 1] == events;
    MachineHoldsShelf(crc, events);
    var (mem, ring) := MachineLife(crc, events);
    var shelf := ShelfLife(crc, events);
    SameNext(crc, mem, ring, shelf);
    match event {
      case Logs(e) => LoggingAgrees(crc, mem, ring, shelf, Stamped(crc, e, shelf.next));
      case LosesPower(e, stores) =>
        LosingAgrees(crc, mem, ring, shelf, Stamped(crc, e, shelf.next), Bounded(stores, 9));
      case Clears => NothingAgrees(crc);
      case ClearsPartly(words) => ClearingAgrees(crc, mem, ring, shelf, words);
    }
  }

  /** Every record on the shelf that is not in the log stands before one that is. */
  predicate LostStandFirst(shelf: Shelf)
    requires IsShelf(shelf)
  {
    forall k :: 0 <= k < CAPACITY && IsLost(shelf, k) ==> exists j :: k < j < CAPACITY && IsKept(shelf, j)
  }

  predicate IsLost(shelf: Shelf, k: nat)
    requires IsShelf(shelf) && k < CAPACITY
  {
    shelf.places[k].Some? && shelf.places[k].value !in LogOf(shelf)
  }

  predicate IsKept(shelf: Shelf, k: nat)
    requires IsShelf(shelf) && k < CAPACITY
  {
    shelf.places[k].Some? && shelf.places[k].value in LogOf(shelf)
  }

  /** Every cut clear leaves a part of the log, exactly if no lost record stands behind it. */
  lemma CutClearsLeaveParts(crc: Checksum, events: seq<Event>)
    ensures (forall words: nat :: IsSlice(LogBefore(crc, events + [ClearsPartly(words)]), LogBefore(crc, events)))
            <==> LostStandFirst(ShelfLife(crc, events))
  {
    hide Agree, ClearedAfter, NewestRun, IsSlice, LostLieFirst, LostStandFirst, MachineLife, ShelfLife;
    MachineHoldsShelf(crc, events);
    var (mem, ring) := MachineLife(crc, events);
    var shelf := ShelfLife(crc, events);
    var log := LogBefore(crc, events);
    LostAgree(crc, mem, ring, shelf);
    ClearCutsAreParts(crc, mem, ring, log);
    forall words: nat
      ensures LogBefore(crc, events + [ClearsPartly(words)])
              == NewestRun(crc, ClearedAfter(mem, Bounded(words, ALL_WORDS)))
    {
      EventsMoveLog(crc, events, ClearsPartly(words));
    }
    hide LogBefore;
    if forall words: nat :: IsSlice(LogBefore(crc, events + [ClearsPartly(words)]), log) {
      forall n | 0 <= n <= ALL_WORDS
        ensures IsSlice(NewestRun(crc, ClearedAfter(mem, n)), log)
      {
        assert IsSlice(LogBefore(crc, events + [ClearsPartly(n)]), log);
      }
    }
  }

  lemma LostAgree(crc: Checksum, mem: Memory, ring: Ring, shelf: Shelf)
    requires Agree(crc, mem, ring, shelf)
    ensures Holds(crc, mem, ring, LogOf(shelf))
    ensures LostLieFirst(crc, mem, LogOf(shelf)) <==> LostStandFirst(shelf)
  {
    hide Holds, IsValid, LogOf;
    forall k | 0 <= k < CAPACITY
      ensures IsLost(shelf, k) <==> IsValid(crc, mem[k]) && mem[k] !in LogOf(shelf)
      ensures IsKept(shelf, k) <==> IsValid(crc, mem[k]) && mem[k] in LogOf(shelf)
    {
    }
    hide Shows;
  }

  /** After any life with a full log whose newest record stands neither first nor last, two cut clears. */
  lemma LostRecordReturnsInLife(crc: Checksum, events: seq<Event>)
    requires |LogBefore(crc, events)| == CAPACITY && ShelfLife(crc, events).head >= 2
    ensures var log, head := LogBefore(crc, events), ShelfLife(crc, events).head;
            var once := events + [ClearsPartly(SLOT_WORDS * (head - 1))];
            var twice := once + [ClearsPartly(SLOT_WORDS * (CAPACITY - 1))];
            && LogBefore(crc, once) == [log[CAPACITY - 1]]
            && LogBefore(crc, twice) == [log[CAPACITY - 1 - head]]
            && !IsSlice(LogBefore(crc, twice), LogBefore(crc, once))
  {
    hide Agree, ClearedAfter, NewestRun, IsSlice, ShelfLife, LogBefore, Holds;
    MachineHoldsShelf(crc, events);
    var (mem, ring) := MachineLife(crc, events);
    var shelf, log := ShelfLife(crc, events), LogBefore(crc, events);
    LogIs(crc, events);
    LostAgree(crc, mem, ring, shelf);
    SameNext(crc, mem, ring, shelf);
    InterruptedClearsBringBack(crc, mem, ring, log);
    var first := ClearsPartly(SLOT_WORDS * (shelf.head - 1));
    var once := events + [first];
    EventsMoveLog(crc, events, first);
    EventsMoveLog(crc, once, ClearsPartly(SLOT_WORDS * (CAPACITY - 1)));
    assert once[..|once| - 1] == events;
    assert MachineLife(crc, once).0 == ClearedAfter(mem, SLOT_WORDS * (shelf.head - 1));
  }

  lemma LogIs(crc: Checksum, events: seq<Event>)
    ensures LogBefore(crc, events) == LogOf(ShelfLife(crc, events))
  {
  }
}
