/** The event log object: a static ring array, its indices, and the readers. */
module EventLogStore {
  import opened Machine
  import opened EventLog

  const MAX_SOURCE := 5
  const MAX_SEVERITY := 2

  datatype Info = Info(writes: u32, overwrites: u32, oldest: u32, latest: u32, count: nat)

  /** The index arithmetic of the ring. */
  method Wrapped(tail: nat, i: nat) returns (k: nat)
    requires tail < CAPACITY && i <= CAPACITY
    ensures k == At(tail, i)
  {
    AtIsModulo(tail, i);
    k := (tail + i) % CAPACITY;
  }

  lemma HoldsInRange(crc: Checksum, mem: Memory, ring: Ring, log: seq<Slot>)
    requires Holds(crc, mem, ring, log)
    ensures ring.head < CAPACITY && ring.tail < CAPACITY && ring.count == |log| <= CAPACITY
    ensures ring.next != 0
  {
  }

  lemma CommittedHolds(crc: Checksum, contents: seq<Memory>, mem: Memory, ring: Ring, log: seq<Slot>, r: Slot)
    requires Holds(crc, mem, ring, log)
    requires IsValid(crc, r) && SequenceOf(r) == ring.next
    requires IsCommit(contents, mem, ring.head, r)
    ensures Holds(crc, mem[ring.head := r], RingAfter(ring, 9), Pushed(log, r))
    ensures CutsRecover(crc, contents, ring, log, r)
  {
    CutHolds(crc, mem, ring, log, r, 9);
    CommitCutsRecover(crc, contents, mem, ring, log, r);
  }

  class EventLogStore {
    const crc: Checksum
    const slots: array<Slot>
    var head: nat
    var tail: nat
    var count: nat
    var next: u32
    var storageReady: bool
    var writes: u32
    var overwrites: u32
    var rejected: u32
    /** The list the ring stands for. */
    ghost var log: seq<Slot>

    ghost function Indices(): Ring
      reads this
    {
      Ring(head, tail, count, next)
    }

    ghost predicate Ready()
      reads this, slots
    {
      && slots.Length == CAPACITY
      && (storageReady ==> Holds(crc, slots[..], Indices(), log))
      && (!storageReady ==> log == [] && Indices() == EMPTY_RING)
    }

    /** Some memory retained from before, and nothing known about it. */
    constructor (crc: Checksum, slots: array<Slot>)
      requires slots.Length == CAPACITY
      ensures Ready() && this.crc == crc && this.slots == slots && !storageReady
    {
      this.crc, this.slots := crc, slots;
      head, tail, count, next := 0, 0, 0, 1;
      storageReady := false;
      writes, overwrites, rejected := 0, 0, 0;
      log := [];
    }

    /** App_Log_ClearRetainedStorage: slot by slot, word by word. */
    method ClearRetainedStorage() returns (ghost contents: seq<Memory>)
      requires slots.Length == CAPACITY
      modifies slots
      ensures slots[..] == seq<Slot>(CAPACITY, i => EMPTY_SLOT)
      ensures IsClear(contents, old(slots[..]))
    {
      hide ClearedAfter;
      ghost var was: Memory := slots[..];
      NothingCleared(was);
      contents := [];
      var index := 0;
      while index < CAPACITY
        invariant 0 <= index <= CAPACITY && |contents| == SLOT_WORDS * index
        invariant slots[..] == ClearedAfter(was, SLOT_WORDS * index)
        invariant forall n :: 1 <= n <= |contents| ==> contents[n - 1] == ClearedAfter(was, n)
      {
        var word := 0;
        while word < SLOT_WORDS
          invariant 0 <= word <= SLOT_WORDS && |contents| == SLOT_WORDS * index + word
          invariant slots[..] == ClearedAfter(was, SLOT_WORDS * index + word)
          invariant forall n :: 1 <= n <= |contents| ==> contents[n - 1] == ClearedAfter(was, n)
        {
          OneMoreCleared(was, SLOT_WORDS * index + word);
          ghost var now: Memory := slots[..];
          slots[index] := slots[index][word := 0];
          assert slots[..] == now[index := now[index][word := 0]];
          contents := contents + [slots[..]];
          word := word + 1;
        }
        index := index + 1;
      }
      AllCleared(was);
    }

    /** The scan of App_Log_Recover. */
    method ScanNewest() returns (found: bool, newest: nat)
      requires slots.Length == CAPACITY
      ensures NewestUpTo(crc, slots[..], CAPACITY) == if found then Some(newest) else None
      ensures newest < CAPACITY
    {
      ghost var mem: Memory := slots[..];
      var index, newestSequence := 0, 0;
      found, newest := false, 0;
      while index < CAPACITY
        invariant 0 <= index <= CAPACITY && newest < CAPACITY
        invariant NewestUpTo(crc, mem, index) == if found then Some(newest) else None
        invariant found ==> newest < index && newestSequence == SequenceOf(mem[newest])
      {
        if IsValid(crc, slots[index]) {
          if !found || Newer(SequenceOf(slots[index]), newestSequence) {
            newestSequence, newest, found := SequenceOf(slots[index]), index, true;
          }
        }
        index := index + 1;
      }
    }

    /** The walk back of App_Log_Recover. */
    method WalkBack(newest: nat) returns (recovered: nat)
      requires slots.Length == CAPACITY && newest < CAPACITY
      ensures recovered == Chain(crc, slots[..], newest, SequenceOf(slots[newest]), CAPACITY)
    {
      hide IsValid;
      ghost var mem: Memory := slots[..];
      var expected, index := SequenceOf(slots[newest]), newest;
      recovered := 0;
      while recovered < CAPACITY && IsValid(crc, slots[index]) && SequenceOf(slots[index]) == expected
        invariant 0 <= recovered <= CAPACITY && 0 <= index < CAPACITY
        invariant Chain(crc, mem, newest, SequenceOf(mem[newest]), CAPACITY)
               == recovered + Chain(crc, mem, index, expected, CAPACITY - recovered)
      {
        recovered := recovered + 1;
        expected := PreviousSequence(expected);
        index := Wrapped(index, CAPACITY - 1);
      }
    }

    /** App_Log_Recover: the scan for the newest record, then the walk back. */
    method Recover()
      requires slots.Length == CAPACITY
      modifies this`head, this`tail, this`count, this`next, slots
      ensures Indices() == Recovered(crc, old(slots[..])) && count <= CAPACITY
      ensures slots[..] == RecoveredMemory(crc, old(slots[..]))
    {
      var found, newest := ScanNewest();
      hide NewestUpTo, Chain;
      if !found {
        ghost var contents := ClearRetainedStorage();
        head, tail, count, next := 0, 0, 0, 1;
        return;
      }
      count := WalkBack(newest);
      head := Wrapped(newest, 1);
      tail := Wrapped(head, CAPACITY - count);
      next := Add32(SequenceOf(slots[newest]), 1);
      if next == 0 {
        next := 1;
      }
    }

    /** After a reset, over any memory: if it holds a log, that is the log again. */
    method Init(ready: bool, ghost ring: Ring, ghost held: seq<Slot>)
      requires slots.Length == CAPACITY
      modifies this, slots
      ensures storageReady == ready && overwrites == rejected == 0
      ensures writes == if ready then count else 0
      ensures ready ==> Indices() == Recovered(crc, old(slots[..])) && slots[..] == RecoveredMemory(crc, old(slots[..]))
      ensures ready && Holds(crc, old(slots[..]), ring, held) ==> Ready() && log == held && Indices() == ring
      ensures !ready ==> Ready() && slots[..] == old(slots[..])
    {
      hide Holds, Recovered, RecoveredMemory;
      writes, overwrites, rejected := 0, 0, 0;
      storageReady := ready;
      if ready {
        if Holds(crc, slots[..], ring, held) {
          RecoveryRebuilds(crc, slots[..], ring, held);
        }
        Recover();
        writes := count;
        log := held;
      } else {
        head, tail, count, next := 0, 0, 0, 1;
        log := [];
      }
    }

    /** One aligned word store, the `k`-th of a commit. */
    method StoreWord(index: nat, word: nat, value: u32, ghost was: Memory, ghost r: Slot, ghost k: nat)
      requires slots.Length == CAPACITY && index < CAPACITY && word < SLOT_WORDS && 1 <= k <= 9
      requires slots[..] == MemoryAfter(was, index, r, k - 1)
      requires word == if k == 1 || k == 9 then SLOT_WORDS - 1 else k - 2
      requires value == if k == 1 then 0 else r[word]
      modifies slots
      ensures slots[..] == MemoryAfter(was, index, r, k)
    {
      slots[index] := slots[index][word := value];
      assert slots[index] == SlotAfter(was[index], r, k);
      assert slots[..] == MemoryAfter(was, index, r, k);
    }

    /** App_Log_CommitRecord: marker off, body, marker on; each store is a content of the memory. */
    method CommitRecord(index: nat, r: Slot) returns (ghost contents: seq<Memory>)
      requires slots.Length == CAPACITY && index < CAPACITY
      modifies slots
      ensures slots[..] == old(slots[..])[index := r]
      ensures IsCommit(contents, old(slots[..]), index, r)
    {
      ghost var was: Memory := slots[..];
      assert MemoryAfter(was, index, r, 0) == was;
      hide SlotAfter;
      StoreWord(index, SLOT_WORDS - 1, 0, was, r, 1);
      contents := [slots[..]];
      var word := 0;
      while word < SLOT_WORDS - 1
        invariant 0 <= word <= SLOT_WORDS - 1
        invariant slots[..] == MemoryAfter(was, index, r, word + 1)
        invariant |contents| == word + 1
        invariant forall k :: 1 <= k <= word + 1 ==> contents[k - 1] == MemoryAfter(was, index, r, k)
      {
        StoreWord(index, word, r[word], was, r, word + 2);
        contents := contents + [slots[..]];
        word := word + 1;
      }
      StoreWord(index, SLOT_WORDS - 1, r[SLOT_WORDS - 1], was, r, 9);
      contents := contents + [slots[..]];
      FinishedCommit(was, index, r);
    }

    lemma FinishedCommit(mem: Memory, index: nat, r: Slot)
      requires index < CAPACITY
      ensures MemoryAfter(mem, index, r, 9) == mem[index := r]
    {
    }

    /**
     * App_Log_PushWithRtcTime. Every content of the memory on the way recovers to the log before,
     * that log without the record that makes room, or the log after.
     */
    method Push(e: Entry) returns (logged: bool, ghost contents: seq<Memory>)
      requires Ready()
      modifies this, slots
      ensures Ready() && storageReady == old(storageReady)
      ensures logged <==> e.source <= MAX_SOURCE && e.severity <= MAX_SEVERITY && storageReady
      ensures log == if logged then Pushed(old(log), Stamped(crc, e, old(next))) else old(log)
      ensures !logged ==> slots[..] == old(slots[..]) && Indices() == old(Indices())
      ensures rejected == Add32(old(rejected), if logged then 0 else 1)
      ensures logged ==> Indices() == RingAfter(old(Indices()), 9)
      ensures logged ==> writes == Add32(old(writes), 1)
      ensures logged ==>
                overwrites == Add32(old(overwrites), if old(count) < CAPACITY then 0 else 1)
      ensures logged ==>
                CutsRecover(crc, contents, old(Indices()), old(log), Stamped(crc, e, old(next)))
    {
      if e.source > MAX_SOURCE || e.severity > MAX_SEVERITY || !storageReady {
        rejected := Add32(rejected, 1);
        return false, [];
      }
      var r := Stamped(crc, e, next);
      hide Holds, CutsRecover, Stamped, IsValid;
      contents := Append(r);
      logged := true;
    }

    /** Commits a stamped record at the head and moves the indices on. */
    method Append(r: Slot) returns (ghost contents: seq<Memory>)
      requires Ready() && storageReady && IsValid(crc, r) && SequenceOf(r) == next
      modifies this, slots
      ensures slots.Length == CAPACITY && storageReady && rejected == old(rejected)
      ensures Holds(crc, slots[..], Indices(), log)
      ensures log == Pushed(old(log), r) && Indices() == RingAfter(old(Indices()), 9)
      ensures writes == Add32(old(writes), 1)
      ensures overwrites == Add32(old(overwrites), if old(count) < CAPACITY then 0 else 1)
      ensures CutsRecover(crc, contents, old(Indices()), old(log), r)
    {
      hide Holds, CutsRecover, IsValid, RingAfter, Pushed, SequenceOf;
      HoldsInRange(crc, slots[..], Indices(), log);
      contents := CommitAtHead(r);
      log := Pushed(log, r);
      AdvanceIndices();
      writes := Add32(writes, 1);
    }

    method CommitAtHead(r: Slot) returns (ghost contents: seq<Memory>)
      requires Ready() && storageReady && IsValid(crc, r) && SequenceOf(r) == next
      modifies slots
      ensures Holds(crc, slots[..], RingAfter(Indices(), 9), Pushed(log, r))
      ensures CutsRecover(crc, contents, Indices(), log, r)
    {
      ghost var mem: Memory := slots[..];
      contents := CommitRecord(head, r);
      CommittedHolds(crc, contents, mem, Indices(), log, r);
      hide Holds, CutsRecover, IsValid, IsCommit, RingAfter, Pushed, SequenceOf;
    }

    /** The next sequence number, the head and, in a full ring, the tail move on. */
    method AdvanceIndices()
      requires head < CAPACITY && tail < CAPACITY && count <= CAPACITY && next != 0
      modifies this`head, this`tail, this`count, this`next, this`overwrites
      ensures Indices() == RingAfter(old(Indices()), 9)
      ensures overwrites == Add32(old(overwrites), if old(count) < CAPACITY then 0 else 1)
    {
      next := Add32(next, 1);
      if next == 0 {
        next := 1;
      }
      head := Wrapped(head, 1);
      if count < CAPACITY {
        count := count + 1;
      } else {
        tail := Wrapped(tail, 1);
        overwrites := Add32(overwrites, 1);
      }
    }

    method ReadOldest(age: nat) returns (found: bool, r: Slot)
      requires Ready()
      ensures found <==> age < |log|
      ensures found ==> r == log[age]
    {
      hide Aligned, IsValid;
      if age >= count {
        return false, EMPTY_SLOT;
      }
      var k := Wrapped(tail, age);
      return true, slots[k];
    }

    /** The record with that number, if it is still there; there is at most one. */
    method ReadBySequence(sequence: u32) returns (found: bool, r: Slot)
      requires Ready()
      ensures found <==> exists i :: 0 <= i < |log| && SequenceOf(log[i]) == sequence
      ensures found ==> r in log && SequenceOf(r) == sequence
      ensures found ==> forall i :: 0 <= i < |log| && SequenceOf(log[i]) == sequence ==> log[i] == r
    {
      hide Aligned, IsValid;
      r := EMPTY_SLOT;
      if sequence == 0 {
        return false, r;
      }
      var age := 0;
      while age < count
        invariant 0 <= age <= count
        invariant forall i :: 0 <= i < age ==> SequenceOf(log[i]) != sequence
      {
        var k := Wrapped(tail, age);
        assert slots[k] == log[age];
        if SequenceOf(slots[k]) == sequence {
          forall i | 0 <= i < |log| && SequenceOf(log[i]) == sequence
            ensures i == age
          {
            SequenceOrder(SequenceOf(log[0]), i, age);
          }
          return true, slots[k];
        }
        age := age + 1;
      }
      found := false;
    }

    method GetLatest() returns (found: bool, r: Slot)
      requires Ready()
      ensures found <==> log != []
      ensures found ==> r == log[|log| - 1]
    {
      hide Aligned, IsValid;
      if count == 0 {
        return false, EMPTY_SLOT;
      }
      var k := Wrapped(head, CAPACITY - 1);
      assert k == At(tail, count - 1);
      return true, slots[k];
    }

    method GetInfo() returns (info: Info)
      requires Ready()
      ensures info.count == |log| && info.writes == writes && info.overwrites == overwrites
      ensures log == [] ==> info.oldest == info.latest == 0
      ensures log != [] ==>
                info.oldest == SequenceOf(log[0]) && info.latest == SequenceOf(log[|log| - 1])
    {
      hide Aligned, IsValid;
      if count == 0 {
        return Info(writes, overwrites, 0, 0, count);
      }
      var k := Wrapped(head, CAPACITY - 1);
      assert k == At(tail, count - 1) && At(tail, 0) == tail;
      info := Info(writes, overwrites, SequenceOf(slots[tail]), SequenceOf(slots[k]), count);
    }

    /** Whatever the clear is cut at, recovery finds the newest unbroken run of what is left. */
    method Clear() returns (ghost contents: seq<Memory>)
      requires Ready()
      modifies this, slots
      ensures Ready() && storageReady == old(storageReady) && log == [] && Indices() == EMPTY_RING
      ensures !storageReady ==> slots[..] == old(slots[..])
      ensures writes == overwrites == rejected == 0
      ensures storageReady ==>
                && IsClear(contents, old(slots[..]))
                && forall n :: 0 <= n < ALL_WORDS ==>
                     Holds(crc, RecoveredMemory(crc, contents[n]), Recovered(crc, contents[n]),
                           NewestRun(crc, contents[n]))
    {
      hide Holds, RecoveredMemory, Recovered, NewestRun, ClearedAfter;
      contents := [];
      ghost var was: Memory, ring, held := slots[..], Indices(), log;
      head, tail, count, next := 0, 0, 0, 1;
      if storageReady {
        contents := ClearRetainedStorage();
        ClearedHoldsNothing(crc);
        forall n | 0 <= n < ALL_WORDS
          ensures Holds(crc, RecoveredMemory(crc, contents[n]), Recovered(crc, contents[n]),
                        NewestRun(crc, contents[n]))
        {
          assert contents[n + 1 - 1] == ClearedAfter(was, n + 1);
          ClearCutIsRecovered(crc, was, ring, held, n + 1);
        }
      }
      writes, overwrites, rejected := 0, 0, 0;
      log := [];
    }
  }
}
