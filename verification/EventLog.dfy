/**
 * The retained event log as values: 64 slots of eight words in backup RAM, the ring laid over
 * them, the word-by-word commit of a record, and the recovery after reset from the slots alone.
 */
module EventLog {
  import opened Machine

  const CAPACITY := 64
  const SLOT_WORDS := 8
  const RECORD_MAGIC: u32 := 0x4C4F_4731
  const COMMIT_MARKER := 0xA55A

  /** CRC-16 of the first seven words; any checksum function will do. */
  type Checksum = seq<u32> -> u16

  type Slot = s: seq<u32> | |s| == SLOT_WORDS witness [0, 0, 0, 0, 0, 0, 0, 0]
  type Memory = m: seq<Slot> | |m| == CAPACITY witness seq<Slot>(CAPACITY, i => EMPTY_SLOT)

  const EMPTY_SLOT: Slot := [0, 0, 0, 0, 0, 0, 0, 0]

  function SequenceOf(slot: Slot): u32 { slot[1] }

  predicate Committed(slot: Slot) {
    slot[7] / 0x1_0000 == COMMIT_MARKER
  }

  /** App_Log_IsRecordValid */
  predicate IsValid(crc: Checksum, slot: Slot) {
    slot[0] == RECORD_MAGIC && Committed(slot) && crc(slot[..7]) == slot[7] % 0x1_0000
  }

  /** The fields of a record, packed as the 32-byte structure lies in memory. */
  function MakeRecord(crc: Checksum, sequence: u32, uptime: u32, rtc: u32, code: u16, source: u8,
                      severity: u8, data0: u32, data1: u32): (r: Slot)
    ensures IsValid(crc, r) && SequenceOf(r) == sequence
    ensures r[2] == uptime && r[3] == rtc && r[5] == data0 && r[6] == data1
    ensures r[4] % 0x1_0000 == code && r[4] / 0x1_0000 % 0x100 == source && r[4] / 0x100_0000 == severity
  {
    var high: nat, low: nat := severity, source;
    PackedFields(code, source, severity);
    var front := [RECORD_MAGIC, sequence, uptime, rtc, code + 0x1_0000 * low + 0x100_0000 * high,
                  data0, data1];
    var r: Slot := front + [crc(front) + 0x1_0000 * COMMIT_MARKER];
    assert r[..7] == front;
    r
  }

  lemma PackedFields(code: u16, source: u8, severity: u8)
    ensures var high: nat, low: nat := severity, source;
            var word := code + 0x1_0000 * low + 0x100_0000 * high;
            && word % 0x1_0000 == code && word / 0x1_0000 % 0x100 == source && word / 0x100_0000 == severity
  {
  }

  // ---------------------------------------------------------------- sequence numbers

  /** The sequence number `d` records after `s`; 0 is skipped. */
  function SequencePlus(s: u32, d: nat): (r: u32)
    requires s != 0 && d <= CAPACITY
    ensures r != 0
  {
    if s + d <= UINT32_MAX then s + d else s + d - UINT32_MAX
  }

  function SequenceMinus(s: u32, d: nat): (r: u32)
    requires s != 0 && d <= CAPACITY
    ensures r != 0 && SequencePlus(r, d) == s
  {
    if s > d then s - d else s + UINT32_MAX - d
  }

  function PreviousSequence(s: u32): (r: u32) {
    if s == 1 then UINT32_MAX else Sub32(s, 1)
  }

  lemma SequenceSteps(s: u32, d: nat)
    requires s != 0 && d < CAPACITY
    ensures SequencePlus(s, d + 1) == NextNonZero(SequencePlus(s, d))
    ensures PreviousSequence(SequencePlus(s, d + 1)) == SequencePlus(s, d)
  {
  }

  /** Within one ring the signed comparison orders records by age, also across the wrap. */
  lemma SequenceOrder(s: u32, i: nat, j: nat)
    requires s != 0 && i < CAPACITY && j < CAPACITY
    ensures Newer(SequencePlus(s, j), SequencePlus(s, i)) <==> i < j
    ensures SequencePlus(s, j) == SequencePlus(s, i) <==> i == j
  {
  }

  // ---------------------------------------------------------------- the ring

  /** Physical slot of age `i`, and age of physical slot `k`. */
  function At(tail: nat, i: nat): (k: nat)
    requires tail < CAPACITY && i <= CAPACITY
    ensures k < CAPACITY
  {
    if tail + i < CAPACITY then tail + i else tail + i - CAPACITY
  }

  lemma AtIsModulo(tail: nat, i: nat)
    requires tail < CAPACITY && i <= CAPACITY
    ensures At(tail, i) == (tail + i) % CAPACITY
  {
  }

  function Age(tail: nat, k: nat): (i: nat)
    requires tail < CAPACITY && k < CAPACITY
    ensures i < CAPACITY && At(tail, i) == k
    ensures forall j :: 0 <= j < CAPACITY && At(tail, j) == k ==> j == i
  {
    if k >= tail then k - tail else k + CAPACITY - tail
  }

  datatype Ring = Ring(head: nat, tail: nat, count: nat, next: u32)

  const EMPTY_RING := Ring(0, 0, 0, 1)

  /** Every valid slot has the number that belongs to its place before the head. */
  predicate Aligned(crc: Checksum, mem: Memory, head: nat, next: u32)
    requires head < CAPACITY && next != 0
  {
    forall k :: 0 <= k < CAPACITY && IsValid(crc, mem[k]) ==>
      SequenceOf(mem[k]) == SequencePlus(SequenceMinus(next, CAPACITY), Age(head, k))
  }

  /**
   * The ring over the memory holds exactly the records of `log`, oldest first, numbered without
   * gaps. Slots outside may hold older records, but none that would continue the log backwards.
   */
  predicate Holds(crc: Checksum, mem: Memory, ring: Ring, log: seq<Slot>) {
    && ring.tail < CAPACITY && ring.count == |log| <= CAPACITY
    && ring.head == At(ring.tail, ring.count)
    && ring.next != 0
    && (log == [] ==> ring == EMPTY_RING && forall k :: 0 <= k < CAPACITY ==> !IsValid(crc, mem[k]))
    && (forall i :: 0 <= i < |log| ==>
          mem[At(ring.tail, i)] == log[i] && IsValid(crc, log[i]))
    && (0 < |log| < CAPACITY ==> !IsValid(crc, mem[At(ring.tail, CAPACITY - 1)]))
    && Aligned(crc, mem, ring.head, ring.next)
    && Numbered(log, ring.next)
  }

  /** Consecutive sequence numbers that end just before `next`. */
  predicate Numbered(log: seq<Slot>, next: u32)
    requires |log| <= CAPACITY
  {
    log != [] ==>
      var first := SequenceOf(log[0]);
      && first != 0
      && (forall i :: 0 <= i < |log| ==> SequenceOf(log[i]) == SequencePlus(first, i))
      && next == SequencePlus(first, |log|)
  }

  /** The list a push leaves: the newest 64. */
  function Pushed(log: seq<Slot>, r: Slot): (l: seq<Slot>)
    requires |log| <= CAPACITY
    ensures |l| <= CAPACITY
  {
    (if |log| < CAPACITY then log else log[1..]) + [r]
  }

  function PushedAll(log: seq<Slot>, records: seq<Slot>): (l: seq<Slot>)
    requires |log| <= CAPACITY
    ensures |l| <= CAPACITY
    decreases |records|
  {
    if records == [] then log else PushedAll(Pushed(log, records[0]), records[1..])
  }

  /** Pushing keeps the last 64 of everything ever logged. */
  lemma {:induction false} PushedAllIsSuffix(log: seq<Slot>, records: seq<Slot>)
    requires |log| <= CAPACITY
    ensures var all := log + records;
            PushedAll(log, records) == if |all| <= CAPACITY then all else all[|all| - CAPACITY..]
    decreases |records|
  {
    if records == [] {
      assert log + records == log;
    } else {
      PushedAllIsSuffix(Pushed(log, records[0]), records[1..]);
      Regrouped(log, records);
      hide Pushed;
    }
  }

  /** What is dropped for the first record is the oldest of all. */
  lemma Regrouped(log: seq<Slot>, records: seq<Slot>)
    requires |log| <= CAPACITY && records != []
    ensures var all := log + records;
            Pushed(log, records[0]) + records[1..] == if |log| < CAPACITY then all else all[1..]
  {
  }

  // ---------------------------------------------------------------- commit, word by word

  /** The slot after `k` of the nine word stores of a commit. */
  function SlotAfter(was: Slot, r: Slot, k: nat): (s: Slot)
    requires k <= 9
  {
    if k == 0 then was
    else if k == 9 then r
    else r[..k - 1] + was[k - 1..7] + [0]
  }

  function MemoryAfter(mem: Memory, index: nat, r: Slot, k: nat): (m: Memory)
    requires index < CAPACITY && k <= 9
  {
    mem[index := SlotAfter(mem[index], r, k)]
  }

  /** After a cut the log is: the old one, the old one without a slot already given up, or the new. */
  function LogAfter(log: seq<Slot>, r: Slot, k: nat): (l: seq<Slot>)
    requires |log| <= CAPACITY && k <= 9
  {
    if k == 0 then log
    else if k < 9 then (if |log| < CAPACITY then log else log[1..])
    else Pushed(log, r)
  }

  function RingAfter(ring: Ring, k: nat): (r: Ring)
    requires ring.tail < CAPACITY && ring.head < CAPACITY && ring.next != 0 && k <= 9
  {
    var full := ring.count >= CAPACITY;
    var tail := if full then At(ring.tail, 1) else ring.tail;
    if k == 0 then ring
    else if k < 9 then
      ring.(tail := tail, count := if full then CAPACITY - 1 else ring.count)
    else
      Ring(At(ring.head, 1), tail, if full then CAPACITY else ring.count + 1, NextNonZero(ring.next))
  }

  /** Any prefix of the stores leaves a memory that holds exactly the log of that prefix. */
  lemma CutHolds(crc: Checksum, mem: Memory, ring: Ring, log: seq<Slot>, r: Slot, k: nat)
    requires Holds(crc, mem, ring, log) && k <= 9
    requires IsValid(crc, r) && SequenceOf(r) == ring.next
    ensures Holds(crc, MemoryAfter(mem, ring.head, r, k), RingAfter(ring, k), LogAfter(log, r, k))
  {
    hide Holds, IsValid, SlotAfter;
    InRange(crc, mem, ring, log);
    if 0 < k < 9 {
      UnfinishedIsInvalid(crc, mem[ring.head], r, k);
      GivenUpHolds(crc, mem, ring, log, SlotAfter(mem[ring.head], r, k));
    } else if k == 9 {
      UnfinishedIsInvalid(crc, mem[ring.head], r, 1);
      var spoiled := SlotAfter(mem[ring.head], r, 1);
      GivenUpHolds(crc, mem, ring, log, spoiled);
      AppendHolds(crc, mem[ring.head := spoiled], RingAfter(ring, 1), LogAfter(log, r, 1), r);
      assert SlotAfter(mem[ring.head], r, 9) == r by { Finished(mem[ring.head], r); }
      assert mem[ring.head := spoiled][ring.head := r] == mem[ring.head := r];
    } else {
      Untouched(mem, ring.head, r);
    }
  }

  lemma InRange(crc: Checksum, mem: Memory, ring: Ring, log: seq<Slot>)
    requires Holds(crc, mem, ring, log)
    ensures ring.count == |log| <= CAPACITY && ring.head < CAPACITY && ring.tail < CAPACITY && ring.next != 0
    ensures ring.head == At(ring.tail, ring.count)
  {
  }

  /** Until the last store the word with the marker is zero. */
  lemma UnfinishedIsInvalid(crc: Checksum, was: Slot, r: Slot, k: nat)
    requires 0 < k < 9
    ensures !IsValid(crc, SlotAfter(was, r, k))
  {
    assert SlotAfter(was, r, k)[7] == 0;
  }

  lemma Finished(was: Slot, r: Slot)
    ensures SlotAfter(was, r, 9) == r
  {
  }

  lemma Untouched(mem: Memory, index: nat, r: Slot)
    requires index < CAPACITY
    ensures MemoryAfter(mem, index, r, 0) == mem
  {
  }

  /** Spoiling the slot at the head costs a full ring its oldest record and others nothing. */
  lemma GivenUpHolds(crc: Checksum, mem: Memory, ring: Ring, log: seq<Slot>, spoiled: Slot)
    requires Holds(crc, mem, ring, log) && !IsValid(crc, spoiled)
    ensures Holds(crc, mem[ring.head := spoiled], RingAfter(ring, 1),
                  if |log| < CAPACITY then log else log[1..])
  {
    hide IsValid, Numbered, SequenceOf, SequencePlus, SequenceMinus;
    if |log| == CAPACITY {
      OldestGivenUp(crc, mem, ring, log, spoiled);
    } else {
      assert Age(ring.tail, ring.head) == |log|;
    }
  }

  lemma OldestGivenUp(crc: Checksum, mem: Memory, ring: Ring, log: seq<Slot>, spoiled: Slot)
    requires Holds(crc, mem, ring, log) && !IsValid(crc, spoiled) && |log| == CAPACITY
    ensures Holds(crc, mem[ring.head := spoiled], RingAfter(ring, 1), log[1..])
  {
    hide IsValid, SequenceOf, SequencePlus, SequenceMinus;
    var ring', mem', log' := RingAfter(ring, 1), mem[ring.head := spoiled], log[1..];
    forall i | 0 <= i < |log'|
      ensures mem'[At(ring'.tail, i)] == log'[i] && IsValid(crc, log'[i])
    {
      assert At(ring'.tail, i) == At(ring.tail, i + 1) && log'[i] == log[i + 1];
    }
    assert At(ring'.tail, CAPACITY - 1) == ring.head;
    NumberedTail(log, ring.next);
    hide Numbered;
  }

  lemma NumberedTail(log: seq<Slot>, next: u32)
    requires 1 < |log| <= CAPACITY && Numbered(log, next)
    ensures Numbered(log[1..], next)
  {
    var first := SequenceOf(log[0]);
    assert SequenceOf(log[1..][0]) == SequencePlus(first, 1);
    forall i | 0 <= i < |log[1..]|
      ensures SequenceOf(log[1..][i]) == SequencePlus(SequencePlus(first, 1), i)
    {
      assert log[1..][i] == log[i + 1];
    }
  }

  /** Filling the spoiled slot appends the record. */
  lemma AppendHolds(crc: Checksum, mem: Memory, ring: Ring, log: seq<Slot>, r: Slot)
    requires Holds(crc, mem, ring, log) && |log| < CAPACITY
    requires IsValid(crc, r) && SequenceOf(r) == ring.next
    ensures Holds(crc, mem[ring.head := r],
                  Ring(At(ring.head, 1), ring.tail, ring.count + 1, NextNonZero(ring.next)), log + [r])
  {
    hide IsValid, Numbered, SequenceOf, Aligned;
    NumberedMore(log, ring.next, r);
    AlignedMore(crc, mem, ring.head, ring.next, r);
    assert Age(ring.tail, ring.head) == |log|;
  }

  lemma AlignedMore(crc: Checksum, mem: Memory, head: nat, next: u32, r: Slot)
    requires head < CAPACITY && next != 0 && Aligned(crc, mem, head, next)
    requires SequenceOf(r) == next
    ensures Aligned(crc, mem[head := r], At(head, 1), NextNonZero(next))
  {
    hide IsValid, SequenceOf;
  }

  lemma NumberedMore(log: seq<Slot>, next: u32, r: Slot)
    requires |log| < CAPACITY && Numbered(log, next) && SequenceOf(r) == next && next != 0
    ensures Numbered(log + [r], NextNonZero(next))
  {
    hide SequenceOf;
    if log != [] {
      SequenceSteps(SequenceOf(log[0]), |log|);
    }
  }

  // ---------------------------------------------------------------- recovery

  /** The slot the first `n` steps of the scan settle on. */
  function NewestUpTo(crc: Checksum, mem: Memory, n: nat): (r: Option<nat>)
    requires n <= CAPACITY
    ensures r.Some? ==> r.value < n
  {
    if n == 0 then None
    else
      var best := NewestUpTo(crc, mem, n - 1);
      if IsValid(crc, mem[n - 1])
         && (best == None || Newer(SequenceOf(mem[n - 1]), SequenceOf(mem[best.value])))
      then Some(n - 1) else best
  }

  /** How far the numbers run back without a gap, at most `limit` slots. */
  function Chain(crc: Checksum, mem: Memory, index: nat, expected: u32, limit: nat): (n: nat)
    requires index < CAPACITY
    ensures n <= limit
    decreases limit
  {
    if limit == 0 || !IsValid(crc, mem[index]) || SequenceOf(mem[index]) != expected then 0
    else 1 + Chain(crc, mem, At(index, CAPACITY - 1), PreviousSequence(expected), limit - 1)
  }

  function Recovered(crc: Checksum, mem: Memory): (ring: Ring) {
    match NewestUpTo(crc, mem, CAPACITY)
    case None => EMPTY_RING
    case Some(newest) =>
      var sequence := SequenceOf(mem[newest]);
      var count := Chain(crc, mem, newest, sequence, CAPACITY);
      var head := At(newest, 1);
      Ring(head, At(head, CAPACITY - count), count, NextNonZero(sequence))
  }

  /** Without any valid record the storage is cleared as well. */
  function RecoveredMemory(crc: Checksum, mem: Memory): (m: Memory) {
    if NewestUpTo(crc, mem, CAPACITY) == None then seq<Slot>(CAPACITY, i => EMPTY_SLOT) else mem
  }

  lemma {:induction false} ScanFindsYoungest(crc: Checksum, mem: Memory, head: nat, next: u32, n: nat)
    requires head < CAPACITY && next != 0 && Aligned(crc, mem, head, next) && n <= CAPACITY
    ensures match NewestUpTo(crc, mem, n)
            case None => forall k :: 0 <= k < n ==> !IsValid(crc, mem[k])
            case Some(best) =>
              && IsValid(crc, mem[best])
              && forall k :: 0 <= k < n && IsValid(crc, mem[k]) ==> Age(head, k) <= Age(head, best)
  {
    hide IsValid, SequencePlus, SequenceMinus, SequenceOf, Newer, Age;
    if n > 0 {
      ScanFindsYoungest(crc, mem, head, next, n - 1);
      var before := NewestUpTo(crc, mem, n - 1);
      if before.Some? {
        SequenceOrder(SequenceMinus(next, CAPACITY), Age(head, before.value), Age(head, n - 1));
      }
    }
  }

  lemma HeldRecord(crc: Checksum, mem: Memory, ring: Ring, log: seq<Slot>, i: nat)
    requires Holds(crc, mem, ring, log) && i < |log|
    ensures ring.tail < CAPACITY && |log| <= CAPACITY
    ensures mem[At(ring.tail, i)] == log[i] && IsValid(crc, log[i]) && SequenceOf(log[0]) != 0
    ensures SequenceOf(log[i]) == SequencePlus(SequenceOf(log[0]), i)
  {
    hide IsValid, SequencePlus, SequenceOf;
  }

  lemma NothingBefore(crc: Checksum, mem: Memory, ring: Ring, log: seq<Slot>)
    requires Holds(crc, mem, ring, log) && log != []
    ensures ring.tail < CAPACITY && (|log| < CAPACITY ==> !IsValid(crc, mem[At(ring.tail, CAPACITY - 1)]))
  {
    hide IsValid;
  }

  lemma {:induction false} ChainCounts(crc: Checksum, mem: Memory, ring: Ring, log: seq<Slot>, i: nat, limit: nat)
    requires Holds(crc, mem, ring, log) && i < |log|
    requires limit == i + 1 || (limit > i && |log| < CAPACITY)
    ensures Chain(crc, mem, At(ring.tail, i), SequenceOf(log[i]), limit) == i + 1
    decreases i
  {
    hide Holds, IsValid, SequencePlus, SequenceOf, PreviousSequence;
    HeldRecord(crc, mem, ring, log, i);
    var before := At(At(ring.tail, i), CAPACITY - 1);
    if i == 0 {
      NothingBefore(crc, mem, ring, log);
    } else {
      assert before == At(ring.tail, i - 1);
      HeldRecord(crc, mem, ring, log, i - 1);
      SequenceSteps(SequenceOf(log[0]), i - 1);
      ChainCounts(crc, mem, ring, log, i - 1, limit - 1);
    }
  }

  /** Recovery rebuilds exactly the ring that holds the log, from the slots alone. */
  lemma RecoveryRebuilds(crc: Checksum, mem: Memory, ring: Ring, log: seq<Slot>)
    requires Holds(crc, mem, ring, log)
    ensures Recovered(crc, mem) == ring
    ensures Holds(crc, RecoveredMemory(crc, mem), Recovered(crc, mem), log)
  {
    hide Holds, IsValid, SequencePlus, SequenceOf, Chain, NewestUpTo, Age, Aligned;
    HeldRing(crc, mem, ring, log);
    ScanFindsYoungest(crc, mem, ring.head, ring.next, CAPACITY);
    if log != [] {
      var last := |log| - 1;
      var newest := At(ring.tail, last);
      HeldRecord(crc, mem, ring, log, last);
      YoungestAge(ring.head, newest);
      assert NewestUpTo(crc, mem, CAPACITY) == Some(newest);
      ChainCounts(crc, mem, ring, log, last, CAPACITY);
    } else {
      ClearedHoldsNothing(crc);
    }
  }

  /** Just before the head is the youngest place there is. */
  lemma YoungestAge(head: nat, newest: nat)
    requires head < CAPACITY && newest < CAPACITY && head == At(newest, 1)
    ensures forall k :: 0 <= k < CAPACITY && Age(head, k) >= Age(head, newest) ==> k == newest
  {
  }

  /** The bookkeeping follows from the newest record and the number of records. */
  lemma HeldRing(crc: Checksum, mem: Memory, ring: Ring, log: seq<Slot>)
    requires Holds(crc, mem, ring, log)
    ensures ring.tail < CAPACITY && ring.count == |log| <= CAPACITY
    ensures ring.head < CAPACITY && ring.next != 0 && Aligned(crc, mem, ring.head, ring.next)
    ensures log == [] ==> ring == EMPTY_RING && forall k :: 0 <= k < CAPACITY ==> !IsValid(crc, mem[k])
    ensures log != [] ==>
              var newest := At(ring.tail, |log| - 1);
              && mem[newest] == log[|log| - 1]
              && ring.head == At(newest, 1) && ring.tail == At(ring.head, CAPACITY - |log|)
              && ring.next == NextNonZero(SequenceOf(mem[newest]))
  {
    hide IsValid, SequencePlus, SequenceOf, Aligned;
    if log != [] {
      SequenceSteps(SequenceOf(log[0]), |log| - 1);
      assert SequenceOf(log[|log| - 1]) == SequencePlus(SequenceOf(log[0]), |log| - 1);
    }
  }

  lemma ClearedHoldsNothing(crc: Checksum)
    ensures Holds(crc, seq<Slot>(CAPACITY, i => EMPTY_SLOT), EMPTY_RING, [])
  {
  }

  /**
   * A cut between any two stores of a commit: the recovery finds the old log, the old log without
   * the record that had to make room, or the new log, and the ring it builds holds it.
   */
  lemma CutIsRecovered(crc: Checksum, mem: Memory, ring: Ring, log: seq<Slot>, r: Slot, k: nat)
    requires Holds(crc, mem, ring, log) && k <= 9
    requires IsValid(crc, r) && SequenceOf(r) == ring.next
    ensures var cut := MemoryAfter(mem, ring.head, r, k);
            && Recovered(crc, cut) == RingAfter(ring, k)
            && Holds(crc, RecoveredMemory(crc, cut), Recovered(crc, cut), LogAfter(log, r, k))
  {
    CutHolds(crc, mem, ring, log, r, k);
    RecoveryRebuilds(crc, MemoryAfter(mem, ring.head, r, k), RingAfter(ring, k), LogAfter(log, r, k));
  }

  /** The nine contents a commit goes through, each of which recovers as it should. */
  ghost predicate CutsRecover(crc: Checksum, contents: seq<Memory>, ring: Ring, log: seq<Slot>, r: Slot)
    requires ring.head < CAPACITY && ring.tail < CAPACITY && ring.next != 0 && |log| <= CAPACITY
  {
    && |contents| == 9
    && forall k :: 1 <= k <= 9 ==>
         && Recovered(crc, contents[k - 1]) == RingAfter(ring, k)
         && Holds(crc, RecoveredMemory(crc, contents[k - 1]), RingAfter(ring, k), LogAfter(log, r, k))
  }

  predicate IsCommit(contents: seq<Memory>, mem: Memory, index: nat, r: Slot)
    requires index < CAPACITY
  {
    |contents| == 9 && forall k :: 1 <= k <= 9 ==> contents[k - 1] == MemoryAfter(mem, index, r, k)
  }

  lemma CommitCutsRecover(crc: Checksum, contents: seq<Memory>, mem: Memory, ring: Ring, log: seq<Slot>, r: Slot)
    requires Holds(crc, mem, ring, log)
    requires IsValid(crc, r) && SequenceOf(r) == ring.next
    requires IsCommit(contents, mem, ring.head, r)
    ensures CutsRecover(crc, contents, ring, log, r)
  {
    forall k | 1 <= k <= 9
      ensures Recovered(crc, contents[k - 1]) == RingAfter(ring, k)
      ensures Holds(crc, RecoveredMemory(crc, contents[k - 1]), RingAfter(ring, k), LogAfter(log, r, k))
    {
      CutIsRecovered(crc, mem, ring, log, r, k);
    }
  }

  // ---------------------------------------------------------------- clear, word by word

  const ALL_WORDS := CAPACITY * SLOT_WORDS

  /** The first `w` words of a slot are zero already. */
  function SlotCleared(slot: Slot, w: nat): (s: Slot)
    requires w <= SLOT_WORDS
  {
    seq(SLOT_WORDS, i requires 0 <= i < SLOT_WORDS => if i < w then 0 else slot[i])
  }

  /** The memory after `n` of the word stores that clear it. */
  function ClearedAfter(mem: Memory, n: nat): (m: Memory)
    requires n <= ALL_WORDS
  {
    seq<Slot>(CAPACITY, k requires 0 <= k < CAPACITY =>
      if k < n / SLOT_WORDS then EMPTY_SLOT
      else if k == n / SLOT_WORDS then SlotCleared(mem[k], n % SLOT_WORDS) else mem[k])
  }

  /** The contents the memory goes through while it is cleared. */
  predicate IsClear(contents: seq<Memory>, mem: Memory) {
    |contents| == ALL_WORDS && forall n :: 1 <= n <= ALL_WORDS ==> contents[n - 1] == ClearedAfter(mem, n)
  }

  /** A slot is as it was or no record any more: its first word goes first. */
  lemma ClearedSlot(crc: Checksum, mem: Memory, n: nat, k: nat)
    requires n <= ALL_WORDS && k < CAPACITY
    ensures ClearedAfter(mem, n)[k] == mem[k] || !IsValid(crc, ClearedAfter(mem, n)[k])
    ensures n == ALL_WORDS ==> !IsValid(crc, ClearedAfter(mem, n)[k])
  {
    if k == n / SLOT_WORDS && n % SLOT_WORDS == 0 {
      assert SlotCleared(mem[k], 0) == mem[k];
    }
  }

  lemma ClearedIsAligned(crc: Checksum, mem: Memory, head: nat, next: u32, n: nat)
    requires head < CAPACITY && next != 0 && Aligned(crc, mem, head, next) && n <= ALL_WORDS
    ensures Aligned(crc, ClearedAfter(mem, n), head, next)
  {
    hide IsValid, ClearedAfter, SequencePlus, SequenceMinus, SequenceOf, Age;
    forall k | 0 <= k < CAPACITY && IsValid(crc, ClearedAfter(mem, n)[k])
      ensures ClearedAfter(mem, n)[k] == mem[k]
    {
      ClearedSlot(crc, mem, n, k);
    }
  }

  /** What recovery makes the log. */
  function NewestRun(crc: Checksum, mem: Memory): (log: seq<Slot>)
    ensures |log| <= CAPACITY
  {
    RecoveredRange(crc, mem);
    var ring := Recovered(crc, mem);
    seq<Slot>(ring.count, i requires 0 <= i < ring.count => mem[At(ring.tail, i)])
  }

  lemma RecoveredRange(crc: Checksum, mem: Memory)
    ensures var ring := Recovered(crc, mem);
            ring.head < CAPACITY && ring.tail < CAPACITY && ring.next != 0 && ring.count <= CAPACITY
  {
  }

  /** The slot `i` places before `index` continues a run that ends there with this number. */
  predicate Continues(crc: Checksum, mem: Memory, index: nat, expected: u32, i: nat)
    requires index < CAPACITY && expected != 0 && i <= CAPACITY
  {
    var slot := mem[At(index, CAPACITY - i)];
    IsValid(crc, slot) && SequenceOf(slot) == SequenceMinus(expected, i)
  }

  /** The walk back covers slots that continue the run... */
  lemma {:induction false} ChainContinues(crc: Checksum, mem: Memory, index: nat, expected: u32, limit: nat, i: nat)
    requires index < CAPACITY && expected != 0 && limit <= CAPACITY
    requires i < Chain(crc, mem, index, expected, limit)
    ensures Continues(crc, mem, index, expected, i)
    decreases i
  {
    hide IsValid, SequenceOf;
    if i > 0 {
      ChainContinues(crc, mem, At(index, CAPACITY - 1), PreviousSequence(expected), limit - 1, i - 1);
    }
    OneBack(index, expected, i);
  }

  /** ... and stops at the first that does not. */
  lemma {:induction false} ChainStops(crc: Checksum, mem: Memory, index: nat, expected: u32, limit: nat)
    requires index < CAPACITY && expected != 0 && limit <= CAPACITY
    requires Chain(crc, mem, index, expected, limit) < limit
    ensures !Continues(crc, mem, index, expected, Chain(crc, mem, index, expected, limit))
    decreases limit
  {
    hide IsValid, SequenceOf;
    var c := Chain(crc, mem, index, expected, limit);
    if c > 0 {
      ChainStops(crc, mem, At(index, CAPACITY - 1), PreviousSequence(expected), limit - 1);
    }
    OneBack(index, expected, c);
  }

  lemma OneBack(index: nat, expected: u32, i: nat)
    requires index < CAPACITY && expected != 0 && i <= CAPACITY
    ensures At(index, CAPACITY) == index && SequenceMinus(expected, 0) == expected
    ensures PreviousSequence(expected) != 0
    ensures i > 0 ==> At(At(index, CAPACITY - 1), CAPACITY - (i - 1)) == At(index, CAPACITY - i)
    ensures i > 0 ==> SequenceMinus(PreviousSequence(expected), i - 1) == SequenceMinus(expected, i)
  {
  }

  /** Seen from a newer head, the places are the same distance apart. */
  lemma Realigned(crc: Checksum, mem: Memory, head: nat, next: u32, newest: nat)
    requires head < CAPACITY && next != 0 && Aligned(crc, mem, head, next)
    requires newest < CAPACITY && IsValid(crc, mem[newest])
    requires forall k :: 0 <= k < CAPACITY && IsValid(crc, mem[k]) ==> Age(head, k) <= Age(head, newest)
    ensures SequenceOf(mem[newest]) != 0
    ensures Aligned(crc, mem, At(newest, 1), NextNonZero(SequenceOf(mem[newest])))
  {
    hide IsValid, SequenceOf;
    var m := Age(head, newest);
    forall k | 0 <= k < CAPACITY && IsValid(crc, mem[k])
      ensures Age(At(newest, 1), k) == Age(head, k) + CAPACITY - 1 - m
    {
    }
    hide Age, At;
    SameBase(next, m);
  }

  lemma SameBase(next: u32, m: nat)
    requires next != 0 && m < CAPACITY
    ensures var s := SequencePlus(SequenceMinus(next, CAPACITY), m);
            forall a :: 0 <= a <= m ==>
              SequencePlus(SequenceMinus(NextNonZero(s), CAPACITY), a + CAPACITY - 1 - m)
              == SequencePlus(SequenceMinus(next, CAPACITY), a)
  {
  }

  /** From any aligned memory recovery builds a ring that holds the newest unbroken run. */
  lemma AlignedRecovers(crc: Checksum, mem: Memory, head: nat, next: u32)
    requires head < CAPACITY && next != 0 && Aligned(crc, mem, head, next)
    ensures Holds(crc, RecoveredMemory(crc, mem), Recovered(crc, mem), NewestRun(crc, mem))
  {
    hide IsValid, SequenceOf, NewestUpTo, Chain, Aligned;
    ScanFindsYoungest(crc, mem, head, next, CAPACITY);
    match NewestUpTo(crc, mem, CAPACITY) {
      case None =>
        ClearedHoldsNothing(crc);
        assert NewestRun(crc, mem) == [];
      case Some(newest) =>
        Realigned(crc, mem, head, next, newest);
        RunHolds(crc, mem, newest, Chain(crc, mem, newest, SequenceOf(mem[newest]), CAPACITY));
    }
  }

  lemma RunHolds(crc: Checksum, mem: Memory, newest: nat, c: nat)
    requires newest < CAPACITY && IsValid(crc, mem[newest]) && SequenceOf(mem[newest]) != 0
    requires NewestUpTo(crc, mem, CAPACITY) == Some(newest)
    requires c == Chain(crc, mem, newest, SequenceOf(mem[newest]), CAPACITY)
    requires Aligned(crc, mem, At(newest, 1), NextNonZero(SequenceOf(mem[newest])))
    ensures Holds(crc, mem, Recovered(crc, mem), NewestRun(crc, mem))
  {
    hide IsValid, SequenceOf, NewestUpTo, Aligned, At, SequenceMinus, NextNonZero, Numbered, Continues, Chain,
         Recovered, NewestRun;
    RunIs(crc, mem, newest, c);
    PlacesInRun(newest, c);
    var s, run := SequenceOf(mem[newest]), NewestRun(crc, mem);
    forall i | 0 <= i < c
      ensures IsValid(crc, run[i]) && SequenceOf(run[i]) == SequenceMinus(s, c - 1 - i)
    {
      ChainContinues(crc, mem, newest, s, CAPACITY, c - 1 - i);
      ContinuesIs(crc, mem, newest, s, c - 1 - i);
    }
    if c < CAPACITY {
      ChainStops(crc, mem, newest, s, CAPACITY);
      ContinuesIs(crc, mem, newest, s, c);
      RunEnds(crc, mem, newest, c);
    }
    RunIsNumbered(run, s);
  }

  lemma RunIs(crc: Checksum, mem: Memory, newest: nat, c: nat)
    requires newest < CAPACITY && IsValid(crc, mem[newest]) && NewestUpTo(crc, mem, CAPACITY) == Some(newest)
    requires c == Chain(crc, mem, newest, SequenceOf(mem[newest]), CAPACITY)
    ensures c >= 1 && NextNonZero(SequenceOf(mem[newest])) != 0
    ensures var head := At(newest, 1);
            var tail := At(head, CAPACITY - c);
            && Recovered(crc, mem) == Ring(head, tail, c, NextNonZero(SequenceOf(mem[newest])))
            && |NewestRun(crc, mem)| == c
            && forall i :: 0 <= i < c ==> NewestRun(crc, mem)[i] == mem[At(tail, i)]
  {
    hide IsValid, SequenceOf, NewestUpTo, At;
  }

  lemma ContinuesIs(crc: Checksum, mem: Memory, index: nat, expected: u32, i: nat)
    requires index < CAPACITY && expected != 0 && i <= CAPACITY
    ensures var slot := mem[At(index, CAPACITY - i)];
            Continues(crc, mem, index, expected, i)
            <==> IsValid(crc, slot) && SequenceOf(slot) == SequenceMinus(expected, i)
  {
  }

  lemma PlacesInRun(newest: nat, c: nat)
    requires newest < CAPACITY && 1 <= c <= CAPACITY
    ensures var head := At(newest, 1);
            var tail := At(head, CAPACITY - c);
            && head == At(tail, c)
            && (forall i :: 0 <= i < c ==> At(tail, i) == At(newest, CAPACITY - (c - 1 - i)))
            && At(tail, CAPACITY - 1) == At(newest, CAPACITY - c)
  {
  }

  /** Where the walk has stopped there is no record: an aligned one would have continued the run. */
  lemma RunEnds(crc: Checksum, mem: Memory, newest: nat, c: nat)
    requires newest < CAPACITY && SequenceOf(mem[newest]) != 0 && 1 <= c < CAPACITY
    requires Aligned(crc, mem, At(newest, 1), NextNonZero(SequenceOf(mem[newest])))
    requires !IsValid(crc, mem[At(newest, CAPACITY - c)])
             || SequenceOf(mem[At(newest, CAPACITY - c)]) != SequenceMinus(SequenceOf(mem[newest]), c)
    ensures !IsValid(crc, mem[At(newest, CAPACITY - c)])
  {
    hide IsValid, SequenceOf;
    assert Age(At(newest, 1), At(newest, CAPACITY - c)) == CAPACITY - 1 - c;
  }

  lemma RunIsNumbered(run: seq<Slot>, s: u32)
    requires 1 <= |run| <= CAPACITY && s != 0
    requires forall i :: 0 <= i < |run| ==> SequenceOf(run[i]) == SequenceMinus(s, |run| - 1 - i)
    ensures Numbered(run, NextNonZero(s))
  {
    hide SequenceOf;
  }

  /**
   * A cut between any two stores of a clear: recovery finds the newest unbroken run of what is left,
   * and what it builds is recoverable again.
   */
  lemma ClearCutIsRecovered(crc: Checksum, mem: Memory, ring: Ring, log: seq<Slot>, n: nat)
    requires Holds(crc, mem, ring, log) && n <= ALL_WORDS
    ensures var cut := ClearedAfter(mem, n);
            && Holds(crc, RecoveredMemory(crc, cut), Recovered(crc, cut), NewestRun(crc, cut))
            && (n == 0 ==> NewestRun(crc, cut) == log)
            && (n == ALL_WORDS ==> NewestRun(crc, cut) == [])
  {
    hide Holds, Aligned, IsValid, Recovered, RecoveredMemory, ClearedAfter;
    var cut := ClearedAfter(mem, n);
    HeldRing(crc, mem, ring, log);
    ClearedIsAligned(crc, mem, ring.head, ring.next, n);
    AlignedRecovers(crc, cut, ring.head, ring.next);
    if n == 0 {
      NothingCleared(mem);
      RecoveryRebuilds(crc, mem, ring, log);
      HeldIsRead(crc, mem, ring, log);
    } else if n == ALL_WORDS {
      forall k | 0 <= k < CAPACITY
        ensures !IsValid(crc, cut[k])
      {
        ClearedSlot(crc, mem, n, k);
      }
      NothingFound(crc, cut);
    }
  }

  /** What recovery finds lies in the memory and is valid. */
  lemma RunIsLeft(crc: Checksum, mem: Memory, run: seq<Slot>, i: nat)
    requires Holds(crc, RecoveredMemory(crc, mem), Recovered(crc, mem), run) && i < |run|
    ensures IsValid(crc, run[i]) && exists k :: 0 <= k < CAPACITY && mem[k] == run[i]
  {
    hide IsValid, Aligned, Numbered, Recovered;
    if NewestUpTo(crc, mem, CAPACITY) == None {
      UndisturbedByClearing(crc, Recovered(crc, mem), run);
    }
    hide NewestUpTo;
    var k := At(Recovered(crc, mem).tail, i);
    assert RecoveredMemory(crc, mem)[k] == run[i];
  }

  lemma UndisturbedByClearing(crc: Checksum, ring: Ring, run: seq<Slot>)
    requires Holds(crc, seq<Slot>(CAPACITY, i => EMPTY_SLOT), ring, run)
    ensures run == []
  {
    assert !IsValid(crc, EMPTY_SLOT);
  }

  /** One more word store. */
  lemma OneMoreCleared(mem: Memory, n: nat)
    requires n < ALL_WORDS
    ensures var now, k, w := ClearedAfter(mem, n), n / SLOT_WORDS, n % SLOT_WORDS;
            ClearedAfter(mem, n + 1) == now[k := now[k][w := 0]]
  {
    var now, k, w := ClearedAfter(mem, n), n / SLOT_WORDS, n % SLOT_WORDS;
    assert now[k] == SlotCleared(mem[k], w);
    if w + 1 < SLOT_WORDS {
      assert (n + 1) / SLOT_WORDS == k && (n + 1) % SLOT_WORDS == w + 1;
      assert SlotCleared(mem[k], w)[w := 0] == SlotCleared(mem[k], w + 1);
    } else {
      assert (n + 1) / SLOT_WORDS == k + 1 && (n + 1) % SLOT_WORDS == 0;
      assert SlotCleared(mem[k], w)[w := 0] == EMPTY_SLOT;
      if k + 1 < CAPACITY {
        assert SlotCleared(mem[k + 1], 0) == mem[k + 1];
      }
    }
  }

  lemma AllCleared(mem: Memory)
    ensures ClearedAfter(mem, ALL_WORDS) == seq<Slot>(CAPACITY, i => EMPTY_SLOT)
  {
  }

  lemma NothingCleared(mem: Memory)
    ensures ClearedAfter(mem, 0) == mem
  {
    assert SlotCleared(mem[0], 0) == mem[0];
  }

  lemma HeldIsRead(crc: Checksum, mem: Memory, ring: Ring, log: seq<Slot>)
    requires Holds(crc, mem, ring, log) && Recovered(crc, mem) == ring
    ensures NewestRun(crc, mem) == log
  {
    hide IsValid, Aligned, Numbered, Recovered;
  }

  lemma NothingFound(crc: Checksum, mem: Memory)
    requires forall k :: 0 <= k < CAPACITY ==> !IsValid(crc, mem[k])
    ensures NewestRun(crc, mem) == []
  {
    hide IsValid, Chain;
    NothingScanned(crc, mem, CAPACITY);
  }

  lemma {:induction false} NothingScanned(crc: Checksum, mem: Memory, n: nat)
    requires n <= CAPACITY && forall k :: 0 <= k < CAPACITY ==> !IsValid(crc, mem[k])
    ensures NewestUpTo(crc, mem, n) == None
  {
    hide IsValid;
    if n > 0 {
      NothingScanned(crc, mem, n - 1);
    }
  }

  // ---------------------------------------------------------------- intact records

  /** The record is complete and its checksum is right. */
  predicate Intact(crc: Checksum, slot: Slot) {
    && slot[0] == 0x4C4F_4731 && slot[7] / 0x1_0000 == 0xA55A
    && slot[7] % 0x1_0000 == crc([slot[0], slot[1], slot[2], slot[3], slot[4], slot[5], slot[6]])
  }

  lemma ValidIsIntact(crc: Checksum, slot: Slot)
    ensures IsValid(crc, slot) <==> Intact(crc, slot)
  {
    assert slot[..7] == [slot[0], slot[1], slot[2], slot[3], slot[4], slot[5], slot[6]];
  }

  /** From any memory whatever, with whatever in it, recovery takes up intact records only. */
  lemma RecoveredAreIntact(crc: Checksum, mem: Memory, i: nat)
    requires i < |NewestRun(crc, mem)|
    ensures Intact(crc, NewestRun(crc, mem)[i]) && NewestRun(crc, mem)[i] in mem
  {
    hide IsValid, SequenceOf, NewestUpTo;
    RecoveredRange(crc, mem);
    var newest := NewestUpTo(crc, mem, CAPACITY);
    if newest.Some? {
      var c := Chain(crc, mem, newest.value, SequenceOf(mem[newest.value]), CAPACITY);
      ChainIsValid(crc, mem, newest.value, SequenceOf(mem[newest.value]), CAPACITY, c - 1 - i);
      PlacesInRun(newest.value, c);
      hide At, Chain;
      ValidIsIntact(crc, NewestRun(crc, mem)[i]);
    }
  }

  lemma {:induction false} ChainIsValid(crc: Checksum, mem: Memory, index: nat, expected: u32, limit: nat, i: nat)
    requires index < CAPACITY && limit <= CAPACITY && i < Chain(crc, mem, index, expected, limit)
    ensures IsValid(crc, mem[At(index, CAPACITY - i)])
    decreases i
  {
    hide IsValid, SequenceOf;
    if i > 0 {
      ChainIsValid(crc, mem, At(index, CAPACITY - 1), PreviousSequence(expected), limit - 1, i - 1);
    }
  }

  /** A record of which any word has changed, as far as the checksum shows it, is never taken up again. */
  lemma CorruptedIsDropped(crc: Checksum, mem: Memory, k: nat, was: Slot)
    requires k < CAPACITY && Intact(crc, was) && mem[k][7] == was[7]
    requires crc(mem[k][..7]) != crc(was[..7])
    ensures mem[k] !in NewestRun(crc, mem)
  {
    hide NewestRun;
    ValidIsIntact(crc, mem[k]);
    ValidIsIntact(crc, was);
    if mem[k] in NewestRun(crc, mem) {
      var i :| 0 <= i < |NewestRun(crc, mem)| && NewestRun(crc, mem)[i] == mem[k];
      RecoveredAreIntact(crc, mem, i);
    }
  }

  // ---------------------------------------------------------------- entries

  datatype Entry = Entry(uptime: u32, rtc: u32, code: u16, source: u8, severity: u8,
                         data0: u32, data1: u32)

  function Stamped(crc: Checksum, e: Entry, sequence: u32): (r: Slot)
    ensures IsValid(crc, r) && SequenceOf(r) == sequence
  {
    MakeRecord(crc, sequence, e.uptime, e.rtc, e.code, e.source, e.severity, e.data0, e.data1)
  }
}
