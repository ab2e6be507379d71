/**
 * A power cut inside a clear: when what recovery finds is a part of the log, and when records come
 * back that the log had lost.
 */
module EventLogClear {
  import opened Machine
  import opened EventLog

  predicate IsSliceAt(run: seq<Slot>, log: seq<Slot>, b: nat) {
    b + |run| <= |log| && run == log[b..b + |run|]
  }

  /** The run is a contiguous part of the log. */
  predicate IsSlice(run: seq<Slot>, log: seq<Slot>) {
    exists b :: 0 <= b <= |log| && IsSliceAt(run, log, b)
  }

  /** Every record that the log has lost lies before one that it still has. */
  predicate LostLieFirst(crc: Checksum, mem: Memory, log: seq<Slot>) {
    forall k :: 0 <= k < CAPACITY && IsValid(crc, mem[k]) && mem[k] !in log ==>
      exists j :: k < j < CAPACITY && IsValid(crc, mem[j]) && mem[j] in log
  }

  /** However a clear is cut, a part of the log is left: exactly if no lost record lies behind it. */
  lemma ClearCutsAreParts(crc: Checksum, mem: Memory, ring: Ring, log: seq<Slot>)
    requires Holds(crc, mem, ring, log)
    ensures (forall n :: 0 <= n <= ALL_WORDS ==> IsSlice(NewestRun(crc, ClearedAfter(mem, n)), log))
            <==> LostLieFirst(crc, mem, log)
  {
    hide Holds, NewestRun, ClearedAfter, LostLieFirst, IsSlice;
    if LostLieFirst(crc, mem, log) {
      forall n | 0 <= n <= ALL_WORDS
        ensures IsSlice(NewestRun(crc, ClearedAfter(mem, n)), log)
      {
        CutIsPart(crc, mem, ring, log, n);
      }
    } else {
      var k := LostAtTheEnd(crc, mem, log);
      LostRecordReturns(crc, mem, ring, log, k);
    }
  }

  lemma LostAtTheEnd(crc: Checksum, mem: Memory, log: seq<Slot>) returns (k: nat)
    requires !LostLieFirst(crc, mem, log)
    ensures k < CAPACITY && IsValid(crc, mem[k]) && mem[k] !in log
    ensures forall j :: k < j < CAPACITY && IsValid(crc, mem[j]) ==> mem[j] !in log
  {
    hide IsValid;
    k :| 0 <= k < CAPACITY && IsValid(crc, mem[k]) && mem[k] !in log
         && forall j :: k < j < CAPACITY && IsValid(crc, mem[j]) ==> mem[j] !in log;
  }

  // ---------------------------------------------------------------- whole slots

  /** Up to a slot boundary whole slots are gone, the others as they were. */
  lemma SlotsCleared(crc: Checksum, mem: Memory, k: nat)
    requires k < CAPACITY
    ensures SLOT_WORDS * k <= ALL_WORDS && !IsValid(crc, EMPTY_SLOT)
    ensures forall j :: 0 <= j < CAPACITY ==>
              ClearedAfter(mem, SLOT_WORDS * k)[j] == if j < k then EMPTY_SLOT else mem[j]
  {
    assert SLOT_WORDS * k / SLOT_WORDS == k && SLOT_WORDS * k % SLOT_WORDS == 0;
    assert SlotCleared(mem[k], 0) == mem[k];
  }

  /** What survives the cut is as it was, and so is everything behind it. */
  lemma SurvivorsAreLast(crc: Checksum, mem: Memory, n: nat, k: nat, j: nat)
    requires n <= ALL_WORDS && k < j < CAPACITY && IsValid(crc, ClearedAfter(mem, n)[k])
    ensures ClearedAfter(mem, n)[j] == mem[j]
  {
  }

  // ---------------------------------------------------------------- a lost record behind the log

  /** Clear just the slots before it, and it is among what is left. */
  lemma LostRecordReturns(crc: Checksum, mem: Memory, ring: Ring, log: seq<Slot>, k: nat)
    requires Holds(crc, mem, ring, log) && k < CAPACITY && IsValid(crc, mem[k]) && mem[k] !in log
    requires forall j :: k < j < CAPACITY && IsValid(crc, mem[j]) ==> mem[j] !in log
    ensures SLOT_WORDS * k <= ALL_WORDS
    ensures !IsSlice(NewestRun(crc, ClearedAfter(mem, SLOT_WORDS * k)), log)
  {
    hide Holds, IsValid, NewestRun, ClearedAfter, Recovered, RecoveredMemory;
    SlotsCleared(crc, mem, k);
    var cut := ClearedAfter(mem, SLOT_WORDS * k);
    var run := NewestRun(crc, cut);
    ClearCutIsRecovered(crc, mem, ring, log, SLOT_WORDS * k);
    assert cut[k] == mem[k];
    SomethingFound(crc, cut, k);
    RunIsLeft(crc, cut, run, 0);
    var m :| 0 <= m < CAPACITY && cut[m] == run[0];
    assert m >= k && mem[m] == run[0];
  }

  lemma SomethingFound(crc: Checksum, mem: Memory, k: nat)
    requires k < CAPACITY && IsValid(crc, mem[k])
    requires Holds(crc, RecoveredMemory(crc, mem), Recovered(crc, mem), NewestRun(crc, mem))
    ensures NewestRun(crc, mem) != []
  {
    hide IsValid, Aligned, Numbered, Recovered, NewestUpTo, NewestRun;
    FoundUpTo(crc, mem, k, CAPACITY);
  }

  lemma {:induction false} FoundUpTo(crc: Checksum, mem: Memory, k: nat, n: nat)
    requires k < n <= CAPACITY && IsValid(crc, mem[k])
    ensures NewestUpTo(crc, mem, n).Some?
  {
    hide IsValid, Newer;
    if k < n - 1 {
      FoundUpTo(crc, mem, k, n - 1);
    }
  }

  // ---------------------------------------------------------------- the log is left last

  /** A record of the log lies in the ring, and what lies in the ring is of the log. */
  lemma LogIsInRing(crc: Checksum, mem: Memory, ring: Ring, log: seq<Slot>, k: nat)
    requires Holds(crc, mem, ring, log) && k < CAPACITY && IsValid(crc, mem[k])
    ensures ring.head < CAPACITY && |log| <= CAPACITY
    ensures mem[k] in log <==> Age(ring.head, k) >= CAPACITY - |log|
    ensures mem[k] in log ==> mem[k] == log[Age(ring.head, k) - (CAPACITY - |log|)]
  {
    hide IsValid, SequenceOf, Numbered, Aligned;
    HeldRing(crc, mem, ring, log);
    var a := Age(ring.head, k);
    if a >= CAPACITY - |log| {
      assert k == At(ring.tail, a - (CAPACITY - |log|));
    }
    if mem[k] in log {
      var i :| 0 <= i < |log| && log[i] == mem[k];
      SamePlace(crc, mem, ring.head, ring.next, k, At(ring.tail, i));
    }
  }

  /** Aligned records of the same number lie in the same place. */
  lemma SamePlace(crc: Checksum, mem: Memory, head: nat, next: u32, k: nat, j: nat)
    requires head < CAPACITY && next != 0 && Aligned(crc, mem, head, next)
    requires k < CAPACITY && j < CAPACITY && IsValid(crc, mem[k]) && mem[j] == mem[k]
    ensures j == k
  {
    hide IsValid, SequenceOf, SequencePlus, SequenceMinus;
    SequenceOrder(SequenceMinus(next, CAPACITY), Age(head, k), Age(head, j));
  }

  lemma CutIsPart(crc: Checksum, mem: Memory, ring: Ring, log: seq<Slot>, n: nat)
    requires Holds(crc, mem, ring, log) && n <= ALL_WORDS && LostLieFirst(crc, mem, log)
    ensures IsSlice(NewestRun(crc, ClearedAfter(mem, n)), log)
  {
    hide Holds, IsValid, Aligned, NewestRun, ClearedAfter, NewestUpTo, Age, LostLieFirst;
    var cut := ClearedAfter(mem, n);
    var run := NewestRun(crc, cut);
    HeldRing(crc, mem, ring, log);
    ClearedIsAligned(crc, mem, ring.head, ring.next, n);
    ScanFindsYoungest(crc, cut, ring.head, ring.next, CAPACITY);
    match NewestUpTo(crc, cut, CAPACITY) {
      case None =>
        NothingFound(crc, cut);
        assert IsSliceAt(run, log, 0);
      case Some(best) =>
        YoungestIsInRing(crc, mem, ring, log, n, best);
        RunIsPart(crc, mem, ring, log, n, best);
    }
  }

  /** The youngest that survives belongs to the log, because some record of the log survives. */
  lemma YoungestIsInRing(crc: Checksum, mem: Memory, ring: Ring, log: seq<Slot>, n: nat, best: nat)
    requires Holds(crc, mem, ring, log) && n <= ALL_WORDS && LostLieFirst(crc, mem, log)
    requires ring.head < CAPACITY && best < CAPACITY && IsValid(crc, ClearedAfter(mem, n)[best])
    requires forall k :: 0 <= k < CAPACITY && IsValid(crc, ClearedAfter(mem, n)[k]) ==>
                           Age(ring.head, k) <= Age(ring.head, best)
    ensures Age(ring.head, best) >= CAPACITY - |log|
  {
    hide Holds, IsValid, ClearedAfter, Age;
    ClearedSlot(crc, mem, n, best);
    LogIsInRing(crc, mem, ring, log, best);
    if mem[best] !in log {
      var j :| best < j < CAPACITY && IsValid(crc, mem[j]) && mem[j] in log;
      SurvivorsAreLast(crc, mem, n, best, j);
      LogIsInRing(crc, mem, ring, log, j);
    }
  }

  lemma RunIsPart(crc: Checksum, mem: Memory, ring: Ring, log: seq<Slot>, n: nat, best: nat)
    requires Holds(crc, mem, ring, log) && n <= ALL_WORDS && ring.head < CAPACITY && ring.next != 0
    requires NewestUpTo(crc, ClearedAfter(mem, n), CAPACITY) == Some(best)
    requires Aligned(crc, ClearedAfter(mem, n), ring.head, ring.next)
    requires IsValid(crc, ClearedAfter(mem, n)[best])
    requires forall k :: 0 <= k < CAPACITY && IsValid(crc, ClearedAfter(mem, n)[k]) ==>
                           Age(ring.head, k) <= Age(ring.head, best)
    requires Age(ring.head, best) >= CAPACITY - |log|
    ensures IsSlice(NewestRun(crc, ClearedAfter(mem, n)), log)
  {
    hide Holds, IsValid, Aligned, NewestRun, ClearedAfter, NewestUpTo, Age;
    var cut := ClearedAfter(mem, n);
    var run := NewestRun(crc, cut);
    RunPlaces(crc, cut, ring.head, ring.next, best);
    WithinLog(crc, mem, ring, log, n, best, run, 0);
    var b := Age(ring.head, best) - (CAPACITY - |log|) - (|run| - 1);
    forall i | 0 <= i < |run|
      ensures run[i] == log[b + i]
    {
      WithinLog(crc, mem, ring, log, n, best, run, i);
    }
    assert IsSliceAt(run, log, b);
  }

  /** The run ends in the youngest place and reaches back from it, place by place. */
  predicate ReachesBack(crc: Checksum, mem: Memory, best: nat, run: seq<Slot>)
    requires best < CAPACITY
  {
    && 1 <= |run| <= CAPACITY
    && forall i :: 0 <= i < |run| ==>
         run[i] == mem[At(best, CAPACITY - (|run| - 1 - i))] && IsValid(crc, run[i])
  }

  lemma RunPlaces(crc: Checksum, mem: Memory, head: nat, next: u32, best: nat)
    requires head < CAPACITY && next != 0 && Aligned(crc, mem, head, next)
    requires NewestUpTo(crc, mem, CAPACITY) == Some(best) && IsValid(crc, mem[best])
    ensures ReachesBack(crc, mem, best, NewestRun(crc, mem))
  {
    hide IsValid, Aligned, NewestUpTo, NewestRun, Recovered, Age, SequenceOf, SequencePlus, SequenceMinus,
         Chain, Continues, At;
    var run := NewestRun(crc, mem);
    var s := SequenceOf(mem[best]);
    var c := Chain(crc, mem, best, s, CAPACITY);
    NumberIsNotZero(crc, mem, head, next, best);
    RunIs(crc, mem, best, c);
    PlacesInRun(best, c);
    forall i | 0 <= i < c
      ensures run[i] == mem[At(best, CAPACITY - (c - 1 - i))] && IsValid(crc, run[i])
    {
      ChainContinues(crc, mem, best, s, CAPACITY, c - 1 - i);
      ContinuesIs(crc, mem, best, s, c - 1 - i);
    }
  }

  lemma NumberIsNotZero(crc: Checksum, mem: Memory, head: nat, next: u32, k: nat)
    requires head < CAPACITY && next != 0 && Aligned(crc, mem, head, next)
    requires k < CAPACITY && IsValid(crc, mem[k])
    ensures SequenceOf(mem[k]) != 0
  {
    hide IsValid, SequenceOf;
  }

  /** Going back from a record of the log, the run stays in the log: before its oldest there is a gap. */
  lemma {:induction false} WithinLog(crc: Checksum, mem: Memory, ring: Ring, log: seq<Slot>, n: nat, best: nat,
                                     run: seq<Slot>, i: nat)
    requires Holds(crc, mem, ring, log) && n <= ALL_WORDS && ring.head < CAPACITY && best < CAPACITY
    requires forall k :: 0 <= k < CAPACITY && IsValid(crc, ClearedAfter(mem, n)[k]) ==>
                           Age(ring.head, k) <= Age(ring.head, best)
    requires Age(ring.head, best) >= CAPACITY - |log|
    requires ReachesBack(crc, ClearedAfter(mem, n), best, run) && i < |run|
    ensures var first := Age(ring.head, best) - (CAPACITY - |log|) - (|run| - 1);
            0 <= first + i < |log| && run[i] == log[first + i]
    decreases |run| - i
  {
    hide Holds, IsValid, ClearedAfter, Age, At;
    var d := |run| - 1 - i;
    var cut, k := ClearedAfter(mem, n), At(best, CAPACITY - d);
    if d > 0 {
      WithinLog(crc, mem, ring, log, n, best, run, i + 1);
      BeforeOldest(crc, mem, ring, log);
    }
    assert run[i] == cut[k] && IsValid(crc, cut[k]);
    ClearedSlot(crc, mem, n, k);
    AgeBack(ring.head, best, d);
    LogIsInRing(crc, mem, ring, log, k);
  }

  lemma BeforeOldest(crc: Checksum, mem: Memory, ring: Ring, log: seq<Slot>)
    requires Holds(crc, mem, ring, log)
    ensures ring.head < CAPACITY && |log| <= CAPACITY
    ensures forall k :: 0 <= k < CAPACITY && log != [] && Age(ring.head, k) == CAPACITY - 1 - |log| ==>
                          !IsValid(crc, mem[k])
  {
    hide IsValid, Aligned, Numbered;
    if 0 < |log| < CAPACITY {
      assert Age(ring.head, At(ring.tail, CAPACITY - 1)) == CAPACITY - 1 - |log|;
    }
  }

  lemma AgeBack(head: nat, best: nat, d: nat)
    requires head < CAPACITY && best < CAPACITY && d <= CAPACITY
    ensures Age(head, At(best, CAPACITY - d)) ==
            if d <= Age(head, best) then Age(head, best) - d else Age(head, best) + CAPACITY - d
  {
  }

  // ---------------------------------------------------------------- two cuts in a row

  /**
   * In a full ring whose newest record lies neither first nor last, a clear cut just before it leaves
   * that record alone, and a second one, cut before the last slot, brings back an older record that
   * the log no longer had.
   */
  lemma InterruptedClearsBringBack(crc: Checksum, mem: Memory, ring: Ring, log: seq<Slot>)
    requires Holds(crc, mem, ring, log) && |log| == CAPACITY && ring.head >= 2
    ensures ring.head < CAPACITY
    ensures var once := ClearedAfter(mem, SLOT_WORDS * (ring.head - 1));
            var twice := ClearedAfter(once, SLOT_WORDS * (CAPACITY - 1));
            && NewestRun(crc, once) == [log[CAPACITY - 1]] && RecoveredMemory(crc, once) == once
            && NewestRun(crc, twice) == [log[CAPACITY - 1 - ring.head]]
            && !IsSlice(NewestRun(crc, twice), NewestRun(crc, once))
  {
    hide Holds, IsValid, NewestRun, RecoveredMemory, ClearedAfter, IsSlice, Age;
    FullRing(crc, mem, ring, log);
    var newest, last := ring.head - 1, CAPACITY - 1;
    var once := ClearedAfter(mem, SLOT_WORDS * newest);
    var twice := ClearedAfter(once, SLOT_WORDS * last);
    SlotsCleared(crc, mem, newest);
    SlotsCleared(crc, once, last);
    ClearedIsAligned(crc, mem, ring.head, ring.next, SLOT_WORDS * newest);
    ClearedIsAligned(crc, once, ring.head, ring.next, SLOT_WORDS * last);
    assert At(newest, CAPACITY - 1) == newest - 1 && At(last, CAPACITY - 1) == last - 1;
    YoungestAlone(crc, once, ring.head, ring.next, newest);
    YoungestAlone(crc, twice, ring.head, ring.next, last);
    NotASlice(log[last - ring.head], log[last]);
  }

  lemma FullRing(crc: Checksum, mem: Memory, ring: Ring, log: seq<Slot>)
    requires Holds(crc, mem, ring, log) && |log| == CAPACITY && ring.head >= 2
    ensures ring.head < CAPACITY && ring.next != 0 && Aligned(crc, mem, ring.head, ring.next)
    ensures forall k :: 0 <= k < CAPACITY ==> IsValid(crc, mem[k])
    ensures mem[ring.head - 1] == log[CAPACITY - 1] && mem[CAPACITY - 1] == log[CAPACITY - 1 - ring.head]
    ensures log[CAPACITY - 1 - ring.head] != log[CAPACITY - 1]
    ensures forall k :: 0 <= k < CAPACITY ==> Age(ring.head, k) <= Age(ring.head, ring.head - 1)
  {
    hide IsValid, SequenceOf, Aligned;
    forall k | 0 <= k < CAPACITY
      ensures IsValid(crc, mem[k])
    {
      assert At(ring.tail, Age(ring.tail, k)) == k;
    }
    assert At(ring.tail, CAPACITY - 1) == ring.head - 1;
    assert At(ring.tail, CAPACITY - 1 - ring.head) == CAPACITY - 1;
    SequenceOrder(SequenceOf(log[0]), CAPACITY - 1 - ring.head, CAPACITY - 1);
  }

  lemma NotASlice(a: Slot, b: Slot)
    requires a != b
    ensures !IsSlice([a], [b])
  {
    assert [b][0] == b;
  }

  /** The youngest record with nothing before it is all that recovery finds. */
  lemma YoungestAlone(crc: Checksum, mem: Memory, head: nat, next: u32, newest: nat)
    requires head < CAPACITY && next != 0 && Aligned(crc, mem, head, next)
    requires newest < CAPACITY && IsValid(crc, mem[newest]) && !IsValid(crc, mem[At(newest, CAPACITY - 1)])
    requires forall k :: 0 <= k < CAPACITY && IsValid(crc, mem[k]) ==> Age(head, k) <= Age(head, newest)
    ensures NewestRun(crc, mem) == [mem[newest]] && RecoveredMemory(crc, mem) == mem
  {
    hide IsValid, Aligned, NewestRun, NewestUpTo, Age, At;
    ScanFindsYoungest(crc, mem, head, next, CAPACITY);
    assert NewestUpTo(crc, mem, CAPACITY) == Some(newest) by {
      var best := NewestUpTo(crc, mem, CAPACITY).value;
      assert Age(head, best) == Age(head, newest);
      SameAge(head, best, newest);
    }
    RunPlaces(crc, mem, head, next, newest);
    var run := NewestRun(crc, mem);
    SameAge(head, newest, newest);
    assert run[|run| - 1] == mem[newest];
    if |run| > 1 {
      PlaceBefore(crc, mem, newest, run);
    }
  }

  lemma PlaceBefore(crc: Checksum, mem: Memory, best: nat, run: seq<Slot>)
    requires best < CAPACITY && ReachesBack(crc, mem, best, run) && |run| > 1
    ensures IsValid(crc, mem[At(best, CAPACITY - 1)])
  {
    hide IsValid, At;
    assert IsValid(crc, run[|run| - 2]);
  }

  lemma SameAge(head: nat, k: nat, j: nat)
    requires head < CAPACITY && k < CAPACITY && j < CAPACITY && Age(head, k) == Age(head, j)
    ensures k == j && At(k, CAPACITY) == k
  {
  }
}
