/**
 * Recovery from CAN bus-off: a main-loop state machine over counters that an interrupt may
 * increment between any two reads. Ghost fields hold the true, unbounded counterparts of the
 * 32-bit counters and ticks.
 */
module BusOffRecovery {
  import opened Machine

  const RETRY_INTERVAL_MS := 200

  datatype Phase = StopPhase | StartPhase | NotifyPhase

  /** A call to the controller driver and whether it succeeded. */
  datatype HalCall = Stop(ok: bool) | Start(ok: bool) | Notify(ok: bool)

  /** What was seen when a recovery was declared successful, and when it had been re-enabled. */
  datatype Success = Success(enabledTx: nat, seenTx: nat, enabledBusOff: nat, seenBusOff: nat)

  // ---------------------------------------------------------------- driver calls

  /** Each call belongs to its phase; a success moves on, notification closes the cycle. */
  function PhaseAfter(calls: seq<HalCall>): Phase {
    if calls == [] then StopPhase
    else
      match calls[|calls| - 1]
      case Stop(ok) => if ok then StartPhase else StopPhase
      case Start(ok) => if ok then NotifyPhase else StartPhase
      case Notify(ok) => if ok then StopPhase else NotifyPhase
  }

  function PhaseOf(call: HalCall): Phase {
    match call
    case Stop(_) => StopPhase
    case Start(_) => StartPhase
    case Notify(_) => NotifyPhase
  }

  predicate InPhase(calls: seq<HalCall>) {
    forall i :: 0 <= i < |calls| ==> PhaseOf(calls[i]) == PhaseAfter(calls[..i])
  }

  /** The controller is started only after a successful stop of the same cycle. */
  lemma {:induction false} StartFollowsStop(calls: seq<HalCall>, i: nat) returns (j: nat)
    requires InPhase(calls) && i < |calls| && !calls[i].Stop?
    ensures j < i && calls[j] == Stop(true)
    ensures forall k :: j < k < i ==> !calls[k].Stop? && calls[k] != Notify(true)
  {
    assert PhaseOf(calls[i]) == PhaseAfter(calls[..i]);
    assert i > 0 && calls[..i][i - 1] == calls[i - 1];
    if calls[i - 1].Stop? {
      j := i - 1;
    } else {
      j := StartFollowsStop(calls, i - 1);
    }
  }

  /** Attempts are at least the retry interval apart. */
  predicate Spaced(attempts: seq<nat>) {
    forall i :: 0 < i < |attempts| ==> attempts[i - 1] + 200 <= attempts[i]
  }

  /** A frame got through after the re-enable, and the bus-off count was the one recovered from. */
  predicate Confirmed(s: Success) {
    && s.enabledTx < s.seenTx
    && s.enabledBusOff <= s.seenBusOff && Wrap32(s.enabledBusOff) == Wrap32(s.seenBusOff)
  }

  /** Unless 2^32 bus-offs have passed unseen, there was none. */
  lemma NoBusOffSince(s: Success)
    requires Confirmed(s) && s.seenBusOff < s.enabledBusOff + TWO_32
    ensures s.seenBusOff == s.enabledBusOff
  {
    SubIsDistance(s.seenBusOff, s.enabledBusOff);
  }

  // ---------------------------------------------------------------- event bookkeeping

  /** The events of one kind accounted for so far: in a log record, or suppressed. */
  datatype Book = Book(logged: u32, records: u32, suppressed: u32)

  /** One record and the rest suppressed, or inside a fault episode all suppressed. */
  function Booked(b: Book, snapshot: u32, episode: bool): (r: Book) {
    var news := Sub32(snapshot, b.logged);
    if episode then Book(snapshot, b.records, Add32(b.suppressed, news))
    else Book(snapshot, Add32(b.records, 1), if news > 1 then Add32(b.suppressed, news - 1) else b.suppressed)
  }

  /** Records and suppressed events together exceed the events accounted for by `drift`. */
  predicate Accounted(b: Book, drift: nat) {
    Add32(b.records, b.suppressed) == Add32(b.logged, Wrap32(drift))
  }

  /** Booking keeps the account exactly if it is not, outside an episode, the value already booked. */
  lemma BookingBalances(b: Book, snapshot: u32, episode: bool)
    requires Accounted(b, 0)
    ensures Accounted(Booked(b, snapshot, episode), 0) <==> snapshot != b.logged || episode
  {
  }

  /**
   * One record too many: the first read, after `n` events, differs from what has been booked, which
   * opens the branch; the second comes when the counter has gone round to exactly that.
   */
  lemma LappedCounterIsMisbooked(b: Book, n: nat) returns (later: nat)
    requires Accounted(b, 0) && Wrap32(n) != b.logged
    ensures n < later < n + TWO_32 && Wrap32(later) == b.logged
    ensures Booked(b, Wrap32(later), false) == b.(records := Add32(b.records, 1))
    ensures !Accounted(Booked(b, Wrap32(later), false), 0)
  {
    later := n + Sub32(b.logged, Wrap32(n));
    AddIsWrapped(n, Sub32(b.logged, Wrap32(n)));
    hide Wrap32;
    BookingBalances(b, b.logged, false);
  }

  /** Of `m` new events the first is recorded, unless an episode is on; all others are suppressed. */
  lemma BookedCounts(b: Book, n: nat, m: nat, episode: bool)
    requires b.logged == Wrap32(n) && 0 < m < TWO_32
    ensures Booked(b, Wrap32(n + m), episode)
            == Book(Wrap32(n + m), if episode then b.records else Add32(b.records, 1),
                    Add32(b.suppressed, if episode then m else m - 1))
  {
    SubIsDistance(n + m, n);
  }

  /** In general each lapped snapshot adds one record too many, and nothing else goes wrong. */
  lemma BookingDrifts(b: Book, snapshot: u32, episode: bool, drift: nat)
    requires Accounted(b, drift)
    ensures Accounted(Booked(b, snapshot, episode),
                      drift + if snapshot == b.logged && !episode then 1 else 0)
  {
    hide Wrap32;
    AddIsWrapped(drift, 1);
  }

  lemma NothingAdded(x: u32)
    ensures Add32(x, 0) == x
  {
  }

  /** A register that reads `Wrap32(later)` has been incremented at least as often as it shows. */
  lemma AtLeastShown(later: nat, earlier: nat)
    requires earlier <= later
    ensures later >= earlier + Sub32(Wrap32(later), Wrap32(earlier))
  {
    if later < earlier + TWO_32 {
      SubIsDistance(later, earlier);
    }
  }

  // ---------------------------------------------------------------- state

  /** Incremented by the interrupts, and how often they really were. */
  datatype Counters = Counters(busOff: u32, passive: u32, tx: u32)
  datatype Events = Events(busOff: nat, passive: nat, tx: nat)

  datatype Verification = Verification(pending: bool, busOff: u32, tx: u32)
  datatype Stats = Stats(attempts: u32, successes: u32, failures: u32, verificationFailures: u32)

  /** The unbounded counterparts of the main loop's registers. */
  datatype Truth = Truth(handled: nat, scheduled: nat, verifyBusOff: nat, verifyTx: nat, due: nat)

  /** Driver calls, times of the attempts, successful recoveries, snapshots a full lap late. */
  datatype Past = Past(calls: seq<HalCall>, attempts: seq<nat>, successes: seq<Success>, laps: nat)

  predicate Shows(c: Counters, e: Events) {
    c.busOff == Wrap32(e.busOff) && c.passive == Wrap32(e.passive) && c.tx == Wrap32(e.tx)
  }

  predicate Holds(handled: u32, scheduled: u32, v: Verification, next: u32, t: Truth) {
    && handled == Wrap32(t.handled) && scheduled == Wrap32(t.scheduled) && next == Wrap32(t.due)
    && v.busOff == Wrap32(t.verifyBusOff) && v.tx == Wrap32(t.verifyTx)
  }

  /** Handled, scheduled and observed bus-offs, in that order. */
  predicate Ordered(t: Truth, e: Events, pending: bool) {
    && t.handled <= t.scheduled <= e.busOff
    && (pending ==> t.handled <= t.verifyBusOff <= t.scheduled && t.verifyTx <= e.tx)
  }

  predicate Paced(attempts: seq<nat>, due: nat, clock: nat) {
    && Spaced(attempts) && due <= clock + RETRY_INTERVAL_MS
    && (attempts != [] ==> attempts[|attempts| - 1] + RETRY_INTERVAL_MS <= due)
  }

  predicate AllConfirmed(successes: seq<Success>) {
    forall i :: 0 <= i < |successes| ==> Confirmed(successes[i])
  }

  class Recovery {
    // HAL_GetTick, not yet wrapped
    var clock: nat
    var isr: Counters
    var handled: u32
    var scheduled: u32
    var busOffBook: Book
    var passiveBook: Book
    var verification: Verification
    var nextAttempt: u32
    var episode: bool
    var phase: Phase
    var stats: Stats

    ghost var events: Events
    ghost var truth: Truth
    ghost var past: Past

    ghost predicate Sound()
      reads this
    {
      && Shows(isr, events)
      && Holds(handled, scheduled, verification, nextAttempt, truth)
      && Ordered(truth, events, verification.pending)
      && busOffBook.logged == scheduled && Accounted(busOffBook, 0) && Accounted(passiveBook, past.laps)
      && Paced(past.attempts, truth.due, clock)
      && InPhase(past.calls) && phase == PhaseAfter(past.calls)
      && AllConfirmed(past.successes)
    }

    constructor ()
      ensures Sound() && past == Past([], [], [], 0)
    {
      clock, isr, handled, scheduled := 0, Counters(0, 0, 0), 0, 0;
      busOffBook, passiveBook := Book(0, 0, 0), Book(0, 0, 0);
      verification, nextAttempt, episode := Verification(false, 0, 0), 0, false;
      phase, stats := StopPhase, Stats(0, 0, 0, 0);
      events, truth, past := Events(0, 0, 0), Truth(0, 0, 0, 0, 0), Past([], [], [], 0);
    }

    /** HAL_FDCAN_ErrorStatusCallback */
    method ErrorStatusInterrupt(passive: bool, off: bool)
      requires Sound()
      modifies this`isr, this`events
      ensures Sound()
      ensures events == Events(old(events.busOff) + if off then 1 else 0,
                               old(events.passive) + if passive then 1 else 0, old(events.tx))
    {
      hide InPhase, PhaseAfter, Paced, AllConfirmed, Accounted, Holds;
      AddIsWrapped(events.passive, 1);
      AddIsWrapped(events.busOff, 1);
      if passive {
        isr := isr.(passive := Add32(isr.passive, 1));
        events := events.(passive := events.passive + 1);
      }
      if off {
        isr := isr.(busOff := Add32(isr.busOff, 1));
        events := events.(busOff := events.busOff + 1);
      }
    }

    /** HAL_FDCAN_TxBufferCompleteCallback */
    method TxCompleteInterrupt()
      requires Sound()
      modifies this`isr, this`events
      ensures Sound() && events == old(events).(tx := old(events.tx) + 1)
    {
      hide InPhase, PhaseAfter, Paced, AllConfirmed, Accounted, Holds;
      AddIsWrapped(events.tx, 1);
      isr := isr.(tx := Add32(isr.tx, 1));
      events := events.(tx := events.tx + 1);
    }

    /** Any number of interrupts of any kind between two reads. */
    method Interrupts()
      requires Sound()
      modifies this`isr, this`events
      ensures Sound()
      ensures old(events.busOff) <= events.busOff && old(events.passive) <= events.passive
      ensures old(events.tx) <= events.tx
    {
      var passive, off, completed: bool;
      var more: int := *;
      while more > 0
        invariant Sound()
        invariant old(events.busOff) <= events.busOff && old(events.passive) <= events.passive
        invariant old(events.tx) <= events.tx
      {
        passive, off, completed := *, *, *;
        ErrorStatusInterrupt(passive, off);
        if completed {
          TxCompleteInterrupt();
        }
        more := more - 1;
      }
    }

    /** HAL_GetTick: time has passed. */
    method ReadTick() returns (now: u32)
      requires Sound()
      modifies this`clock
      ensures Sound() && now == Wrap32(clock) && old(clock) <= clock
    {
      hide Wrap32, InPhase, PhaseAfter, AllConfirmed, Accounted, Holds, Shows;
      var passed: int := *;
      if passed > 0 {
        clock := clock + passed;
      }
      now := Wrap32(clock);
    }

    /** Error-passive transitions. */
    method LogErrorPassive()
      requires Sound()
      modifies this`passiveBook, this`past, this`isr, this`events
      ensures Sound() && old(events.busOff) <= events.busOff
      ensures past == old(past).(laps := past.laps)
      ensures passiveBook == if old(isr.passive) == old(passiveBook.logged) then old(passiveBook)
                             else Booked(old(passiveBook), isr.passive, episode)
      ensures past.laps == old(past.laps)
              || (&& past.laps == old(past.laps) + 1 && !episode
                  && events.passive >= old(events.passive) + Sub32(old(passiveBook.logged), old(isr.passive))
                  && old(passiveBook.logged) != old(isr.passive))
    {
      hide Wrap32, Add32, Sub32, InPhase, PhaseAfter, Paced, AllConfirmed, Accounted, Holds, Ordered;
      if isr.passive != passiveBook.logged {
        Interrupts();
        var snapshot := isr.passive;
        var news := Sub32(snapshot, passiveBook.logged);
        BookingDrifts(passiveBook, snapshot, episode, past.laps);
        AtLeastShown(events.passive, old(events.passive));
        if snapshot == passiveBook.logged && !episode {
          past := past.(laps := past.laps + 1);
        }
        if !episode {
          passiveBook := passiveBook.(records := Add32(passiveBook.records, 1));
          if news > 1 {
            passiveBook := passiveBook.(suppressed := Add32(passiveBook.suppressed, news - 1));
          }
        } else {
          passiveBook := passiveBook.(suppressed := Add32(passiveBook.suppressed, news));
        }
        passiveBook := passiveBook.(logged := snapshot);
      }
    }

    /** A newly observed bus-off enters the log once per fault episode. */
    method LogBusOff(snapshot: u32)
      modifies this`busOffBook, this`episode
      ensures busOffBook == if snapshot == old(busOffBook.logged) then old(busOffBook)
                            else Booked(old(busOffBook), snapshot, old(episode))
      ensures episode == (old(episode) || snapshot != old(busOffBook.logged))
    {
      if busOffBook.logged != snapshot {
        var news := Sub32(snapshot, busOffBook.logged);
        if !episode {
          busOffBook := busOffBook.(records := Add32(busOffBook.records, 1));
          episode := true;
          if news > 1 {
            busOffBook := busOffBook.(suppressed := Add32(busOffBook.suppressed, news - 1));
          }
        } else {
          busOffBook := busOffBook.(suppressed := Add32(busOffBook.suppressed, news));
        }
        busOffBook := busOffBook.(logged := snapshot);
      }
    }

    /**
     * A newly observed bus-off is booked, cancels an outstanding verification and schedules an
     * attempt one interval from now.
     */
    method ObserveBusOff(now: u32)
      requires Sound() && now == Wrap32(clock)
      modifies this`busOffBook, this`episode, this`verification, this`stats, this`scheduled,
               this`nextAttempt, this`truth, this`isr, this`events
      ensures Sound() && old(events.busOff) <= events.busOff
      ensures old(isr.busOff) != old(scheduled) ==>
                && !verification.pending && truth.scheduled == events.busOff && scheduled == isr.busOff
                && truth == old(truth).(scheduled := truth.scheduled, due := clock + 200)
                && busOffBook == (if scheduled == old(scheduled) then old(busOffBook)
                                  else Booked(old(busOffBook), scheduled, old(episode)))
                && episode == (old(episode) || scheduled != old(scheduled))
      ensures old(isr.busOff) == old(scheduled) ==>
                && verification == old(verification) && truth == old(truth) && scheduled == old(scheduled)
                && busOffBook == old(busOffBook) && episode == old(episode)
      ensures stats == old(stats).(verificationFailures :=
                Add32(old(stats.verificationFailures),
                      if old(isr.busOff) != old(scheduled) && old(verification.pending) then 1 else 0))
      ensures nextAttempt == Wrap32(truth.due)
    {
      NothingAdded(stats.verificationFailures);
      hide Wrap32, Add32, Sub32, InPhase, PhaseAfter, Spaced, AllConfirmed, Accounted, Booked;
      if isr.busOff != scheduled {
        Interrupts();
        var snapshot := isr.busOff;
        BookingBalances(busOffBook, snapshot, episode);
        LogBusOff(snapshot);
        if verification.pending {
          verification := verification.(pending := false);
          stats := stats.(verificationFailures := Add32(stats.verificationFailures, 1));
        }
        scheduled := snapshot;
        AddIsWrapped(clock, RETRY_INTERVAL_MS);
        nextAttempt := Add32(now, RETRY_INTERVAL_MS);
        truth := truth.(scheduled := events.busOff, due := clock + RETRY_INTERVAL_MS);
        BookedTakesSnapshot(old(busOffBook), snapshot, old(episode));
      }
    }

    /** A verification succeeds with a completed frame and an unchanged bus-off count. */
    method ConfirmIfVerified() returns (ghost readTx: nat, ghost readBusOff: nat)
      requires Sound() && verification.pending
      modifies this`handled, this`truth, this`verification, this`episode, this`stats, this`past,
               this`isr, this`events
      ensures Sound() && old(events.busOff) <= events.busOff
      ensures old(events.tx) <= readTx <= events.tx && old(events.busOff) <= readBusOff <= events.busOff
      ensures past != old(past) <==>
                Wrap32(readTx) != old(verification.tx) && Wrap32(readBusOff) == old(verification.busOff)
      ensures past == old(past) ==>
                && verification == old(verification) && stats == old(stats) && truth == old(truth)
                && handled == old(handled) && episode == old(episode)
      ensures past != old(past) ==>
                && !verification.pending && !episode
                && stats == old(stats).(successes := Add32(old(stats.successes), 1))
                && truth == old(truth).(handled := old(truth.verifyBusOff))
                && |past.successes| == |old(past.successes)| + 1
                && past == old(past).(successes := old(past.successes) + [past.successes[|old(past.successes)|]])
                && var s := past.successes[|old(past.successes)|];
                   s.enabledTx == truth.verifyTx && s.enabledBusOff == truth.verifyBusOff
                   && old(events.tx) <= s.seenTx <= events.tx && s.seenBusOff == events.busOff
    {
      hide Wrap32, Add32, InPhase, PhaseAfter, Paced, Accounted;
      Interrupts();
      readTx, readBusOff := events.tx, events.busOff;
      if isr.tx != verification.tx {
        ghost var seenTx := events.tx;
        Interrupts();
        readBusOff := events.busOff;
        if isr.busOff == verification.busOff {
          ghost var s := Success(truth.verifyTx, seenTx, truth.verifyBusOff, events.busOff);
          handled := verification.busOff;
          truth := truth.(handled := truth.verifyBusOff);
          verification := verification.(pending := false);
          episode := false;
          stats := stats.(successes := Add32(stats.successes, 1));
          past := past.(successes := past.successes + [s]);
        }
      }
    }

    /** One driver call, with whatever result, and interrupts meanwhile. */
    method CallDriver(p: Phase) returns (ok: bool)
      requires Sound() && phase == p
      modifies this`phase, this`stats, this`past, this`isr, this`events
      ensures Sound() && old(events.busOff) <= events.busOff
      ensures past == old(past).(calls := old(past.calls) + [CallIn(p, ok)])
      ensures phase == PhaseAfter(past.calls) == if ok then PhaseFollowing(p) else p
      ensures stats == old(stats).(failures := stats.failures)
    {
      hide Wrap32, Add32, Paced, AllConfirmed, Accounted, Holds, Ordered, Shows, InPhase, PhaseAfter, CallIn,
           PhaseFollowing;
      Interrupts();
      ok := *;
      InPhaseAppend(past.calls, CallIn(p, ok));
      CalledPhase(past.calls, p, ok);
      past := past.(calls := past.calls + [CallIn(p, ok)]);
      if ok {
        phase := PhaseFollowing(p);
      } else {
        stats := stats.(failures := Add32(stats.failures, 1));
      }
    }

    /** The deadline has come: the attempt is recorded and the next one deferred by an interval. */
    method Defer(now: u32)
      requires Sound() && now == Wrap32(clock) && Reached(now, nextAttempt)
      modifies this`nextAttempt, this`stats, this`truth, this`past
      ensures Sound()
      ensures past == old(past).(attempts := old(past.attempts) + [clock])
      ensures truth == old(truth).(due := clock + RETRY_INTERVAL_MS)
      ensures stats == old(stats).(attempts := Add32(old(stats.attempts), 1))
    {
      hide Wrap32, Add32, Reached, InPhase, PhaseAfter, AllConfirmed, Accounted;
      NotTooEarly(clock, truth.due);
      AddIsWrapped(clock, RETRY_INTERVAL_MS);
      past := past.(attempts := past.attempts + [clock]);
      nextAttempt := Add32(now, RETRY_INTERVAL_MS);
      truth := truth.(due := clock + RETRY_INTERVAL_MS);
      stats := stats.(attempts := Add32(stats.attempts, 1));
    }

    /** The controller is enabled again: remember what the verification has to see change. */
    method AwaitFrame()
      requires Sound() && !verification.pending
      modifies this`verification, this`truth, this`isr, this`events
      ensures Sound() && verification.pending && old(events.busOff) <= events.busOff
      ensures truth == old(truth).(verifyBusOff := truth.scheduled, verifyTx := events.tx)
    {
      hide Wrap32, InPhase, PhaseAfter, AllConfirmed, Accounted, Paced;
      Interrupts();
      verification := Verification(true, scheduled, isr.tx);
      truth := truth.(verifyBusOff := truth.scheduled, verifyTx := events.tx);
    }

    /** Stop, start, notify, from where the last attempt left off. */
    method Attempt(now: u32)
      requires Sound() && now == Wrap32(clock) && !verification.pending && Reached(now, nextAttempt)
      modifies this`nextAttempt, this`stats, this`truth, this`past, this`phase, this`verification,
               this`isr, this`events
      ensures Sound() && old(events.busOff) <= events.busOff
      ensures past.attempts == old(past.attempts) + [clock] && past.successes == old(past.successes)
      ensures old(past.calls) < past.calls
      ensures forall i :: |old(past.calls)| <= i < |past.calls| - 1 ==> past.calls[i].ok
      ensures past.calls[|past.calls| - 1].ok ==> past.calls[|past.calls| - 1].Notify?
      ensures stats.successes == old(stats.successes)
      ensures stats.attempts == Add32(old(stats.attempts), 1)
      ensures truth.handled == old(truth.handled) && truth.scheduled == old(truth.scheduled)
      ensures verification.pending <==> past.calls[|past.calls| - 1] == Notify(true)
      ensures verification.pending ==> truth.verifyBusOff == truth.scheduled && truth.verifyTx == events.tx
    {
      hide Wrap32, Add32, Reached, InPhase, Shows, Holds, Paced, AllConfirmed, Accounted, Ordered;
      Defer(now);
      var ok: bool;
      if phase == StopPhase {
        ok := CallDriver(StopPhase);
        if !ok {
          return;
        }
      }
      if phase == StartPhase {
        ok := CallDriver(StartPhase);
        if !ok {
          return;
        }
      }
      ok := CallDriver(NotifyPhase);
      if ok {
        AwaitFrame();
      }
    }

    /** CAN_Handle_BusOff_Recovery: one pass of the main loop. */
    method HandleBusOffRecovery()
      requires Sound()
      modifies this
      ensures Sound()
      ensures old(past.calls) <= past.calls
      ensures old(events.busOff) <= events.busOff && old(truth.handled) <= truth.handled
      ensures old(truth.scheduled) <= truth.scheduled && old(clock) <= clock
      ensures past.attempts == old(past.attempts) || past.attempts == old(past.attempts) + [clock]
      ensures stats.attempts == Add32(old(stats.attempts), |past.attempts| - |old(past.attempts)|)
      ensures |past.successes| == |old(past.successes)|
              || (&& |past.successes| == |old(past.successes)| + 1 && old(verification.pending)
                  && past.attempts == old(past.attempts) && past.calls == old(past.calls))
      ensures scheduled != old(scheduled) ==>
                && !verification.pending && past.attempts == old(past.attempts)
                && truth.due == clock + 200
      ensures past.attempts == old(past.attempts) && |past.successes| == |old(past.successes)| ==>
                verification.pending || scheduled == handled || !Reached(Wrap32(clock), nextAttempt)
      ensures old(past.successes) <= past.successes
      ensures stats.successes == Add32(old(stats.successes), |past.successes| - |old(past.successes)|)
    {
      hide Wrap32, Reached, InPhase, PhaseAfter, Shows, Holds, Paced, AllConfirmed, Accounted, Booked;
      Interrupts();
      LogErrorPassive();
      var now := ReadTick();
      Interrupts();
      ObserveBusOff(now);
      NotYet(clock);
      if verification.pending {
        ghost var readTx, readBusOff := ConfirmIfVerified();
        return;
      }
      if scheduled == handled {
        return;
      }
      if !Reached(now, nextAttempt) {
        return;
      }
      Attempt(now);
    }
  }

  function CallIn(p: Phase, ok: bool): (call: HalCall)
    ensures PhaseOf(call) == p
  {
    match p
    case StopPhase => Stop(ok)
    case StartPhase => Start(ok)
    case NotifyPhase => Notify(ok)
  }

  function PhaseFollowing(p: Phase): Phase {
    match p
    case StopPhase => StartPhase
    case StartPhase => NotifyPhase
    case NotifyPhase => StopPhase
  }

  lemma BookedTakesSnapshot(b: Book, snapshot: u32, episode: bool)
    ensures Booked(b, snapshot, episode).logged == snapshot
  {
  }

  lemma CalledPhase(calls: seq<HalCall>, p: Phase, ok: bool)
    ensures PhaseAfter(calls + [CallIn(p, ok)]) == if ok then PhaseFollowing(p) else p
  {
  }

  /** Within one interval before the due time the signed comparison says so, also across the wrap. */
  lemma NotTooEarly(t: nat, due: nat)
    requires due <= t + RETRY_INTERVAL_MS && Reached(Wrap32(t), Wrap32(due))
    ensures due <= t
  {
    if t < due {
      ReachedIsTrueOrder(t, due);
    }
  }

  lemma NotYet(t: nat)
    ensures !Reached(Wrap32(t), Wrap32(t + RETRY_INTERVAL_MS))
  {
    ReachedIsTrueOrder(t, t + RETRY_INTERVAL_MS);
  }

  lemma InPhaseAppend(calls: seq<HalCall>, call: HalCall)
    requires InPhase(calls) && PhaseOf(call) == PhaseAfter(calls)
    ensures InPhase(calls + [call])
  {
    var all := calls + [call];
    forall i | 0 <= i < |all|
      ensures PhaseOf(all[i]) == PhaseAfter(all[..i])
    {
      assert all[..i] == calls[..i];
    }
  }
}
