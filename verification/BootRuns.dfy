/** Whole lives of the boot control: boots, power cuts, failed writes, schedules, confirmations. */
module BootRuns {
  import opened Machine
  import opened BootControl
  import opened BootFlash
  import opened BootImage
  import opened BootTarget

  /** The flash, and how often the present update has been jumped to since it became pending. */
  datatype Sys = Sys(flash: Flash, tries: nat)

  datatype Event =
    | Boot(images: Images, jump: Option<u8>)
    | ScheduleCall(target: u8, security: u32, build: u32)
    | ConfirmCall(running: u8, security: u32, build: u32)

  predicate Healthy(crc: Checksum, flash: Flash) {
    LoadFlash(crc, flash).Loaded?
  }

  function StateOf(crc: Checksum, flash: Flash): State
    requires Healthy(crc, flash)
  {
    LoadFlash(crc, flash).state
  }

  /** A caller persists `next` to the record not in use; the write may be cut or fail anywhere. */
  predicate Persisted(crc: Checksum, before: Flash, after: Flash, next: State)
    requires Healthy(crc, before)
  {
    CutContent(crc, before, after, Other(LoadFlash(crc, before).selected), next, true)
  }

  /** What an event may do to the flash; without a readable record, nothing. */
  ghost predicate FlashStep(crc: Checksum, before: Flash, e: Event, after: Flash) {
    match e
    case Boot(images, jump) => ValidImages(images) && BootStep(crc, before, after, images, jump)
    case ScheduleCall(target, security, build) =>
      if !Healthy(crc, before) then after == before
      else
        var (r, next) := Schedule(StateOf(crc, before), target, security, build);
        if r == Ok then Persisted(crc, before, after, next) else after == before
    case ConfirmCall(running, security, build) =>
      if !Healthy(crc, before) then after == before
      else
        var (_, next, changed) := Confirm(StateOf(crc, before), running, security, build);
        if changed then Persisted(crc, before, after, next) else after == before
  }

  /** An update is waiting for its confirmation. */
  predicate Pending(crc: Checksum, flash: Flash) {
    Healthy(crc, flash) && StateOf(crc, flash).pendingSlot != NO_SLOT
  }

  /** The event jumps to the update that is pending before it. */
  predicate TriesPending(crc: Checksum, flash: Flash, e: Event) {
    Pending(crc, flash) && e.Boot? && e.jump == Some(StateOf(crc, flash).pendingSlot)
  }

  ghost predicate Step(crc: Checksum, a: Sys, e: Event, b: Sys) {
    && FlashStep(crc, a.flash, e, b.flash)
    && b.tries == (if Pending(crc, a.flash) then a.tries else 0)
                  + if TriesPending(crc, a.flash, e) then 1 else 0
  }

  /** Attempts left and attempts used never exceed three together. */
  predicate Good(crc: Checksum, x: Sys) {
    && Healthy(crc, x.flash) && ValidState(StateOf(crc, x.flash)) && x.tries <= MAX_PENDING_ATTEMPTS
    && var s := StateOf(crc, x.flash);
       s.pendingSlot != NO_SLOT ==> x.tries + s.attempts <= MAX_PENDING_ATTEMPTS
  }

  /** What one event may change in the recorded state. */
  predicate StateMoves(s: State, e: Event, t: State) {
    && t.generation in {s.generation, NextNonZero(s.generation)}
    && t.minimumSecurity >= s.minimumSecurity
    && (t != s ==> t.generation == NextNonZero(s.generation))
    && ((t.confirmedSlot, t.confirmedSecurity, t.confirmedBuild)
          != (s.confirmedSlot, s.confirmedSecurity, s.confirmedBuild) ==>
          && e == ConfirmCall(s.pendingSlot, s.pendingSecurity, s.pendingBuild)
          && s.pendingSlot != NO_SLOT
          && (t.confirmedSlot, t.confirmedSecurity, t.confirmedBuild)
             == (s.pendingSlot, s.pendingSecurity, s.pendingBuild))
  }

  /** A jump goes to a validated image that the record names, with an attempt left if unconfirmed. */
  ghost predicate JumpJustified(s: State, e: Event) {
    e.Boot? && e.jump.Some? ==>
      && IsSlot(e.jump.value) && ValidImages(e.images)
      && Bootable(s, e.jump.value, e.images)
      && (e.jump.value == s.confirmedSlot || (e.jump.value == s.pendingSlot && s.attempts > 0))
  }

  lemma PersistedIsOldOrNew(crc: Checksum, before: Flash, after: Flash, next: State)
    requires Healthy(crc, before) && Persisted(crc, before, after, next)
    requires Succeeds(StateOf(crc, before), next)
    ensures Healthy(crc, after) && StateOf(crc, after) in {StateOf(crc, before), next}
    ensures RecordAt(after, Other(LoadFlash(crc, before).selected)) == Committed(crc, next) ==>
              StateOf(crc, after) == next
  {
    var l := LoadFlash(crc, before);
    CutLoadsOldOrNew(crc, before, after, l.state, l.selected, next, true);
    hide RecordAt, Committed, Load;
  }

  /** A boot leaves the old or the decided state; after a jump it is the decided one. */
  lemma BootLeaves(crc: Checksum, before: Flash, after: Flash, images: Images, jump: Option<u8>)
    requires Healthy(crc, before) && ValidState(StateOf(crc, before)) && ValidImages(images)
    requires BootStep(crc, before, after, images, jump)
    ensures Healthy(crc, after)
    ensures StateOf(crc, after) in {StateOf(crc, before), Selected(StateOf(crc, before), images).state}
    ensures jump.Some? ==>
              && StateOf(crc, after) == Selected(StateOf(crc, before), images).state
              && IsSlot(jump.value) && Bootable(StateOf(crc, before), jump.value, images)
              && Selected(StateOf(crc, before), images).decision == Decide(jump.value)
  {
    hide Bootable, RecordAt, Committed, CutContent, Load;
    var s := StateOf(crc, before);
    var next := Selected(s, images);
    if next.changed {
      OperationsSucceed(s, SLOT_A, 0, 0, Bootable(s, SLOT_A, images), Bootable(s, SLOT_B, images));
      PersistedIsOldOrNew(crc, before, after, next.state);
    }
    if jump.Some? {
      DecidedIsBootable(s, images, jump.value);
    }
  }

  lemma StepKeepsGood(crc: Checksum, a: Sys, e: Event, b: Sys)
    requires Good(crc, a) && Step(crc, a, e, b)
    ensures Good(crc, b)
    ensures StateMoves(StateOf(crc, a.flash), e, StateOf(crc, b.flash))
    ensures JumpJustified(StateOf(crc, a.flash), e)
  {
    hide Bootable, RecordAt, Committed, CutContent, LoadFlash;
    var s := StateOf(crc, a.flash);
    LoadedIsValid(crc, a.flash);
    match e {
      case Boot(images, jump) =>
        BootLeaves(crc, a.flash, b.flash, images, jump);
        if jump.Some? {
          DecidedIsBootable(s, images, jump.value);
        }
        OperationsSucceed(s, SLOT_A, 0, 0, Bootable(s, SLOT_A, images), Bootable(s, SLOT_B, images));
      case ScheduleCall(target, security, build) =>
        OperationsSucceed(s, target, security, build, false, false);
        if Schedule(s, target, security, build).0 == Ok {
          PersistedIsOldOrNew(crc, a.flash, b.flash, Schedule(s, target, security, build).1);
        }
      case ConfirmCall(running, security, build) =>
        OperationsSucceed(s, running, security, build, false, false);
        if Confirm(s, running, security, build).2 {
          PersistedIsOldOrNew(crc, a.flash, b.flash, Confirm(s, running, security, build).1);
        }
    }
  }

  /** A life begins with the initial record in the first place and the second one blank. */
  lemma ProvisionedIsGood(crc: Checksum, flash: Flash, confirmed: u8, security: u32, build: u32)
    requires IsSlot(confirmed)
    requires RecordAt(flash, 0) == Committed(crc, Initialized(confirmed, security, build))
    requires RecordAt(flash, 1) == Ones(RECORD_SIZE)
    ensures LoadFlash(crc, flash) == Loaded(Initialized(confirmed, security, build), 0)
    ensures Initialized(confirmed, security, build)
            == State(1, confirmed, NO_SLOT, 0, security, security, 0, build, 0)
    ensures Good(crc, Sys(flash, 0)) && !Pending(crc, flash)
  {
    hide Decode, Committed, RecordAt, Ones;
    CommittedDecodes(crc, Initialized(confirmed, security, build));
    BlankIsNoRecord(crc);
    OnlyFirst(crc, RecordAt(flash, 0), RecordAt(flash, 1), Initialized(confirmed, security, build));
    hide Load;
  }

  lemma BlankIsNoRecord(crc: Checksum)
    ensures Decode(crc, Ones(RECORD_SIZE)) == None
  {
    ErasedMarker(crc, Ones(RECORD_SIZE));
  }

  lemma OnlyFirst(crc: Checksum, r0: seq<u8>, r1: seq<u8>, s: State)
    requires |r0| == |r1| == RECORD_SIZE && Decode(crc, r0) == Some(s) && Decode(crc, r1) == None
    ensures Load(crc, r0, r1) == Loaded(s, 0)
  {
    hide Decode;
  }

  /** A schedule, persisted to the record not in use, is such an event, cut anywhere. */
  method ScheduleAndPersist(device: FlashDevice, crc: Checksum, target: u8, security: u32, build: u32)
    returns (r: Result, persisted: Option<FlashResult>)
    requires device.Tracked() && Healthy(crc, device.memory)
    modifies device
    ensures device.Tracked() && |old(device.history)| <= |device.history|
    ensures forall i :: |old(device.history)| <= i < |device.history| ==>
              FlashStep(crc, old(device.memory), ScheduleCall(target, security, build), device.history[i])
    ensures FlashStep(crc, old(device.memory), ScheduleCall(target, security, build), device.memory)
    ensures var s := StateOf(crc, old(device.memory));
            && r == Schedule(s, target, security, build).0
            && (r == Ok <==>
                  && IsSlot(target) && target != s.confirmedSlot && s.pendingSlot == NO_SLOT
                  && security > s.minimumSecurity)
    ensures persisted == Some(FlashOk) ==>
              && Healthy(crc, device.memory)
              && StateOf(crc, device.memory) == Schedule(StateOf(crc, old(device.memory)), target, security, build).1
    ensures device.sound ==> (r == Ok <==> persisted == Some(FlashOk))
  {
    hide RecordAt, Committed, CutContent, Load, Decode;
    ghost var before := device.memory;
    LoadedIsValid(crc, before);
    var loaded := LoadFlash(crc, device.memory);
    var block := new ControlBlock(loaded.state);
    r := block.ScheduleUpdate(target, security, build);
    persisted := None;
    OperationsSucceed(loaded.state, target, security, build, false, false);
    if r == Ok {
      var result := PersistNext(device, crc, loaded.state, loaded.selected, block.s);
      persisted := Some(result);
    }
  }

  /** So is a confirmation. */
  method ConfirmAndPersist(device: FlashDevice, crc: Checksum, running: u8, security: u32, build: u32)
    returns (r: Result, persisted: Option<FlashResult>)
    requires device.Tracked() && Healthy(crc, device.memory)
    modifies device
    ensures device.Tracked() && |old(device.history)| <= |device.history|
    ensures forall i :: |old(device.history)| <= i < |device.history| ==>
              FlashStep(crc, old(device.memory), ConfirmCall(running, security, build), device.history[i])
    ensures FlashStep(crc, old(device.memory), ConfirmCall(running, security, build), device.memory)
    ensures var s := StateOf(crc, old(device.memory));
            && r == Confirm(s, running, security, build).0
            && (r == Ok <==>
                  || (s.pendingSlot != NO_SLOT
                      && (running, security, build) == (s.pendingSlot, s.pendingSecurity, s.pendingBuild))
                  || (s.pendingSlot == NO_SLOT
                      && (running, security, build) == (s.confirmedSlot, s.confirmedSecurity, s.confirmedBuild)))
    ensures persisted == Some(FlashOk) ==>
              && Healthy(crc, device.memory)
              && StateOf(crc, device.memory) == Confirm(StateOf(crc, old(device.memory)), running, security, build).1
    ensures device.sound ==>
              (Confirm(StateOf(crc, old(device.memory)), running, security, build).2 <==> persisted == Some(FlashOk))
  {
    hide RecordAt, Committed, CutContent, Load, Decode;
    ghost var before := device.memory;
    LoadedIsValid(crc, before);
    var loaded := LoadFlash(crc, device.memory);
    var block := new ControlBlock(loaded.state);
    var changed;
    r, changed := block.ConfirmRunning(running, security, build);
    persisted := None;
    OperationsSucceed(loaded.state, running, security, build, false, false);
    if changed {
      var result := PersistNext(device, crc, loaded.state, loaded.selected, block.s);
      persisted := Some(result);
    }
  }

  /** The state that follows the one loaded goes to the other record. */
  method PersistNext(device: FlashDevice, crc: Checksum, s: State, selected: nat, next: State)
    returns (result: FlashResult)
    requires device.Tracked() && LoadFlash(crc, device.memory) == Loaded(s, selected) && selected <= 1
    requires Succeeds(s, next)
    modifies device
    ensures device.Tracked() && |old(device.history)| <= |device.history|
    ensures forall i :: |old(device.history)| <= i < |device.history| ==>
              Persisted(crc, old(device.memory), device.history[i], next)
    ensures Persisted(crc, old(device.memory), device.memory, next)
    ensures result == FlashOk ==> Healthy(crc, device.memory) && StateOf(crc, device.memory) == next
    ensures device.sound ==> result == FlashOk
  {
    hide RecordAt, Committed, CutContent, Load, Decode;
    ghost var before, from := device.memory, |device.history|;
    var evidence;
    ghost var verified;
    result, evidence, verified := PersistControl(device, crc, next, Other(selected));
    forall i | from <= i < |device.history|
      ensures Persisted(crc, before, device.history[i], next)
    {
      assert CutContent(crc, before, device.history[i], Other(selected), next, verified <= i);
      CutWeakens(crc, before, device.history[i], Other(selected), next, verified <= i);
    }
    if |device.history| == from {
      assert device.memory == before;
      UnchangedIsCut(crc, before, Other(selected), next);
    }
    if result == FlashOk {
      PersistedIsOldOrNew(crc, before, device.memory, next);
    }
  }

  lemma UnchangedIsCut(crc: Checksum, flash: Flash, target: nat, next: State)
    ensures CutContent(crc, flash, flash, target, next, true)
  {
  }

  // ---------------------------------------------------------------- runs

  ghost predicate IsRun(crc: Checksum, trace: seq<Sys>, events: seq<Event>) {
    && |trace| == |events| + 1
    && forall i :: 0 <= i < |events| ==> Step(crc, trace[i], events[i], trace[i + 1])
  }

  /** Whatever happens, a readable record is left, and attempts are accounted for. */
  lemma {:induction false} RunsStayGood(crc: Checksum, trace: seq<Sys>, events: seq<Event>, i: nat)
    requires IsRun(crc, trace, events) && Good(crc, trace[0]) && i < |trace|
    ensures Good(crc, trace[i])
    ensures i < |events| ==> JumpJustified(StateOf(crc, trace[i].flash), events[i])
  {
    hide Step, Good, StateMoves, JumpJustified;
    if i > 0 {
      RunsStayGood(crc, trace, events, i - 1);
      assert Step(crc, trace[i - 1], events[i - 1], trace[i - 1 + 1]);
      StepKeepsGood(crc, trace[i - 1], events[i - 1], trace[i]);
    }
    if i < |events| {
      assert Step(crc, trace[i], events[i], trace[i + 1]);
      StepKeepsGood(crc, trace[i], events[i], trace[i + 1]);
    }
  }

  lemma GoodIsHealthy(crc: Checksum, x: Sys)
    requires Good(crc, x)
    ensures Healthy(crc, x.flash)
  {
  }

  lemma MinimumMoves(s: State, e: Event, t: State)
    requires StateMoves(s, e, t)
    ensures s.minimumSecurity <= t.minimumSecurity
  {
  }

  lemma ConfirmedMoves(s: State, e: Event, t: State)
    requires StateMoves(s, e, t) && !e.ConfirmCall?
    ensures (s.confirmedSlot, s.confirmedSecurity, s.confirmedBuild)
            == (t.confirmedSlot, t.confirmedSecurity, t.confirmedBuild)
  {
  }

  /** The minimum security counter never falls. */
  lemma {:induction false} MinimumNeverFalls(crc: Checksum, trace: seq<Sys>, events: seq<Event>, i: nat, j: nat)
    requires IsRun(crc, trace, events) && Good(crc, trace[0]) && i <= j < |trace|
    ensures Healthy(crc, trace[i].flash) && Healthy(crc, trace[j].flash)
    ensures StateOf(crc, trace[i].flash).minimumSecurity <= StateOf(crc, trace[j].flash).minimumSecurity
    decreases j - i
  {
    hide Step, Good, Healthy, StateOf, StateMoves, JumpJustified;
    RunsStayGood(crc, trace, events, i);
    GoodIsHealthy(crc, trace[i]);
    if i < j {
      assert Step(crc, trace[i], events[i], trace[i + 1]);
      StepKeepsGood(crc, trace[i], events[i], trace[i + 1]);
      GoodIsHealthy(crc, trace[i + 1]);
      MinimumMoves(StateOf(crc, trace[i].flash), events[i], StateOf(crc, trace[i + 1].flash));
      MinimumNeverFalls(crc, trace, events, i + 1, j);
    }
  }

  /** Without a confirmation the confirmed image stays what it is. */
  lemma {:induction false} OnlyConfirmationConfirms(crc: Checksum, trace: seq<Sys>, events: seq<Event>, i: nat, j: nat)
    requires IsRun(crc, trace, events) && Good(crc, trace[0]) && i <= j < |trace|
    requires forall k :: i <= k < j ==> !events[k].ConfirmCall?
    ensures Healthy(crc, trace[i].flash) && Healthy(crc, trace[j].flash)
    ensures var s, t := StateOf(crc, trace[i].flash), StateOf(crc, trace[j].flash);
            (s.confirmedSlot, s.confirmedSecurity, s.confirmedBuild)
              == (t.confirmedSlot, t.confirmedSecurity, t.confirmedBuild)
    decreases j - i
  {
    hide Step, Good, Healthy, StateOf, StateMoves, JumpJustified;
    RunsStayGood(crc, trace, events, i);
    GoodIsHealthy(crc, trace[i]);
    if i < j {
      assert Step(crc, trace[i], events[i], trace[i + 1]);
      StepKeepsGood(crc, trace[i], events[i], trace[i + 1]);
      GoodIsHealthy(crc, trace[i + 1]);
      ConfirmedMoves(StateOf(crc, trace[i].flash), events[i], StateOf(crc, trace[i + 1].flash));
      OnlyConfirmationConfirms(crc, trace, events, i + 1, j);
    }
  }

  /** Jumps to the pending update among the events from `i` to `j`. */
  function PendingJumps(crc: Checksum, trace: seq<Sys>, events: seq<Event>, i: nat, j: nat): (n: nat)
    requires i <= j <= |events| < |trace|
  {
    if i == j then 0
    else
      PendingJumps(crc, trace, events, i, j - 1)
      + if TriesPending(crc, trace[j - 1].flash, events[j - 1]) then 1 else 0
  }

  /** As long as an update stays unconfirmed, it is jumped to at most three times. */
  lemma UnconfirmedJumpsBounded(crc: Checksum, trace: seq<Sys>, events: seq<Event>, i: nat, j: nat)
    requires IsRun(crc, trace, events) && Good(crc, trace[0]) && i <= j < |trace|
    requires forall k :: i <= k < j ==> Pending(crc, trace[k].flash)
    ensures PendingJumps(crc, trace, events, i, j) <= MAX_PENDING_ATTEMPTS
  {
    TriesCountJumps(crc, trace, events, i, j);
    RunsStayGood(crc, trace, events, j);
  }

  lemma StepCounts(crc: Checksum, a: Sys, e: Event, b: Sys)
    requires Step(crc, a, e, b)
    ensures b.tries == (if Pending(crc, a.flash) then a.tries else 0) + if TriesPending(crc, a.flash, e) then 1 else 0
  {
    hide FlashStep, Pending, TriesPending;
  }

  lemma {:induction false} TriesCountJumps(crc: Checksum, trace: seq<Sys>, events: seq<Event>, i: nat, j: nat)
    requires IsRun(crc, trace, events) && i <= j < |trace|
    requires forall k :: i <= k < j ==> Pending(crc, trace[k].flash)
    ensures trace[j].tries == trace[i].tries + PendingJumps(crc, trace, events, i, j)
  {
    hide Step, Pending, TriesPending;
    if i < j {
      TriesCountJumps(crc, trace, events, i, j - 1);
      assert Step(crc, trace[j - 1], events[j - 1], trace[j - 1 + 1]);
      StepCounts(crc, trace[j - 1], events[j - 1], trace[j]);
    }
  }

  // ---------------------------------------------------------------- the course of an update

  /** Boots that nothing cuts short, one after the other, each over its own images. */
  ghost predicate UncutBoots(crc: Checksum, flashes: seq<Flash>, images: seq<Images>, jumps: seq<Option<u8>>) {
    && |flashes| == |images| + 1 == |jumps| + 1
    && forall i :: 0 <= i < |images| ==>
         && ValidImages(images[i])
         && UncutBoot(crc, flashes[i], flashes[i + 1], images[i],
                      if jumps[i] == None then RecoveryMode else JumpReturned, jumps[i])
  }

  /** The images of two slots are judged by identity and minimum, not by attempts and generation. */
  predicate SameJudgement(s: State, t: State) {
    t == s.(attempts := t.attempts, generation := t.generation)
  }

  /** No update is pending any more, and what is confirmed has not changed. */
  predicate Reverted(s: State, t: State) {
    && t.pendingSlot == NO_SLOT
    && (t.confirmedSlot, t.confirmedSecurity, t.confirmedBuild, t.minimumSecurity)
       == (s.confirmedSlot, s.confirmedSecurity, s.confirmedBuild, s.minimumSecurity)
  }

  lemma JudgedAlike(s: State, t: State, slot: u8, images: Images)
    requires ValidImages(images)
    requires SameJudgement(s, t) || (Reverted(s, t) && slot == s.confirmedSlot)
    ensures Bootable(s, slot, images) <==> Bootable(t, slot, images)
  {
    hide Acceptable, Claimed;
  }

  /** The update as scheduled is bootable in each of the first `k` boots, and not in the next. */
  ghost predicate BootableFor(t: State, target: u8, images: seq<Images>, k: nat) {
    && k <= MAX_PENDING_ATTEMPTS && k <= |images|
    && (forall j :: 0 <= j < |images| ==> ValidImages(images[j]))
    && (forall j :: 0 <= j < k ==> Bootable(t, target, images[j]))
    && (k < MAX_PENDING_ATTEMPTS && k < |images| ==> !Bootable(t, target, images[k]))
  }

  /** What is recorded before boot `i`. */
  lemma {:induction false} RecordedAt(crc: Checksum, t: State, target: u8, flashes: seq<Flash>,
                                      images: seq<Images>, jumps: seq<Option<u8>>, k: nat, i: nat)
    requires UncutBoots(crc, flashes, images, jumps) && i < |flashes|
    requires Healthy(crc, flashes[0]) && StateOf(crc, flashes[0]) == t
    requires t.pendingSlot == target != NO_SLOT && t.attempts == MAX_PENDING_ATTEMPTS
    requires BootableFor(t, target, images, k)
    ensures Healthy(crc, flashes[i])
    ensures var u := StateOf(crc, flashes[i]);
            if i <= k then SameJudgement(t, u) && u.attempts == MAX_PENDING_ATTEMPTS - i else Reverted(t, u)
  {
    hide Bootable, LoadFlash;
    if i > 0 {
      RecordedAt(crc, t, target, flashes, images, jumps, k, i - 1);
      assert UncutBoot(crc, flashes[i - 1], flashes[i - 1 + 1], images[i - 1],
                       if jumps[i - 1] == None then RecoveryMode else JumpReturned, jumps[i - 1]);
      if i - 1 <= k {
        JudgedAlike(t, StateOf(crc, flashes[i - 1]), target, images[i - 1]);
      }
    }
  }

  /**
   * An update that can be scheduled is the target of the next boots, up to three, as long as its image is
   * bootable; from then on the confirmed image is started whenever it is bootable.
   */
  lemma UpdateIsTried(crc: Checksum, s: State, target: u8, security: u32, build: u32,
                      flashes: seq<Flash>, images: seq<Images>, jumps: seq<Option<u8>>, k: nat, i: nat)
    requires ValidState(s) && s.pendingSlot == NO_SLOT
    requires IsSlot(target) && target != s.confirmedSlot && security > s.minimumSecurity
    requires UncutBoots(crc, flashes, images, jumps) && i < |images|
    requires Healthy(crc, flashes[0])
    requires StateOf(crc, flashes[0]) == Schedule(s, target, security, build).1
    requires BootableFor(StateOf(crc, flashes[0]), target, images, k)
    ensures Schedule(s, target, security, build).0 == Ok
    ensures jumps[i] == if i < k then Some(target)
                        else if Bootable(s, s.confirmedSlot, images[i]) then Some(s.confirmedSlot) else None
  {
    hide Bootable, LoadFlash, UncutBoots;
    var t := Schedule(s, target, security, build).1;
    BootIs(crc, flashes, images, jumps, i);
    RecordedAt(crc, t, target, flashes, images, jumps, k, i);
    var u := StateOf(crc, flashes[i]);
    JudgedAlike(t, u, s.confirmedSlot, images[i]);
    ScheduledJudgement(s, t, images[i]);
    if i <= k {
      JudgedAlike(t, u, target, images[i]);
    }
  }

  lemma BootIs(crc: Checksum, flashes: seq<Flash>, images: seq<Images>, jumps: seq<Option<u8>>, i: nat)
    requires UncutBoots(crc, flashes, images, jumps) && i < |images|
    ensures |flashes| == |images| + 1 == |jumps| + 1 && ValidImages(images[i])
    ensures UncutBoot(crc, flashes[i], flashes[i + 1], images[i],
                      if jumps[i] == None then RecoveryMode else JumpReturned, jumps[i])
  {
    hide UncutBoot;
  }

  lemma ScheduledJudgement(s: State, t: State, images: Images)
    requires ValidImages(images) && t.confirmedSlot == s.confirmedSlot && t.minimumSecurity == s.minimumSecurity
    requires t.confirmedSecurity == s.confirmedSecurity && t.confirmedBuild == s.confirmedBuild
    ensures Bootable(t, s.confirmedSlot, images) <==> Bootable(s, s.confirmedSlot, images)
  {
    hide Acceptable, Claimed;
  }

  /** Once confirmed, an update that was bootable stays bootable, against the raised minimum too. */
  lemma ConfirmedStaysBootable(u: State, images: Images)
    requires ValidState(u) && u.pendingSlot != NO_SLOT && ValidImages(images)
    requires Bootable(u, u.pendingSlot, images)
    ensures Bootable(Confirm(u, u.pendingSlot, u.pendingSecurity, u.pendingBuild).1, u.pendingSlot, images)
  {
    hide StackPointerOk, InRange, ReadU32, ReadU16;
  }

  /** A pending update that reports its own identity is confirmed, and every later boot is of it. */
  lemma {:induction false} ConfirmedIsStarted(crc: Checksum, u: State, flashes: seq<Flash>, images: seq<Images>,
                                              jumps: seq<Option<u8>>, i: nat)
    requires ValidState(u) && u.pendingSlot != NO_SLOT
    requires UncutBoots(crc, flashes, images, jumps) && i < |images| && Healthy(crc, flashes[0])
    requires StateOf(crc, flashes[0]) == Confirm(u, u.pendingSlot, u.pendingSecurity, u.pendingBuild).1
    ensures Confirm(u, u.pendingSlot, u.pendingSecurity, u.pendingBuild).0 == Ok
    ensures flashes[i] == flashes[0]
    ensures jumps[i] == if Bootable(StateOf(crc, flashes[0]), u.pendingSlot, images[i])
                        then Some(u.pendingSlot) else None
    ensures Bootable(u, u.pendingSlot, images[i]) ==> jumps[i] == Some(u.pendingSlot)
  {
    hide Bootable, LoadFlash, UncutBoots;
    BootIs(crc, flashes, images, jumps, i);
    if i > 0 {
      ConfirmedIsStarted(crc, u, flashes, images, jumps, i - 1);
      BootIs(crc, flashes, images, jumps, i - 1);
    }
    if Bootable(u, u.pendingSlot, images[i]) {
      ConfirmedStaysBootable(u, images[i]);
    }
  }
}
