/** One boot: load the record, judge both slots, persist the decision, and only then jump. */
module BootTarget {
  import opened Machine
  import opened BootControl
  import opened BootFlash
  import opened BootImage

  /** What the validation callbacks find in the two slots. */
  datatype Images = Images(a: Source, b: Source, regions: seq<Region>)

  predicate ValidImages(images: Images) {
    ValidSource(images.a) && ValidSource(images.b)
  }

  function SourceOf(images: Images, slot: u8): Source {
    if slot == SLOT_A then images.a else images.b
  }

  function RegionOf(slot: u8): ImageSlot {
    if slot == SLOT_A then SLOT_A_REGION else SLOT_B_REGION
  }

  /** Boot_Target_ImageMatchesState */
  predicate ImageMatchesState(slot: u8, s: State, info: Info) {
    if slot == s.confirmedSlot then
      info.security == s.confirmedSecurity && info.build == s.confirmedBuild
    else if slot == s.pendingSlot then
      info.security == s.pendingSecurity && info.build == s.pendingBuild
    else false
  }

  /** The slot holds a validated image that is the one the record names. */
  ghost predicate Bootable(s: State, slot: u8, images: Images)
    requires ValidImages(images)
  {
    var source := SourceOf(images, slot);
    && Acceptable(RegionOf(slot), source, images.regions, s.minimumSecurity)
    && ImageMatchesState(slot, s, Claimed(RegionOf(slot), source.manifest.value, source.vectors.value))
  }

  /** It is acceptable there, and has the identity that the record gives to the slot. */
  lemma BootableIsExact(s: State, slot: u8, images: Images)
    requires ValidState(s) && ValidImages(images) && IsSlot(slot)
    ensures var source := SourceOf(images, slot);
            var region := if slot == 1 then ImageSlot(0x0802_0000, 0xE_0000) else ImageSlot(0x0810_0000, 0xE_0000);
            Bootable(s, slot, images)
            <==> && Acceptable(region, source, images.regions, s.minimumSecurity)
                 && var info := Claimed(region, source.manifest.value, source.vectors.value);
                    || (slot == s.confirmedSlot
                        && (info.security, info.build) == (s.confirmedSecurity, s.confirmedBuild))
                    || (slot == s.pendingSlot
                        && (info.security, info.build) == (s.pendingSecurity, s.pendingBuild))
    ensures SourceOf(images, slot) == if slot == 1 then images.a else images.b
  {
    hide Acceptable, Claimed;
  }

  ghost function Selected(s: State, images: Images): Selection
    requires ValidState(s) && ValidImages(images)
  {
    Select(s, Bootable(s, SLOT_A, images), Bootable(s, SLOT_B, images))
  }

  /**
   * A boot from `before` may leave `after`, power cuts included, having jumped to a slot or not:
   * a jump presupposes that a changed state has reached the flash.
   */
  ghost predicate BootStep(crc: Checksum, before: Flash, after: Flash, images: Images, jump: Option<u8>)
    requires ValidImages(images)
  {
    match LoadFlash(crc, before)
    case Loaded(s, selected) =>
      && ValidState(s)
      && var next := Selected(s, images);
      && (jump.Some? ==> IsSlot(jump.value) && next.decision == Decide(jump.value))
      && if !next.changed then after == before
         else
           && CutContent(crc, before, after, Other(selected), next.state, true)
           && (jump.Some? ==> RecordAt(after, Other(selected)) == Committed(crc, next.state))
    case _ => after == before && jump == None
  }

  /** An update waits, may be tried once more, and its image is there. */
  ghost predicate Trial(s: State, images: Images)
    requires ValidImages(images)
  {
    s.pendingSlot != NO_SLOT && s.attempts > 0 && Bootable(s, s.pendingSlot, images)
  }

  /**
   * A boot that neither the power nor the flash has cut short: it tries the update if there is one to try,
   * else starts the confirmed image if that is bootable, else stays in recovery. An attempt is counted
   * before it is made; an update that cannot be tried is forgotten.
   */
  ghost predicate UncutBoot(crc: Checksum, before: Flash, after: Flash, images: Images, result: TargetResult,
                            jump: Option<u8>)
    requires ValidImages(images)
  {
    match LoadFlash(crc, before)
    case Loaded(s, selected) =>
      var generation := if s.generation == UINT32_MAX then 1 else s.generation + 1;
      && ValidState(s)
      && (result == if jump == None then RecoveryMode else JumpReturned)
      && if Trial(s, images) then
           && jump == Some(s.pendingSlot)
           && LoadFlash(crc, after)
              == Loaded(s.(attempts := s.attempts - 1, generation := generation), 1 - selected)
         else
           && jump == (if Bootable(s, s.confirmedSlot, images) then Some(s.confirmedSlot) else None)
           && if s.pendingSlot == NO_SLOT then after == before
              else
                LoadFlash(crc, after)
                == Loaded(s.(pendingSlot := NO_SLOT, attempts := 0, pendingSecurity := 0, pendingBuild := 0,
                             generation := generation), 1 - selected)
    case _ => result == ControlInvalid && jump == None && after == before
  }

  /** The selection is the one that such a boot acts on. */
  lemma SelectionIsExact(s: State, images: Images)
    requires ValidState(s) && ValidImages(images)
    ensures var sel, generation := Selected(s, images), if s.generation == UINT32_MAX then 1 else s.generation + 1;
            if Trial(s, images) then
              sel == Selection(s.(attempts := s.attempts - 1, generation := generation), Decide(s.pendingSlot), true)
            else
              && sel.decision == (if Bootable(s, s.confirmedSlot, images) then Decide(s.confirmedSlot) else Recovery)
              && (sel.changed <==> s.pendingSlot != NO_SLOT)
              && sel.state == if s.pendingSlot == NO_SLOT then s
                              else s.(pendingSlot := NO_SLOT, attempts := 0, pendingSecurity := 0,
                                      pendingBuild := 0, generation := generation)
  {
    hide Bootable;
  }

  lemma LoadedIsValid(crc: Checksum, flash: Flash)
    ensures match LoadFlash(crc, flash)
            case Loaded(s, selected) => ValidState(s) && selected <= 1
            case _ => true
  {
    hide RecordAt;
  }

  // ---------------------------------------------------------------- the control block in RAM

  /** The state record that the boot-control operations update in place. */
  class ControlBlock {
    var s: State

    constructor (s: State)
      ensures this.s == s
    {
      this.s := s;
    }

    method NextGeneration()
      modifies this
      ensures s == Advanced(old(s))
    {
      var next := Add32(s.generation, 1);
      s := s.(generation := if next == 0 then 1 else next);
    }

    method ClearPending()
      modifies this
      ensures s == Cleared(old(s))
    {
      s := s.(pendingSlot := NO_SLOT);
      s := s.(attempts := 0);
      s := s.(pendingSecurity := 0);
      s := s.(pendingBuild := 0);
    }

    method ScheduleUpdate(target: u8, security: u32, build: u32) returns (r: Result)
      modifies this
      ensures (r, s) == Schedule(old(s), target, security, build)
    {
      if !IsSlot(target) {
        return InvalidArgument;
      }
      if !ValidState(s) || target == s.confirmedSlot || s.pendingSlot != NO_SLOT {
        return InvalidState;
      }
      if security <= s.minimumSecurity {
        return SecurityRollback;
      }
      s := s.(pendingSlot := target);
      s := s.(attempts := MAX_PENDING_ATTEMPTS);
      s := s.(pendingSecurity := security);
      s := s.(pendingBuild := build);
      NextGeneration();
      r := Ok;
    }

    method SelectBoot(aValid: bool, bValid: bool) returns (r: Result, decision: Decision, changed: bool)
      modifies this
      ensures r == if ValidState(old(s)) then Ok else InvalidState
      ensures r == Ok ==> Selection(s, decision, changed) == Select(old(s), aValid, bValid)
      ensures r != Ok ==> s == old(s)
    {
      decision, changed := Recovery, false;
      if !ValidState(s) {
        return InvalidState, decision, changed;
      }
      var confirmedValid := if s.confirmedSlot == SLOT_A then aValid else bValid;
      if s.pendingSlot != NO_SLOT {
        var pendingValid := if s.pendingSlot == SLOT_A then aValid else bValid;
        if pendingValid && s.attempts > 0 {
          s := s.(attempts := s.attempts - 1);
          NextGeneration();
          return Ok, if s.pendingSlot == SLOT_A then BootA else BootB, true;
        }
        ClearPending();
        NextGeneration();
        changed := true;
      }
      if confirmedValid {
        decision := if s.confirmedSlot == SLOT_A then BootA else BootB;
      }
      r := Ok;
    }

    method ConfirmRunning(running: u8, security: u32, build: u32) returns (r: Result, changed: bool)
      modifies this
      ensures (r, s, changed) == Confirm(old(s), running, security, build)
    {
      changed := false;
      if !IsSlot(running) {
        return InvalidArgument, false;
      }
      if !ValidState(s) {
        return InvalidState, false;
      }
      if s.pendingSlot == NO_SLOT && running == s.confirmedSlot
         && security == s.confirmedSecurity && build == s.confirmedBuild {
        return Ok, false;
      }
      if running != s.pendingSlot || security != s.pendingSecurity || build != s.pendingBuild {
        return InvalidState, false;
      }
      s := s.(confirmedSlot := running);
      s := s.(minimumSecurity := security);
      s := s.(confirmedSecurity := security);
      s := s.(confirmedBuild := build);
      ClearPending();
      NextGeneration();
      return Ok, true;
    }
  }

  // ---------------------------------------------------------------- the boot

  datatype TargetResult =
    | ControlReadFailed | ControlInvalid | ControlWriteFailed | RecoveryMode
    | JumpPrepareFailed | JumpReturned

  /** Validates a slot and compares its identity with the record. */
  method JudgeSlot(s: State, slot: u8, images: Images) returns (valid: bool, info: Info)
    requires ValidImages(images) && IsSlot(slot)
    ensures valid <==> Bootable(s, slot, images)
    ensures valid ==> info == Claimed(RegionOf(slot), SourceOf(images, slot).manifest.value,
                                      SourceOf(images, slot).vectors.value)
  {
    hide Acceptable, Claimed;
    var result;
    result, info := Validate(RegionOf(slot), SourceOf(images, slot), images.regions, s.minimumSecurity);
    valid := result == ImageOk && ImageMatchesState(slot, s, info);
  }

  /**
   * Boot_Target_Run. Every content the flash goes through is one a boot may leave without a jump;
   * a jump happens with the final content, with the plan of a validated image, and preparing
   * that plan never fails.
   */
  method Run(device: FlashDevice, crc: Checksum, images: Images)
    returns (result: TargetResult, jump: Option<u8>, plan: Plan)
    requires device.Tracked() && ValidImages(images)
    modifies device
    ensures device.Tracked() && |old(device.history)| <= |device.history|
    ensures device.history[..|old(device.history)|] == old(device.history)
    ensures forall i :: |old(device.history)| <= i < |device.history| ==>
              BootStep(crc, old(device.memory), device.history[i], images, None)
    ensures BootStep(crc, old(device.memory), device.memory, images, jump)
    ensures result == JumpReturned <==> jump.Some?
    ensures result != JumpPrepareFailed
    ensures device.sound ==> UncutBoot(crc, old(device.memory), device.memory, images, result, jump)
    ensures jump.Some? ==>
              var slot := jump.value;
              var s := LoadFlash(crc, old(device.memory)).state;
              && Bootable(s, slot, images)
              && (JumpOk, plan) == Prepare(RegionOf(slot),
                                           Claimed(RegionOf(slot), SourceOf(images, slot).manifest.value,
                                                   SourceOf(images, slot).vectors.value))
  {
    hide Acceptable, Claimed, RecordAt, Committed, CutContent, Decode, Prepare, UncutBoot, BootStep, Load;
    ghost var before := device.memory;
    jump, plan := None, NO_PLAN;
    LoadedIsValid(crc, device.memory);
    var ok0, record0 := device.Read(RECORD_0_ADDRESS, RECORD_SIZE);
    var ok1, record1 := false, [];
    if ok0 {
      ok1, record1 := device.Read(RECORD_1_ADDRESS, RECORD_SIZE);
    }
    if !ok0 || !ok1 {
      NoBootNoChange(crc, device.memory, images);
      return ControlReadFailed, jump, plan;
    }
    UnreadableStays(crc, before, images);
    ReadRecords(device.memory);
    var loaded := Load(crc, record0, record1);
    if !loaded.Loaded? {
      return ControlInvalid, jump, plan;
    }
    var s := loaded.state;
    var aValid, aInfo := JudgeSlot(s, SLOT_A, images);
    var bValid, bInfo := JudgeSlot(s, SLOT_B, images);
    var block := new ControlBlock(s);
    var selected, decision, changed := block.SelectBoot(aValid, bValid);
    if changed {
      var persisted := PersistSelected(device, crc, images, s, loaded.selected, block.s);
      if !persisted {
        return ControlWriteFailed, jump, plan;
      }
    } else {
      NoBootNoChange(crc, device.memory, images);
    }
    if decision == Recovery {
      BootEnds(crc, before, device.memory, images, s, loaded.selected, RecoveryMode, None);
      return RecoveryMode, jump, plan;
    }
    var slot := if decision == BootA then SLOT_A else SLOT_B;
    var info := if decision == BootA then aInfo else bInfo;
    DecidedIsBootable(s, images, slot);
    ValidatedIsPreparable(RegionOf(slot), SourceOf(images, slot), images.regions, s.minimumSecurity);
    var prepared := Prepare(RegionOf(slot), info);
    if prepared.0 != JumpOk {
      return JumpPrepareFailed, jump, plan;
    }
    result, jump, plan := JumpReturned, Some(slot), prepared.1;
    BootEnds(crc, before, device.memory, images, s, loaded.selected, result, jump);
  }

  lemma UnreadableStays(crc: Checksum, flash: Flash, images: Images)
    requires ValidImages(images)
    ensures !LoadFlash(crc, flash).Loaded? ==>
              BootStep(crc, flash, flash, images, None) && UncutBoot(crc, flash, flash, images, ControlInvalid, None)
  {
  }

  /** The decision is carried out with the decided state in flash. */
  lemma BootEnds(crc: Checksum, before: Flash, after: Flash, images: Images, s: State, selected: nat,
                 result: TargetResult, jump: Option<u8>)
    requires ValidImages(images) && ValidState(s) && selected <= 1 && LoadFlash(crc, before) == Loaded(s, selected)
    requires result == if jump == None then RecoveryMode else JumpReturned
    requires jump == None <==> Selected(s, images).decision == Recovery
    requires jump.Some? ==> IsSlot(jump.value) && Selected(s, images).decision == Decide(jump.value)
    requires BootStep(crc, before, after, images, None)
    requires if Selected(s, images).changed then
               && LoadFlash(crc, after) == Loaded(Selected(s, images).state, Other(selected))
               && RecordAt(after, Other(selected)) == Committed(crc, Selected(s, images).state)
             else after == before
    ensures BootStep(crc, before, after, images, jump)
    ensures UncutBoot(crc, before, after, images, result, jump)
  {
    hide Bootable, RecordAt, Committed, CutContent, Load, Selected;
    SelectionIsExact(s, images);
  }

  /** The decided state goes to the record not in use before anything is started. */
  method PersistSelected(device: FlashDevice, crc: Checksum, images: Images, s: State, selected: nat, next: State)
    returns (ok: bool)
    requires device.Tracked() && ValidImages(images) && ValidState(s) && selected <= 1
    requires LoadFlash(crc, device.memory) == Loaded(s, selected)
    requires Selected(s, images).changed && next == Selected(s, images).state
    modifies device
    ensures device.Tracked() && |old(device.history)| <= |device.history|
    ensures device.history[..|old(device.history)|] == old(device.history)
    ensures forall i :: |old(device.history)| <= i < |device.history| ==>
              BootStep(crc, old(device.memory), device.history[i], images, None)
    ensures BootStep(crc, old(device.memory), device.memory, images, None)
    ensures ok ==>
              && LoadFlash(crc, device.memory) == Loaded(next, Other(selected))
              && RecordAt(device.memory, Other(selected)) == Committed(crc, next)
    ensures device.sound ==> ok
  {
    hide Bootable, RecordAt, Committed, CutContent, Decode, Load;
    OperationsSucceed(s, SLOT_A, 0, 0, Bootable(s, SLOT_A, images), Bootable(s, SLOT_B, images));
    ghost var before, from := device.memory, |device.history|;
    var persisted, evidence, verified := PersistControl(device, crc, next, Other(selected));
    forall i | from <= i < |device.history|
      ensures BootStep(crc, before, device.history[i], images, None)
    {
      assert CutContent(crc, before, device.history[i], Other(selected), next, verified <= i);
      CutWeakens(crc, before, device.history[i], Other(selected), next, verified <= i);
    }
    if |device.history| == from {
      NoBootNoChange(crc, before, images);
      assert device.memory == before;
    }
    ok := persisted == FlashOk;
    if ok {
      CutLoadsOldOrNew(crc, before, device.memory, s, selected, next, true);
    }
  }

  lemma ReadRecords(flash: Flash)
    ensures flash[RECORD_0_ADDRESS - CONTROL_BASE..RECORD_0_ADDRESS - CONTROL_BASE + RECORD_SIZE]
         == RecordAt(flash, 0)
    ensures flash[RECORD_1_ADDRESS - CONTROL_BASE..RECORD_1_ADDRESS - CONTROL_BASE + RECORD_SIZE]
         == RecordAt(flash, 1)
  {
  }

  lemma CutWeakens(crc: Checksum, before: Flash, now: Flash, target: nat, s: State, verified: bool)
    requires CutContent(crc, before, now, target, s, verified)
    ensures CutContent(crc, before, now, target, s, true)
  {
  }

  lemma NoBootNoChange(crc: Checksum, flash: Flash, images: Images)
    requires ValidImages(images)
    ensures BootStep(crc, flash, flash, images, None)
  {
    LoadedIsValid(crc, flash);
  }

  /** Only a bootable slot is ever decided for. */
  lemma DecidedIsBootable(s: State, images: Images, slot: u8)
    requires ValidState(s) && ValidImages(images) && IsSlot(slot)
    requires Selected(s, images).decision == Decide(slot)
    ensures Bootable(s, slot, images)
    ensures slot == s.confirmedSlot || (slot == s.pendingSlot && s.attempts > 0)
  {
    hide Bootable;
  }
}
