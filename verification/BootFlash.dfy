/**
 * Persisting a boot-control record: erase, body, verify, commit unit. The device may lose power
 * anywhere and lie in its return codes; its history holds every content the flash has had.
 */
module BootFlash {
  import opened Machine
  import opened BootControl

  const SECTOR_SIZE := 0x2000
  const UNIT_SIZE := 16
  const CONTROL_BASE := 0x081E_0000
  const RECORD_0_ADDRESS := CONTROL_BASE
  const RECORD_1_ADDRESS := CONTROL_BASE + SECTOR_SIZE
  const CONTROL_SIZE := 2 * SECTOR_SIZE

  /** The content of the two sectors that hold the redundant records. */
  type Flash = f: seq<u8> | |f| == CONTROL_SIZE witness seq(CONTROL_SIZE, i => 0xFF)

  function RecordAddress(target: nat): (a: nat) {
    if target == 0 then RECORD_0_ADDRESS else RECORD_1_ADDRESS
  }

  function RecordAt(flash: Flash, target: nat): (r: seq<u8>)
    ensures |r| == RECORD_SIZE
  {
    var at := RecordAddress(target) - CONTROL_BASE;
    flash[at..at + RECORD_SIZE]
  }

  function LoadFlash(crc: Checksum, flash: Flash): Loaded {
    Load(crc, RecordAt(flash, 0), RecordAt(flash, 1))
  }

  function Ones(n: nat): (r: seq<u8>)
    ensures |r| == n && forall i :: 0 <= i < n ==> r[i] == 0xFF
  {
    seq(n, i => 0xFF)
  }

  // ---------------------------------------------------------------- the record in RAM

  method WriteU32Le(data: array<u8>, k: nat, value: u32, ghost words: seq<u32>)
    requires data.Length == 4 * |words| && k < |words| && data[..] == Bytes(words)
    modifies data
    ensures data[..] == Bytes(words[k := value])
  {
    data[4 * k] := value % 0x100;
    data[4 * k + 1] := value / 0x100 % 0x100;
    data[4 * k + 2] := value / 0x1_0000 % 0x100;
    data[4 * k + 3] := value / 0x100_0000;
    forall i | 0 <= i < data.Length
      ensures data[i] == Bytes(words[k := value])[i]
    {
      assert i / 4 != k ==> data[i] == old(data[..])[i];
    }
  }

  method WriteU16Le(data: array<u8>, at: nat, value: u16)
    requires at + 2 <= data.Length
    modifies data
    ensures data[at] == value % 0x100 && data[at + 1] == value / 0x100
    ensures forall i :: 0 <= i < data.Length && i != at && i != at + 1 ==> data[i] == old(data[i])
  {
    data[at] := value % 0x100;
    data[at + 1] := value / 0x100;
  }

  /** Boot_Control_PrepareRecord: a state that is not valid is refused untouched. */
  method PrepareRecord(crc: Checksum, state: State, record: array<u8>) returns (r: Result)
    requires record.Length == RECORD_SIZE
    modifies record
    ensures r == if ValidState(state) then Ok else InvalidState
    ensures r == Ok ==> record[..] == Prepared(crc, state)
    ensures r != Ok ==> record[..] == old(record[..])
  {
    if !ValidState(state) {
      return InvalidState;
    }
    ClearRecord(record);
    WriteFields(state, record);
    hide Bytes, Words;
    BytesPrefix(Words(state), [0, 0]);
    var sum := crc(record[..CRC_OFFSET]);
    WriteU32Le(record, 14, sum, Words(state) + [0, 0]);
    WriteU32Le(record, 15, UINT32_MAX, Words(state) + [sum, 0]);
    assert Words(state) + [sum, UINT32_MAX] == (Words(state) + [sum, 0])[15 := UINT32_MAX];
    r := Ok;
  }

  method ClearRecord(record: array<u8>)
    requires record.Length == RECORD_SIZE
    modifies record
    ensures record[..] == Bytes(seq<u32>(16, i => 0))
  {
    var index := 0;
    while index < RECORD_SIZE
      invariant 0 <= index <= RECORD_SIZE
      invariant forall i :: 0 <= i < index ==> record[i] == 0
    {
      record[index] := 0;
      index := index + 1;
    }
  }

  method WriteFields(state: State, record: array<u8>)
    requires record.Length == RECORD_SIZE && record[..] == Bytes(seq<u32>(16, i => 0))
    modifies record
    ensures record[..] == Bytes(Words(state) + [0, 0])
  {
    hide Bytes;
    ghost var words := seq<u32>(16, i => 0);
    WriteU32Le(record, 0, RECORD_MAGIC, words);
    words := words[0 := RECORD_MAGIC];
    WriteFixedFields(state, record, words);
    words := words[1 := Words(state)[1]][3 := Words(state)[3]];
    WriteU32Le(record, 2, state.generation, words);
    words := words[2 := state.generation];
    WriteU32Le(record, 4, state.minimumSecurity, words);
    words := words[4 := state.minimumSecurity];
    WriteU32Le(record, 5, state.confirmedSecurity, words);
    words := words[5 := state.confirmedSecurity];
    WriteU32Le(record, 6, state.pendingSecurity, words);
    words := words[6 := state.pendingSecurity];
    WriteU32Le(record, 7, state.confirmedBuild, words);
    words := words[7 := state.confirmedBuild];
    WriteU32Le(record, 8, state.pendingBuild, words);
    words := words[8 := state.pendingBuild];
    assert words == Words(state) + [0, 0];
  }

  /** The fields narrower than a word: version and size, the slots and the attempts. */
  method WriteFixedFields(state: State, record: array<u8>, ghost words: seq<u32>)
    requires record.Length == RECORD_SIZE && |words| == 16 && record[..] == Bytes(words)
    requires words[1] == words[3] == 0
    modifies record
    ensures record[..] == Bytes(words[1 := Words(state)[1]][3 := Words(state)[3]])
  {
    hide Bytes, Words;
    ghost var before := record[..];
    WriteU16Le(record, 4, RECORD_VERSION);
    WriteU16Le(record, 6, RECORD_SIZE);
    record[12] := state.confirmedSlot;
    record[13] := state.pendingSlot;
    record[14] := state.attempts;
    LastByteIsZero(words, 3);
    WideFields(record[..], before, state, words);
  }

  lemma LastByteIsZero(words: seq<u32>, k: nat)
    requires k < |words| && words[k] == 0
    ensures |Bytes(words)| == 4 * |words| && Bytes(words)[4 * k + 3] == 0
  {
  }

  lemma WideFields(now: seq<u8>, before: seq<u8>, state: State, words: seq<u32>)
    requires |now| == RECORD_SIZE && |words| == 16 && before == Bytes(words)
    requires forall i :: 0 <= i < 4 || 8 <= i < 12 || 16 <= i < 64 ==> now[i] == before[i]
    requires (now[4], now[5], now[6], now[7]) == (1, 0, 64, 0)
    requires (now[12], now[13], now[14], now[15])
          == (state.confirmedSlot, state.pendingSlot, state.attempts, 0)
    ensures now == Bytes(words[1 := Words(state)[1]][3 := Words(state)[3]])
  {
    var wanted := words[1 := Words(state)[1]][3 := Words(state)[3]];
    forall k | 0 <= k < 16
      ensures ReadU32(now, 4 * k) == wanted[k]
    {
      if k == 1 {
        FourBytes(now, 4, 1, 0, 64, 0);
      } else if k == 3 {
        FourBytes(now, 12, state.confirmedSlot, state.pendingSlot, state.attempts, 0);
      } else {
        ReadWord(words, k);
      }
    }
    WordsDetermineBytes(now, wanted);
  }

  /** Boot_Control_MarkRecordCommitted */
  method MarkRecordCommitted(crc: Checksum, ghost state: State, record: array<u8>)
    requires record.Length == RECORD_SIZE && record[..] == Prepared(crc, state)
    modifies record
    ensures record[..] == Committed(crc, state)
    ensures record[..BODY_SIZE] == old(record[..BODY_SIZE])
  {
    ghost var words := Words(state) + [crc(Bytes(Words(state))), UINT32_MAX];
    WriteU32Le(record, 15, COMMIT_MARKER, words);
    assert words[15 := COMMIT_MARKER]
        == Words(state) + [crc(Bytes(Words(state))), COMMIT_MARKER];
    BytesPrefix(words[..12], words[12..]);
    BytesPrefix(words[..12], words[15 := COMMIT_MARKER][12..]);
    assert words == words[..12] + words[12..];
    assert words[15 := COMMIT_MARKER] == words[..12] + words[15 := COMMIT_MARKER][12..];
  }

  // ---------------------------------------------------------------- the device

  /** `after` is `before` with other bytes inside [at, at + |bytes|). */
  predicate Patched(before: Flash, after: Flash, at: nat, length: nat)
    requires at + length <= CONTROL_SIZE
  {
    after[..at] == before[..at] && after[at + length..] == before[at + length..]
  }

  function Patch(flash: Flash, at: nat, bytes: seq<u8>): (r: Flash)
    requires at + |bytes| <= CONTROL_SIZE
    ensures Patched(flash, r, at, |bytes|) && r[at..at + |bytes|] == bytes
  {
    flash[..at] + bytes + flash[at + |bytes|..]
  }

  /**
   * Erasing a sector happens or does not. Programming a unit may be torn and may end with any
   * sixteen bytes. Return codes promise nothing; only a successful read tells the truth. A sound
   * device does everything it is asked to, and says so.
   */
  class FlashDevice {
    const sound: bool
    var memory: Flash
    ghost var history: seq<Flash>

    ghost predicate Tracked()
      reads this
    {
      history != [] && history[|history| - 1] == memory
    }

    method Unlock() returns (ok: bool)
      ensures sound ==> ok
    {
      ok := *;
      ok := ok || sound;
    }

    method Lock() returns (ok: bool)
      ensures sound ==> ok
    {
      ok := *;
      ok := ok || sound;
    }

    method EraseSector(address: nat) returns (ok: bool)
      requires Tracked() && address in {RECORD_0_ADDRESS, RECORD_1_ADDRESS}
      modifies this
      ensures Tracked() && history == old(history) + [memory]
      ensures memory == old(memory)
              || memory == Patch(old(memory), address - CONTROL_BASE, Ones(SECTOR_SIZE))
      ensures sound ==> ok && memory == Patch(old(memory), address - CONTROL_BASE, Ones(SECTOR_SIZE))
    {
      var erased := *;
      if erased || sound {
        memory := Patch(memory, address - CONTROL_BASE, Ones(SECTOR_SIZE));
      }
      history := history + [memory];
      ok := *;
      ok := ok || sound;
    }

    method ProgramUnit(address: nat, data: seq<u8>) returns (ok: bool)
      requires Tracked() && |data| == UNIT_SIZE
      requires CONTROL_BASE <= address && address + UNIT_SIZE <= CONTROL_BASE + CONTROL_SIZE
      modifies this
      ensures Tracked() && |history| == |old(history)| + 2
      ensures history[..|old(history)|] == old(history)
      ensures forall i :: |old(history)| <= i < |history| ==>
                Patched(old(memory), history[i], address - CONTROL_BASE, UNIT_SIZE)
      ensures sound ==> ok && memory[address - CONTROL_BASE..address - CONTROL_BASE + UNIT_SIZE] == data
    {
      var at := address - CONTROL_BASE;
      var torn: seq<u8> := *;
      var left: seq<u8> := *;
      ghost var before := memory;
      memory := Patch(memory, at, if |torn| == UNIT_SIZE then torn else data);
      history := history + [memory];
      memory := Patch(memory, at, if |left| == UNIT_SIZE && !sound then left else data);
      assert memory[..at] == before[..at] && memory[at + UNIT_SIZE..] == before[at + UNIT_SIZE..];
      history := history + [memory];
      ok := *;
      ok := ok || sound;
    }

    method Read(address: nat, length: nat) returns (ok: bool, data: seq<u8>)
      requires CONTROL_BASE <= address && address + length <= CONTROL_BASE + CONTROL_SIZE
      ensures ok ==> data == memory[address - CONTROL_BASE..address - CONTROL_BASE + length]
      ensures sound ==> ok
    {
      ok := *;
      ok := ok || sound;
      data := memory[address - CONTROL_BASE..address - CONTROL_BASE + length];
    }
  }

  /** Reads back unit by unit and compares byte by byte. */
  method VerifyRange(device: FlashDevice, address: nat, expected: seq<u8>) returns (same: bool)
    requires |expected| % UNIT_SIZE == 0 && CONTROL_BASE <= address
    requires address + |expected| <= CONTROL_BASE + CONTROL_SIZE
    ensures same ==> device.memory[address - CONTROL_BASE..][..|expected|] == expected
    ensures device.sound && device.memory[address - CONTROL_BASE..][..|expected|] == expected ==> same
  {
    var base := address - CONTROL_BASE;
    var offset := 0;
    while offset < |expected|
      invariant 0 <= offset <= |expected| && offset % UNIT_SIZE == 0
      invariant device.memory[base..][..offset] == expected[..offset]
    {
      var ok, readback := device.Read(address + offset, UNIT_SIZE);
      if !ok {
        return false;
      }
      var index := 0;
      while index < UNIT_SIZE
        invariant 0 <= index <= UNIT_SIZE
        invariant device.memory[base..][..offset + index] == expected[..offset + index]
      {
        if readback[index] != expected[offset + index] {
          assert device.memory[base..][..|expected|][offset + index] != expected[offset + index];
          return false;
        }
        assert device.memory[base + offset + index] == expected[offset + index];
        index := index + 1;
      }
      offset := offset + UNIT_SIZE;
    }
    same := true;
  }

  // ---------------------------------------------------------------- persisting

  datatype FlashResult =
    | FlashOk | FlashInvalidArgument | FlashInvalidState | UnlockFailed | EraseFailed
    | EraseVerifyFailed | BodyProgramFailed | BodyVerifyFailed | CommitProgramFailed
    | FinalVerifyFailed | LockFailed

  datatype Evidence = Evidence(bodyUnits: nat, commitProgrammed: bool, locked: bool)

  /** The target record is as it was, or not acceptable. */
  predicate Unaccepted(crc: Checksum, before: Flash, now: Flash, target: nat) {
    RecordAt(now, target) == RecordAt(before, target) || Decode(crc, RecordAt(now, target)) == None
  }

  /** What a power cut may leave behind, before and after the body has been verified. */
  predicate CutContent(crc: Checksum, before: Flash, now: Flash, target: nat, s: State, verified: bool) {
    && RecordAt(now, Other(target)) == RecordAt(before, Other(target))
    && (Unaccepted(crc, before, now, target)
        || (verified && RecordAt(now, target) == Committed(crc, s)))
  }

  /** Without its commit marker a record is not acceptable. */
  lemma ErasedMarker(crc: Checksum, r: seq<u8>)
    requires |r| == RECORD_SIZE && r[COMMIT_OFFSET] == 0xFF
    ensures Decode(crc, r) == None
  {
    WordBytes(r, COMMIT_OFFSET);
    assert U32Le(COMMIT_MARKER)[0] == 0x5A;
    assert U32Le(ReadU32(r, COMMIT_OFFSET))[0] == r[COMMIT_OFFSET + 0];
  }

  /** With its body in place, the last sixteen bytes have exactly one acceptable value. */
  lemma TornCommit(crc: Checksum, r: seq<u8>, s: State)
    requires |r| == RECORD_SIZE && r[..BODY_SIZE] == Committed(crc, s)[..BODY_SIZE]
    ensures Decode(crc, r) == None || r == Committed(crc, s)
  {
    if Decode(crc, r).Some? {
      DecodedIsCommitted(crc, r);
      SameBodySameFields(r, Committed(crc, s));
      CommittedWords(crc, s);
      WordsDetermineFields(Committed(crc, s), s);
    }
  }

  lemma SameBodySameFields(r: seq<u8>, t: seq<u8>)
    requires |r| == |t| == RECORD_SIZE && r[..BODY_SIZE] == t[..BODY_SIZE]
    ensures Fields(r) == Fields(t)
  {
    assert forall i :: 0 <= i < BODY_SIZE ==> r[i] == r[..BODY_SIZE][i] == t[i];
  }

  /** Programming one body unit of an erased record leaves the marker erased. */
  lemma BodyUnitKeepsCut(crc: Checksum, before: Flash, was: Flash, now: Flash, target: nat, s: State, u: nat)
    requires target <= 1 && u < 3
    requires CutContent(crc, before, was, target, s, false)
    requires RecordAt(was, target)[COMMIT_OFFSET] == 0xFF
    requires Patched(was, now, RecordAddress(target) - CONTROL_BASE + UNIT_SIZE * u, UNIT_SIZE)
    ensures CutContent(crc, before, now, target, s, false)
    ensures RecordAt(now, target)[COMMIT_OFFSET] == 0xFF
  {
    hide Decode, Committed, Patched;
    PatchedBytes(was, now, RecordAddress(target) - CONTROL_BASE + UNIT_SIZE * u, UNIT_SIZE);
    assert RecordAt(now, Other(target)) == RecordAt(was, Other(target));
    ErasedMarker(crc, RecordAt(now, target));
  }

  lemma PatchedBytes(before: Flash, after: Flash, at: nat, length: nat)
    requires at + length <= CONTROL_SIZE && Patched(before, after, at, length)
    ensures forall i :: 0 <= i < CONTROL_SIZE && !(at <= i < at + length) ==> after[i] == before[i]
  {
    forall i | 0 <= i < CONTROL_SIZE && !(at <= i < at + length)
      ensures after[i] == before[i]
    {
      if i < at {
        assert after[i] == after[..at][i] == before[..at][i];
      } else {
        assert after[i] == after[at + length..][i - at - length]
                        == before[at + length..][i - at - length];
      }
    }
  }

  /** Programming the last unit over a verified body leaves the new record or none. */
  lemma CommitUnitKeepsCut(crc: Checksum, before: Flash, was: Flash, now: Flash, target: nat, s: State)
    requires target <= 1
    requires CutContent(crc, before, was, target, s, false)
    requires RecordAt(was, target)[..BODY_SIZE] == Committed(crc, s)[..BODY_SIZE]
    requires Patched(was, now, RecordAddress(target) - CONTROL_BASE + BODY_SIZE, UNIT_SIZE)
    ensures CutContent(crc, before, now, target, s, true)
  {
    PatchedBytes(was, now, RecordAddress(target) - CONTROL_BASE + BODY_SIZE, UNIT_SIZE);
    assert RecordAt(now, Other(target)) == RecordAt(was, Other(target));
    assert RecordAt(now, target)[..BODY_SIZE] == RecordAt(was, target)[..BODY_SIZE];
    TornCommit(crc, RecordAt(now, target), s);
  }

  /** Erasing the target sector, or failing to. */
  lemma EraseKeepsCut(crc: Checksum, before: Flash, now: Flash, target: nat, s: State)
    requires target <= 1
    requires now == before
             || now == Patch(before, RecordAddress(target) - CONTROL_BASE, Ones(SECTOR_SIZE))
    ensures CutContent(crc, before, now, target, s, false)
  {
    var at := RecordAddress(target) - CONTROL_BASE;
    if now != before {
      PatchedBytes(before, now, at, SECTOR_SIZE);
      assert RecordAt(now, Other(target)) == RecordAt(before, Other(target));
      assert now[at + COMMIT_OFFSET] == now[at..at + SECTOR_SIZE][COMMIT_OFFSET] == 0xFF;
      ErasedMarker(crc, RecordAt(now, target));
    }
  }

  /** Every content since `from` is one a cut may leave; from `verified` on, the new one too. */
  ghost predicate Survivable(crc: Checksum, before: Flash, history: seq<Flash>, from: nat, verified: nat,
                             target: nat, s: State)
  {
    forall i :: from <= i < |history| ==>
      CutContent(crc, before, history[i], target, s, verified <= i)
  }

  /**
   * Boot_Flash_PersistControl. `verified` is the point in the history at which the body had been
   * read back; it lies beyond the end if that never happened.
   */
  method PersistControl(device: FlashDevice, crc: Checksum, state: State, target: nat)
    returns (result: FlashResult, evidence: Evidence, ghost verified: nat)
    requires device.Tracked()
    modifies device
    ensures device.Tracked() && |old(device.history)| <= |device.history|
    ensures device.history[..|old(device.history)|] == old(device.history)
    ensures |old(device.history)| <= verified
    ensures Survivable(crc, old(device.memory), device.history, |old(device.history)|, verified,
                       target, state)
    ensures result == FlashOk ==>
              target <= 1 && ValidState(state) && evidence == Evidence(3, true, true)
              && RecordAt(device.memory, target) == Committed(crc, state)
              && RecordAt(device.memory, Other(target)) == RecordAt(old(device.memory), Other(target))
    ensures device.sound && target <= 1 && ValidState(state) ==> result == FlashOk
    ensures target > 1 || !ValidState(state) ==>
              device.memory == old(device.memory) && device.history == old(device.history)
              && result == if target > 1 then FlashInvalidArgument else FlashInvalidState
  {
    evidence := Evidence(0, false, false);
    verified := |device.history|;
    if target > 1 {
      return FlashInvalidArgument, evidence, verified;
    }
    var record := new u8[RECORD_SIZE];
    var prepared := PrepareRecord(crc, state, record);
    if prepared != Ok {
      return FlashInvalidState, evidence, verified;
    }
    var ok := device.Unlock();
    if ok {
      result, evidence, verified := EraseAndProgram(device, crc, state, target, record);
    } else {
      result := UnlockFailed;
    }
    ok := device.Lock();
    if ok {
      evidence := evidence.(locked := true);
    } else {
      result := LockFailed;
    }
  }

  /** History grows from a survivable past by contents that are survivable themselves. */
  lemma SurvivableGrows(crc: Checksum, before: Flash, past: seq<Flash>, now: seq<Flash>, from: nat,
                        target: nat, s: State, verified: nat)
    requires Survivable(crc, before, past, from, |past|, target, s)
    requires |past| <= |now| && now[..|past|] == past && |past| <= verified
    requires forall i :: |past| <= i < |now| ==>
               CutContent(crc, before, now[i], target, s, verified <= i)
    ensures Survivable(crc, before, now, from, verified, target, s)
  {
    hide CutContent;
    forall i | from <= i < |now|
      ensures CutContent(crc, before, now[i], target, s, verified <= i)
    {
      if i < |past| {
        assert now[i] == past[i];
      }
    }
  }

  lemma ErasedSurvives(crc: Checksum, before: Flash, history: seq<Flash>, from: nat, target: nat, s: State)
    requires |history| == from + 1 && CutContent(crc, before, history[from], target, s, false)
    ensures Survivable(crc, before, history, from, |history|, target, s)
  {
    hide CutContent;
  }

  /** The part between unlocking and locking. */
  method EraseAndProgram(device: FlashDevice, crc: Checksum, state: State, target: nat, record: array<u8>)
    returns (result: FlashResult, evidence: Evidence, ghost verified: nat)
    requires device.Tracked() && target <= 1 && ValidState(state)
    requires record.Length == RECORD_SIZE && record[..] == Prepared(crc, state)
    modifies device, record
    ensures device.Tracked() && |old(device.history)| <= |device.history|
    ensures device.history[..|old(device.history)|] == old(device.history)
    ensures |old(device.history)| <= verified
    ensures Survivable(crc, old(device.memory), device.history, |old(device.history)|, verified,
                       target, state)
    ensures !evidence.locked
    ensures device.sound ==> result == FlashOk
    ensures result == FlashOk ==>
              && evidence == Evidence(3, true, false)
              && RecordAt(device.memory, target) == Committed(crc, state)
              && RecordAt(device.memory, Other(target)) == RecordAt(old(device.memory), Other(target))
  {
    hide Committed, Prepared, Decode, CutContent, RecordAt, Patch, Patched, Survivable, ValidState;
    evidence := Evidence(0, false, false);
    ghost var before := device.memory;
    result := EraseTarget(device, target);
    verified := |device.history|;
    EraseKeepsCut(crc, before, device.memory, target, state);
    ErasedSurvives(crc, before, device.history, |old(device.history)|, target, state);
    if result != FlashOk {
      return result, evidence, verified;
    }
    var units;
    result, units := ProgramBody(device, crc, state, target, record, before, |old(device.history)|);
    evidence := evidence.(bodyUnits := units);
    verified := |device.history|;
    if result == FlashOk {
      var programmed;
      result, programmed :=
        ProgramCommit(device, crc, state, target, record, before, |old(device.history)|);
      evidence := evidence.(commitProgrammed := programmed);
    }
  }

  /** Erases the sector and reads back that the record is blank. */
  method EraseTarget(device: FlashDevice, target: nat) returns (result: FlashResult)
    requires device.Tracked() && target <= 1
    modifies device
    ensures device.Tracked() && device.history == old(device.history) + [device.memory]
    ensures device.memory == old(device.memory)
            || device.memory == Patch(old(device.memory), RecordAddress(target) - CONTROL_BASE, Ones(SECTOR_SIZE))
    ensures result in {FlashOk, EraseFailed, EraseVerifyFailed}
    ensures device.sound ==> result == FlashOk
    ensures result == FlashOk ==> RecordAt(device.memory, target)[COMMIT_OFFSET] == 0xFF
  {
    hide RecordAt, Patch, Patched;
    var ok := device.EraseSector(RecordAddress(target));
    if !ok {
      return EraseFailed;
    }
    if device.sound {
      ErasedRecord(old(device.memory), target);
    }
    ok := VerifyRange(device, RecordAddress(target), Ones(RECORD_SIZE));
    if !ok {
      return EraseVerifyFailed;
    }
    SlicedRecord(device.memory, target, RECORD_SIZE);
    assert RecordAt(device.memory, target)[..RECORD_SIZE] == RecordAt(device.memory, target);
    result := FlashOk;
  }

  lemma ErasedRecord(flash: Flash, target: nat)
    ensures var erased := Patch(flash, RecordAddress(target) - CONTROL_BASE, Ones(SECTOR_SIZE));
            erased[RecordAddress(target) - CONTROL_BASE..][..RECORD_SIZE] == Ones(RECORD_SIZE)
  {
    var at := RecordAddress(target) - CONTROL_BASE;
    var erased := Patch(flash, at, Ones(SECTOR_SIZE));
    forall i | 0 <= i < RECORD_SIZE
      ensures erased[at..][..RECORD_SIZE][i] == 0xFF
    {
      assert erased[at..at + SECTOR_SIZE][i] == erased[at + i];
    }
  }

  /** One more unit of the record is in place. */
  lemma UnitInPlace(was: Flash, now: Flash, target: nat, u: nat, record: seq<u8>)
    requires |record| == RECORD_SIZE && u < 4
    requires Patched(was, now, RecordAddress(target) - CONTROL_BASE + UNIT_SIZE * u, UNIT_SIZE)
    requires RecordAt(was, target)[..UNIT_SIZE * u] == record[..UNIT_SIZE * u]
    requires var at := RecordAddress(target) - CONTROL_BASE + UNIT_SIZE * u;
             now[at..at + UNIT_SIZE] == record[UNIT_SIZE * u..UNIT_SIZE * (u + 1)]
    ensures RecordAt(now, target)[..UNIT_SIZE * (u + 1)] == record[..UNIT_SIZE * (u + 1)]
  {
    var at, k := RecordAddress(target) - CONTROL_BASE, UNIT_SIZE * u;
    PatchedBytes(was, now, at + k, UNIT_SIZE);
    hide Patched;
    forall i | 0 <= i < k + UNIT_SIZE
      ensures RecordAt(now, target)[i] == record[i]
    {
      if i < k {
        assert RecordAt(was, target)[..k][i] == record[..k][i];
      } else {
        assert now[at + k..at + k + UNIT_SIZE][i - k] == record[k..k + UNIT_SIZE][i - k];
      }
    }
  }

  /** Three body units, then their read-back. */
  method ProgramBody(device: FlashDevice, crc: Checksum, state: State, target: nat, record: array<u8>,
                     ghost before: Flash, ghost from: nat)
    returns (result: FlashResult, units: nat)
    requires device.Tracked() && target <= 1 && record.Length == RECORD_SIZE
    requires from < |device.history|
    requires Survivable(crc, before, device.history, from, |device.history|, target, state)
    requires RecordAt(device.memory, target)[COMMIT_OFFSET] == 0xFF
    modifies device
    ensures device.Tracked() && |old(device.history)| <= |device.history|
    ensures device.history[..|old(device.history)|] == old(device.history)
    ensures Survivable(crc, before, device.history, from, |device.history|, target, state)
    ensures units <= 3
    ensures device.sound ==> result == FlashOk
    ensures result == FlashOk ==>
              units == 3 && RecordAt(device.memory, target)[..BODY_SIZE] == record[..BODY_SIZE]
  {
    hide Decode, Committed, Patched, CutContent, RecordAt;
    units := 0;
    while units < 3
      invariant units <= 3
      invariant device.Tracked() && |old(device.history)| <= |device.history|
      invariant device.history[..|old(device.history)|] == old(device.history)
      invariant Survivable(crc, before, device.history, from, |device.history|, target, state)
      invariant RecordAt(device.memory, target)[COMMIT_OFFSET] == 0xFF
      invariant device.sound ==>
                  RecordAt(device.memory, target)[..UNIT_SIZE * units] == record[..][..UNIT_SIZE * units]
    {
      ghost var was, past := device.memory, device.history;
      assert was == past[|past| - 1];
      var ok := device.ProgramUnit(RecordAddress(target) + UNIT_SIZE * units,
                                   record[UNIT_SIZE * units..UNIT_SIZE * (units + 1)]);
      forall i | |past| <= i < |device.history|
        ensures CutContent(crc, before, device.history[i], target, state, false)
        ensures RecordAt(device.history[i], target)[COMMIT_OFFSET] == 0xFF
      {
        BodyUnitKeepsCut(crc, before, was, device.history[i], target, state, units);
      }
      SurvivableGrows(crc, before, past, device.history, from, target, state, |device.history|);
      assert device.history[..|old(device.history)|] == past[..|old(device.history)|];
      if !ok {
        return BodyProgramFailed, units;
      }
      if device.sound {
        UnitInPlace(was, device.memory, target, units, record[..]);
      }
      units := units + 1;
    }
    SlicedRecord(device.memory, target, BODY_SIZE);
    var same := VerifyRange(device, RecordAddress(target), record[..BODY_SIZE]);
    if !same {
      return BodyVerifyFailed, units;
    }
    result := FlashOk;
  }

  lemma SlicedRecord(flash: Flash, target: nat, length: nat)
    requires length <= RECORD_SIZE
    ensures flash[RecordAddress(target) - CONTROL_BASE..][..length] == RecordAt(flash, target)[..length]
  {
  }

  /** The commit unit, then the read-back of the whole record. */
  method ProgramCommit(device: FlashDevice, crc: Checksum, state: State, target: nat, record: array<u8>,
                       ghost before: Flash, ghost from: nat)
    returns (result: FlashResult, programmed: bool)
    requires device.Tracked() && target <= 1
    requires record.Length == RECORD_SIZE && record[..] == Prepared(crc, state)
    requires from < |device.history|
    requires Survivable(crc, before, device.history, from, |device.history|, target, state)
    requires RecordAt(device.memory, target)[..BODY_SIZE] == record[..BODY_SIZE]
    modifies device, record
    ensures device.Tracked() && |old(device.history)| <= |device.history|
    ensures device.history[..|old(device.history)|] == old(device.history)
    ensures Survivable(crc, before, device.history, from, |old(device.history)|, target, state)
    ensures device.sound ==> result == FlashOk
    ensures result == FlashOk ==>
              && programmed
              && RecordAt(device.memory, target) == Committed(crc, state)
              && RecordAt(device.memory, Other(target)) == RecordAt(before, Other(target))
  {
    hide Decode, Committed, Prepared, Patched, RecordAt;
    programmed := false;
    MarkRecordCommitted(crc, state, record);
    assert record[..][..BODY_SIZE] == record[..BODY_SIZE];
    ghost var was, past := device.memory, device.history;
    assert was == past[|past| - 1];
    var ok := device.ProgramUnit(RecordAddress(target) + BODY_SIZE, record[BODY_SIZE..]);
    forall i | |past| <= i < |device.history|
      ensures CutContent(crc, before, device.history[i], target, state, true)
    {
      CommitUnitKeepsCut(crc, before, was, device.history[i], target, state);
    }
    SurvivableGrows(crc, before, past, device.history, from, target, state, |past|);
    if !ok {
      return CommitProgramFailed, false;
    }
    programmed := true;
    if device.sound {
      UnitInPlace(was, device.memory, target, 3, record[..]);
    }
    SlicedRecord(device.memory, target, RECORD_SIZE);
    assert RecordAt(device.memory, target)[..RECORD_SIZE] == RecordAt(device.memory, target);
    var same := VerifyRange(device, RecordAddress(target), record[..]);
    if !same {
      return FinalVerifyFailed, true;
    }
    result := FlashOk;
  }

  // ---------------------------------------------------------------- what a reboot sees

  /** Whatever a cut leaves loads as the old state or as the new one, the latter only if verified. */
  lemma CutLoadsOldOrNew(crc: Checksum, before: Flash, now: Flash, old': State, selected: nat, s: State,
                         verified: bool)
    requires LoadFlash(crc, before) == Loaded(old', selected) && Succeeds(old', s)
    requires CutContent(crc, before, now, Other(selected), s, verified)
    ensures LoadFlash(crc, now) == Loaded(old', selected)
            || (verified && LoadFlash(crc, now) == Loaded(s, Other(selected)))
    ensures RecordAt(now, Other(selected)) == Committed(crc, s) ==>
              LoadFlash(crc, now) == Loaded(s, Other(selected))
  {
    hide RecordAt, Committed, Decode, ValidState, Sub32;
    CommittedDecodes(crc, s);
    SuccessorWins(crc, RecordAt(now, 0), RecordAt(now, 1), old', s);
  }
}
