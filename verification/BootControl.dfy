/**
 * The redundant boot-control record: its state, its 64-byte form, the choice between two
 * records, and the three operations that move the state on. The checksum is a parameter:
 * everything holds for every checksum function.
 */
module BootControl {
  import opened Machine

  type Checksum = seq<u8> -> u32

  const RECORD_SIZE := 64
  const CRC_OFFSET := 56
  const COMMIT_OFFSET := 60
  const BODY_SIZE := 48
  const RECORD_MAGIC: u32 := 0x31544342
  const RECORD_VERSION := 1
  const COMMIT_MARKER: u32 := 0xC04E_7A5A
  const MAX_PENDING_ATTEMPTS := 3

  /** Slots as stored: any other byte is invalid. */
  const NO_SLOT: u8 := 0
  const SLOT_A: u8 := 1
  const SLOT_B: u8 := 2

  datatype State = State(
    generation: u32, confirmedSlot: u8, pendingSlot: u8, attempts: u8,
    minimumSecurity: u32, confirmedSecurity: u32, pendingSecurity: u32,
    confirmedBuild: u32, pendingBuild: u32)

  predicate IsSlot(slot: u8) {
    slot == SLOT_A || slot == SLOT_B
  }

  predicate ValidState(s: State) {
    && s.generation != 0 && IsSlot(s.confirmedSlot)
    && s.confirmedSecurity == s.minimumSecurity
    && if s.pendingSlot == NO_SLOT then
         s.attempts == 0 && s.pendingSecurity == 0 && s.pendingBuild == 0
       else
         && IsSlot(s.pendingSlot) && s.pendingSlot != s.confirmedSlot
         && s.attempts <= MAX_PENDING_ATTEMPTS && s.pendingSecurity > s.minimumSecurity
  }

  // ---------------------------------------------------------------- bytes

  function U32Le(v: u32): (b: seq<u8>)
    ensures |b| == 4
  {
    [v % 0x100, v / 0x100 % 0x100, v / 0x1_0000 % 0x100, v / 0x100_0000]
  }

  function ReadU16(d: seq<u8>, at: nat): (v: u16)
    requires at + 2 <= |d|
  {
    var high: nat := d[at + 1];
    d[at] + 0x100 * high
  }

  function ReadU32(d: seq<u8>, at: nat): (v: u32)
    requires at + 4 <= |d|
  {
    var b1: nat, b2: nat, b3: nat := d[at + 1], d[at + 2], d[at + 3];
    d[at] + 0x100 * b1 + 0x1_0000 * b2 + 0x100_0000 * b3
  }

  /** Little-endian words, laid out one after the other. */
  function Bytes(words: seq<u32>): (d: seq<u8>)
    ensures |d| == 4 * |words|
  {
    seq<u8>(4 * |words|, i requires 0 <= i < 4 * |words| => U32Le(words[i / 4])[i % 4])
  }

  lemma ReadWord(words: seq<u32>, k: nat)
    requires k < |words|
    ensures ReadU32(Bytes(words), 4 * k) == words[k]
  {
    var d, b := Bytes(words), U32Le(words[k]);
    assert d[4 * k + 0] == b[0];
    assert d[4 * k + 1] == b[1];
    assert d[4 * k + 2] == b[2];
    assert d[4 * k + 3] == b[3];
    SplitWord(words[k]);
    hide Bytes;
  }

  lemma SplitWord(v: u32)
    ensures v == v % 0x100 + 0x100 * (v / 0x100 % 0x100) + 0x1_0000 * (v / 0x1_0000 % 0x100)
                 + 0x100_0000 * (v / 0x100_0000)
  {
    var v1, v2, v3 := v / 0x100, v / 0x1_0000, v / 0x100_0000;
    assert v1 == 0x100 * v2 + v1 % 0x100;
    assert v2 == 0x100 * v3 + v2 % 0x100;
  }

  /** A word read is the four bytes it would be written as. */
  lemma WordBytes(d: seq<u8>, at: nat)
    requires at + 4 <= |d|
    ensures forall i :: 0 <= i < 4 ==> U32Le(ReadU32(d, at))[i] == d[at + i]
  {
    var v: nat := ReadU32(d, at);
    var b0: nat, b1: nat, b2: nat, b3: nat := d[at], d[at + 1], d[at + 2], d[at + 3];
    assert v / 0x100 == b1 + 0x100 * b2 + 0x1_0000 * b3;
    assert v / 0x1_0000 == b2 + 0x100 * b3;
  }

  lemma WordsDetermineBytes(d: seq<u8>, words: seq<u32>)
    requires |d| == 4 * |words|
    requires forall k :: 0 <= k < |words| ==> ReadU32(d, 4 * k) == words[k]
    ensures d == Bytes(words)
  {
    forall i | 0 <= i < |d|
      ensures d[i] == Bytes(words)[i]
    {
      WordBytes(d, 4 * (i / 4));
      assert ReadU32(d, 4 * (i / 4)) == words[i / 4];
    }
  }

  // ---------------------------------------------------------------- the record

  /** The fourteen words in front of the checksum: version and size share one, so do the slots. */
  function Words(s: State): (w: seq<u32>)
    ensures |w| == CRC_OFFSET / 4
  {
    var pending: nat, attempts: nat := s.pendingSlot, s.attempts;
    [RECORD_MAGIC, RECORD_VERSION + 0x1_0000 * RECORD_SIZE, s.generation,
     s.confirmedSlot + 0x100 * pending + 0x1_0000 * attempts,
     s.minimumSecurity, s.confirmedSecurity, s.pendingSecurity, s.confirmedBuild, s.pendingBuild,
     0, 0, 0, 0, 0]
  }

  function Record(crc: Checksum, s: State, marker: u32): (r: seq<u8>)
    ensures |r| == RECORD_SIZE
  {
    Bytes(Words(s) + [crc(Bytes(Words(s))), marker])
  }

  /** Boot_Control_PrepareRecord and Boot_Control_MarkRecordCommitted. */
  function Prepared(crc: Checksum, s: State): (r: seq<u8>) {
    Record(crc, s, UINT32_MAX)
  }

  function Committed(crc: Checksum, s: State): (r: seq<u8>)
    ensures |r| == RECORD_SIZE
  {
    Record(crc, s, COMMIT_MARKER)
  }

  predicate Framed(crc: Checksum, r: seq<u8>)
    requires |r| == RECORD_SIZE
  {
    && ReadU32(r, 0) == RECORD_MAGIC
    && ReadU16(r, 4) == RECORD_VERSION && ReadU16(r, 6) == RECORD_SIZE
    && r[15] == 0 && ReadU32(r, 36) == 0
    && ReadU32(r, COMMIT_OFFSET) == COMMIT_MARKER
    && (forall w :: 0 <= w < 4 ==> ReadU32(r, 40 + 4 * w) == 0)
    && crc(r[..CRC_OFFSET]) == ReadU32(r, CRC_OFFSET)
  }

  function Fields(r: seq<u8>): (s: State)
    requires |r| == RECORD_SIZE
  {
    State(ReadU32(r, 8), r[12], r[13], r[14], ReadU32(r, 16), ReadU32(r, 20), ReadU32(r, 24),
          ReadU32(r, 28), ReadU32(r, 32))
  }

  function Decode(crc: Checksum, r: seq<u8>): (s: Option<State>)
    requires |r| == RECORD_SIZE
  {
    if Framed(crc, r) && ValidState(Fields(r)) then Some(Fields(r)) else None
  }

  /** What decodes is exactly what is committed: the 64 bytes are canonical. */
  lemma DecodeIsInverse(crc: Checksum, r: seq<u8>, s: State)
    requires |r| == RECORD_SIZE
    ensures Decode(crc, r) == Some(s) <==> ValidState(s) && r == Committed(crc, s)
  {
    if ValidState(s) && r == Committed(crc, s) {
      CommittedDecodes(crc, s);
    }
    if Decode(crc, r) == Some(s) {
      DecodedIsCommitted(crc, r);
    }
  }

  lemma FourBytes(d: seq<u8>, at: nat, b0: u8, b1: u8, b2: u8, b3: u8)
    requires at + 4 <= |d|
    ensures var n1: nat, n2: nat, n3: nat := b1, b2, b3;
            ReadU32(d, at) == b0 + 0x100 * n1 + 0x1_0000 * n2 + 0x100_0000 * n3
            <==> (d[at], d[at + 1], d[at + 2], d[at + 3]) == (b0, b1, b2, b3)
  {
    var n1: nat, n2: nat, n3: nat := b1, b2, b3;
    var m1: nat, m2: nat, m3: nat := d[at + 1], d[at + 2], d[at + 3];
    if ReadU32(d, at) == b0 + 0x100 * n1 + 0x1_0000 * n2 + 0x100_0000 * n3 {
      assert d[at] - b0 == 0x100 * ((n1 - m1) + 0x100 * (n2 - m2) + 0x1_0000 * (n3 - m3));
      assert d[at] == b0;
      assert m1 - n1 == 0x100 * ((n2 - m2) + 0x100 * (n3 - m3));
    }
  }

  /** The fixed fields are right exactly if every word is the one its state would be written as. */
  lemma FieldsAsWords(r: seq<u8>)
    requires |r| == RECORD_SIZE
    ensures (&& ReadU32(r, 0) == RECORD_MAGIC
             && ReadU16(r, 4) == RECORD_VERSION && ReadU16(r, 6) == RECORD_SIZE
             && r[15] == 0 && ReadU32(r, 36) == 0
             && forall w :: 0 <= w < 4 ==> ReadU32(r, 40 + 4 * w) == 0)
            <==> forall k :: 0 <= k < 14 ==> ReadU32(r, 4 * k) == Words(Fields(r))[k]
  {
    var words := Words(Fields(r));
    FourBytes(r, 4, RECORD_VERSION, 0, RECORD_SIZE, 0);
    FourBytes(r, 12, r[12], r[13], r[14], 0);
    hide ReadU32;
    if forall k :: 0 <= k < 14 ==> ReadU32(r, 4 * k) == words[k] {
      assert ReadU32(r, 4 * 0) == words[0] && ReadU32(r, 4 * 1) == words[1];
      assert ReadU32(r, 4 * 3) == words[3] && ReadU32(r, 4 * 9) == words[9];
      forall w | 0 <= w < 4
        ensures ReadU32(r, 40 + 4 * w) == 0
      {
        assert ReadU32(r, 4 * (10 + w)) == words[10 + w] == 0;
      }
    } else if forall w :: 0 <= w < 4 ==> ReadU32(r, 40 + 4 * w) == 0 {
      assert ReadU32(r, 40 + 4 * 0) == 0 && ReadU32(r, 40 + 4 * 1) == 0;
      assert ReadU32(r, 40 + 4 * 2) == 0 && ReadU32(r, 40 + 4 * 3) == 0;
    }
  }

  lemma CommittedWords(crc: Checksum, s: State)
    ensures forall k :: 0 <= k < 14 ==> ReadU32(Committed(crc, s), 4 * k) == Words(s)[k]
    ensures ReadU32(Committed(crc, s), CRC_OFFSET) == crc(Committed(crc, s)[..CRC_OFFSET])
    ensures ReadU32(Committed(crc, s), COMMIT_OFFSET) == COMMIT_MARKER
  {
    var words := Words(s) + [crc(Bytes(Words(s))), COMMIT_MARKER];
    var r := Committed(crc, s);
    BytesPrefix(Words(s), [crc(Bytes(Words(s))), COMMIT_MARKER]);
    hide Words, ReadU32, Bytes;
    forall k | 0 <= k < 16
      ensures ReadU32(r, 4 * k) == words[k]
    {
      ReadWord(words, k);
    }
    assert ReadU32(r, 4 * 14) == words[14] && ReadU32(r, 4 * 15) == words[15];
  }

  lemma BytesPrefix(front: seq<u32>, back: seq<u32>)
    ensures Bytes(front + back)[..4 * |front|] == Bytes(front)
  {
  }

  /** The words determine the state they were written from. */
  lemma WordsDetermineFields(r: seq<u8>, s: State)
    requires |r| == RECORD_SIZE
    requires forall k :: 2 <= k < 9 ==> ReadU32(r, 4 * k) == Words(s)[k]
    ensures Fields(r) == s
  {
    assert ReadU32(r, 4 * 2) == Words(s)[2] && ReadU32(r, 4 * 3) == Words(s)[3];
    assert ReadU32(r, 4 * 4) == Words(s)[4] && ReadU32(r, 4 * 5) == Words(s)[5];
    assert ReadU32(r, 4 * 6) == Words(s)[6] && ReadU32(r, 4 * 7) == Words(s)[7];
    assert ReadU32(r, 4 * 8) == Words(s)[8];
    FourBytes(r, 12, s.confirmedSlot, s.pendingSlot, s.attempts, 0);
    hide ReadU32;
  }

  lemma CommittedDecodes(crc: Checksum, s: State)
    requires ValidState(s)
    ensures Decode(crc, Committed(crc, s)) == Some(s)
  {
    CommittedWords(crc, s);
    WordsDetermineFields(Committed(crc, s), s);
    FieldsAsWords(Committed(crc, s));
    hide Committed, Words, Fields, ReadU32, ReadU16;
  }

  lemma DecodedIsCommitted(crc: Checksum, r: seq<u8>)
    requires |r| == RECORD_SIZE && Decode(crc, r).Some?
    ensures r == Committed(crc, Decode(crc, r).value)
  {
    var front := Words(Fields(r));
    FieldsAsWords(r);
    assert forall k :: 0 <= k < 14 ==> ReadU32(r[..CRC_OFFSET], 4 * k) == ReadU32(r, 4 * k);
    WordsDetermineBytes(r[..CRC_OFFSET], front);
    var words := front + [crc(Bytes(front)), COMMIT_MARKER];
    hide Words;
    assert ReadU32(r, 4 * 14) == words[14] && ReadU32(r, 4 * 15) == words[15];
    WordsDetermineBytes(r, words);
  }

  /** The four bytes from `at` on show `v`, least significant first. */
  predicate Shows(r: seq<u8>, at: nat, v: u32)
    requires at + 4 <= |r|
  {
    && r[at] == v % 0x100 && r[at + 1] == v / 0x100 % 0x100
    && r[at + 2] == v / 0x1_0000 % 0x100 && r[at + 3] == v / 0x100_0000 % 0x100
  }

  /** Every byte of a committed record. */
  lemma RecordLayout(crc: Checksum, s: State)
    ensures var r := Committed(crc, s);
            && r[..8] == [0x42, 0x43, 0x54, 0x31, 1, 0, 64, 0]
            && Shows(r, 8, s.generation)
            && r[12..16] == [s.confirmedSlot, s.pendingSlot, s.attempts, 0]
            && Shows(r, 16, s.minimumSecurity) && Shows(r, 20, s.confirmedSecurity)
            && Shows(r, 24, s.pendingSecurity)
            && Shows(r, 28, s.confirmedBuild) && Shows(r, 32, s.pendingBuild)
            && (forall i :: 36 <= i < 56 ==> r[i] == 0)
            && Shows(r, 56, crc(r[..56]))
            && r[60..] == [0x5A, 0x7A, 0x4E, 0xC0]
  {
    var words := Words(s) + [crc(Bytes(Words(s))), COMMIT_MARKER];
    hide Words, Committed, Bytes, Shows;
    CommittedBytes(crc, s);
    SlotBytes(s);
    forall k | 0 <= k < 16
      ensures Shows(Bytes(words), 4 * k, words[k])
    {
      WordShown(words, k);
    }
    ShownFrom(Bytes(words), words);
    SlotsShown(Bytes(words), words[3], s);
  }

  lemma CommittedBytes(crc: Checksum, s: State)
    ensures var words := Words(s) + [crc(Bytes(Words(s))), COMMIT_MARKER];
            && Committed(crc, s) == Bytes(words) && |words| == 16
            && Committed(crc, s)[..56] == Bytes(Words(s))
  {
    BytesPrefix(Words(s), [crc(Bytes(Words(s))), COMMIT_MARKER]);
  }

  lemma SlotsShown(r: seq<u8>, w: u32, s: State)
    requires |r| == RECORD_SIZE && Shows(r, 12, w)
    requires w % 0x100 == s.confirmedSlot && w / 0x100 % 0x100 == s.pendingSlot
    requires w / 0x1_0000 % 0x100 == s.attempts && w / 0x100_0000 == 0
    ensures r[12..16] == [s.confirmedSlot, s.pendingSlot, s.attempts, 0]
  {
  }

  lemma WordShown(words: seq<u32>, k: nat)
    requires k < |words|
    ensures Shows(Bytes(words), 4 * k, words[k])
  {
    var d, b := Bytes(words), U32Le(words[k]);
    assert d[4 * k + 0] == b[0] && d[4 * k + 1] == b[1];
    assert d[4 * k + 2] == b[2] && d[4 * k + 3] == b[3];
  }

  lemma SlotBytes(s: State)
    ensures Words(s)[0] == 0x31544342 && Words(s)[1] == 0x40_0001 && Words(s)[2] == s.generation
    ensures var w := Words(s)[3];
            && w % 0x100 == s.confirmedSlot && w / 0x100 % 0x100 == s.pendingSlot
            && w / 0x1_0000 % 0x100 == s.attempts && w / 0x100_0000 == 0
    ensures Words(s)[4] == s.minimumSecurity && Words(s)[5] == s.confirmedSecurity
    ensures Words(s)[6] == s.pendingSecurity && Words(s)[7] == s.confirmedBuild
    ensures Words(s)[8] == s.pendingBuild && forall k :: 9 <= k < 14 ==> Words(s)[k] == 0
  {
  }

  /** Bytes read off the words they show. */
  lemma ShownFrom(r: seq<u8>, words: seq<u32>)
    requires |r| == RECORD_SIZE && |words| == 16
    requires forall k :: 0 <= k < 16 ==> Shows(r, 4 * k, words[k])
    requires words[0] == 0x31544342 && words[1] == 0x40_0001 && words[15] == 0xC04E_7A5A
    requires forall k :: 9 <= k < 14 ==> words[k] == 0
    ensures r[..8] == [0x42, 0x43, 0x54, 0x31, 1, 0, 64, 0]
    ensures Shows(r, 8, words[2])
    ensures Shows(r, 12, words[3]) && Shows(r, 16, words[4]) && Shows(r, 20, words[5])
    ensures Shows(r, 24, words[6]) && Shows(r, 28, words[7]) && Shows(r, 32, words[8])
    ensures forall i :: 36 <= i < 56 ==> r[i] == 0
    ensures Shows(r, 56, words[14]) && r[60..] == [0x5A, 0x7A, 0x4E, 0xC0]
  {
    hide Shows;
    assert Shows(r, 4 * 0, words[0]) && Shows(r, 4 * 1, words[1]) && Shows(r, 4 * 2, words[2]);
    assert Shows(r, 4 * 3, words[3]) && Shows(r, 4 * 4, words[4]) && Shows(r, 4 * 5, words[5]);
    assert Shows(r, 4 * 6, words[6]) && Shows(r, 4 * 7, words[7]) && Shows(r, 4 * 8, words[8]);
    assert Shows(r, 4 * 14, words[14]) && Shows(r, 4 * 15, words[15]);
    MagicShown(r);
    forall i | 36 <= i < 56
      ensures r[i] == 0
    {
      assert Shows(r, 4 * (i / 4), words[i / 4]);
      ZeroShown(r, i);
    }
  }

  lemma MagicShown(r: seq<u8>)
    requires |r| == RECORD_SIZE
    requires Shows(r, 0, 0x31544342) && Shows(r, 4, 0x40_0001) && Shows(r, 60, 0xC04E_7A5A)
    ensures r[..8] == [0x42, 0x43, 0x54, 0x31, 1, 0, 64, 0] && r[60..] == [0x5A, 0x7A, 0x4E, 0xC0]
  {
  }

  lemma ZeroShown(r: seq<u8>, i: nat)
    requires i < |r| && 4 * (i / 4) + 4 <= |r| && Shows(r, 4 * (i / 4), 0)
    ensures r[i] == 0
  {
  }

  // ---------------------------------------------------------------- two records

  datatype Loaded = Loaded(state: State, selected: nat) | NoValidRecord | RecordConflict

  function Other(record: nat): nat {
    if record == 0 then 1 else 0
  }

  /** Boot_Control_Load */
  function Load(crc: Checksum, r0: seq<u8>, r1: seq<u8>): (l: Loaded)
    requires |r0| == |r1| == RECORD_SIZE
  {
    match (Decode(crc, r0), Decode(crc, r1))
    case (None, None) => NoValidRecord
    case (Some(s0), None) => Loaded(s0, 0)
    case (None, Some(s1)) => Loaded(s1, 1)
    case (Some(s0), Some(s1)) =>
      var delta := Sub32(s1.generation, s0.generation);
      if delta == 0 then (if s0 == s1 then Loaded(s0, 0) else RecordConflict)
      else if delta == TWO_31 then RecordConflict
      else if Newer(s1.generation, s0.generation) then Loaded(s1, 1)
      else Loaded(s0, 0)
  }

  // ---------------------------------------------------------------- moving the state on

  datatype Result = Ok | InvalidArgument | InvalidState | SecurityRollback

  datatype Decision = Recovery | BootA | BootB

  function Cleared(s: State): (r: State) {
    s.(pendingSlot := NO_SLOT, attempts := 0, pendingSecurity := 0, pendingBuild := 0)
  }

  function Advanced(s: State): (r: State) {
    s.(generation := NextNonZero(s.generation))
  }

  function Initialized(confirmed: u8, security: u32, build: u32): (s: State) {
    State(1, confirmed, NO_SLOT, 0, security, security, 0, build, 0)
  }

  /** Boot_Control_ScheduleUpdate */
  function Schedule(s: State, target: u8, security: u32, build: u32): (r: (Result, State)) {
    if !IsSlot(target) then (InvalidArgument, s)
    else if !ValidState(s) || target == s.confirmedSlot || s.pendingSlot != NO_SLOT then
      (InvalidState, s)
    else if security <= s.minimumSecurity then (SecurityRollback, s)
    else
      (Ok, Advanced(s.(pendingSlot := target, attempts := MAX_PENDING_ATTEMPTS,
                       pendingSecurity := security, pendingBuild := build)))
  }

  function Decide(slot: u8): Decision {
    if slot == SLOT_A then BootA else BootB
  }

  datatype Selection = Selection(state: State, decision: Decision, changed: bool)

  /** Boot_Control_SelectBoot on a valid state */
  function Select(s: State, aValid: bool, bValid: bool): (r: Selection)
    requires ValidState(s)
  {
    var pendingValid := if s.pendingSlot == SLOT_A then aValid else bValid;
    var confirmedValid := if s.confirmedSlot == SLOT_A then aValid else bValid;
    if s.pendingSlot != NO_SLOT && pendingValid && s.attempts > 0 then
      Selection(Advanced(s.(attempts := s.attempts - 1)), Decide(s.pendingSlot), true)
    else
      var fallback := if confirmedValid then Decide(s.confirmedSlot) else Recovery;
      if s.pendingSlot != NO_SLOT then Selection(Advanced(Cleared(s)), fallback, true)
      else Selection(s, fallback, false)
  }

  /** Boot_Control_ConfirmRunning; the flag says whether the state changed. */
  function Confirm(s: State, running: u8, security: u32, build: u32): (r: (Result, State, bool)) {
    if !IsSlot(running) then (InvalidArgument, s, false)
    else if !ValidState(s) then (InvalidState, s, false)
    else if s.pendingSlot == NO_SLOT && running == s.confirmedSlot
            && security == s.confirmedSecurity && build == s.confirmedBuild then (Ok, s, false)
    else if running != s.pendingSlot || security != s.pendingSecurity || build != s.pendingBuild then
      (InvalidState, s, false)
    else
      (Ok, Advanced(Cleared(s.(confirmedSlot := running, minimumSecurity := security,
                               confirmedSecurity := security, confirmedBuild := build))), true)
  }

  /** `next` may follow `s` in flash: a valid state of the next generation. */
  predicate Succeeds(s: State, next: State) {
    ValidState(s) && ValidState(next) && next.generation == NextNonZero(s.generation)
  }

  /** Whatever changes the state makes a valid successor, and never lowers the minimum. */
  lemma OperationsSucceed(s: State, slot: u8, security: u32, build: u32, aValid: bool, bValid: bool)
    requires ValidState(s)
    ensures Schedule(s, slot, security, build).0 == Ok ==>
              Succeeds(s, Schedule(s, slot, security, build).1)
    ensures Select(s, aValid, bValid).changed ==> Succeeds(s, Select(s, aValid, bValid).state)
    ensures Confirm(s, slot, security, build).2 ==>
              && Succeeds(s, Confirm(s, slot, security, build).1)
              && Confirm(s, slot, security, build).1.minimumSecurity > s.minimumSecurity
  {
  }

  /** A successor is newer than its predecessor, across the wrap past 0, and never conflicts. */
  lemma SuccessorWins(crc: Checksum, r0: seq<u8>, r1: seq<u8>, s: State, next: State)
    requires |r0| == |r1| == RECORD_SIZE && Succeeds(s, next)
    ensures Decode(crc, r0) == Some(s) && Decode(crc, r1) == Some(next) ==>
              Load(crc, r0, r1) == Loaded(next, 1)
    ensures Decode(crc, r0) == Some(next) && Decode(crc, r1) == Some(s) ==>
              Load(crc, r0, r1) == Loaded(next, 0)
  {
    hide Decode;
  }

  /**
   * Of two committed states `d` generations apart, the later one is loaded while `d` is below 2^31; the same
   * state twice is loaded from the first place; equal generations of different states, and generations
   * exactly 2^31 apart, are a conflict.
   */
  lemma LoadIsExact(crc: Checksum, s: State, t: State, g: nat, d: nat)
    requires ValidState(s) && ValidState(t) && d < TWO_32
    requires s.generation == Wrap32(g) && t.generation == Wrap32(g + d)
    ensures var a, b := Committed(crc, s), Committed(crc, t);
            var l, m := Load(crc, a, b), Load(crc, b, a);
            && (s == t ==> l == m == Loaded(s, 0))
            && (d == 0 && s != t ==> l == m == RecordConflict)
            && (0 < d < TWO_31 ==> l == Loaded(t, 1) && m == Loaded(t, 0))
            && (d == TWO_31 ==> l == m == RecordConflict)
            && (d > TWO_31 ==> l == Loaded(s, 0) && m == Loaded(s, 1))
  {
    hide Decode, Committed, ValidState, Wrap32;
    CommittedDecodes(crc, s);
    CommittedDecodes(crc, t);
    SubIsDistance(g + d, g);
  }

  /** A single decodable record is loaded from where it is; without any there is nothing to load. */
  lemma LoadOfOne(crc: Checksum, r0: seq<u8>, r1: seq<u8>, s: State)
    requires |r0| == |r1| == RECORD_SIZE && ValidState(s)
    ensures r0 == Committed(crc, s) && Decode(crc, r1) == None ==> Load(crc, r0, r1) == Loaded(s, 0)
    ensures r1 == Committed(crc, s) && Decode(crc, r0) == None ==> Load(crc, r0, r1) == Loaded(s, 1)
    ensures Load(crc, r0, r1) == NoValidRecord <==>
              !exists t :: ValidState(t) && (r0 == Committed(crc, t) || r1 == Committed(crc, t))
  {
    hide Decode, Committed, ValidState;
    CommittedDecodes(crc, s);
    forall t | ValidState(t)
      ensures |Committed(crc, t)| == RECORD_SIZE && Decode(crc, Committed(crc, t)) == Some(t)
    {
      CommittedDecodes(crc, t);
    }
    if Decode(crc, r0).Some? {
      DecodeIsInverse(crc, r0, Decode(crc, r0).value);
    }
    if Decode(crc, r1).Some? {
      DecodeIsInverse(crc, r1, Decode(crc, r1).value);
    }
  }
}
