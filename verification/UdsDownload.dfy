/**
 * The firmware download behind the UDS server: erase, request download, transfer data, transfer
 * exit. Values only; class Downloader (UdsObjects.dfy) updates them in place.
 */
module UdsDownload {
  import opened Machine
  import BootControl
  import BootImage

  const ROUTINE_CONTROL: u8 := 0x31
  const REQUEST_DOWNLOAD: u8 := 0x34
  const TRANSFER_DATA: u8 := 0x36
  const TRANSFER_EXIT: u8 := 0x37

  const HEADER_SIZE := BootImage.HEADER_SIZE
  const PROGRAM_UNIT := 16
  const MAX_BLOCK_LENGTH := 258
  const ROUTINE_RESPONSE_LENGTH := 13

  datatype Nrc =
    | Positive | ServiceNotSupported | SubfunctionNotSupported | IncorrectLength | ResponseTooLong
    | ConditionsNotCorrect | SequenceError | SecurityDenied | OutOfRange | TransferSuspended
    | ProgrammingFailure | WrongBlockCounter | NotInActiveSession

  datatype DownloadState = Idle | Erasing | Ready | Transfer | Complete | Failed

  datatype BackendResult = Done | InProgress | Broken

  /** What the backend callbacks answer while one request is handled. */
  datatype Backend = Backend(authorized: bool, erase: BackendResult, writes: bool, finalizes: bool)

  /** The calls made to the backend that change something. */
  datatype Call =
    | StartErase(slot: u8, address: nat, size: u32)
    | Write(address: nat, bytes: seq<u8>)
    | Finalize(slot: u8, address: nat, header: seq<u8>, size: u32)
    | Abort

  datatype Download = Download(
    running: u8, state: DownloadState, targetSlot: u8, targetAddress: u32, targetSize: u32,
    artifactSize: u32, received: u32, expected: u8, lastBlock: u8, hasLast: bool, header: seq<u8>)

  datatype Outcome = Outcome(d: Download, nrc: Nrc, data: seq<u8>, calls: seq<Call>)

  function U32Be(v: u32): (b: seq<u8>)
    ensures |b| == 4
  {
    [v / 0x100_0000, v / 0x1_0000 % 0x100, v / 0x100 % 0x100, v % 0x100]
  }

  function ReadU32Be(d: seq<u8>, at: nat): (v: u32)
    requires at + 4 <= |d|
  {
    var b0: nat, b1: nat, b2: nat := d[at], d[at + 1], d[at + 2];
    b0 * 0x100_0000 + b1 * 0x1_0000 + b2 * 0x100 + d[at + 3]
  }

  function Region(slot: u8): BootImage.ImageSlot {
    if slot == BootControl.SLOT_A then BootImage.SLOT_A_REGION else BootImage.SLOT_B_REGION
  }

  function OtherSlot(running: u8): u8 {
    if running == BootControl.SLOT_A then BootControl.SLOT_B else BootControl.SLOT_A
  }

  function Fresh(running: u8, header: seq<u8>): Download {
    Download(running, Idle, BootControl.NO_SLOT, 0, 0, 0, 0, 0, 0, false, header)
  }

  predicate ValidDownload(d: Download) {
    && BootControl.IsSlot(d.running) && |d.header| == HEADER_SIZE
    && (d.state != Idle ==>
          && d.targetSlot == OtherSlot(d.running)
          && d.targetAddress == Region(d.targetSlot).base
          && d.targetSize == Region(d.targetSlot).size)
    && (d.state == Transfer ==>
          && d.received <= d.artifactSize <= d.targetSize
          && HEADER_SIZE <= d.artifactSize && d.artifactSize % PROGRAM_UNIT == 0)
  }

  function Refuse(d: Download, nrc: Nrc): Outcome {
    Outcome(d, nrc, [], [])
  }

  // ---------------------------------------------------------------- the four services

  function Routine(d: Download, request: seq<u8>, capacity: nat, b: Backend): (o: Outcome)
    requires ValidDownload(d) && request != []
  {
    if |request| != 4 then Refuse(d, IncorrectLength)
    else if (request[2], request[3]) != (0xFF, 0x00) then Refuse(d, OutOfRange)
    else if request[1] == 0x01 then
      if !b.authorized then Refuse(d, SecurityDenied)
      else if d.state != Idle then Refuse(d, SequenceError)
      else
        var slot := OtherSlot(d.running);
        var aimed := d.(targetSlot := slot, targetAddress := Region(slot).base,
                        targetSize := Region(slot).size);
        RoutineResult(aimed, 0x01, b.erase, capacity,
                      [StartErase(slot, aimed.targetAddress, aimed.targetSize)])
    else if request[1] == 0x03 then
      if d.state == Erasing then RoutineResult(d, 0x03, b.erase, capacity, [])
      else if d.state == Ready then RoutineResult(d, 0x03, Done, capacity, [])
      else if d.state == Failed then RoutineResult(d, 0x03, Broken, capacity, [])
      else Refuse(d, SequenceError)
    else Refuse(d, SubfunctionNotSupported)
  }

  /** The state follows the erase result even if the response does not fit. */
  function RoutineResult(d: Download, subfunction: u8, erase: BackendResult, capacity: nat, calls: seq<Call>):
    (o: Outcome)
  {
    var (next, status, done) :=
      match erase
      case Done => (d.(state := Ready), 0, calls)
      case InProgress => (d.(state := Erasing), 1, calls)
      case Broken => (d.(state := Failed), 2, calls + [Abort]);
    if capacity < ROUTINE_RESPONSE_LENGTH then Outcome(next, ResponseTooLong, [], done)
    else
      Outcome(next, Positive,
              [subfunction, 0xFF, 0x00, status, next.targetSlot]
              + U32Be(next.targetAddress) + U32Be(next.targetSize), done)
  }

  function RequestDownload(d: Download, request: seq<u8>, capacity: nat): (o: Outcome)
    requires ValidDownload(d) && request != []
  {
    if |request| != 11 then Refuse(d, IncorrectLength)
    else if request[1] != 0x00 || request[2] != 0x44 then Refuse(d, OutOfRange)
    else if d.state != Ready then Refuse(d, SequenceError)
    else
      var address := ReadU32Be(request, 3);
      var size := ReadU32Be(request, 7);
      if address != d.targetAddress || size < HEADER_SIZE || size > d.targetSize
         || size % PROGRAM_UNIT != 0 then Refuse(d, OutOfRange)
      else if capacity < 3 then Refuse(d, ResponseTooLong)
      else
        Outcome(d.(state := Transfer, header := seq<u8>(HEADER_SIZE, i => 0xFF), artifactSize := size,
                   received := 0, expected := 1, hasLast := false),
                Positive, [0x20, 0x01, 0x02], [])
  }

  /** The part of a block that belongs to the header kept in RAM. */
  function HeaderShare(received: nat, length: nat): (n: nat)
    ensures n <= length && (received < HEADER_SIZE ==> received + n <= HEADER_SIZE)
  {
    if received >= HEADER_SIZE then 0
    else if length < HEADER_SIZE - received then length else HEADER_SIZE - received
  }

  function Filled(header: seq<u8>, at: nat, block: seq<u8>, share: nat): (h: seq<u8>)
    requires share <= |block| && (share > 0 ==> at + share <= |header|)
  {
    if share == 0 then header else header[..at] + block[..share] + header[at + share..]
  }

  predicate IsDuplicate(d: Download, request: seq<u8>)
    requires |request| >= 2
  {
    d.hasLast && request[1] == d.lastBlock
  }

  function TransferData(d: Download, request: seq<u8>, capacity: nat, b: Backend): (o: Outcome)
    requires ValidDownload(d) && request != []
  {
    if |request| < 3 || |request| > MAX_BLOCK_LENGTH then Refuse(d, IncorrectLength)
    else if d.state != Transfer then Refuse(d, SequenceError)
    else if IsDuplicate(d, request) then
      if capacity < 1 then Refuse(d, ResponseTooLong)
      else Outcome(d, Positive, [request[1]], [])
    else if request[1] != d.expected then Refuse(d, WrongBlockCounter)
    else
      var block := request[2..];
      if |block| > d.artifactSize - d.received then
        Outcome(d.(state := Failed), TransferSuspended, [], [Abort])
      else if capacity < 1 then Refuse(d, ResponseTooLong)
      else
        var share := HeaderShare(d.received, |block|);
        var filled := d.(header := Filled(d.header, d.received, block, share));
        var write := if share < |block|
                     then [Write(d.targetAddress + d.received + share, block[share..])] else [];
        if write != [] && !b.writes then
          Outcome(filled.(state := Failed), ProgrammingFailure, [], write + [Abort])
        else
          Outcome(filled.(received := d.received + |block|, lastBlock := request[1], hasLast := true,
                          expected := (d.expected + 1) % 0x100),
                  Positive, [request[1]], write)
  }

  function TransferExit(d: Download, request: seq<u8>, b: Backend): (o: Outcome)
    requires ValidDownload(d) && request != []
  {
    if |request| != 1 then Refuse(d, IncorrectLength)
    else if d.state != Transfer || d.received != d.artifactSize then Refuse(d, SequenceError)
    else
      var call := Finalize(d.targetSlot, d.targetAddress, d.header, d.artifactSize);
      if !b.finalizes then Outcome(d.(state := Failed), ProgrammingFailure, [], [call, Abort])
      else Outcome(d.(state := Complete), Positive, [], [call])
  }

  /** Uds_Download_Handle; the request starts with its service. */
  function Handle(d: Download, request: seq<u8>, capacity: nat, b: Backend): (o: Outcome)
    requires ValidDownload(d) && request != []
  {
    if request[0] == ROUTINE_CONTROL then Routine(d, request, capacity, b)
    else if request[0] == REQUEST_DOWNLOAD then RequestDownload(d, request, capacity)
    else if request[0] == TRANSFER_DATA then TransferData(d, request, capacity, b)
    else if request[0] == TRANSFER_EXIT then TransferExit(d, request, b)
    else Refuse(d, ServiceNotSupported)
  }

  /** Uds_Download_Abort: an open download is given up, any other forgotten. */
  function Aborted(d: Download): (r: (Download, seq<Call>)) {
    (d.(state := Idle, targetSlot := BootControl.NO_SLOT, targetAddress := 0, targetSize := 0,
        artifactSize := 0, received := 0, expected := 0, hasLast := false),
     if d.state in {Erasing, Ready, Transfer} then [Abort] else [])
  }

  // ---------------------------------------------------------------- what has been transferred

  /** A download with what it has accepted since it began: the bytes, the blocks, the writes. */
  datatype Track = Track(d: Download, image: seq<u8>, blocks: nat, writes: seq<Call>)

  function Written(writes: seq<Call>): seq<u8> {
    if writes == [] then []
    else
      var last := writes[|writes| - 1];
      Written(writes[..|writes| - 1]) + if last.Write? then last.bytes else []
  }

  /** Only writes, ascending without gap from `from`. */
  predicate GapFree(writes: seq<Call>, from: nat) {
    writes == [] ||
    var last := writes[|writes| - 1];
    var before := writes[..|writes| - 1];
    GapFree(before, from) && last.Write? && last.bytes != [] && last.address == from + |Written(before)|
  }

  /** The bytes accepted so far are in the header and behind it in flash, and nowhere else. */
  predicate Tracked(t: Track) {
    && ValidDownload(t.d)
    && (t.d.state == Transfer ==>
          var r: nat := t.d.received;
          var kept := if r < HEADER_SIZE then r else HEADER_SIZE;
          && |t.image| == r
          && t.d.header[..kept] == t.image[..kept]
          && Written(t.writes) == t.image[kept..]
          && GapFree(t.writes, t.d.targetAddress + HEADER_SIZE)
          && t.d.expected == (t.blocks + 1) % 0x100
          && t.d.hasLast == (t.blocks > 0)
          && (t.blocks > 0 ==> t.d.lastBlock == t.blocks % 0x100))
  }

  /** A request is a new block of the running transfer. */
  predicate NewBlock(d: Download, request: seq<u8>, o: Outcome)
    requires request != []
  {
    request[0] == TRANSFER_DATA && d.state == Transfer && o.nrc == Positive
    && |request| >= 3 && !IsDuplicate(d, request)
  }

  function Step(t: Track, request: seq<u8>, capacity: nat, b: Backend): (r: Track)
    requires ValidDownload(t.d) && request != []
  {
    var o := Handle(t.d, request, capacity, b);
    if NewBlock(t.d, request, o) then
      Track(o.d, t.image + request[2..], t.blocks + 1, t.writes + o.calls)
    else if t.d.state == Ready && o.d.state == Transfer then Track(o.d, [], 0, [])
    else t.(d := o.d)
  }

  /** Bookkeeping of one accepted block. */
  lemma BlockTracked(t: Track, request: seq<u8>, capacity: nat, b: Backend)
    requires Tracked(t) && request != []
    requires NewBlock(t.d, request, Handle(t.d, request, capacity, b))
    ensures Tracked(Step(t, request, capacity, b))
  {
    hide Handle, GapFree, Written, Region;
    var block := request[2..];
    var r: nat := t.d.received;
    var share := HeaderShare(r, |block|);
    AcceptedBlock(t.d, request, capacity, b);
    BlockWritten(t, block, share);
    HeaderFilled(t.d.header, t.image, block, share);
    hide Filled, HeaderShare, Routine;
  }

  lemma AcceptedBlock(d: Download, request: seq<u8>, capacity: nat, b: Backend)
    requires ValidDownload(d) && request != []
    requires NewBlock(d, request, Handle(d, request, capacity, b))
    ensures var block, o := request[2..], Handle(d, request, capacity, b);
            var share := HeaderShare(d.received, |block|);
            && d.received + |block| <= d.artifactSize && request[1] == d.expected
            && o.d == d.(header := Filled(d.header, d.received, block, share),
                         received := d.received + |block|, lastBlock := request[1], hasLast := true,
                         expected := (d.expected + 1) % 0x100)
            && o.calls == (if share < |block|
                           then [Write(d.targetAddress + d.received + share, block[share..])] else [])
  {
    hide Routine, RequestDownload, TransferExit;
  }

  lemma HeaderFilled(header: seq<u8>, image: seq<u8>, block: seq<u8>, share: nat)
    requires |header| == HEADER_SIZE && share == HeaderShare(|image|, |block|)
    requires var kept := if |image| < HEADER_SIZE then |image| else HEADER_SIZE;
             header[..kept] == image[..kept]
    ensures var all := image + block;
            var kept := if |all| < HEADER_SIZE then |all| else HEADER_SIZE;
            && |Filled(header, |image|, block, share)| == HEADER_SIZE
            && Filled(header, |image|, block, share)[..kept] == all[..kept]
  {
    if share > 0 {
      assert header[..|image|] == image;
      assert Filled(header, |image|, block, share)[..|image| + share] == image + block[..share];
      assert (image + block)[..|image| + share] == image + block[..share];
    }
  }

  lemma BlockWritten(t: Track, block: seq<u8>, share: nat)
    requires Tracked(t) && t.d.state == Transfer && block != []
    requires share == HeaderShare(t.d.received, |block|)
    ensures var r: nat := t.d.received;
            var kept := if r + |block| < HEADER_SIZE then r + |block| else HEADER_SIZE;
            var write := if share < |block|
                         then [Write(t.d.targetAddress + r + share, block[share..])] else [];
            && Written(t.writes + write) == (t.image + block)[kept..]
            && GapFree(t.writes + write, t.d.targetAddress + HEADER_SIZE)
  {
    var r: nat := t.d.received;
    var kept := if r < HEADER_SIZE then r else HEADER_SIZE;
    assert |Written(t.writes)| == r - kept;
    if share < |block| {
      var write := Write(t.d.targetAddress + r + share, block[share..]);
      assert (t.writes + [write])[..|t.writes|] == t.writes;
      assert (t.image + block)[HEADER_SIZE..] == t.image[kept..] + block[share..];
    } else {
      assert t.writes + [] == t.writes;
      assert t.image[kept..] == [];
    }
  }

  /** Every request keeps the account right. */
  lemma StepKeepsTrack(t: Track, request: seq<u8>, capacity: nat, b: Backend)
    requires Tracked(t) && request != []
    ensures Tracked(Step(t, request, capacity, b))
  {
    if NewBlock(t.d, request, Handle(t.d, request, capacity, b)) {
      BlockTracked(t, request, capacity, b);
    } else {
      OtherRequests(t.d, request, capacity, b);
      hide Handle, GapFree;
    }
  }

  /** The transfer either stands still or has just been opened. */
  predicate Untouched(d: Download, n: Download) {
    && ValidDownload(n) && n.running == d.running
    && (n.state == Transfer ==>
          n == d || (d.state == Ready && n.received == 0 && n.expected == 1 && !n.hasLast))
  }

  /** Besides a new block, only an accepted download request touches a transfer that goes on. */
  lemma OtherRequests(d: Download, request: seq<u8>, capacity: nat, b: Backend)
    requires ValidDownload(d) && request != []
    requires !NewBlock(d, request, Handle(d, request, capacity, b))
    ensures Untouched(d, Handle(d, request, capacity, b).d)
  {
    hide Routine, RequestDownload, TransferData, TransferExit;
    RoutineUntouched(d, request, capacity, b);
    RequestUntouched(d, request, capacity);
    ExitUntouched(d, request, b);
    OldBlockUntouched(d, request, capacity, b);
    hide Untouched;
  }

  lemma RoutineUntouched(d: Download, request: seq<u8>, capacity: nat, b: Backend)
    requires ValidDownload(d) && request != []
    ensures Untouched(d, Routine(d, request, capacity, b).d)
  {
    hide U32Be, Region;
  }

  lemma RequestUntouched(d: Download, request: seq<u8>, capacity: nat)
    requires ValidDownload(d) && request != []
    ensures Untouched(d, RequestDownload(d, request, capacity).d)
  {
    hide ReadU32Be, Region;
  }

  lemma ExitUntouched(d: Download, request: seq<u8>, b: Backend)
    requires ValidDownload(d) && request != []
    ensures Untouched(d, TransferExit(d, request, b).d)
  {
    hide Region;
  }

  lemma OldBlockUntouched(d: Download, request: seq<u8>, capacity: nat, b: Backend)
    requires ValidDownload(d) && request != []
    ensures var o := TransferData(d, request, capacity, b);
            !(d.state == Transfer && o.nrc == Positive && |request| >= 3 && !IsDuplicate(d, request)) ==>
              Untouched(d, o.d)
  {
    hide Region;
  }

  /**
   * When a download is finalized, header and writes together are the accepted bytes, all of
   * them, in the other slot, from behind the header to the end of the artifact.
   */
  lemma FinalizedIsWhole(t: Track, request: seq<u8>, capacity: nat, b: Backend, call: Call)
    requires Tracked(t) && request != []
    requires call in Handle(t.d, request, capacity, b).calls && call.Finalize?
    ensures call.header + Written(t.writes) == t.image && |t.image| == call.size
    ensures call.slot == OtherSlot(t.d.running) != t.d.running
    ensures call.address == Region(call.slot).base
    ensures GapFree(t.writes, call.address + HEADER_SIZE)
    ensures call.address + HEADER_SIZE + |Written(t.writes)| == call.address + call.size
         <= Region(call.slot).base + Region(call.slot).size
  {
    assert t.d.state == Transfer && t.d.received == t.d.artifactSize;
    assert t.d.header[..HEADER_SIZE] == t.d.header;
    assert t.image == t.image[..HEADER_SIZE] + t.image[HEADER_SIZE..];
  }

  /** No write of a gap-free list reaches below its start or beyond its end. */
  lemma {:induction false} WritesStayInside(writes: seq<Call>, from: nat, i: nat)
    requires GapFree(writes, from) && i < |writes|
    ensures writes[i].Write? && from <= writes[i].address
    ensures writes[i].address + |writes[i].bytes| <= from + |Written(writes)|
    decreases |writes|
  {
    if i < |writes| - 1 {
      WritesStayInside(writes[..|writes| - 1], from, i);
    }
  }

  /**
   * A call concerns the slot that is not running: it erases that slot, writes behind the header
   * and before the end of the artifact, or finalizes an artifact that the slot has room for.
   */
  predicate InOtherSlot(running: u8, artifactSize: u32, call: Call) {
    var slot := OtherSlot(running);
    var base, size := Region(slot).base, Region(slot).size;
    match call
    case StartErase(s, a, n) => s == slot && a == base && n == size
    case Write(a, bytes) =>
      bytes != [] && base + HEADER_SIZE <= a && a + |bytes| <= base + artifactSize <= base + size
    case Finalize(s, a, header, n) => s == slot && a == base && n == artifactSize <= size
    case Abort => true
  }

  /** Whatever the backend answers, it is never asked to touch anything else. */
  lemma CallsStayInside(d: Download, request: seq<u8>, capacity: nat, b: Backend, call: Call)
    requires ValidDownload(d) && request != []
    requires call in Handle(d, request, capacity, b).calls
    ensures InOtherSlot(d.running, d.artifactSize, call)
  {
    hide Filled, U32Be, ReadU32Be;
  }

  /** No request changes which slot runs. */
  lemma RunningStays(d: Download, request: seq<u8>, capacity: nat, b: Backend)
    requires ValidDownload(d) && request != []
    ensures Handle(d, request, capacity, b).d.running == d.running
  {
    hide Filled, U32Be, ReadU32Be, Region;
  }

  // ---------------------------------------------------------------- a whole artifact

  /** A piece of the artifact, and how often the tester sends it again before going on. */
  datatype Block = Block(bytes: seq<u8>, resends: nat)

  function Artifact(blocks: seq<Block>): seq<u8> {
    if blocks == [] then [] else Artifact(blocks[..|blocks| - 1]) + blocks[|blocks| - 1].bytes
  }

  predicate Sendable(blocks: seq<Block>) {
    forall k :: 0 <= k < |blocks| ==> 0 < |blocks[k].bytes| <= MAX_BLOCK_LENGTH - 2
  }

  /** The transfer-data request for block number `k`, counting from 0 and wrapping at 256. */
  function BlockRequest(k: nat, bytes: seq<u8>): (r: seq<u8>)
    ensures |r| == |bytes| + 2 && r[2..] == bytes
  {
    [TRANSFER_DATA, (k + 1) % 0x100] + bytes
  }

  function Repeated(t: Track, request: seq<u8>, times: nat, capacity: nat, b: Backend): (r: Track)
    requires Tracked(t) && request != []
    ensures Tracked(r)
  {
    if times == 0 then t
    else
      var before := Repeated(t, request, times - 1, capacity, b);
      StepKeepsTrack(before, request, capacity, b);
      Step(before, request, capacity, b)
  }

  function SendAll(t: Track, blocks: seq<Block>, capacity: nat, b: Backend): (r: Track)
    requires Tracked(t)
    ensures Tracked(r)
    decreases |blocks|
  {
    if blocks == [] then t
    else
      var k := |blocks| - 1;
      Repeated(SendAll(t, blocks[..k], capacity, b), BlockRequest(k, blocks[k].bytes),
               1 + blocks[k].resends, capacity, b)
  }

  /** In the middle of a transfer of `size` bytes, after `n` blocks. */
  predicate MidTransfer(t: Track, first: Download, n: nat, image: seq<u8>) {
    && t.d.state == Transfer && t.blocks == n && t.image == image
    && t.d.artifactSize == first.artifactSize && t.d.running == first.running
  }

  lemma BlockAccepted(t: Track, bytes: seq<u8>, capacity: nat, b: Backend)
    requires Tracked(t) && t.d.state == Transfer && capacity >= 1 && b.writes
    requires 0 < |bytes| <= MAX_BLOCK_LENGTH - 2
    requires |t.image| + |bytes| <= t.d.artifactSize
    ensures var r := Step(t, BlockRequest(t.blocks, bytes), capacity, b);
            MidTransfer(r, t.d, t.blocks + 1, t.image + bytes)
  {
    hide Written, GapFree, Region;
    var request := BlockRequest(t.blocks, bytes);
    assert (t.blocks + 1) % 0x100 != t.blocks % 0x100;
    assert request[0] == TRANSFER_DATA && request[1] == t.d.expected;
    assert Handle(t.d, request, capacity, b) == TransferData(t.d, request, capacity, b);
    hide Handle, Filled, HeaderShare;
  }

  lemma {:induction false} ResendsIgnored(t: Track, k: nat, bytes: seq<u8>, times: nat, capacity: nat, b: Backend)
    requires Tracked(t) && t.d.state == Transfer && capacity >= 1
    requires t.blocks == k + 1 && 0 < |bytes| <= MAX_BLOCK_LENGTH - 2
    ensures Repeated(t, BlockRequest(k, bytes), times, capacity, b) == t
  {
    hide Written, GapFree, Region, Step;
    if times > 0 {
      ResendsIgnored(t, k, bytes, times - 1, capacity, b);
      ResendIgnored(t, k, bytes, capacity, b);
    }
  }

  lemma ResendIgnored(t: Track, k: nat, bytes: seq<u8>, capacity: nat, b: Backend)
    requires Tracked(t) && t.d.state == Transfer && capacity >= 1
    requires t.blocks == k + 1 && 0 < |bytes| <= MAX_BLOCK_LENGTH - 2
    ensures Step(t, BlockRequest(k, bytes), capacity, b) == t
  {
    hide Written, GapFree, Region, Filled, HeaderShare, Routine, RequestDownload, TransferExit;
    var request := BlockRequest(k, bytes);
    assert request[0] == TRANSFER_DATA && request[1] == t.d.lastBlock;
  }

  lemma {:induction false} RepeatedFirst(t: Track, request: seq<u8>, times: nat, capacity: nat, b: Backend)
    requires Tracked(t) && request != []
    ensures Tracked(Step(t, request, capacity, b))
    ensures Repeated(t, request, 1 + times, capacity, b)
         == Repeated(Step(t, request, capacity, b), request, times, capacity, b)
  {
    hide Tracked, Step;
    StepKeepsTrack(t, request, capacity, b);
    if times > 0 {
      RepeatedFirst(t, request, times - 1, capacity, b);
    }
  }

  lemma TrackedIsValid(t: Track)
    requires Tracked(t)
    ensures ValidDownload(t.d)
  {
  }

  lemma {:induction false} AllBlocksArrive(t: Track, blocks: seq<Block>, capacity: nat, b: Backend)
    requires Tracked(t) && MidTransfer(t, t.d, 0, []) && capacity >= 1 && b.writes
    requires Sendable(blocks) && |Artifact(blocks)| <= t.d.artifactSize
    ensures MidTransfer(SendAll(t, blocks, capacity, b), t.d, |blocks|, Artifact(blocks))
    decreases |blocks|
  {
    hide Tracked, Step, Repeated;
    if blocks != [] {
      var k := |blocks| - 1;
      AllBlocksArrive(t, blocks[..k], capacity, b);
      var before := SendAll(t, blocks[..k], capacity, b);
      BlockAccepted(before, blocks[k].bytes, capacity, b);
      var request := BlockRequest(k, blocks[k].bytes);
      TrackedIsValid(before);
      RepeatedFirst(before, request, blocks[k].resends, capacity, b);
      ResendsIgnored(Step(before, request, capacity, b), k, blocks[k].bytes, blocks[k].resends, capacity, b);
    }
  }

  /**
   * Whatever way an artifact is split into blocks and however often each block is sent again:
   * after the last one the transfer can be exited, and what is finalized is the artifact.
   */
  lemma ArtifactIsFinalized(t: Track, blocks: seq<Block>, capacity: nat, b: Backend)
    requires Tracked(t) && MidTransfer(t, t.d, 0, []) && capacity >= 1 && b.writes && b.finalizes
    requires Sendable(blocks) && |Artifact(blocks)| == t.d.artifactSize
    ensures var done := SendAll(t, blocks, capacity, b);
            var o := Handle(done.d, [TRANSFER_EXIT], capacity, b);
            && o.nrc == Positive && o.d.state == Complete
            && |o.calls| == 1 && o.calls[0].Finalize?
            && o.calls[0].header + Written(done.writes) == Artifact(blocks)
            && GapFree(done.writes, o.calls[0].address + HEADER_SIZE)
            && o.calls[0].slot == OtherSlot(t.d.running)
  {
    AllBlocksArrive(t, blocks, capacity, b);
    var done := SendAll(t, blocks, capacity, b);
    hide SendAll, GapFree, Written, Region;
    var o := Handle(done.d, [TRANSFER_EXIT], capacity, b);
    FinalizedIsWhole(done, [TRANSFER_EXIT], capacity, b, o.calls[0]);
  }
}
