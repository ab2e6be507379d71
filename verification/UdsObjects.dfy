/** The download and the server as objects updated in place, with the caller's response buffer. */
module UdsObjects {
  import opened Machine
  import opened UdsDownload
  import opened UdsServer
  import BootControl

  lemma RoutineKeepsValid(d: Download, request: seq<u8>, capacity: nat, b: Backend)
    requires ValidDownload(d) && request != []
    ensures ValidDownload(Routine(d, request, capacity, b).d)
  {
    hide Region, U32Be;
  }

  lemma CallsBefore(d: Download, subfunction: u8, erase: BackendResult, capacity: nat, calls: seq<Call>)
    ensures var o := RoutineResult(d, subfunction, erase, capacity, []);
            RoutineResult(d, subfunction, erase, capacity, calls) == o.(calls := calls + o.calls)
  {
  }

  class Downloader {
    const running: u8
    const header: array<u8>
    var state: DownloadState
    var targetSlot: u8
    var targetAddress: u32
    var targetSize: u32
    var artifactSize: u32
    var received: u32
    var expected: u8
    var lastBlock: u8
    var hasLast: bool

    ghost function Value(): Download
      reads this, header
    {
      Download(running, state, targetSlot, targetAddress, targetSize, artifactSize, received,
               expected, lastBlock, hasLast, header[..])
    }

    ghost predicate Sound()
      reads this, header
    {
      ValidDownload(Value())
    }

    constructor (running: u8)
      requires BootControl.IsSlot(running)
      ensures Sound() && this.running == running && fresh(header)
      ensures Value() == Fresh(running, header[..])
    {
      this.running := running;
      header := new u8[HEADER_SIZE](i => 0);
      state, targetSlot, targetAddress, targetSize := Idle, BootControl.NO_SLOT, 0, 0;
      artifactSize, received, expected, lastBlock, hasLast := 0, 0, 0, 0, false;
    }

    /** The answer of the routine, once the erase result is known. */
    method FinishRoutine(subfunction: u8, erase: BackendResult, capacity: nat)
      returns (nrc: Nrc, data: seq<u8>, calls: seq<Call>)
      modifies this`state
      ensures Outcome(Value(), nrc, data, calls)
           == RoutineResult(old(Value()), subfunction, erase, capacity, [])
    {
      calls, data := [], [];
      var status: u8;
      if erase == Done {
        state, status := Ready, 0;
      } else if erase == InProgress {
        state, status := Erasing, 1;
      } else {
        state, status := Failed, 2;
        calls := [Abort];
      }
      if capacity < ROUTINE_RESPONSE_LENGTH {
        return ResponseTooLong, [], calls;
      }
      data := [subfunction, 0xFF, 0x00, status, targetSlot] + U32Be(targetAddress) + U32Be(targetSize);
      nrc := Positive;
    }

    method ProcessRoutine(request: seq<u8>, capacity: nat, b: Backend)
      returns (nrc: Nrc, data: seq<u8>, calls: seq<Call>)
      requires Sound() && request != []
      modifies this
      ensures Sound()
      ensures Outcome(Value(), nrc, data, calls) == Routine(old(Value()), request, capacity, b)
    {
      hide RoutineResult, Region, OtherSlot, U32Be;
      RoutineKeepsValid(Value(), request, capacity, b);
      data, calls := [], [];
      if |request| != 4 {
        return IncorrectLength, data, calls;
      }
      if (request[2], request[3]) != (0xFF, 0x00) {
        return OutOfRange, data, calls;
      }
      if request[1] == 0x01 {
        if !b.authorized {
          return SecurityDenied, data, calls;
        }
        if state != Idle {
          return SequenceError, data, calls;
        }
        targetSlot := OtherSlot(running);
        targetAddress, targetSize := Region(targetSlot).base, Region(targetSlot).size;
        ghost var aimed := Value();
        nrc, data, calls := FinishRoutine(0x01, b.erase, capacity);
        CallsBefore(aimed, 0x01, b.erase, capacity, [StartErase(targetSlot, targetAddress, targetSize)]);
        calls := [StartErase(targetSlot, targetAddress, targetSize)] + calls;
        return;
      }
      if request[1] != 0x03 {
        return SubfunctionNotSupported, data, calls;
      }
      if state == Erasing {
        nrc, data, calls := FinishRoutine(0x03, b.erase, capacity);
      } else if state == Ready {
        nrc, data, calls := FinishRoutine(0x03, Done, capacity);
      } else if state == Failed {
        nrc, data, calls := FinishRoutine(0x03, Broken, capacity);
      } else {
        nrc := SequenceError;
      }
    }

    method ProcessRequestDownload(request: seq<u8>, capacity: nat) returns (nrc: Nrc, data: seq<u8>)
      requires Sound() && request != []
      modifies this, header
      ensures Sound()
      ensures Outcome(Value(), nrc, data, []) == RequestDownload(old(Value()), request, capacity)
    {
      data := [];
      if |request| != 11 {
        return IncorrectLength, data;
      }
      if request[1] != 0x00 || request[2] != 0x44 {
        return OutOfRange, data;
      }
      if state != Ready {
        return SequenceError, data;
      }
      var address, size := ReadU32Be(request, 3), ReadU32Be(request, 7);
      if address != targetAddress || size < HEADER_SIZE || size > targetSize || size % PROGRAM_UNIT != 0 {
        return OutOfRange, data;
      }
      if capacity < 3 {
        return ResponseTooLong, data;
      }
      BlankHeader();
      artifactSize, received, expected, hasLast, state := size, 0, 1, false, Transfer;
      return Positive, [0x20, 0x01, 0x02];
    }

    method BlankHeader()
      requires header.Length == HEADER_SIZE
      modifies header
      ensures header[..] == seq<u8>(HEADER_SIZE, i => 0xFF)
    {
      var index := 0;
      while index < HEADER_SIZE
        invariant 0 <= index <= HEADER_SIZE
        invariant forall i :: 0 <= i < index ==> header[i] == 0xFF
      {
        header[index] := 0xFF;
        index := index + 1;
      }
    }

    /** The copy of a block's first bytes into the header. */
    method FillHeader(block: seq<u8>, share: nat)
      requires share <= |block| && received + share <= header.Length
      modifies header
      ensures header[..] == Filled(old(header[..]), received, block, share)
    {
      var index := 0;
      ghost var was := header[..];
      while index < share
        invariant 0 <= index <= share
        invariant header[..] == was[..received] + block[..index] + was[received + index..]
      {
        header[received + index] := block[index];
        index := index + 1;
      }
      assert share == 0 ==> header[..] == was;
    }

    method ProcessTransferData(request: seq<u8>, capacity: nat, b: Backend)
      returns (nrc: Nrc, data: seq<u8>, calls: seq<Call>)
      requires Sound() && request != []
      modifies this, header
      ensures Sound()
      ensures Outcome(Value(), nrc, data, calls) == TransferData(old(Value()), request, capacity, b)
    {
      hide Region;
      data, calls := [], [];
      if |request| < 3 || |request| > MAX_BLOCK_LENGTH {
        return IncorrectLength, data, calls;
      }
      if state != Transfer {
        return SequenceError, data, calls;
      }
      if hasLast && request[1] == lastBlock {
        if capacity < 1 {
          return ResponseTooLong, data, calls;
        }
        return Positive, [request[1]], calls;
      }
      if request[1] != expected {
        return WrongBlockCounter, data, calls;
      }
      nrc, data, calls := AcceptBlock(request, capacity, b);
    }

    /** The block is the one expected next. */
    method AcceptBlock(request: seq<u8>, capacity: nat, b: Backend)
      returns (nrc: Nrc, data: seq<u8>, calls: seq<Call>)
      requires Sound() && 3 <= |request| <= MAX_BLOCK_LENGTH && state == Transfer
      requires !(hasLast && request[1] == lastBlock) && request[1] == expected
      modifies this, header
      ensures Sound()
      ensures Outcome(Value(), nrc, data, calls) == TransferData(old(Value()), request, capacity, b)
    {
      hide Region;
      data, calls := [], [];
      var block := request[2..];
      if |block| > artifactSize - received {
        state := Failed;
        return TransferSuspended, data, [Abort];
      }
      if capacity < 1 {
        return ResponseTooLong, data, calls;
      }
      var share := 0;
      if received < HEADER_SIZE {
        var remaining := HEADER_SIZE - received;
        share := if |block| < remaining then |block| else remaining;
        FillHeader(block, share);
      }
      if share < |block| {
        calls := [Write(targetAddress + received + share, block[share..])];
        if !b.writes {
          state := Failed;
          return ProgrammingFailure, data, calls + [Abort];
        }
      }
      received := received + |block|;
      lastBlock, hasLast := request[1], true;
      expected := (expected + 1) % 0x100;
      return Positive, [request[1]], calls;
    }

    method ProcessTransferExit(request: seq<u8>, b: Backend) returns (nrc: Nrc, calls: seq<Call>)
      requires Sound() && request != []
      modifies this
      ensures Sound()
      ensures Outcome(Value(), nrc, [], calls) == TransferExit(old(Value()), request, b)
    {
      if |request| != 1 {
        return IncorrectLength, [];
      }
      if state != Transfer || received != artifactSize {
        return SequenceError, [];
      }
      calls := [Finalize(targetSlot, targetAddress, header[..], artifactSize)];
      if !b.finalizes {
        state := Failed;
        return ProgrammingFailure, calls + [Abort];
      }
      state := Complete;
      nrc := Positive;
    }

    method HandleRequest(request: seq<u8>, capacity: nat, b: Backend)
      returns (nrc: Nrc, data: seq<u8>, calls: seq<Call>)
      requires Sound() && request != []
      modifies this, header
      ensures Sound()
      ensures Outcome(Value(), nrc, data, calls) == Handle(old(Value()), request, capacity, b)
    {
      hide Routine, RequestDownload, TransferData, TransferExit;
      data, calls := [], [];
      if request[0] == ROUTINE_CONTROL {
        nrc, data, calls := ProcessRoutine(request, capacity, b);
      } else if request[0] == REQUEST_DOWNLOAD {
        nrc, data := ProcessRequestDownload(request, capacity);
      } else if request[0] == TRANSFER_DATA {
        nrc, data, calls := ProcessTransferData(request, capacity, b);
      } else if request[0] == TRANSFER_EXIT {
        nrc, calls := ProcessTransferExit(request, b);
      } else {
        nrc := ServiceNotSupported;
      }
    }

    method AbortDownload() returns (calls: seq<Call>)
      requires Sound()
      modifies this
      ensures Sound() && (Value(), calls) == Aborted(old(Value()))
    {
      calls := if state == Erasing || state == Ready || state == Transfer then [Abort] else [];
      state, targetSlot, targetAddress, targetSize := Idle, BootControl.NO_SLOT, 0, 0;
      artifactSize, received, expected, hasLast := 0, 0, 0, false;
    }
  }

  lemma GrantedInPlace(s: Server, bytes: seq<u8>, capacity: nat)
    requires |bytes| <= capacity
    ensures Grant(s, bytes, capacity, [])
         == Answer(s.(counts := s.counts.(positive := Add32(s.counts.positive, 1))), ResponseReady, bytes, [])
  {
  }

  class ServerObject {
    const download: Downloader
    var session: u8
    var timerActive: bool
    var deadline: u32
    var counts: Counts

    ghost function Value(): Server
      reads this, download, download.header
    {
      Server(session, timerActive, deadline, counts, download.Value())
    }

    ghost predicate Sound()
      reads this, download, download.header
    {
      Kept(Value())
    }

    constructor (download: Downloader)
      requires download.Sound() && download.state == Idle
      ensures Sound() && this.download == download && Balanced(counts)
      ensures Value() == Server(SESSION_DEFAULT, false, 0, Counts(0, 0, 0, 0), download.Value())
    {
      this.download := download;
      session, timerActive, deadline := SESSION_DEFAULT, false, 0;
      counts := Counts(0, 0, 0, 0);
    }

    method RefreshTimer(now: u32)
      modifies this`deadline, this`timerActive
      ensures Value() == Refreshed(old(Value()), now)
    {
      if session != SESSION_DEFAULT {
        deadline := Add32(now, S3_TIMEOUT_MS);
        timerActive := true;
      }
    }

    /** Uds_Server_Tick */
    method ServerTick(now: u32) returns (calls: seq<Call>)
      requires Sound()
      modifies this, download
      ensures Sound() && (Value(), calls) == Tick(old(Value()), now)
    {
      TickKeeps(Value(), now);
      calls := [];
      if timerActive {
        if Reached(now, deadline) {
          if session == SESSION_PROGRAMMING {
            calls := download.AbortDownload();
          }
          session, timerActive := SESSION_DEFAULT, false;
        }
      }
    }

    /** Writes an answer into the caller's buffer, or reports that it does not fit. */
    method Reply(bytes: seq<u8>, response: array<u8>) returns (result: ServerResult, length: nat)
      requires response != download.header
      modifies response
      ensures length <= response.Length
      ensures |bytes| <= response.Length ==>
                (result, length) == (ResponseReady, |bytes|) && response[..length] == bytes
      ensures |bytes| > response.Length ==> (result, length) == (BufferTooSmall, 0)
    {
      if response.Length < |bytes| {
        return BufferTooSmall, 0;
      }
      var index := 0;
      while index < |bytes|
        invariant 0 <= index <= |bytes|
        invariant response[..index] == bytes[..index]
      {
        response[index] := bytes[index];
        index := index + 1;
      }
      return ResponseReady, |bytes|;
    }

    method Negative(service: u8, nrc: Nrc, response: array<u8>, ghost calls: seq<Call>)
      returns (result: ServerResult, length: nat)
      requires response != download.header
      modifies this`counts, response
      ensures length <= response.Length
      ensures Answer(Value(), result, response[..length], calls)
           == Decline(old(Value()), service, nrc, response.Length, calls)
    {
      result, length := Reply([NEGATIVE_RESPONSE, service, Code(nrc)], response);
      if result == ResponseReady {
        counts := counts.(negative := Add32(counts.negative, 1));
      }
    }

    method Affirm(bytes: seq<u8>, response: array<u8>, ghost calls: seq<Call>)
      returns (result: ServerResult, length: nat)
      requires response != download.header
      modifies this`counts, response
      ensures length <= response.Length
      ensures Answer(Value(), result, response[..length], calls)
           == Grant(old(Value()), bytes, response.Length, calls)
    {
      result, length := Reply(bytes, response);
      if result == ResponseReady {
        counts := counts.(positive := Add32(counts.positive, 1));
      }
    }

    method ProcessSessionControl(request: seq<u8>, now: u32, response: array<u8>)
      returns (result: ServerResult, length: nat, calls: seq<Call>)
      requires Sound() && request != [] && response != download.header
      modifies this, download, response
      ensures length <= response.Length
      ensures Answer(Value(), result, response[..length], calls)
           == SessionControl(old(Value()), request, now, response.Length)
    {
      hide Grant, Decline;
      calls := [];
      if |request| != 2 {
        result, length := Negative(request[0], IncorrectLength, response, calls);
        return;
      }
      var wanted := request[1] % 0x80;
      if wanted != SESSION_DEFAULT && wanted != SESSION_PROGRAMMING && wanted != SESSION_EXTENDED {
        result, length := Negative(request[0], SubfunctionNotSupported, response, calls);
        return;
      }
      if session == SESSION_PROGRAMMING && wanted != SESSION_PROGRAMMING {
        calls := download.AbortDownload();
      }
      session := wanted;
      if wanted == SESSION_DEFAULT {
        timerActive := false;
      } else {
        RefreshTimer(now);
      }
      if request[1] >= 0x80 {
        counts := counts.(suppressed := Add32(counts.suppressed, 1));
        return NoResponse, 0, calls;
      }
      result, length := Affirm([Plus(SESSION_CONTROL), wanted, 0x00, 0x32, 0x01, 0xF4], response, calls);
    }

    method ProcessTesterPresent(request: seq<u8>, response: array<u8>)
      returns (result: ServerResult, length: nat)
      requires request != [] && response != download.header
      modifies this`counts, response
      ensures length <= response.Length
      ensures Answer(Value(), result, response[..length], [])
           == TesterPresent(old(Value()), request, response.Length)
    {
      hide Grant, Decline;
      if |request| != 2 {
        result, length := Negative(request[0], IncorrectLength, response, []);
        return;
      }
      if request[1] % 0x80 != 0 {
        result, length := Negative(request[0], SubfunctionNotSupported, response, []);
        return;
      }
      if request[1] >= 0x80 {
        counts := counts.(suppressed := Add32(counts.suppressed, 1));
        return NoResponse, 0;
      }
      result, length := Affirm([Plus(TESTER_PRESENT), 0], response, []);
    }

    /** Appends bytes to what the buffer holds already. */
    method Put(bytes: seq<u8>, response: array<u8>, at: nat) returns (length: nat)
      requires at + |bytes| <= response.Length
      modifies response
      ensures length == at + |bytes| && response[..length] == old(response[..at]) + bytes
    {
      ghost var front := response[..at];
      var index := 0;
      while index < |bytes|
        invariant 0 <= index <= |bytes|
        invariant response[..at + index] == front + bytes[..index]
      {
        response[at + index] := bytes[index];
        index := index + 1;
      }
      length := at + |bytes|;
    }

    /** The loop over the requested identifiers, writing into the buffer and never beyond it. */
    method CollectDids(request: seq<u8>, response: array<u8>, read: DidReader) returns (nrc: Nrc, length: nat)
      requires |request| % 2 == 1 && response.Length >= 1
      modifies response
      ensures length <= response.Length
      ensures var (n, bytes) := ReadFrom(request, 1, [Plus(READ_DATA)], response.Length, read);
              nrc == n && (n == Positive ==> response[..length] == bytes)
    {
      var capacity := response.Length;
      length := Put([Plus(READ_DATA)], response, 0);
      ghost var bytes: seq<u8> := [Plus(READ_DATA)];
      assert response[..length] == bytes;
      var at := 1;
      while at < |request|
        invariant 1 <= at <= |request| && at % 2 == 1 && length <= capacity == response.Length
        invariant response[..length] == bytes
        invariant ReadFrom(request, at, bytes, capacity, read)
               == ReadFrom(request, 1, [Plus(READ_DATA)], capacity, read)
      {
        if capacity - length < 2 {
          return ResponseTooLong, 0;
        }
        var high: nat := request[at];
        var did := high * 0x100 + request[at + 1];
        length := Put([request[at], request[at + 1]], response, length);
        bytes := bytes + [request[at], request[at + 1]];
        var reply := read(did, capacity - length);
        if reply.result == DidNotSupported {
          return OutOfRange, 0;
        }
        if reply.result == DidTooSmall || (reply.result == DidOk && |reply.data| > capacity - length) {
          return ResponseTooLong, 0;
        }
        if reply.result != DidOk {
          return ConditionsNotCorrect, 0;
        }
        length := Put(reply.data, response, length);
        bytes := bytes + reply.data;
        at := at + 2;
      }
      nrc := Positive;
    }

    method ProcessReadDid(request: seq<u8>, response: array<u8>, reader: Option<DidReader>)
      returns (result: ServerResult, length: nat)
      requires request != [] && response != download.header
      modifies this`counts, response
      ensures length <= response.Length
      ensures Answer(Value(), result, response[..length], [])
           == ReadDids(old(Value()), request, response.Length, reader)
    {
      hide Grant, Decline, ReadFrom;
      if |request| < 3 || |request| % 2 == 0 {
        result, length := Negative(request[0], IncorrectLength, response, []);
        return;
      }
      if response.Length < 1 {
        return BufferTooSmall, 0;
      }
      if reader == None {
        result, length := Negative(request[0], OutOfRange, response, []);
        return;
      }
      var nrc;
      nrc, length := CollectDids(request, response, reader.value);
      if nrc == Positive {
        counts := counts.(positive := Add32(counts.positive, 1));
        GrantedInPlace(old(Value()), response[..length], response.Length);
        result := ResponseReady;
      } else {
        result, length := Negative(request[0], nrc, response, []);
      }
    }

    method ProcessProgramming(request: seq<u8>, response: array<u8>, b: Backend)
      returns (result: ServerResult, length: nat, calls: seq<Call>)
      requires download.Sound() && request != [] && response != download.header
      modifies this`counts, download, download.header, response
      ensures length <= response.Length
      ensures Answer(Value(), result, response[..length], calls)
           == Programming(old(Value()), request, response.Length, b)
    {
      hide Grant, Decline, Handle, ValidDownload;
      calls := [];
      if session != SESSION_PROGRAMMING {
        result, length := Negative(request[0], NotInActiveSession, response, calls);
        return;
      }
      if response.Length < 1 {
        return BufferTooSmall, 0, calls;
      }
      var nrc, data;
      nrc, data, calls := download.HandleRequest(request, response.Length - 1, b);
      if nrc != Positive {
        result, length := Negative(request[0], nrc, response, calls);
        return;
      }
      if |data| > response.Length - 1 {
        result, length := Negative(request[0], ResponseTooLong, response, calls);
        return;
      }
      result, length := Affirm([Plus(request[0])] + data, response, calls);
    }

    /** Uds_Server_ProcessRequest, answering into `response`. */
    method ProcessRequest(request: seq<u8>, now: u32, response: array<u8>, reader: Option<DidReader>, b: Backend)
      returns (result: ServerResult, length: nat, calls: seq<Call>)
      requires Sound() && response != download.header
      modifies this, download, download.header, response
      ensures Sound() && length <= response.Length
      ensures Answer(Value(), result, response[..length], calls)
           == Process(old(Value()), request, now, response.Length, reader, b)
    {
      EventKeeps(Value(), Request(request, now, response.Length, reader, b));
      hide Kept, Serve, Refreshed, Tick;
      if request == [] {
        return InvalidRequest, 0, [];
      }
      KeptIsValid(Value());
      var expired := ServerTick(now);
      RefreshTimer(now);
      counts := counts.(requests := Add32(counts.requests, 1));
      result, length, calls := Dispatch(request, now, response, reader, b);
      calls := expired + calls;
    }

    method Dispatch(request: seq<u8>, now: u32, response: array<u8>, reader: Option<DidReader>, b: Backend)
      returns (result: ServerResult, length: nat, calls: seq<Call>)
      requires download.Sound() && Sound() && request != [] && response != download.header
      modifies this, download, download.header, response
      ensures length <= response.Length
      ensures Answer(Value(), result, response[..length], calls)
           == Serve(old(Value()), request, now, response.Length, reader, b)
    {
      hide SessionControl, ReadDids, TesterPresent, Programming, Decline, Kept;
      calls := [];
      if request[0] == SESSION_CONTROL {
        result, length, calls := ProcessSessionControl(request, now, response);
      } else if request[0] == READ_DATA {
        result, length := ProcessReadDid(request, response, reader);
      } else if request[0] == TESTER_PRESENT {
        result, length := ProcessTesterPresent(request, response);
      } else if request[0] in {ROUTINE_CONTROL, REQUEST_DOWNLOAD, TRANSFER_DATA, TRANSFER_EXIT} {
        result, length, calls := ProcessProgramming(request, response, b);
      } else {
        result, length := Negative(request[0], ServiceNotSupported, response, calls);
      }
    }
  }
}
