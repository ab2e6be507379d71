/**
 * The UDS server with the firmware download as its programming service, on values: sessions and
 * their S3 timer, the five services, and exactly one answer for every request.
 */
module UdsServer {
  import opened Machine
  import opened UdsDownload
  import BootControl

  const SESSION_DEFAULT: u8 := 1
  const SESSION_PROGRAMMING: u8 := 2
  const SESSION_EXTENDED: u8 := 3
  const SESSION_CONTROL: u8 := 0x10
  const READ_DATA: u8 := 0x22
  const TESTER_PRESENT: u8 := 0x3E
  const POSITIVE_OFFSET := 0x40
  const NEGATIVE_RESPONSE: u8 := 0x7F
  const S3_TIMEOUT_MS := 5000

  /** Answers counted in 32-bit registers. */
  datatype Counts = Counts(requests: u32, positive: u32, negative: u32, suppressed: u32)

  datatype Server = Server(session: u8, timerActive: bool, deadline: u32, counts: Counts, d: Download)

  datatype ServerResult = ResponseReady | NoResponse | InvalidRequest | BufferTooSmall

  datatype Answer = Answer(server: Server, result: ServerResult, response: seq<u8>, calls: seq<Call>)

  datatype DidResult = DidOk | DidNotSupported | DidConditions | DidTooSmall

  /** What the reader of data identifiers delivers for a DID and the room left. */
  datatype DidReply = DidReply(result: DidResult, data: seq<u8>)
  type DidReader = (u16, nat) -> DidReply

  function Code(nrc: Nrc): u8 {
    match nrc
    case Positive => 0x00
    case ServiceNotSupported => 0x11
    case SubfunctionNotSupported => 0x12
    case IncorrectLength => 0x13
    case ResponseTooLong => 0x14
    case ConditionsNotCorrect => 0x22
    case SequenceError => 0x24
    case OutOfRange => 0x31
    case SecurityDenied => 0x33
    case TransferSuspended => 0x71
    case ProgrammingFailure => 0x72
    case WrongBlockCounter => 0x73
    case NotInActiveSession => 0x7F
  }

  function Plus(service: u8): u8 {
    (service + POSITIVE_OFFSET) % 0x100
  }

  // ---------------------------------------------------------------- answers

  function Decline(s: Server, service: u8, nrc: Nrc, capacity: nat, calls: seq<Call>): (a: Answer) {
    if capacity < 3 then Answer(s, BufferTooSmall, [], calls)
    else
      Answer(s.(counts := s.counts.(negative := Add32(s.counts.negative, 1))), ResponseReady,
             [NEGATIVE_RESPONSE, service, Code(nrc)], calls)
  }

  function Grant(s: Server, response: seq<u8>, capacity: nat, calls: seq<Call>): (a: Answer) {
    if capacity < |response| then Answer(s, BufferTooSmall, [], calls)
    else
      Answer(s.(counts := s.counts.(positive := Add32(s.counts.positive, 1))), ResponseReady,
             response, calls)
  }

  function Suppress(s: Server, calls: seq<Call>): (a: Answer) {
    Answer(s.(counts := s.counts.(suppressed := Add32(s.counts.suppressed, 1))), NoResponse, [], calls)
  }

  // ---------------------------------------------------------------- sessions

  function Refreshed(s: Server, now: u32): (r: Server) {
    if s.session == SESSION_DEFAULT then s
    else s.(deadline := Add32(now, S3_TIMEOUT_MS), timerActive := true)
  }

  /** Uds_Server_Tick: a session that has timed out falls back, and a download with it. */
  function Tick(s: Server, now: u32): (r: (Server, seq<Call>)) {
    if !s.timerActive || !Reached(now, s.deadline) then (s, [])
    else if s.session == SESSION_PROGRAMMING then
      (s.(d := Aborted(s.d).0, session := SESSION_DEFAULT, timerActive := false), Aborted(s.d).1)
    else (s.(session := SESSION_DEFAULT, timerActive := false), [])
  }

  function SessionControl(s: Server, request: seq<u8>, now: u32, capacity: nat): (a: Answer)
    requires request != []
  {
    if |request| != 2 then Decline(s, request[0], IncorrectLength, capacity, [])
    else
      var session := request[1] % 0x80;
      if session !in {SESSION_DEFAULT, SESSION_PROGRAMMING, SESSION_EXTENDED} then
        Decline(s, request[0], SubfunctionNotSupported, capacity, [])
      else
        var leaves := s.session == SESSION_PROGRAMMING && session != SESSION_PROGRAMMING;
        var calls := if leaves then Aborted(s.d).1 else [];
        var moved := s.(d := if leaves then Aborted(s.d).0 else s.d, session := session);
        var t := if session == SESSION_DEFAULT then moved.(timerActive := false)
                 else Refreshed(moved, now);
        if request[1] >= 0x80 then Suppress(t, calls)
        else Grant(t, [Plus(SESSION_CONTROL), session, 0x00, 0x32, 0x01, 0xF4], capacity, calls)
  }

  function TesterPresent(s: Server, request: seq<u8>, capacity: nat): (a: Answer)
    requires request != []
  {
    if |request| != 2 then Decline(s, request[0], IncorrectLength, capacity, [])
    else if request[1] % 0x80 != 0 then
      Decline(s, request[0], SubfunctionNotSupported, capacity, [])
    else if request[1] >= 0x80 then Suppress(s, [])
    else Grant(s, [Plus(TESTER_PRESENT), 0], capacity, [])
  }

  // ---------------------------------------------------------------- data identifiers

  /** The DIDs from `at` on, appended to the response, or the reason for declining. */
  function ReadFrom(request: seq<u8>, at: nat, response: seq<u8>, capacity: nat, read: DidReader):
    (r: (Nrc, seq<u8>))
    requires |request| % 2 == at % 2 == 1 && at <= |request| && |response| <= capacity
    ensures r.0 == Positive ==> |response| <= |r.1| <= capacity
    decreases |request| - at
  {
    if at >= |request| then (Positive, response)
    else if capacity - |response| < 2 then (ResponseTooLong, [])
    else
      var high: nat := request[at];
      var did := high * 0x100 + request[at + 1];
      var named := response + [request[at], request[at + 1]];
      var reply := read(did, capacity - |named|);
      match reply.result
      case DidNotSupported => (OutOfRange, [])
      case DidTooSmall => (ResponseTooLong, [])
      case DidConditions => (ConditionsNotCorrect, [])
      case DidOk =>
        if |reply.data| > capacity - |named| then (ResponseTooLong, [])
        else ReadFrom(request, at + 2, named + reply.data, capacity, read)
  }

  function ReadDids(s: Server, request: seq<u8>, capacity: nat, reader: Option<DidReader>): (a: Answer)
    requires request != []
  {
    if |request| < 3 || |request| % 2 == 0 then Decline(s, request[0], IncorrectLength, capacity, [])
    else if capacity < 1 then Answer(s, BufferTooSmall, [], [])
    else if reader == None then Decline(s, request[0], OutOfRange, capacity, [])
    else
      var (nrc, response) := ReadFrom(request, 1, [Plus(READ_DATA)], capacity, reader.value);
      if nrc == Positive then Grant(s, response, capacity, [])
      else Decline(s, request[0], nrc, capacity, [])
  }

  // ---------------------------------------------------------------- programming

  function Programming(s: Server, request: seq<u8>, capacity: nat, b: Backend): (a: Answer)
    requires request != [] && ValidDownload(s.d)
  {
    if s.session != SESSION_PROGRAMMING then
      Decline(s, request[0], NotInActiveSession, capacity, [])
    else if capacity < 1 then Answer(s, BufferTooSmall, [], [])
    else
      var o := Handle(s.d, request, capacity - 1, b);
      var t := s.(d := o.d);
      if o.nrc != Positive then Decline(t, request[0], o.nrc, capacity, o.calls)
      else if |o.data| > capacity - 1 then Decline(t, request[0], ResponseTooLong, capacity, o.calls)
      else Grant(t, [Plus(request[0])] + o.data, capacity, o.calls)
  }

  /** Uds_Server_ProcessRequest */
  function Process(s: Server, request: seq<u8>, now: u32, capacity: nat, reader: Option<DidReader>,
                   b: Backend): (a: Answer)
    requires ValidDownload(s.d)
  {
    if request == [] then Answer(s, InvalidRequest, [], [])
    else
      var (ticked, expired) := Tick(s, now);
      var refreshed := Refreshed(ticked, now);
      var t := refreshed.(counts := refreshed.counts.(requests := Add32(refreshed.counts.requests, 1)));
      var a := Serve(t, request, now, capacity, reader, b);
      a.(calls := expired + a.calls)
  }

  function Serve(t: Server, request: seq<u8>, now: u32, capacity: nat, reader: Option<DidReader>,
                 b: Backend): (a: Answer)
    requires ValidDownload(t.d) && request != []
  {
    if request[0] == SESSION_CONTROL then SessionControl(t, request, now, capacity)
    else if request[0] == READ_DATA then ReadDids(t, request, capacity, reader)
    else if request[0] == TESTER_PRESENT then TesterPresent(t, request, capacity)
    else if request[0] in {ROUTINE_CONTROL, REQUEST_DOWNLOAD, TRANSFER_DATA, TRANSFER_EXIT} then
      Programming(t, request, capacity, b)
    else Decline(t, request[0], ServiceNotSupported, capacity, [])
  }

  // ---------------------------------------------------------------- what is kept

  /**
   * An open download lives in a programming session only; the timer runs exactly outside the
   * default session.
   */
  predicate Kept(s: Server) {
    && ValidDownload(s.d)
    && s.session in {SESSION_DEFAULT, SESSION_PROGRAMMING, SESSION_EXTENDED}
    && (s.d.state != Idle ==> s.session == SESSION_PROGRAMMING)
    && (s.timerActive <==> s.session != SESSION_DEFAULT)
  }

  /** Every request has been answered positively, negatively or deliberately not at all. */
  predicate Balanced(c: Counts) {
    c.requests == Add32(Add32(c.positive, c.negative), c.suppressed)
  }

  lemma TickKeeps(s: Server, now: u32)
    requires Kept(s)
    ensures Kept(Tick(s, now).0) && Tick(s, now).0.counts == s.counts
    ensures var (t, calls) := Tick(s, now);
            if s.timerActive && Reached(now, s.deadline) then
              && t.session == SESSION_DEFAULT && !t.timerActive && t.d.state == Idle
              && calls == if s.d.state in {Erasing, Ready, Transfer} then [Abort] else []
            else (t, calls) == (s, [])
  {
  }

  /** One more answer of one kind. */
  predicate OneMore(c: Counts, n: Counts) {
    n in {c.(positive := Add32(c.positive, 1)), c.(negative := Add32(c.negative, 1)),
          c.(suppressed := Add32(c.suppressed, 1))}
  }

  /** Exactly one answer, within the capacity, and only a small buffer prevents it. */
  predicate Served(t: Server, a: Answer, capacity: nat) {
    && Kept(a.server) && |a.response| <= capacity
    && (a.result == BufferTooSmall ==> a.server.counts == t.counts && capacity < 6)
    && (a.result != BufferTooSmall ==> OneMore(t.counts, a.server.counts))
    && (a.response != [] <==> a.result == ResponseReady)
  }

  lemma SessionServed(t: Server, request: seq<u8>, now: u32, capacity: nat)
    requires Kept(t) && request != []
    ensures Served(t, SessionControl(t, request, now, capacity), capacity)
  {
    hide Add32;
  }

  lemma TesterServed(t: Server, request: seq<u8>, capacity: nat)
    requires Kept(t) && request != []
    ensures Served(t, TesterPresent(t, request, capacity), capacity)
  {
    hide Add32;
  }

  lemma DidsServed(t: Server, request: seq<u8>, capacity: nat, reader: Option<DidReader>)
    requires Kept(t) && request != []
    ensures Served(t, ReadDids(t, request, capacity, reader), capacity)
  {
    hide ReadFrom, Add32;
  }

  lemma ProgrammingServed(t: Server, request: seq<u8>, capacity: nat, b: Backend)
    requires Kept(t) && request != []
    ensures Served(t, Programming(t, request, capacity, b), capacity)
  {
    hide Handle, ValidDownload, Add32;
    KeptIsValid(t);
    HandleKeepsValid(t.d, request, if capacity > 0 then capacity - 1 else 0, b);
  }

  lemma ServeKeeps(t: Server, request: seq<u8>, now: u32, capacity: nat, reader: Option<DidReader>, b: Backend)
    requires Kept(t) && request != []
    ensures Served(t, Serve(t, request, now, capacity, reader, b), capacity)
  {
    hide SessionControl, TesterPresent, ReadDids, Programming;
    SessionServed(t, request, now, capacity);
    TesterServed(t, request, capacity);
    DidsServed(t, request, capacity, reader);
    ProgrammingServed(t, request, capacity, b);
  }

  lemma HandleKeepsValid(d: Download, request: seq<u8>, capacity: nat, b: Backend)
    requires ValidDownload(d) && request != []
    ensures ValidDownload(Handle(d, request, capacity, b).d)
  {
    var o := Handle(d, request, capacity, b);
    if NewBlock(d, request, o) {
      AcceptedBlock(d, request, capacity, b);
      hide Handle, Region;
    } else {
      OtherRequests(d, request, capacity, b);
    }
  }

  lemma BalanceGrows(c: Counts, n: Counts)
    requires Balanced(c) && OneMore(c.(requests := Add32(c.requests, 1)), n)
    ensures Balanced(n)
  {
  }

  /** Requests and ticks in any order, with any timing, capacity, reader and backend. */
  datatype Event =
    | Request(request: seq<u8>, at: u32, capacity: nat, reader: Option<DidReader>, b: Backend)
    | Ticks(at: u32)

  function After(s: Server, e: Event): (r: Server)
    requires ValidDownload(s.d)
  {
    match e
    case Request(request, at, capacity, reader, b) => Process(s, request, at, capacity, reader, b).server
    case Ticks(at) => Tick(s, at).0
  }

  lemma EventKeeps(s: Server, e: Event)
    requires Kept(s)
    ensures Kept(After(s, e))
    ensures Balanced(s.counts) && (e.Request? ==> e.capacity >= 6) ==> Balanced(After(s, e).counts)
  {
    TickKeeps(s, e.at);
    if e.Request? && e.request != [] {
      hide Tick, Serve, Reached;
      var (ticked, expired) := Tick(s, e.at);
      var refreshed := Refreshed(ticked, e.at);
      var t := refreshed.(counts := refreshed.counts.(requests := Add32(refreshed.counts.requests, 1)));
      ServeKeeps(t, e.request, e.at, e.capacity, e.reader, e.b);
      var n := Serve(t, e.request, e.at, e.capacity, e.reader, e.b).server;
      if Balanced(s.counts) && e.capacity >= 6 {
        BalanceGrows(s.counts, n.counts);
      }
    }
  }

  /** A request unbalances the counts exactly if its buffer has no room for the answer. */
  lemma BalancedUnlessTooSmall(s: Server, request: seq<u8>, at: u32, capacity: nat, reader: Option<DidReader>,
                               b: Backend)
    requires Kept(s) && Balanced(s.counts) && request != []
    ensures var a := Process(s, request, at, capacity, reader, b);
            && (Balanced(a.server.counts) <==> a.result != BufferTooSmall)
            && (a.result == BufferTooSmall ==> capacity < 6)
  {
    hide Tick, Serve, Reached, Kept;
    TickKeeps(s, at);
    var refreshed := Refreshed(Tick(s, at).0, at);
    RefreshKeeps(Tick(s, at).0, at);
    var t := refreshed.(counts := refreshed.counts.(requests := Add32(refreshed.counts.requests, 1)));
    KeptIgnoresCounts(refreshed, t);
    ServeKeeps(t, request, at, capacity, reader, b);
    KeptIsValid(s);
    if Serve(t, request, at, capacity, reader, b).result != BufferTooSmall {
      BalanceGrows(s.counts, Serve(t, request, at, capacity, reader, b).server.counts);
    }
  }

  /** Whatever the session and the time: too small a buffer for a change of session unbalances them. */
  lemma SmallBufferUnbalances(s: Server, at: u32, capacity: nat, reader: Option<DidReader>, b: Backend)
    requires Kept(s) && Balanced(s.counts) && capacity < 6
    ensures !Balanced(Process(s, [SESSION_CONTROL, SESSION_EXTENDED], at, capacity, reader, b).server.counts)
  {
    hide Tick, Kept, Balanced;
    TickKeeps(s, at);
    BalancedUnlessTooSmall(s, [SESSION_CONTROL, SESSION_EXTENDED], at, capacity, reader, b);
  }

  /** The counts stay balanced, whatever is requested, exactly with a capacity of six bytes. */
  lemma SixBytesExactly(s: Server, at: u32, capacity: nat, reader: Option<DidReader>, b: Backend)
    requires Kept(s) && Balanced(s.counts)
    ensures (forall request: seq<u8> :: request != [] ==>
               Balanced(Process(s, request, at, capacity, reader, b).server.counts))
            <==> capacity >= 6
  {
    hide Process, Kept, Balanced;
    KeptIsValid(s);
    if capacity >= 6 {
      forall request: seq<u8> | request != []
        ensures Balanced(Process(s, request, at, capacity, reader, b).server.counts)
      {
        BalancedUnlessTooSmall(s, request, at, capacity, reader, b);
      }
    } else {
      SmallBufferUnbalances(s, at, capacity, reader, b);
    }
  }

  lemma RefreshKeeps(s: Server, now: u32)
    requires Kept(s)
    ensures Kept(Refreshed(s, now)) && Refreshed(s, now).counts == s.counts
  {
  }

  lemma KeptIgnoresCounts(s: Server, t: Server)
    requires Kept(s) && t == s.(counts := t.counts)
    ensures Kept(t)
  {
  }

  ghost predicate IsRun(trace: seq<Server>, events: seq<Event>) {
    && |trace| == |events| + 1
    && forall i :: 0 <= i < |events| ==> ValidDownload(trace[i].d) ==> trace[i + 1] == After(trace[i], events[i])
  }

  lemma KeptIsValid(s: Server)
    requires Kept(s)
    ensures ValidDownload(s.d)
  {
  }

  /** Every response buffer has room for the longest fixed answer. */
  ghost predicate Roomy(events: seq<Event>) {
    forall i :: 0 <= i < |events| && events[i].Request? ==> events[i].capacity >= 6
  }

  /** Over every interleaving. */
  lemma {:induction false} EveryRunIsKept(trace: seq<Server>, events: seq<Event>, i: nat)
    requires IsRun(trace, events) && Kept(trace[0]) && i < |trace|
    ensures Kept(trace[i])
    ensures Balanced(trace[0].counts) && Roomy(events[..i]) ==> Balanced(trace[i].counts)
  {
    hide Balanced, Kept, After;
    if i > 0 {
      EveryRunIsKept(trace, events, i - 1);
      KeptIsValid(trace[i - 1]);
      assert events[..i] == events[..i - 1] + [events[i - 1]];
      EventKeeps(trace[i - 1], events[i - 1]);
      assert trace[i - 1 + 1] == After(trace[i - 1], events[i - 1]);
    }
  }

  function Initial(running: u8, header: seq<u8>): Server {
    Server(SESSION_DEFAULT, false, 0, Counts(0, 0, 0, 0), Fresh(running, header))
  }

  lemma InitialIsKept(running: u8, header: seq<u8>)
    requires BootControl.IsSlot(running) && |header| == HEADER_SIZE
    ensures Kept(Initial(running, header)) && Balanced(Initial(running, header).counts)
  {
  }

  // ---------------------------------------------------------------- downloads in whole runs

  /** The server, and what its download has accepted since it began. */
  datatype Observed = Observed(s: Server, t: Track)

  predicate Watched(x: Observed) {
    Kept(x.s) && x.t.d == x.s.d && Tracked(x.t)
  }

  /** The request gets through to the download: not timed out, and with room for an answer. */
  predicate Reaches(s: Server, request: seq<u8>, at: u32, capacity: nat)
    requires request != []
  {
    && request[0] in {ROUTINE_CONTROL, REQUEST_DOWNLOAD, TRANSFER_DATA, TRANSFER_EXIT}
    && Tick(s, at).0.session == SESSION_PROGRAMMING && capacity >= 1
  }

  function CallsOf(s: Server, e: Event): seq<Call>
    requires ValidDownload(s.d)
  {
    match e
    case Request(request, at, capacity, reader, b) => Process(s, request, at, capacity, reader, b).calls
    case Ticks(at) => Tick(s, at).1
  }

  /** A timeout first, then a request to the download, or whatever else the event does to it. */
  function TrackAfter(x: Observed, e: Event): (t: Track)
    requires Watched(x)
  {
    if e.Request? && e.request != [] && Reaches(x.s, e.request, e.at, e.capacity) then
      TickKeeps(x.s, e.at);
      Step(x.t.(d := Tick(x.s, e.at).0.d), e.request, e.capacity - 1, e.b)
    else x.t.(d := After(x.s, e).d)
  }

  ghost predicate IsObservedRun(trace: seq<Observed>, events: seq<Event>) {
    && |trace| == |events| + 1
    && forall i :: 0 <= i < |events| ==> Watched(trace[i]) ==>
         trace[i + 1] == Observed(After(trace[i].s, events[i]), TrackAfter(trace[i], events[i]))
  }

  lemma AbortedIsTracked(t: Track)
    requires ValidDownload(t.d)
    ensures Tracked(t.(d := Aborted(t.d).0))
  {
  }

  /** What the services other than the download do to it: nothing, or give it up; none finalizes. */
  lemma OtherServices(t: Server, request: seq<u8>, now: u32, capacity: nat, reader: Option<DidReader>, b: Backend)
    requires Kept(t) && request != []
    requires !(request[0] in {ROUTINE_CONTROL, REQUEST_DOWNLOAD, TRANSFER_DATA, TRANSFER_EXIT}
               && t.session == SESSION_PROGRAMMING && capacity >= 1)
    ensures var a := Serve(t, request, now, capacity, reader, b);
            && (a.server.d, a.calls) in {(t.d, []), Aborted(t.d)}
            && forall call :: call in a.calls ==> call == Abort
  {
    hide Handle, Aborted, ReadFrom, Add32;
    AbortsOnly(t.d);
  }

  lemma AbortsOnly(d: Download)
    ensures forall call :: call in Aborted(d).1 ==> call == Abort
  {
  }

  lemma DownloadService(t: Server, request: seq<u8>, now: u32, capacity: nat, reader: Option<DidReader>, b: Backend)
    requires Kept(t) && request != [] && t.session == SESSION_PROGRAMMING && capacity >= 1
    requires request[0] in {ROUTINE_CONTROL, REQUEST_DOWNLOAD, TRANSFER_DATA, TRANSFER_EXIT}
    ensures ValidDownload(t.d)
    ensures var a, o := Serve(t, request, now, capacity, reader, b), Handle(t.d, request, capacity - 1, b);
            a.server.d == o.d && a.calls == o.calls
  {
    hide Handle, Add32;
  }

  /** A request after its timeout check: the same download, at a later session. */
  lemma Processed(s: Server, e: Event) returns (t: Server)
    requires Kept(s) && e.Request? && e.request != []
    ensures Kept(t) && t.d == Tick(s, e.at).0.d && t.session == Tick(s, e.at).0.session
    ensures var a := Serve(t, e.request, e.at, e.capacity, e.reader, e.b);
            && After(s, e) == a.server && CallsOf(s, e) == Tick(s, e.at).1 + a.calls
  {
    hide Tick, Serve, Kept;
    TickKeeps(s, e.at);
    KeptIsValid(s);
    RefreshKeeps(Tick(s, e.at).0, e.at);
    var refreshed := Refreshed(Tick(s, e.at).0, e.at);
    t := refreshed.(counts := refreshed.counts.(requests := Add32(refreshed.counts.requests, 1)));
    KeptIgnoresCounts(refreshed, t);
    KeptIsValid(t);
  }

  lemma TickIsTracked(x: Observed, at: u32)
    requires Watched(x)
    ensures Tracked(x.t.(d := Tick(x.s, at).0.d))
    ensures forall call :: call in Tick(x.s, at).1 ==> call == Abort
    ensures Tick(x.s, at).0.d != x.s.d ==> Tick(x.s, at).0.session == SESSION_DEFAULT
  {
    hide Kept, Tracked, Aborted;
    TrackedIsValid(x.t);
    AbortedIsTracked(x.t);
    AbortsOnly(x.s.d);
  }

  /** Every event keeps the account, whatever it does to the download. */
  lemma ObservedStep(x: Observed, e: Event)
    requires Watched(x)
    ensures Watched(Observed(After(x.s, e), TrackAfter(x, e)))
  {
    hide Kept, Tracked, Serve, Tick, Step, Aborted, Balanced;
    KeptIsValid(x.s);
    EventKeeps(x.s, e);
    TickIsTracked(x, e.at);
    if e.Request? && e.request != [] {
      var t := Processed(x.s, e);
      var ticked := x.t.(d := t.d);
      if Reaches(x.s, e.request, e.at, e.capacity) {
        DownloadService(t, e.request, e.at, e.capacity, e.reader, e.b);
        StepKeepsTrack(ticked, e.request, e.capacity - 1, e.b);
        StepIsHandled(ticked, e.request, e.capacity - 1, e.b);
      } else {
        OtherServices(t, e.request, e.at, e.capacity, e.reader, e.b);
        KeptIsValid(t);
        AbortedIsTracked(ticked);
        assert x.t.(d := After(x.s, e).d) == ticked.(d := After(x.s, e).d);
      }
    }
  }

  lemma StepIsHandled(t: Track, request: seq<u8>, capacity: nat, b: Backend)
    requires ValidDownload(t.d) && request != []
    ensures Step(t, request, capacity, b).d == Handle(t.d, request, capacity, b).d
  {
    hide Handle, NewBlock;
  }

  /** What is finalized is all that has been accepted, gap-free in the slot that is not running. */
  predicate Whole(t: Track, call: Call)
    requires call.Finalize?
  {
    && call.header + Written(t.writes) == t.image && |t.image| == call.size
    && call.slot == OtherSlot(t.d.running) != t.d.running
    && call.address == Region(call.slot).base
    && GapFree(t.writes, call.address + HEADER_SIZE)
    && call.address + HEADER_SIZE + |Written(t.writes)| == call.address + call.size
       <= Region(call.slot).base + Region(call.slot).size
  }

  lemma FinalizedInEvent(x: Observed, e: Event, call: Call)
    requires Watched(x) && ValidDownload(x.s.d) && call in CallsOf(x.s, e) && call.Finalize?
    ensures Whole(x.t, call)
  {
    hide Kept, Tracked, Serve, Tick, Aborted, Handle, Whole, Process;
    TickIsTracked(x, e.at);
    if e.Request? && e.request != [] {
      var t := Processed(x.s, e);
      if Reaches(x.s, e.request, e.at, e.capacity) {
        DownloadService(t, e.request, e.at, e.capacity, e.reader, e.b);
        FinalizedAnswer(x.t, e.request, e.capacity - 1, e.b, call);
      } else {
        OtherServices(t, e.request, e.at, e.capacity, e.reader, e.b);
      }
    } else if e.Request? {
      NothingProcessed(x.s, e);
    }
  }

  lemma NothingProcessed(s: Server, e: Event)
    requires ValidDownload(s.d) && e.Request? && e.request == []
    ensures CallsOf(s, e) == [] && After(s, e) == s
  {
  }

  lemma FinalizedAnswer(t: Track, request: seq<u8>, capacity: nat, b: Backend, call: Call)
    requires Tracked(t) && ValidDownload(t.d) && request != []
    requires call in Handle(t.d, request, capacity, b).calls && call.Finalize?
    ensures Whole(t, call)
  {
    hide Handle, Tracked, GapFree, Written;
    FinalizedIsWhole(t, request, capacity, b, call);
  }

  /**
   * From the start, over every interleaving of requests, ticks, timeouts and changes of session: the
   * invariant, the counts, and the account of the download.
   */
  lemma {:induction false} EveryRunFromStart(running: u8, header: seq<u8>, trace: seq<Observed>,
                                             events: seq<Event>, i: nat)
    requires BootControl.IsSlot(running) && |header| == HEADER_SIZE
    requires IsObservedRun(trace, events) && i < |trace|
    requires trace[0] == Observed(Initial(running, header), Track(Fresh(running, header), [], 0, []))
    ensures Watched(trace[i])
    ensures Roomy(events[..i]) ==> Balanced(trace[i].s.counts)
  {
    hide Kept, Balanced, After, TrackAfter, Tracked;
    if i == 0 {
      InitialIsKept(running, header);
      InitialIsTracked(running, header);
    } else {
      EveryRunFromStart(running, header, trace, events, i - 1);
      KeptIsValid(trace[i - 1].s);
      assert events[..i] == events[..i - 1] + [events[i - 1]];
      ObservedStep(trace[i - 1], events[i - 1]);
      EventKeeps(trace[i - 1].s, events[i - 1]);
      assert trace[i - 1 + 1]
          == Observed(After(trace[i - 1].s, events[i - 1]), TrackAfter(trace[i - 1], events[i - 1]));
    }
  }

  lemma InitialIsTracked(running: u8, header: seq<u8>)
    requires BootControl.IsSlot(running) && |header| == HEADER_SIZE
    ensures Tracked(Track(Fresh(running, header), [], 0, []))
  {
  }

  /** Wherever such a run finalizes a download, it is whole. */
  lemma EveryFinalizeIsWhole(running: u8, header: seq<u8>, trace: seq<Observed>, events: seq<Event>,
                             i: nat)
    requires BootControl.IsSlot(running) && |header| == HEADER_SIZE
    requires IsObservedRun(trace, events) && i < |events|
    requires trace[0] == Observed(Initial(running, header), Track(Fresh(running, header), [], 0, []))
    ensures ValidDownload(trace[i].s.d)
    ensures forall call :: call in CallsOf(trace[i].s, events[i]) && call.Finalize? ==> Whole(trace[i].t, call)
  {
    hide Kept, Tracked, CallsOf, Whole;
    EveryRunFromStart(running, header, trace, events, i);
    KeptIsValid(trace[i].s);
    forall call | call in CallsOf(trace[i].s, events[i]) && call.Finalize?
      ensures Whole(trace[i].t, call)
    {
      FinalizedInEvent(trace[i], events[i], call);
    }
  }

  lemma CallInEvent(x: Observed, e: Event, call: Call)
    requires Watched(x) && ValidDownload(x.s.d) && call in CallsOf(x.s, e)
    ensures InOtherSlot(x.s.d.running, x.s.d.artifactSize, call)
  {
    hide Kept, Tracked, Serve, Tick, Aborted, Handle, Process;
    TickIsTracked(x, e.at);
    if e.Request? && e.request != [] {
      var t := Processed(x.s, e);
      if Reaches(x.s, e.request, e.at, e.capacity) {
        DownloadService(t, e.request, e.at, e.capacity, e.reader, e.b);
        if call in Handle(t.d, e.request, e.capacity - 1, e.b).calls {
          CallsStayInside(t.d, e.request, e.capacity - 1, e.b, call);
        }
      } else {
        OtherServices(t, e.request, e.at, e.capacity, e.reader, e.b);
      }
    } else if e.Request? {
      NothingProcessed(x.s, e);
    }
  }

  lemma EventKeepsRunning(x: Observed, e: Event)
    requires Watched(x)
    ensures ValidDownload(x.s.d) && After(x.s, e).d.running == x.s.d.running
  {
    hide Kept, Tracked, Serve, Handle;
    KeptIsValid(x.s);
    if e.Request? && e.request != [] {
      var t := Processed(x.s, e);
      hide After;
      KeptIsValid(t);
      if Reaches(x.s, e.request, e.at, e.capacity) {
        DownloadService(t, e.request, e.at, e.capacity, e.reader, e.b);
        RunningStays(t.d, e.request, e.capacity - 1, e.b);
      } else {
        OtherServices(t, e.request, e.at, e.capacity, e.reader, e.b);
      }
    }
  }

  /**
   * In every such run, every call to the backend, also one that it refuses or that is never
   * followed by a finalize, concerns the slot that was not running at the start, and writes only
   * between the header and the end of the artifact.
   */
  lemma {:induction false} EveryCallIsInside(running: u8, header: seq<u8>, trace: seq<Observed>,
                                             events: seq<Event>, i: nat)
    requires BootControl.IsSlot(running) && |header| == HEADER_SIZE
    requires IsObservedRun(trace, events) && i < |trace|
    requires trace[0] == Observed(Initial(running, header), Track(Fresh(running, header), [], 0, []))
    ensures ValidDownload(trace[i].s.d) && trace[i].s.d.running == running
    ensures i < |events| ==>
              forall call :: call in CallsOf(trace[i].s, events[i]) ==>
                InOtherSlot(running, trace[i].s.d.artifactSize, call)
  {
    hide Kept, Tracked, CallsOf, InOtherSlot, After, TrackAfter;
    EveryRunFromStart(running, header, trace, events, i);
    KeptIsValid(trace[i].s);
    if i > 0 {
      EveryCallIsInside(running, header, trace, events, i - 1);
      EveryRunFromStart(running, header, trace, events, i - 1);
      EventKeepsRunning(trace[i - 1], events[i - 1]);
      assert trace[i - 1 + 1]
          == Observed(After(trace[i - 1].s, events[i - 1]), TrackAfter(trace[i - 1], events[i - 1]));
    }
    if i < |events| {
      forall call | call in CallsOf(trace[i].s, events[i])
        ensures InOtherSlot(running, trace[i].s.d.artifactSize, call)
      {
        CallInEvent(trace[i], events[i], call);
      }
    }
  }
}
