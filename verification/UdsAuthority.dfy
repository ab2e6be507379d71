/**
 * Who may change flash: over every run of the composed server, nothing is written or finalized but in a
 * download that began with an authorized erase, has been erased, and has not been given up since.
 */
module UdsAuthority {
  import opened Machine
  import opened UdsDownload
  import opened UdsServer
  import BootControl

  predicate Open(d: Download) {
    d.state in {Erasing, Ready, Transfer}
  }

  const ERASE_START: seq<u8> := [0x31, 0x01, 0xFF, 0x00]

  // ---------------------------------------------------------------- one request

  /** A request asks for an erase only if it is authorized, and no download has been begun. */
  lemma EraseIsAuthorized(d: Download, request: seq<u8>, capacity: nat, b: Backend, call: Call)
    requires ValidDownload(d) && request != []
    requires call in Handle(d, request, capacity, b).calls
    ensures call.StartErase? ==> b.authorized && d.state == Idle && request == ERASE_START
    ensures call.Write? || call.Finalize? ==> d.state == Transfer
  {
    hide Filled, U32Be, ReadU32Be, Region, IsDuplicate;
  }

  /** An open download goes on without an abort, or begins with an erase; it is ready once that is done. */
  predicate Earned(d: Download, request: seq<u8>, b: Backend, o: Outcome) {
    && (Open(o.d) ==> Abort !in o.calls)
    && (Open(o.d) && !Open(d) ==>
          && b.authorized && d.state == Idle && request == ERASE_START && o.d.state != Transfer
          && o.calls == [StartErase(OtherSlot(d.running), Region(OtherSlot(d.running)).base,
                                    Region(OtherSlot(d.running)).size)])
    && (o.d.state == Transfer ==> d.state in {Ready, Transfer})
    && (o.d.state == Ready && d.state != Ready ==> b.erase == Done && d.state in {Idle, Erasing})
  }

  lemma OpenIsEarned(d: Download, request: seq<u8>, capacity: nat, b: Backend)
    requires ValidDownload(d) && request != []
    ensures Earned(d, request, b, Handle(d, request, capacity, b))
  {
    hide Earned, Routine, RequestDownload, TransferData, TransferExit;
    EarnedElsewhere(d, request, b, Refuse(d, ServiceNotSupported));
    if request[0] == ROUTINE_CONTROL {
      RoutineEarns(d, request, capacity, b);
    } else if request[0] == REQUEST_DOWNLOAD {
      RequestEarns(d, request, capacity, b);
    } else if request[0] == TRANSFER_DATA {
      TransferEarns(d, request, capacity, b);
    } else if request[0] == TRANSFER_EXIT {
      ExitEarns(d, request, b);
    }
  }

  lemma EarnedElsewhere(d: Download, request: seq<u8>, b: Backend, o: Outcome)
    requires o.d == d && o.calls == []
    ensures Earned(d, request, b, o)
  {
  }

  lemma RoutineEarns(d: Download, request: seq<u8>, capacity: nat, b: Backend)
    requires ValidDownload(d) && request != [] && request[0] == ROUTINE_CONTROL
    ensures Earned(d, request, b, Routine(d, request, capacity, b))
  {
    hide U32Be, Region;
  }

  lemma RequestEarns(d: Download, request: seq<u8>, capacity: nat, b: Backend)
    requires ValidDownload(d) && request != []
    ensures Earned(d, request, b, RequestDownload(d, request, capacity))
  {
    hide ReadU32Be, Region;
  }

  lemma TransferEarns(d: Download, request: seq<u8>, capacity: nat, b: Backend)
    requires ValidDownload(d) && request != []
    ensures Earned(d, request, b, TransferData(d, request, capacity, b))
  {
    hide Filled, Region, IsDuplicate;
  }

  lemma ExitEarns(d: Download, request: seq<u8>, b: Backend)
    requires ValidDownload(d) && request != []
    ensures Earned(d, request, b, TransferExit(d, request, b))
  {
    hide Region;
  }

  /** Without authorization an erase is refused, whatever else holds, and nothing changes. */
  lemma UnauthorizedIsDenied(d: Download, capacity: nat, b: Backend)
    requires ValidDownload(d) && !b.authorized
    ensures Handle(d, ERASE_START, capacity, b) == Outcome(d, SecurityDenied, [], [])
  {
  }

  // ---------------------------------------------------------------- one event of the server

  /** The event begins a download: an authorized erase, in the programming session. */
  predicate Begins(x: Observed, e: Event)
    requires ValidDownload(x.s.d)
  {
    && e.Request? && e.b.authorized && e.request == ERASE_START
    && x.s.d.state == Idle && Tick(x.s, e.at).0 == x.s && x.s.session == SESSION_PROGRAMMING
    && CallsOf(x.s, e) == [StartErase(OtherSlot(x.s.d.running), Region(OtherSlot(x.s.d.running)).base,
                                      Region(OtherSlot(x.s.d.running)).size)]
  }

  lemma ErasesBegin(x: Observed, e: Event, call: Call)
    requires Watched(x) && ValidDownload(x.s.d) && call in CallsOf(x.s, e)
    ensures call.StartErase? ==>
              && e.Request? && e.b.authorized && e.request == ERASE_START
              && x.s.d.state == Idle && x.s.session == SESSION_PROGRAMMING
    ensures call.Write? || call.Finalize? ==> x.s.d.state == Transfer && Tick(x.s, e.at).0 == x.s
  {
    hide Kept, Tracked, Serve, Aborted, Handle, Process, Reached, Tick;
    TickIsTracked(x, e.at);
    NotTimedOut(x.s, e.at);
    if e.Request? && e.request != [] {
      var t := Processed(x.s, e);
      if Reaches(x.s, e.request, e.at, e.capacity) {
        DownloadService(t, e.request, e.at, e.capacity, e.reader, e.b);
        if call in Handle(t.d, e.request, e.capacity - 1, e.b).calls {
          EraseIsAuthorized(t.d, e.request, e.capacity - 1, e.b, call);
        }
      } else {
        OtherServices(t, e.request, e.at, e.capacity, e.reader, e.b);
      }
    } else if e.Request? {
      NothingProcessed(x.s, e);
    }
  }

  /** A download is open only where no timeout has just ended the session. */
  lemma NotTimedOut(s: Server, at: u32)
    requires Kept(s)
    ensures Open(s.d) ==> s.session == SESSION_PROGRAMMING
    ensures Open(Tick(s, at).0.d) || Tick(s, at).0.session == SESSION_PROGRAMMING ==> Tick(s, at) == (s, [])
    ensures Tick(s, at).1 in {[], [Abort]}
  {
    hide ValidDownload;
  }

  lemma EventOpens(x: Observed, e: Event)
    requires Watched(x)
    ensures ValidDownload(x.s.d)
    ensures var d := After(x.s, e).d;
            && (Open(d) && Open(x.s.d) ==> Abort !in CallsOf(x.s, e))
            && (Open(d) && !Open(x.s.d) ==> Begins(x, e) && d.state != Transfer)
            && (d.state == Transfer ==> x.s.d.state in {Ready, Transfer})
            && (d.state == Ready && x.s.d.state != Ready ==>
                  e.Request? && e.b.erase == Done && x.s.d.state in {Idle, Erasing})
  {
    hide Kept, Tracked, Serve, Handle, Process, Reached, Tick;
    KeptIsValid(x.s);
    TickIsTracked(x, e.at);
    NotTimedOut(x.s, e.at);
    if e.Request? && e.request != [] {
      var t := Processed(x.s, e);
      KeptIsValid(t);
      if Reaches(x.s, e.request, e.at, e.capacity) {
        DownloadService(t, e.request, e.at, e.capacity, e.reader, e.b);
        OpenIsEarned(t.d, e.request, e.capacity - 1, e.b);
      } else {
        OtherServices(t, e.request, e.at, e.capacity, e.reader, e.b);
      }
    } else if e.Request? {
      NothingProcessed(x.s, e);
    }
  }

  // ---------------------------------------------------------------- whole runs

  /**
   * Event `j` begins the download that is open before event `i`: since then it has been open all the
   * time, in the programming session, and nothing has aborted it.
   */
  ghost predicate OpenSince(trace: seq<Observed>, events: seq<Event>, j: nat, i: nat)
    requires j < i <= |events| < |trace|
  {
    && (forall l :: j <= l <= i ==> ValidDownload(trace[l].s.d))
    && Begins(trace[j], events[j])
    && (forall l :: j < l <= i ==> Open(trace[l].s.d) && trace[l].s.session == SESSION_PROGRAMMING)
    && (forall l :: j <= l < i ==> Abort !in CallsOf(trace[l].s, events[l]))
  }

  /** Event `k` is the one at which the erase was done. */
  ghost predicate ErasedAt(trace: seq<Observed>, events: seq<Event>, j: nat, k: nat, i: nat)
    requires j < i <= |events| < |trace|
  {
    && j <= k < i && events[k].Request? && events[k].b.erase == Done
    && trace[k].s.d.state in {Idle, Erasing} && trace[k + 1].s.d.state == Ready
  }

  ghost predicate IsServerRun(running: u8, header: seq<u8>, trace: seq<Observed>, events: seq<Event>) {
    && BootControl.IsSlot(running) && |header| == HEADER_SIZE && IsObservedRun(trace, events)
    && trace[0] == Observed(Initial(running, header), Track(Fresh(running, header), [], 0, []))
  }

  lemma RunIsWatched(running: u8, header: seq<u8>, trace: seq<Observed>, events: seq<Event>, i: nat)
    requires IsServerRun(running, header, trace, events) && i < |trace|
    ensures Watched(trace[i]) && ValidDownload(trace[i].s.d)
    ensures |trace| == |events| + 1
    ensures i < |events| ==> trace[i + 1].s == After(trace[i].s, events[i])
    ensures Open(trace[i].s.d) ==> trace[i].s.session == SESSION_PROGRAMMING
  {
    hide Kept, Tracked, After, TrackAfter;
    EveryRunFromStart(running, header, trace, events, i);
    KeptIsValid(trace[i].s);
    NotTimedOut(trace[i].s, 0);
  }

  lemma AllWatched(running: u8, header: seq<u8>, trace: seq<Observed>, events: seq<Event>)
    requires IsServerRun(running, header, trace, events)
    ensures forall l :: 0 <= l < |trace| ==> Watched(trace[l]) && ValidDownload(trace[l].s.d)
  {
    hide IsServerRun, Watched, ValidDownload;
    forall l | 0 <= l < |trace|
      ensures Watched(trace[l]) && ValidDownload(trace[l].s.d)
    {
      RunIsWatched(running, header, trace, events, l);
    }
  }

  lemma NothingOpenAtFirst(running: u8, header: seq<u8>, trace: seq<Observed>, events: seq<Event>)
    requires IsServerRun(running, header, trace, events)
    ensures |trace| > 0 && !Open(trace[0].s.d) && |trace| == |events| + 1
  {
  }

  /** Whatever is open has been begun, and whatever is ready or being transferred has been erased. */
  lemma {:induction false} OpenHasBegun(running: u8, header: seq<u8>, trace: seq<Observed>, events: seq<Event>, i: nat)
    returns (j: nat, k: nat)
    requires IsServerRun(running, header, trace, events) && i < |trace|
    requires Open(trace[i].s.d)
    ensures j < i <= |events| < |trace| && OpenSince(trace, events, j, i)
    ensures trace[i].s.d.state in {Ready, Transfer} ==> ErasedAt(trace, events, j, k, i)
  {
    hide IsServerRun, Watched, ValidDownload, CallsOf, After, Begins;
    NothingOpenAtFirst(running, header, trace, events);
    AllWatched(running, header, trace, events);
    RunIsWatched(running, header, trace, events, i);
    RunIsWatched(running, header, trace, events, i - 1);
    EventOpens(trace[i - 1], events[i - 1]);
    if Open(trace[i - 1].s.d) {
      j, k := OpenHasBegun(running, header, trace, events, i - 1);
      if trace[i].s.d.state == Ready && trace[i - 1].s.d.state != Ready {
        k := i - 1;
      }
    } else {
      j, k := i - 1, i - 1;
      EventCalls(trace[j], events[j]);
    }
  }

  lemma EventCalls(x: Observed, e: Event)
    requires ValidDownload(x.s.d) && Begins(x, e)
    ensures Abort !in CallsOf(x.s, e)
  {
  }

  /**
   * In every run an erase is asked for by authorized requests only; and whatever is written or finalized
   * belongs to a download that such a request began, that has been erased, and that nothing has
   * aborted or timed out since.
   */
  lemma WritesAreAuthorized(running: u8, header: seq<u8>, trace: seq<Observed>, events: seq<Event>, i: nat, call: Call)
    returns (j: nat, k: nat)
    requires IsServerRun(running, header, trace, events) && i < |events| < |trace|
    requires ValidDownload(trace[i].s.d) && call in CallsOf(trace[i].s, events[i])
    ensures call.StartErase? ==>
              && events[i].Request? && events[i].b.authorized && events[i].request == [0x31, 0x01, 0xFF, 0x00]
              && trace[i].s.d.state == Idle && trace[i].s.session == SESSION_PROGRAMMING
    ensures call.Write? || call.Finalize? ==>
              && Tick(trace[i].s, events[i].at).0 == trace[i].s
              && j < i && OpenSince(trace, events, j, i) && ErasedAt(trace, events, j, k, i)
  {
    hide IsServerRun, Watched, ValidDownload, CallsOf, OpenSince, ErasedAt;
    j, k := 0, 0;
    RunIsWatched(running, header, trace, events, i);
    ErasesBegin(trace[i], events[i], call);
    if call.Write? || call.Finalize? {
      j, k := OpenHasBegun(running, header, trace, events, i);
    }
  }

  /** The refusal on the wire: in the programming session, with room for it, it leaves everything as it was. */
  lemma DenialIsAnswered(s: Server, at: u32, capacity: nat, reader: Option<DidReader>, b: Backend)
    requires Kept(s) && ValidDownload(s.d) && s.session == SESSION_PROGRAMMING && !Reached(at, s.deadline)
    requires capacity >= 3 && !b.authorized
    ensures var a := Process(s, [0x31, 0x01, 0xFF, 0x00], at, capacity, reader, b);
            && a.result == ResponseReady && a.response == [0x7F, 0x31, 0x33]
            && a.server.d == s.d && a.calls == []
  {
    hide Reached, Add32;
    UnauthorizedIsDenied(s.d, capacity - 1, b);
  }
}
