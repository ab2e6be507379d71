/**
 * What the server answers, byte by byte: sessions and their timeout, tester present, data identifiers,
 * and the four services of the download; and a download from nothing to its last byte.
 */
module UdsAnswers {
  import opened Machine
  import opened UdsDownload
  import opened UdsServer
  import BootControl
  import BootImage

  /** The answer is these bytes. */
  predicate Replies(a: Answer, response: seq<u8>) {
    a.result == ResponseReady && a.response == response
  }

  predicate Refuses(a: Answer, service: u8, code: u8) {
    Replies(a, [0x7F, service, code])
  }

  /** Four bytes from `at` on show `v`, most significant first. */
  predicate ShowsBe(d: seq<u8>, at: nat, v: u32) {
    && at + 4 <= |d|
    && d[at] == v / 0x100_0000 && d[at + 1] == v / 0x1_0000 % 0x100
    && d[at + 2] == v / 0x100 % 0x100 && d[at + 3] == v % 0x100
  }

  // ---------------------------------------------------------------- sessions

  /** The programming session is left: what there is of a download is given up. */
  predicate DownloadGivenUp(d: Download, n: Download) {
    && n.state == Idle && n.running == d.running && n.received == n.artifactSize == 0 && !n.hasLast
    && n.targetSlot == BootControl.NO_SLOT
  }

  /** A change of session to 1, 2 or 3, answered with the timing parameters unless that is suppressed. */
  lemma SessionIsExact(s: Server, sub: u8, at: u32, capacity: nat, reader: Option<DidReader>, b: Backend)
    requires Kept(s) && ValidDownload(s.d) && capacity >= 6
    ensures var a, session := Process(s, [0x10, sub], at, capacity, reader, b), sub % 0x80;
            if session !in {1, 2, 3} then Refuses(a, 0x10, 0x12) && a.server.session == Tick(s, at).0.session
            else
              && a.server.session == session
              && (a.server.timerActive <==> session != 1)
              && (session != 1 ==> a.server.deadline == Add32(at, 5000))
              && (if sub < 0x80 then Replies(a, [0x50, session, 0, 50, 1, 244]) else a.result == NoResponse)
              && (if Tick(s, at).0.session == 2 && session != 2 then DownloadGivenUp(s.d, a.server.d)
                  else a.server.d == Tick(s, at).0.d)
  {
    hide Tick, Add32, ValidDownload;
    TickKeeps(s, at);
    TickedDownload(s, at);
  }

  lemma TickedDownload(s: Server, at: u32)
    requires Kept(s)
    ensures Tick(s, at).0.session == 2 ==> Tick(s, at).0 == s
    ensures Tick(s, at).0.session in {1, 2, 3}
  {
  }

  /** A session other than the default one ends 5 seconds after its last request, and no earlier. */
  lemma SessionEnds(s: Server, request: seq<u8>, t: nat, t2: nat, capacity: nat, reader: Option<DidReader>, b: Backend)
    requires Kept(s) && ValidDownload(s.d) && request != [] && t <= t2 < t + TWO_31
    ensures var n := Process(s, request, Wrap32(t), capacity, reader, b).server;
            && Kept(n)
            && (n.session != 1 ==>
                  var m := Tick(n, Wrap32(t2)).0;
                  if t2 >= t + 5000 then m.session == 1 && m.d.state == Idle else m == n)
  {
    hide Serve, Kept, Tick, ValidDownload, SessionControl;
    var at := Wrap32(t);
    TickKeeps(s, at);
    var refreshed := Refreshed(Tick(s, at).0, at);
    RefreshKeeps(Tick(s, at).0, at);
    var c := refreshed.(counts := refreshed.counts.(requests := Add32(refreshed.counts.requests, 1)));
    KeptIgnoresCounts(refreshed, c);
    KeptIsValid(c);
    ServeKeeps(c, request, at, capacity, reader, b);
    ServedIsFresh(c, request, at, capacity, reader, b);
    var n := Serve(c, request, at, capacity, reader, b).server;
    TickKeeps(n, Wrap32(t2));
    TimerRuns(n);
    AddIsWrapped(t, 5000);
    ReachedIsTrueOrder(t2, t + 5000);
  }

  lemma TimerRuns(s: Server)
    requires Kept(s)
    ensures s.timerActive <==> s.session != 1
  {
  }

  /** Outside the default session the deadline after a request lies 5 seconds ahead. */
  lemma ServedIsFresh(t: Server, request: seq<u8>, now: u32, capacity: nat, reader: Option<DidReader>, b: Backend)
    requires ValidDownload(t.d) && request != []
    requires t.session != 1 ==> t.deadline == Add32(now, 5000)
    ensures var n := Serve(t, request, now, capacity, reader, b).server;
            n.session != 1 ==> n.deadline == Add32(now, 5000)
  {
    hide Handle, ValidDownload, Add32, ReadFrom;
  }

  lemma TesterIsExact(s: Server, sub: u8, at: u32, capacity: nat, reader: Option<DidReader>, b: Backend)
    requires Kept(s) && ValidDownload(s.d) && capacity >= 3
    ensures var a := Process(s, [0x3E, sub], at, capacity, reader, b);
            && a.server.d == Tick(s, at).0.d && a.server.session == Tick(s, at).0.session
            && (sub == 0 ==> Replies(a, [0x7E, 0])) && (sub == 0x80 ==> a.result == NoResponse)
            && (sub !in {0, 0x80} ==> Refuses(a, 0x3E, 0x12))
  {
    hide Tick, Add32;
  }

  /** Requests of a wrong length, and services there are not. */
  lemma OthersAreRefused(s: Server, request: seq<u8>, at: u32, capacity: nat, reader: Option<DidReader>, b: Backend)
    requires Kept(s) && ValidDownload(s.d) && capacity >= 3 && request != []
    ensures var a, service := Process(s, request, at, capacity, reader, b), request[0];
            && (service in {0x10, 0x3E} && |request| != 2 ==> Refuses(a, service, 0x13))
            && (service == 0x22 && (|request| < 3 || |request| % 2 == 0) ==> Refuses(a, service, 0x13))
            && (service in {0x31, 0x34, 0x36, 0x37} && Tick(s, at).0.session != 2 ==> Refuses(a, service, 0x7F))
            && (service !in {0x10, 0x22, 0x31, 0x34, 0x36, 0x37, 0x3E} ==> Refuses(a, service, 0x11))
  {
    hide Tick, Add32, Handle, ReadFrom;
  }

  // ---------------------------------------------------------------- data identifiers

  datatype Identifier = Identifier(high: u8, low: u8)

  function RequestFor(ids: seq<Identifier>): (r: seq<u8>)
    ensures |r| == 1 + 2 * |ids| && r[0] == 0x22
  {
    if ids == [] then [0x22]
    else RequestFor(ids[..|ids| - 1]) + [ids[|ids| - 1].high, ids[|ids| - 1].low]
  }

  /** What the reader says of an identifier, high byte first, with `room` left for its data. */
  function Read(read: DidReader, id: Identifier, room: nat): DidReply {
    var high: nat := id.high;
    read(256 * high + id.low, room)
  }

  /** The identifier and its data fit behind `n` bytes. */
  predicate Fits(read: DidReader, id: Identifier, n: nat, capacity: nat) {
    && n + 2 <= capacity
    && var reply := Read(read, id, capacity - n - 2);
       reply.result == DidOk && n + 2 + |reply.data| <= capacity
  }

  /** All identifiers with their data, one behind the other; None if one of them cannot be delivered. */
  function AnswerTo(read: DidReader, ids: seq<Identifier>, capacity: nat): (r: Option<seq<u8>>)
    requires capacity >= 1
    ensures r.Some? ==> |r.value| <= capacity
  {
    if ids == [] then Some([0x62])
    else
      var id := ids[|ids| - 1];
      match AnswerTo(read, ids[..|ids| - 1], capacity)
      case None => None
      case Some(before) =>
        if Fits(read, id, |before|, capacity) then
          Some(before + [id.high, id.low] + Read(read, id, capacity - |before| - 2).data)
        else None
  }

  lemma {:induction false} RequestBytes(ids: seq<Identifier>, k: nat)
    requires k < |ids|
    ensures RequestFor(ids)[1 + 2 * k] == ids[k].high && RequestFor(ids)[2 + 2 * k] == ids[k].low
  {
    if k < |ids| - 1 {
      RequestBytes(ids[..|ids| - 1], k);
    }
  }

  /** Reading on from the answer to the first `k` identifiers is reading all of them. */
  lemma {:induction false} ReadOn(read: DidReader, ids: seq<Identifier>, k: nat, capacity: nat)
    requires k <= |ids| && capacity >= 1
    ensures var done, all := AnswerTo(read, ids[..k], capacity), AnswerTo(read, ids, capacity);
            && (done == None ==> all == None)
            && (done.Some? ==>
                  var r := ReadFrom(RequestFor(ids), 1 + 2 * k, done.value, capacity, read);
                  && (all.Some? <==> r.0 == Positive)
                  && (all.Some? ==> r == (Positive, all.value)))
    decreases |ids| - k
  {
    hide AnswerTo, ReadFrom, Fits, Read, RequestFor;
    if k == |ids| {
      assert ids[..k] == ids;
      NothingLeft(RequestFor(ids), AnswerTo(read, ids, capacity), capacity, read);
    } else {
      ReadOn(read, ids, k + 1, capacity);
      OneMoreAnswered(read, ids, k, capacity);
      if AnswerTo(read, ids[..k], capacity).Some? {
        OneRead(read, ids, k, capacity);
      }
    }
  }

  lemma NothingLeft(request: seq<u8>, response: Option<seq<u8>>, capacity: nat, read: DidReader)
    requires |request| % 2 == 1 && (response.Some? ==> |response.value| <= capacity)
    ensures response.Some? ==>
              ReadFrom(request, |request|, response.value, capacity, read) == (Positive, response.value)
  {
  }

  lemma OneMoreAnswered(read: DidReader, ids: seq<Identifier>, k: nat, capacity: nat)
    requires k < |ids| && capacity >= 1
    ensures AnswerTo(read, ids[..k + 1], capacity)
            == match AnswerTo(read, ids[..k], capacity)
               case None => None
               case Some(done) =>
                 if Fits(read, ids[k], |done|, capacity) then
                   Some(done + [ids[k].high, ids[k].low] + Read(read, ids[k], capacity - |done| - 2).data)
                 else None
  {
    hide Fits, Read;
    assert ids[..k + 1][..k] == ids[..k] && ids[..k + 1][k] == ids[k];
  }

  lemma OneRead(read: DidReader, ids: seq<Identifier>, k: nat, capacity: nat)
    requires k < |ids| && capacity >= 1 && AnswerTo(read, ids[..k], capacity).Some?
    ensures var done, request := AnswerTo(read, ids[..k], capacity).value, RequestFor(ids);
            var r := ReadFrom(request, 1 + 2 * k, done, capacity, read);
            if Fits(read, ids[k], |done|, capacity) then
              var more := done + [ids[k].high, ids[k].low] + Read(read, ids[k], capacity - |done| - 2).data;
              |more| <= capacity && r == ReadFrom(request, 1 + 2 * (k + 1), more, capacity, read)
            else r.0 != Positive
  {
    hide AnswerTo, RequestFor;
    RequestBytes(ids, k);
    var request, done := RequestFor(ids), AnswerTo(read, ids[..k], capacity).value;
    IdentifierRead(read, ids[k], request, 1 + 2 * k, done, capacity);
  }

  lemma IdentifierRead(read: DidReader, id: Identifier, request: seq<u8>, at: nat, done: seq<u8>, capacity: nat)
    requires at + 1 < |request| && |request| % 2 == at % 2 == 1 && |done| <= capacity
    requires request[at] == id.high && request[at + 1] == id.low
    ensures var r := ReadFrom(request, at, done, capacity, read);
            if Fits(read, id, |done|, capacity) then
              var more := done + [id.high, id.low] + Read(read, id, capacity - |done| - 2).data;
              |more| <= capacity && r == ReadFrom(request, at + 2, more, capacity, read)
            else r.0 != Positive
  {
  }

  /** A request for any identifiers is answered with all of them and their data, or refused as a whole. */
  lemma IdentifiersAreAnswered(s: Server, ids: seq<Identifier>, at: u32, capacity: nat, read: DidReader, b: Backend)
    requires Kept(s) && ValidDownload(s.d) && ids != [] && capacity >= 3
    ensures var a := Process(s, RequestFor(ids), at, capacity, Some(read), b);
            && a.server.d == Tick(s, at).0.d && a.server.session == Tick(s, at).0.session
            && match AnswerTo(read, ids, capacity)
               case Some(answer) => Replies(a, answer)
               case None => Refuses(a, 0x22, 0x14) || Refuses(a, 0x22, 0x22) || Refuses(a, 0x22, 0x31)
  {
    hide Tick, Add32, ReadFrom, RequestFor, AnswerTo;
    assert AnswerTo(read, ids[..0], capacity) == Some([0x62]) by { NoIdentifiers(read, capacity, ids); }
    ReadOn(read, ids, 0, capacity);
    ReadRefusals(RequestFor(ids), 1, [0x62], capacity, read);
  }

  lemma NoIdentifiers(read: DidReader, capacity: nat, ids: seq<Identifier>)
    requires capacity >= 1
    ensures AnswerTo(read, ids[..0], capacity) == Some([0x62])
  {
  }

  lemma {:induction false} ReadRefusals(request: seq<u8>, at: nat, response: seq<u8>, capacity: nat, read: DidReader)
    requires |request| % 2 == at % 2 == 1 && at <= |request| && |response| <= capacity
    ensures ReadFrom(request, at, response, capacity, read).0
            in {Positive, OutOfRange, ResponseTooLong, ConditionsNotCorrect}
    decreases |request| - at
  {
    if at < |request| && capacity - |response| >= 2 {
      var high: nat := request[at];
      var named := response + [request[at], request[at + 1]];
      var reply := read(high * 0x100 + request[at + 1], capacity - |named|);
      if reply.result == DidOk && |reply.data| <= capacity - |named| {
        ReadRefusals(request, at + 2, named + reply.data, capacity, read);
      }
    }
  }

  /** The first identifier that cannot be delivered says why. */
  lemma IdentifierRefused(s: Server, id: Identifier, at: u32, capacity: nat, reader: Option<DidReader>, b: Backend)
    requires Kept(s) && ValidDownload(s.d) && capacity >= 3
    ensures var a := Process(s, [0x22, id.high, id.low], at, capacity, reader, b);
            if reader == None then Refuses(a, 0x22, 0x31)
            else
              var reply := Read(reader.value, id, capacity - 3);
              match reply.result
              case DidOk =>
                if |reply.data| <= capacity - 3 then Replies(a, [0x62, id.high, id.low] + reply.data)
                else Refuses(a, 0x22, 0x14)
              case DidNotSupported => Refuses(a, 0x22, 0x31)
              case DidTooSmall => Refuses(a, 0x22, 0x14)
              case DidConditions => Refuses(a, 0x22, 0x22)
  {
    hide Tick, Add32, ReadFrom;
    if reader.Some? {
      SingleRead(id, capacity, reader.value);
    }
  }

  lemma SingleRead(id: Identifier, capacity: nat, read: DidReader)
    requires capacity >= 3
    ensures var r, reply := ReadFrom([0x22, id.high, id.low], 1, [0x62], capacity, read), Read(read, id, capacity - 3);
            match reply.result
            case DidOk =>
              if |reply.data| <= capacity - 3 then r == (Positive, [0x62, id.high, id.low] + reply.data)
              else r.0 == ResponseTooLong
            case DidNotSupported => r.0 == OutOfRange
            case DidTooSmall => r.0 == ResponseTooLong
            case DidConditions => r.0 == ConditionsNotCorrect
  {
    var request := [0x22, id.high, id.low];
    assert [0x62] + [request[1], request[2]] == [0x62, id.high, id.low];
    var reply := Read(read, id, capacity - 3);
    if reply.result == DidOk && |reply.data| <= capacity - 3 {
      assert ReadFrom(request, 3, [0x62, id.high, id.low] + reply.data, capacity, read)
          == (Positive, [0x62, id.high, id.low] + reply.data);
    }
  }

  // ---------------------------------------------------------------- the download

  /** The programming session is on, and its time is not up. */
  predicate Programs(s: Server, at: u32) {
    Kept(s) && ValidDownload(s.d) && s.session == 2 && !Reached(at, s.deadline)
  }

  /** The request gets to the download, and its answer back. */
  lemma HandledIs(s: Server, request: seq<u8>, at: u32, capacity: nat, reader: Option<DidReader>, b: Backend)
    requires Programs(s, at) && capacity >= 3 && request != [] && request[0] in {0x31, 0x34, 0x36, 0x37}
    ensures var a, o := Process(s, request, at, capacity, reader, b), Handle(s.d, request, capacity - 1, b);
            && a.server.d == o.d && a.calls == o.calls
            && (o.nrc != Positive ==> Refuses(a, request[0], Code(o.nrc)))
            && (o.nrc == Positive && |o.data| < capacity ==> Replies(a, [request[0] + 0x40] + o.data))
  {
    hide Handle, Reached, Add32;
  }

  /** The state, the status byte and the further calls that an erase result leads to. */
  predicate EraseShown(d: Download, a: Answer, sub: u8, erase: BackendResult, calls: seq<Call>) {
    var slot := OtherSlot(d.running);
    var status := match erase case Done => 0 case InProgress => 1 case Broken => 2;
    && a.server.d.state == (match erase case Done => Ready case InProgress => Erasing case Broken => Failed)
    && a.calls == calls + (if erase == Broken then [Abort] else [])
    && a.result == ResponseReady && |a.response| == 14
    && a.response[..6] == [0x71, sub, 0xFF, 0x00, status, slot]
    && ShowsBe(a.response, 6, if slot == 1 then 0x0802_0000 else 0x0810_0000) && ShowsBe(a.response, 10, 0xE_0000)
  }

  /** The erase routine: started once, with authorization; polled until its result is known. */
  lemma EraseIsExact(s: Server, sub: u8, high: u8, low: u8, at: u32, capacity: nat, reader: Option<DidReader>,
                     b: Backend)
    requires Programs(s, at) && capacity >= 14
    ensures var a, slot := Process(s, [0x31, sub, high, low], at, capacity, reader, b), OtherSlot(s.d.running);
            var base := if slot == 1 then 0x0802_0000 else 0x0810_0000;
            if (high, low) != (0xFF, 0x00) then Refuses(a, 0x31, 0x31) && a.server.d == s.d
            else if sub == 1 then
              if !b.authorized then Refuses(a, 0x31, 0x33) && a.server.d == s.d
              else if s.d.state != Idle then Refuses(a, 0x31, 0x24) && a.server.d == s.d
              else EraseShown(s.d, a, 1, b.erase, [StartErase(slot, base, 0xE_0000)])
            else if sub == 3 then
              if s.d.state == Erasing then EraseShown(s.d, a, 3, b.erase, [])
              else if s.d.state == Ready then EraseShown(s.d, a, 3, Done, [])
              else if s.d.state == Failed then EraseShown(s.d, a, 3, Broken, [])
              else Refuses(a, 0x31, 0x24) && a.server.d == s.d
            else Refuses(a, 0x31, 0x12) && a.server.d == s.d
  {
    hide Reached, Process, Kept, Handle, EraseResult, EraseShown, ValidDownload;
    var request := [0x31, sub, high, low];
    HandledIs(s, request, at, capacity, reader, b);
    RoutineIs(s.d, sub, high, low, capacity - 1, b);
    var a, o := Process(s, request, at, capacity, reader, b), Handle(s.d, request, capacity - 1, b);
    forall erase, calls | EraseResult(s.d, o, sub, erase, calls)
      ensures EraseShown(s.d, a, sub, erase, calls)
    {
      ResultIsPositive(s.d, o, sub, erase, calls);
      ResultShown(s.d, o, a, sub, erase, calls);
    }
  }

  lemma ResultIsPositive(d: Download, o: Outcome, sub: u8, erase: BackendResult, calls: seq<Call>)
    requires EraseResult(d, o, sub, erase, calls)
    ensures o.nrc == Positive && |o.data| == 13
  {
  }

  lemma ResultShown(d: Download, o: Outcome, a: Answer, sub: u8, erase: BackendResult, calls: seq<Call>)
    requires EraseResult(d, o, sub, erase, calls)
    requires a.server.d == o.d && a.calls == o.calls && Replies(a, [0x71] + o.data)
    ensures EraseShown(d, a, sub, erase, calls)
  {
    assert a.response[1..] == o.data;
  }

  lemma RoutineIs(d: Download, sub: u8, high: u8, low: u8, capacity: nat, b: Backend)
    requires ValidDownload(d) && capacity >= 13
    ensures var o, slot := Handle(d, [0x31, sub, high, low], capacity, b), OtherSlot(d.running);
            var base := if slot == 1 then 0x0802_0000 else 0x0810_0000;
            if (high, low) != (0xFF, 0x00) then o == Outcome(d, OutOfRange, [], [])
            else if sub == 1 then
              if !b.authorized then o == Outcome(d, SecurityDenied, [], [])
              else if d.state != Idle then o == Outcome(d, SequenceError, [], [])
              else EraseResult(d, o, 1, b.erase, [StartErase(slot, base, 0xE_0000)])
            else if sub == 3 then
              if d.state == Erasing then EraseResult(d, o, 3, b.erase, [])
              else if d.state == Ready then EraseResult(d, o, 3, Done, [])
              else if d.state == Failed then EraseResult(d, o, 3, Broken, [])
              else o == Outcome(d, SequenceError, [], [])
            else o == Outcome(d, SubfunctionNotSupported, [], [])
  {
    hide EraseResult, RoutineResult;
    var slot := OtherSlot(d.running);
    var aimed := d.(targetSlot := slot, targetAddress := Region(slot).base, targetSize := Region(slot).size);
    ResultIs(d, aimed, 1, b.erase, capacity,
             [StartErase(slot, if slot == 1 then 0x0802_0000 else 0x0810_0000, 0xE_0000)]);
    if d.state != Idle {
      ResultIs(d, d, 3, b.erase, capacity, []);
      ResultIs(d, d, 3, Done, capacity, []);
      ResultIs(d, d, 3, Broken, capacity, []);
    }
  }

  lemma ResultIs(d: Download, aimed: Download, sub: u8, erase: BackendResult, capacity: nat, calls: seq<Call>)
    requires ValidDownload(d) && capacity >= 13
    requires aimed.targetSlot == OtherSlot(d.running) && aimed.targetSize == Region(aimed.targetSlot).size
    requires aimed.targetAddress == Region(aimed.targetSlot).base
    ensures EraseResult(d, RoutineResult(aimed, sub, erase, capacity, calls), sub, erase, calls)
  {
    hide U32Be;
    BigEndian();
  }

  predicate EraseResult(d: Download, o: Outcome, sub: u8, erase: BackendResult, calls: seq<Call>) {
    var slot := OtherSlot(d.running);
    var status := match erase case Done => 0 case InProgress => 1 case Broken => 2;
    && o.d.state == (match erase case Done => Ready case InProgress => Erasing case Broken => Failed)
    && o.calls == calls + (if erase == Broken then [Abort] else [])
    && o.nrc == Positive && |o.data| == 13
    && o.data[..5] == [sub, 0xFF, 0x00, status, slot]
    && ShowsBe(o.data, 5, if slot == 1 then 0x0802_0000 else 0x0810_0000) && ShowsBe(o.data, 9, 0xE_0000)
  }

  lemma BigEndian()
    ensures U32Be(0x0802_0000) == [8, 2, 0, 0] && U32Be(0x0810_0000) == [8, 0x10, 0, 0]
    ensures U32Be(0xE_0000) == [0, 0xE, 0, 0]
  {
  }

  /** A download is accepted for the erased slot only, with a size that fits it, in blocks of up to 258 bytes. */
  lemma RequestIsExact(s: Server, request: seq<u8>, address: u32, size: u32, at: u32, capacity: nat,
                       reader: Option<DidReader>, b: Backend)
    requires Programs(s, at) && capacity >= 4 && |request| == 11 && request[0] == 0x34
    requires ShowsBe(request, 3, address) && ShowsBe(request, 7, size)
    ensures var a := Process(s, request, at, capacity, reader, b);
            var base := if OtherSlot(s.d.running) == 1 then 0x0802_0000 else 0x0810_0000;
            if (request[1], request[2]) != (0x00, 0x44) then Refuses(a, 0x34, 0x31) && a.server.d == s.d
            else if s.d.state != Ready then Refuses(a, 0x34, 0x24) && a.server.d == s.d
            else if address == base && 1024 <= size <= 0xE_0000 && size % 16 == 0 then
              && Replies(a, [0x74, 0x20, 0x01, 0x02])
              && a.server.d.state == Transfer && a.server.d.artifactSize == size && a.server.d.received == 0
              && a.server.d.expected == 1 && !a.server.d.hasLast && a.server.d.running == s.d.running
              && forall i :: 0 <= i < 1024 ==> a.server.d.header[i] == 0xFF
            else Refuses(a, 0x34, 0x31) && a.server.d == s.d
  {
    hide Reached, Process, Kept;
    HandledIs(s, request, at, capacity, reader, b);
    ReadBe(request, 3, address);
    ReadBe(request, 7, size);
    hide ReadU32Be;
  }

  lemma ReadBe(d: seq<u8>, at: nat, v: u32)
    requires ShowsBe(d, at, v)
    ensures ReadU32Be(d, at) == v
  {
    var v1, v2 := v / 0x1_0000, v / 0x100;
    assert v1 == 0x100 * (v / 0x100_0000) + v1 % 0x100;
    assert v2 == 0x100 * v1 + v2 % 0x100;
  }

  /** A block is taken in its turn, acknowledged again if repeated, and ends the download if there is too much. */
  lemma BlockIsExact(s: Server, number: u8, block: seq<u8>, at: u32, capacity: nat, reader: Option<DidReader>,
                     b: Backend)
    requires Programs(s, at) && capacity >= 3
    ensures var a := Process(s, [0x36, number] + block, at, capacity, reader, b);
            if block == [] || |block| > 256 then Refuses(a, 0x36, 0x13) && a.server.d == s.d
            else if s.d.state != Transfer then Refuses(a, 0x36, 0x24) && a.server.d == s.d
            else if s.d.hasLast && number == s.d.lastBlock then
              Replies(a, [0x76, number]) && a.server.d == s.d && a.calls == []
            else if number != s.d.expected then Refuses(a, 0x36, 0x73) && a.server.d == s.d
            else if s.d.received + |block| > s.d.artifactSize then
              Refuses(a, 0x36, 0x71) && a.server.d.state == Failed && a.calls == [Abort]
            else if s.d.received + |block| > 1024 && !b.writes then
              Refuses(a, 0x36, 0x72) && a.server.d.state == Failed
            else
              && Replies(a, [0x76, number]) && a.server.d.state == Transfer
              && a.server.d.received == s.d.received + |block|
              && a.server.d.expected == (s.d.expected + 1) % 256
              && a.server.d.hasLast && a.server.d.lastBlock == number
  {
    hide Reached, Process, Kept, Filled;
    HandledIs(s, [0x36, number] + block, at, capacity, reader, b);
    assert ([0x36, number] + block)[2..] == block;
  }

  /** The exit is accepted exactly when everything has been received, and is as good as the finalize. */
  lemma ExitIsExact(s: Server, at: u32, capacity: nat, reader: Option<DidReader>, b: Backend)
    requires Programs(s, at) && capacity >= 3
    ensures var a := Process(s, [0x37], at, capacity, reader, b);
            if s.d.state != Transfer || s.d.received != s.d.artifactSize then
              Refuses(a, 0x37, 0x24) && a.server.d == s.d && a.calls == []
            else if b.finalizes then Replies(a, [0x77]) && a.server.d == s.d.(state := Complete)
            else Refuses(a, 0x37, 0x72) && a.server.d == s.d.(state := Failed)
  {
    hide Reached, Process, Kept;
    HandledIs(s, [0x37], at, capacity, reader, b);
  }

  /** Requests to the download of a wrong length. */
  lemma LengthsAreExact(s: Server, request: seq<u8>, at: u32, capacity: nat, reader: Option<DidReader>, b: Backend)
    requires Programs(s, at) && capacity >= 3 && request != []
    ensures var a, service, n := Process(s, request, at, capacity, reader, b), request[0], |request|;
            (service == 0x31 && n != 4) || (service == 0x34 && n != 11) || (service == 0x37 && n != 1) ==>
              Refuses(a, service, 0x13) && a.server.d == s.d && a.calls == []
  {
    hide Reached, Process, Kept;
    if request[0] in {0x31, 0x34, 0x36, 0x37} {
      HandledIs(s, request, at, capacity, reader, b);
    }
  }

  // ---------------------------------------------------------------- from nothing to the last byte

  /**
   * Any artifact of 1024 to 917504 bytes in whole program units: after an authorized erase that is done and a
   * request for the other slot, all its blocks arrive, however it is split and however often blocks are
   * sent again, and the exit finalizes exactly it.
   */
  lemma DownloadFromNothing(running: u8, header: seq<u8>, blocks: seq<Block>, request: seq<u8>, capacity: nat,
                            b: Backend)
    requires BootControl.IsSlot(running) && |header| == HEADER_SIZE && capacity >= 13
    requires b == Backend(true, Done, true, true)
    requires Sendable(blocks) && 1024 <= |Artifact(blocks)| <= 0xE_0000 && |Artifact(blocks)| % 16 == 0
    requires |request| == 11 && request[..3] == [0x34, 0x00, 0x44]
    requires ShowsBe(request, 3, if running == 1 then 0x0810_0000 else 0x0802_0000)
    requires ShowsBe(request, 7, |Artifact(blocks)|)
    ensures var t0 := Track(Fresh(running, header), [], 0, []);
            var t1 := Step(t0, [0x31, 0x01, 0xFF, 0x00], capacity, b);
            && ValidDownload(t1.d)
            && var t2 := Step(t1, request, capacity, b);
               && Tracked(t2)
               && var done := SendAll(t2, blocks, capacity, b);
                  var o := Handle(done.d, [0x37], capacity, b);
                  && o.nrc == Positive && |o.calls| == 1 && o.calls[0].Finalize?
                  && o.calls[0].slot == OtherSlot(running) && o.calls[0].size == |Artifact(blocks)|
                  && o.calls[0].header + Written(done.writes) == Artifact(blocks)
                  && GapFree(done.writes, o.calls[0].address + 1024)
  {
    hide Artifact, SendAll, Sendable, Written, GapFree;
    var t0 := Track(Fresh(running, header), [], 0, []);
    var t1 := Begun(running, header, capacity, b);
    StepKeepsTrack(t0, [0x31, 0x01, 0xFF, 0x00], capacity, b);
    ReadBe(request, 3, if running == 1 then 0x0810_0000 else 0x0802_0000);
    ReadBe(request, 7, |Artifact(blocks)|);
    Requested(t1, request, |Artifact(blocks)|, capacity, b);
    StepKeepsTrack(t1, request, capacity, b);
    var t2 := Step(t1, request, capacity, b);
    hide Step, Tracked;
    ArtifactIsFinalized(t2, blocks, capacity, b);
    AllBlocksArrive(t2, blocks, capacity, b);
    hide Handle;
    var done := SendAll(t2, blocks, capacity, b);
    TrackedIsValid(done);
    FinalizedIsWhole(done, [0x37], capacity, b, Handle(done.d, [0x37], capacity, b).calls[0]);
  }

  lemma Begun(running: u8, header: seq<u8>, capacity: nat, b: Backend) returns (t: Track)
    requires BootControl.IsSlot(running) && |header| == HEADER_SIZE && capacity >= 13
    requires b == Backend(true, Done, true, true)
    ensures var t0 := Track(Fresh(running, header), [], 0, []);
            && Tracked(t0) && t == Step(t0, [0x31, 0x01, 0xFF, 0x00], capacity, b)
    ensures ValidDownload(t.d) && t.d.state == Ready && t.d.running == running
    ensures t.d.targetAddress == (if running == 1 then 0x0810_0000 else 0x0802_0000)
  {
    hide U32Be;
    t := Step(Track(Fresh(running, header), [], 0, []), [0x31, 0x01, 0xFF, 0x00], capacity, b);
  }

  lemma Requested(t: Track, request: seq<u8>, size: u32, capacity: nat, b: Backend)
    requires ValidDownload(t.d) && t.d.state == Ready && capacity >= 13
    requires |request| == 11 && request[0] == 0x34 && request[1] == 0 && request[2] == 0x44
    requires ReadU32Be(request, 3) == t.d.targetAddress && ReadU32Be(request, 7) == size
    requires 1024 <= size <= 0xE_0000 && size % 16 == 0
    ensures var n := Step(t, request, capacity, b);
            && n.d.state == Transfer && n.blocks == 0 && n.image == []
            && n.d.artifactSize == size && n.d.running == t.d.running
  {
    hide ReadU32Be;
  }
}
