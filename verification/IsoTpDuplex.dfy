/**
 * Two transfers at once: each of two ISO-TP channels sends a payload to the other, and data frames
 * of the one travel among the flow-control frames of the other. Seen from either transfer, the
 * other lets time pass and does nothing else, so both are delivered.
 */
module IsoTpDuplex {
  import opened Machine
  import opened IsoTp
  import opened IsoTpTransfer

  // ---------------------------------------------------------------- both halves

  /** A channel, the frames on their way to it, and the true times of both its deadlines. */
  datatype Side = Side(chan: Chan, inbox: seq<Frame>, started: bool, txDue: nat, rxDue: nat)

  datatype Duplex = Duplex(a: Side, b: Side, clock: nat)

  function Mirror(d: Duplex): (r: Duplex)
    ensures r.a == d.b && r.b == d.a && r.clock == d.clock
  {
    Duplex(d.b, d.a, d.clock)
  }

  datatype Action = Starts | Polls | Takes

  /** One side starts its transfer, is polled, or takes the oldest frame on its way to it. */
  datatype Move = Move(first: bool, action: Action, t: nat)

  predicate ValidDuplex(d: Duplex) {
    Valid(d.a.chan) && Valid(d.b.chan)
  }

  predicate IsFlow(f: Frame) {
    f.data[0] / 16 == PCI_FLOW_CONTROL
  }

  /** What side `a` does; each side starts one transfer. */
  function Act(d: Duplex, action: Action, payload: seq<u8>, t: nat): (r: Duplex)
    requires ValidDuplex(d) && 0 < |payload| <= MAX_PAYLOAD
  {
    var a, b := d.a, d.b;
    match action
    case Starts =>
      if a.started then d.(clock := t)
      else
        var o := StartTransmit(a.chan, payload, Wrap32(t));
        Duplex(a.(chan := o.chan, started := true, txDue := t + a.chan.cfg.flowControlTimeout),
               b.(inbox := b.inbox + Sent(o.reply)), t)
    case Polls =>
      var o := Process(a.chan, Wrap32(t));
      Duplex(a.(chan := o.chan, txDue := TxDue(a.chan, a.txDue, o, t)),
             b.(inbox := b.inbox + Sent(o.reply)), t)
    case Takes =>
      if a.inbox == [] then d.(clock := t)
      else
        var f := a.inbox[0];
        var o := OnCanFrame(a.chan, f, Wrap32(t));
        Duplex(a.(chan := o.chan, inbox := a.inbox[1..],
                  txDue := if IsFlow(f) then TxDue(a.chan, a.txDue, o, t) else a.txDue,
                  rxDue := if IsFlow(f) then a.rxDue else t + a.chan.cfg.consecutiveTimeout),
               b.(inbox := b.inbox + Sent(o.reply)), t)
  }

  function Moved(d: Duplex, m: Move, p: seq<u8>, q: seq<u8>): (r: Duplex)
    requires ValidDuplex(d) && 0 < |p| <= MAX_PAYLOAD && 0 < |q| <= MAX_PAYLOAD
  {
    if m.first then Act(d, m.action, p, m.t) else Mirror(Act(Mirror(d), m.action, q, m.t))
  }

  /** Time does not run backwards and every armed deadline of either side is met. */
  predicate InTime(d: Duplex, t: nat) {
    && d.clock <= t && SideInTime(d.a, t) && SideInTime(d.b, t)
  }

  predicate SideInTime(s: Side, t: nat) {
    && (s.chan.tx.state == WaitFlowControl ==> t < s.txDue)
    && (s.chan.rx.state == Receiving ==> t < s.rxDue)
  }

  // ---------------------------------------------------------------- one transfer of the two

  /** The channel as a sender only, and as a receiver only. */
  function HalfTx(c: Chan): (r: Chan)
    ensures Valid(c) ==> Valid(r)
  {
    c.(rx := IdleRx(Zeros(c.cfg.rxCapacity)))
  }

  function HalfRx(c: Chan): (r: Chan)
    ensures Valid(c) ==> Valid(r)
  {
    c.(tx := IdleTx(Zeros(c.cfg.txCapacity)))
  }

  function DataOf(q: seq<Frame>): (r: seq<Frame>) {
    if q == [] then [] else (if IsFlow(q[0]) then [] else [q[0]]) + DataOf(q[1..])
  }

  function FlowOf(q: seq<Frame>): (r: seq<Frame>) {
    if q == [] then [] else (if IsFlow(q[0]) then [q[0]] else []) + FlowOf(q[1..])
  }

  /** The transfer from `a` to `b`. */
  function Forth(d: Duplex): (net: Net) {
    Net(HalfTx(d.a.chan), HalfRx(d.b.chan), DataOf(d.b.inbox), FlowOf(d.a.inbox), d.clock, d.a.txDue, d.b.rxDue)
  }

  /** The transfer from `b` to `a`. */
  function Back(d: Duplex): (net: Net) {
    Forth(Mirror(d))
  }

  lemma {:induction false} Appended(q: seq<Frame>, f: Frame)
    ensures DataOf(q + [f]) == DataOf(q) + if IsFlow(f) then [] else [f]
    ensures FlowOf(q + [f]) == FlowOf(q) + if IsFlow(f) then [f] else []
  {
    if q != [] {
      Appended(q[1..], f);
      assert (q + [f])[1..] == q[1..] + [f];
    }
  }

  /** A reply joins the frames of its own kind. */
  lemma Replied(q: seq<Frame>, reply: Option<Frame>)
    ensures DataOf(q + Sent(reply))
         == if reply.Some? && !IsFlow(reply.value) then DataOf(q) + Sent(reply) else DataOf(q)
    ensures FlowOf(q + Sent(reply))
         == if reply.Some? && IsFlow(reply.value) then FlowOf(q) + Sent(reply) else FlowOf(q)
    ensures reply == None ==> q + Sent(reply) == q && DataOf(q) + Sent(reply) == DataOf(q)
    ensures reply == None ==> FlowOf(q) + Sent(reply) == FlowOf(q)
  {
    if reply.Some? {
      Appended(q, reply.value);
    } else {
      assert q + Sent(reply) == q;
    }
  }

  /** The oldest frame is the oldest of its kind. */
  lemma Oldest(q: seq<Frame>)
    requires q != []
    ensures IsFlow(q[0]) ==>
              FlowOf(q) != [] && FlowOf(q)[0] == q[0] && FlowOf(q)[1..] == FlowOf(q[1..]) && DataOf(q) == DataOf(q[1..])
    ensures !IsFlow(q[0]) ==>
              DataOf(q) != [] && DataOf(q)[0] == q[0] && DataOf(q)[1..] == DataOf(q[1..]) && FlowOf(q) == FlowOf(q[1..])
  {
  }

  /** A poll concerns the sending half only. */
  lemma PollsHalf(c: Chan, now: u32)
    requires Valid(c) && !(c.rx.state == Receiving && Reached(now, c.rx.deadline))
    ensures var o := Process(c, now);
            && Process(HalfTx(c), now) == Outcome(HalfTx(o.chan), o.result, o.reply)
            && o.chan == c.(tx := o.chan.tx) && Valid(o.chan)
            && (o.reply.Some? ==> !IsFlow(o.reply.value))
  {
    hide Reached, Add32;
    ProcessKeepsValid(c, now);
    var tx := c.tx;
    if tx.state == SendConsecutive && Reached(now, tx.deadline) {
      var n := Min(tx.length - tx.offset, CONSECUTIVE_PAYLOAD);
      var bytes := [0x20 + tx.nextSequence] + tx.buffer[tx.offset..tx.offset + n];
      var f := Padded(bytes);
      assert f.data[0] == f.data[..|bytes|][0] == 0x20 + tx.nextSequence;
    }
  }

  /** So does a flow-control frame... */
  lemma FlowHalf(c: Chan, f: Frame, now: u32)
    requires Valid(c) && IsFlow(f)
    ensures var o := OnCanFrame(c, f, now);
            && OnCanFrame(HalfTx(c), f, now) == Outcome(HalfTx(o.chan), o.result, o.reply)
            && o.chan == c.(tx := o.chan.tx) && Valid(o.chan) && o.reply == None
  {
    hide Reached, Add32, DecodeStMin;
    FrameKeepsValid(c, f, now);
  }

  /** ... and every other frame concerns the receiving half only, and is answered by flow control. */
  lemma DataHalf(c: Chan, f: Frame, now: u32)
    requires Valid(c) && !IsFlow(f)
    ensures var o := OnCanFrame(c, f, now);
            && OnCanFrame(HalfRx(c), f, now) == Outcome(HalfRx(o.chan), o.result, o.reply)
            && o.chan == c.(rx := o.chan.rx) && Valid(o.chan)
            && (o.reply.Some? ==> IsFlow(o.reply.value))
  {
    hide Reached, Add32, DecodeStMin, FlowControl, Splice;
    FrameKeepsValid(c, f, now);
    ControlIsFlow(c.cfg);
  }

  lemma ControlIsFlow(cfg: Config)
    ensures IsFlow(FlowControl(cfg, FLOW_CONTINUE)) && IsFlow(FlowControl(cfg, FLOW_OVERFLOW))
  {
  }

  lemma StartsHalf(c: Chan, payload: seq<u8>, now: u32)
    requires Valid(c) && !TxActive(c.tx) && 0 < |payload| <= MAX_PAYLOAD && |payload| <= c.cfg.txCapacity
    ensures var o := StartTransmit(c, payload, now);
            && StartTransmit(HalfTx(c), payload, now) == Outcome(HalfTx(o.chan), o.result, o.reply)
            && o.chan == c.(tx := o.chan.tx) && Valid(o.chan)
            && o.reply.Some? && !IsFlow(o.reply.value)
  {
    hide Add32;
    StartKeepsValid(c, payload, now);
    var f := StartTransmit(c, payload, now).reply.value;
    if |payload| <= SINGLE_PAYLOAD {
      assert f.data[..1 + |payload|] == [|payload|] + payload;
      assert f.data[0] == f.data[..1 + |payload|][0];
    } else {
      var bytes := [0x10 + |payload| / 0x100, |payload| % 0x100] + payload[..FIRST_PAYLOAD];
      assert f == Padded(bytes);
      assert f.data[0] == f.data[..|bytes|][0];
    }
  }

  // ---------------------------------------------------------------- what the two transfers see

  lemma ForthStarts(d: Duplex, p: seq<u8>, t: nat)
    requires ValidDuplex(d) && !d.a.started && Startable(Forth(d).sender, Forth(d).receiver, p)
    requires Forth(d).toReceiver == Forth(d).toSender == [] && d.b.rxDue == 0
    ensures var e := Act(d, Starts, p, t);
            && ValidDuplex(e) && e.a.started && e.b.started == d.b.started
            && Forth(e) == Started(Forth(d).sender, Forth(d).receiver, p, t)
            && Back(e) == Back(d).(clock := t)
  {
    hide Valid, StartTransmit, DataOf, FlowOf, IsFlow;
    StartsHalf(d.a.chan, p, Wrap32(t));
    Replied(d.b.inbox, StartTransmit(d.a.chan, p, Wrap32(t)).reply);
  }

  lemma ForthPolls(d: Duplex, p: seq<u8>, t: nat)
    requires ValidDuplex(d) && InTime(d, t) && 0 < |p| <= MAX_PAYLOAD
    requires d.a.chan.rx.state == Receiving ==> !Reached(Wrap32(t), d.a.chan.rx.deadline)
    ensures var e := Act(d, Polls, p, t);
            && ValidDuplex(e) && e.a.started == d.a.started && e.b.started == d.b.started
            && Forth(e) == Next(Forth(d), SenderPolls(t))
            && Back(e) == Back(d).(clock := t)
            && (Forth(e) == Forth(d).(clock := t) ==> e == d.(clock := t))
  {
    hide Valid, Process, DataOf, FlowOf, IsFlow, Reached, InTime;
    PollsHalf(d.a.chan, Wrap32(t));
    Replied(d.b.inbox, Process(d.a.chan, Wrap32(t)).reply);
  }

  lemma ForthTakes(d: Duplex, p: seq<u8>, t: nat)
    requires ValidDuplex(d) && d.a.inbox != [] && IsFlow(d.a.inbox[0]) && 0 < |p| <= MAX_PAYLOAD
    ensures var e := Act(d, Takes, p, t);
            && ValidDuplex(e) && e.a.started == d.a.started && e.b.started == d.b.started
            && Forth(d).toSender != [] && Forth(e) == Next(Forth(d), SenderTakes(t))
            && Back(e) == Back(d).(clock := t)
  {
    hide Valid, OnCanFrame, DataOf, FlowOf, IsFlow;
    FlowHalf(d.a.chan, d.a.inbox[0], Wrap32(t));
    Oldest(d.a.inbox);
    Replied(d.b.inbox, None);
  }

  lemma BackTakes(d: Duplex, p: seq<u8>, t: nat)
    requires ValidDuplex(d) && d.a.inbox != [] && !IsFlow(d.a.inbox[0]) && 0 < |p| <= MAX_PAYLOAD
    ensures var e := Act(d, Takes, p, t);
            && ValidDuplex(e) && e.a.started == d.a.started && e.b.started == d.b.started
            && Back(d).toReceiver != [] && Back(e) == Next(Back(d), ReceiverTakes(t))
            && Forth(e) == Forth(d).(clock := t)
  {
    hide Valid, OnCanFrame, DataOf, FlowOf, IsFlow, TxDue;
    DataHalf(d.a.chan, d.a.inbox[0], Wrap32(t));
    Oldest(d.a.inbox);
    Replied(d.b.inbox, OnCanFrame(d.a.chan, d.a.inbox[0], Wrap32(t)).reply);
  }

  // ---------------------------------------------------------------- one transfer, started or not

  /** Before its start nothing of a transfer is about; from then on it is in lockstep. */
  predicate Direction(net: Net, started: bool, payload: seq<u8>, k: nat, j: nat) {
    if started then Lockstep(net, payload, k, j)
    else Startable(net.sender, net.receiver, payload) && net.toReceiver == net.toSender == [] && net.rxDue == 0
  }

  /** Steps still to do, the start among them. */
  function WorkOf(net: Net, started: bool, payload: seq<u8>, k: nat, j: nat): int {
    if started then Work(net, FrameCount(|payload|), k, j) else 4 * FrameCount(|payload|)
  }

  lemma DirectionWaits(net: Net, started: bool, payload: seq<u8>, k: nat, j: nat, t: nat)
    requires Direction(net, started, payload, k, j) && Timely(net, ReceiverPolls(t))
    ensures Direction(net.(clock := t), started, payload, k, j)
    ensures WorkOf(net.(clock := t), started, payload, k, j) == WorkOf(net, started, payload, k, j)
  {
    if started {
      ReceiverPollsInLockstep(net, payload, k, j, t);
    }
  }

  lemma DirectionSteps(net: Net, started: bool, payload: seq<u8>, k: nat, j: nat, e: Event)
    returns (k': nat, j': nat)
    requires Direction(net, started, payload, k, j) && Timely(net, e) && !e.ReceiverPolls?
    ensures ValidNet(net) && Direction(Next(net, e), started, payload, k', j')
    ensures WorkOf(Next(net, e), started, payload, k', j')
         <= WorkOf(net, started, payload, k, j) - if Effective(net, e) then 1 else 0
  {
    hide Lockstep;
    k', j' := k, j;
    if started {
      InLockstep(net, payload, k, j);
      k', j' := StepInLockstep(net, payload, k, j, e);
    } else {
      NotStarted(net, payload, e);
    }
  }

  lemma InLockstep(net: Net, payload: seq<u8>, k: nat, j: nat)
    requires Lockstep(net, payload, k, j)
    ensures ValidNet(net) && 0 < |payload| <= MAX_PAYLOAD
  {
  }

  lemma NotStarted(net: Net, payload: seq<u8>, e: Event)
    requires Startable(net.sender, net.receiver, payload) && net.toReceiver == net.toSender == []
    requires !e.ReceiverPolls?
    ensures Next(net, e) == net.(clock := e.t)
  {
    hide Valid;
  }

  lemma DirectionStarts(net: Net, payload: seq<u8>, t: nat)
    requires Direction(net, false, payload, 0, 0)
    ensures var e := Started(net.sender, net.receiver, payload, t);
            && Direction(e, true, payload, 1, 0)
            && WorkOf(e, true, payload, 1, 0) <= WorkOf(net, false, payload, 0, 0) - 1
  {
    hide Lockstep;
    StartIsInLockstep(net.sender, net.receiver, payload, t);
    FirstState(net.sender, payload, Wrap32(t));
  }

  lemma FirstState(c: Chan, payload: seq<u8>, now: u32)
    requires Valid(c) && !TxActive(c.tx) && 0 < |payload| <= MAX_PAYLOAD && |payload| <= c.cfg.txCapacity
    ensures StartTransmit(c, payload, now).chan.tx.state
         == if FrameCount(|payload|) == 1 then TxComplete else WaitFlowControl
  {
  }

  // ---------------------------------------------------------------- both transfers

  /** How far each transfer is: frames sent and taken. */
  datatype Progress = Progress(k: nat, j: nat)

  predicate Both(d: Duplex, p: seq<u8>, q: seq<u8>, forth: Progress, back: Progress) {
    && ValidDuplex(d) && 0 < |p| <= MAX_PAYLOAD && 0 < |q| <= MAX_PAYLOAD
    && Direction(Forth(d), d.a.started, p, forth.k, forth.j)
    && Direction(Back(d), d.b.started, q, back.k, back.j)
  }

  function AllWork(d: Duplex, p: seq<u8>, q: seq<u8>, forth: Progress, back: Progress): int {
    WorkOf(Forth(d), d.a.started, p, forth.k, forth.j) + WorkOf(Back(d), d.b.started, q, back.k, back.j)
  }

  /** The lockstep of either transfer survives what side `a` does. */
  lemma ActKeepsBoth(d: Duplex, action: Action, p: seq<u8>, q: seq<u8>, forth: Progress, back: Progress, t: nat)
    returns (forth': Progress, back': Progress)
    requires Both(d, p, q, forth, back) && InTime(d, t)
    ensures var e := Act(d, action, p, t);
            && Both(e, p, q, forth', back')
            && AllWork(e, p, q, forth', back')
               <= AllWork(d, p, q, forth, back) - if e != d.(clock := t) then 1 else 0
  {
    hide Direction, Act, Next, WorkOf, Valid, Started, Startable;
    forth', back' := forth, back;
    InTimeForBoth(d, t);
    DirectionWaits(Forth(d), d.a.started, p, forth.k, forth.j, t);
    DirectionWaits(Back(d), d.b.started, q, back.k, back.j, t);
    Idles(d, action, p, t);
    if action == Starts && !d.a.started {
      BeforeStart(Forth(d), p, forth.k, forth.j);
      ForthStarts(d, p, t);
      DirectionStarts(Forth(d), p, t);
      forth' := Progress(1, 0);
    } else if action == Polls {
      DeadlineAhead(d, q, back, t);
      ForthPolls(d, p, t);
      var k, j := DirectionSteps(Forth(d), d.a.started, p, forth.k, forth.j, SenderPolls(t));
      forth' := Progress(k, j);
    } else if action == Takes && d.a.inbox != [] && IsFlow(d.a.inbox[0]) {
      ForthTakes(d, p, t);
      var k, j := DirectionSteps(Forth(d), d.a.started, p, forth.k, forth.j, SenderTakes(t));
      TakenIsEffective(Forth(d), t);
      forth' := Progress(k, j);
    } else if action == Takes && d.a.inbox != [] {
      BackTakes(d, p, t);
      var k, j := DirectionSteps(Back(d), d.b.started, q, back.k, back.j, ReceiverTakes(t));
      TakenIsEffective(Back(d), t);
      back' := Progress(k, j);
    }
  }

  lemma InTimeForBoth(d: Duplex, t: nat)
    requires InTime(d, t)
    ensures forall e: Event :: e.t == t ==> Timely(Forth(d), e) && Timely(Back(d), e)
    ensures Forth(d.(clock := t)) == Forth(d).(clock := t) && Back(d.(clock := t)) == Back(d).(clock := t)
  {
  }

  lemma Idles(d: Duplex, action: Action, p: seq<u8>, t: nat)
    requires ValidDuplex(d) && 0 < |p| <= MAX_PAYLOAD
    ensures (action == Starts && d.a.started) || (action == Takes && d.a.inbox == []) ==>
              Act(d, action, p, t) == d.(clock := t)
  {
    hide Valid, Process, OnCanFrame;
  }

  lemma BeforeStart(net: Net, payload: seq<u8>, k: nat, j: nat)
    requires Direction(net, false, payload, k, j)
    ensures Startable(net.sender, net.receiver, payload) && net.toReceiver == net.toSender == [] && net.rxDue == 0
    ensures Direction(net, false, payload, 0, 0)
    ensures WorkOf(net, false, payload, 0, 0) == WorkOf(net, false, payload, k, j)
  {
  }

  /** The reception at `a` is served in time, so its deadline has not passed. */
  lemma DeadlineAhead(d: Duplex, q: seq<u8>, back: Progress, t: nat)
    requires Direction(Back(d), d.b.started, q, back.k, back.j) && InTime(d, t)
    ensures d.a.chan.rx.state == Receiving ==> !Reached(Wrap32(t), d.a.chan.rx.deadline)
  {
    hide Valid, Reached;
    if d.a.chan.rx.state == Receiving {
      assert Back(d).receiver.rx == d.a.chan.rx && Back(d).rxDue == d.a.rxDue;
      assert d.a.chan.rx.deadline == Wrap32(d.a.rxDue) && d.a.rxDue <= d.clock + INT32_MAX;
      ReachedIsTrueOrder(t, d.a.rxDue);
    }
  }

  lemma TakenIsEffective(net: Net, t: nat)
    requires ValidNet(net)
    ensures net.toSender != [] ==> Effective(net, SenderTakes(t))
    ensures net.toReceiver != [] ==> Effective(net, ReceiverTakes(t))
  {
    hide Valid, OnCanFrame;
    assert net.toSender != [] ==> |net.toSender[1..]| == |net.toSender| - 1;
    assert net.toReceiver != [] ==> |net.toReceiver[1..]| == |net.toReceiver| - 1;
  }

  lemma MoveKeepsBoth(d: Duplex, m: Move, p: seq<u8>, q: seq<u8>, forth: Progress, back: Progress)
    returns (forth': Progress, back': Progress)
    requires Both(d, p, q, forth, back) && InTime(d, m.t)
    ensures var e := Moved(d, m, p, q);
            && Both(e, p, q, forth', back')
            && AllWork(e, p, q, forth', back')
               <= AllWork(d, p, q, forth, back) - if e != d.(clock := m.t) then 1 else 0
  {
    hide Direction, Act, WorkOf, Forth;
    if m.first {
      forth', back' := ActKeepsBoth(d, m.action, p, q, forth, back, m.t);
    } else {
      assert Mirror(Mirror(d)) == d;
      back', forth' := ActKeepsBoth(Mirror(d), m.action, q, p, back, forth, m.t);
      var e := Act(Mirror(d), m.action, q, m.t);
      assert Mirror(Mirror(e)) == e;
    }
  }

  // ---------------------------------------------------------------- whole runs

  predicate InTimeRun(d: Duplex, run: seq<Move>, p: seq<u8>, q: seq<u8>)
    decreases |run|
  {
    && ValidDuplex(d) && 0 < |p| <= MAX_PAYLOAD && 0 < |q| <= MAX_PAYLOAD
    && (run != [] ==> InTime(d, run[0].t) && InTimeRun(Moved(d, run[0], p, q), run[1..], p, q))
  }

  function LastOf(d: Duplex, run: seq<Move>, p: seq<u8>, q: seq<u8>): (r: Duplex)
    requires InTimeRun(d, run, p, q)
    ensures ValidDuplex(r)
    decreases |run|
  {
    if run == [] then d else LastOf(Moved(d, run[0], p, q), run[1..], p, q)
  }

  /** The moves that do more than let time pass. */
  function Changes(d: Duplex, run: seq<Move>, p: seq<u8>, q: seq<u8>): (n: nat)
    requires InTimeRun(d, run, p, q)
    decreases |run|
  {
    if run == [] then 0
    else
      var e := Moved(d, run[0], p, q);
      (if e != d.(clock := run[0].t) then 1 else 0) + Changes(e, run[1..], p, q)
  }

  lemma {:induction false} RunKeepsBoth(d: Duplex, run: seq<Move>, p: seq<u8>, q: seq<u8>,
                                        forth: Progress, back: Progress)
    returns (forth': Progress, back': Progress)
    requires Both(d, p, q, forth, back) && InTimeRun(d, run, p, q)
    ensures Both(LastOf(d, run, p, q), p, q, forth', back')
    ensures AllWork(LastOf(d, run, p, q), p, q, forth', back')
         <= AllWork(d, p, q, forth, back) - Changes(d, run, p, q)
    decreases |run|
  {
    hide Both, AllWork, Moved, InTime;
    forth', back' := forth, back;
    if run != [] {
      var f, b := MoveKeepsBoth(d, run[0], p, q, forth, back);
      forth', back' := RunKeepsBoth(Moved(d, run[0], p, q), run[1..], p, q, f, b);
    }
  }

  // ---------------------------------------------------------------- delivery

  /** Two idle channels with room for each other's payload. */
  predicate Exchangeable(a: Chan, b: Chan, p: seq<u8>, q: seq<u8>) {
    && Valid(a) && Valid(b)
    && !TxActive(a.tx) && !TxActive(b.tx) && a.rx.state == b.rx.state == RxIdle
    && 0 < |p| <= MAX_PAYLOAD && |p| <= a.cfg.txCapacity && |p| <= b.cfg.rxCapacity
    && 0 < |q| <= MAX_PAYLOAD && |q| <= b.cfg.txCapacity && |q| <= a.cfg.rxCapacity
  }

  function Fresh(a: Chan, b: Chan, t: nat): (d: Duplex) {
    Duplex(Side(a, [], false, 0, 0), Side(b, [], false, 0, 0), t)
  }

  lemma FreshIsBoth(a: Chan, b: Chan, p: seq<u8>, q: seq<u8>, t: nat)
    requires Exchangeable(a, b, p, q)
    ensures var d := Fresh(a, b, t);
            && Both(d, p, q, Progress(0, 0), Progress(0, 0))
            && AllWork(d, p, q, Progress(0, 0), Progress(0, 0)) == 4 * (FrameCount(|p|) + FrameCount(|q|))
  {
    hide Valid;
  }

  /** No move that is in time would change anything. */
  ghost predicate Halted(d: Duplex, p: seq<u8>, q: seq<u8>)
    requires ValidDuplex(d) && 0 < |p| <= MAX_PAYLOAD && 0 < |q| <= MAX_PAYLOAD
  {
    forall m: Move :: InTime(d, m.t) ==> Moved(d, m, p, q) == d.(clock := m.t)
  }

  /** With nothing in flight a transfer is finished, or its sender may go on before the receiver gives up. */
  lemma PaceIsOpen(net: Net, payload: seq<u8>, k: nat, j: nat)
    requires Lockstep(net, payload, k, j) && net.toReceiver == net.toSender == []
    requires Feasible(net.receiver.cfg, FrameCount(|payload|))
    ensures k == j
    ensures Transferred(net, payload) ==> !TxActive(net.sender.tx) && net.receiver.rx.state != Receiving
    ensures !Transferred(net, payload) ==>
              && net.sender.tx.state == SendConsecutive && net.receiver.rx.state == Receiving
              && net.sender.tx.deadline == Wrap32(net.txDue)
              && net.clock < net.rxDue && (net.txDue <= net.clock || net.txDue < net.rxDue)
  {
    hide Valid, Frames, BlockPos;
    assert |Frames(payload, j, k)| == k - j;
  }

  /** It is always in time to do something at once. */
  lemma NowIsInTime(d: Duplex, p: seq<u8>, q: seq<u8>, forth: Progress, back: Progress)
    requires Both(d, p, q, forth, back)
    ensures InTime(d, d.clock)
  {
    hide Valid;
    DirectionInTime(Forth(d), d.a.started, p, forth.k, forth.j);
    DirectionInTime(Back(d), d.b.started, q, back.k, back.j);
  }

  lemma DirectionInTime(net: Net, started: bool, payload: seq<u8>, k: nat, j: nat)
    requires Direction(net, started, payload, k, j)
    ensures net.sender.tx.state == WaitFlowControl ==> net.clock < net.txDue
    ensures net.receiver.rx.state == Receiving ==> net.clock < net.rxDue
  {
    hide Valid;
  }

  /** Side `a` has something to take or to start. */
  lemma AtOnce(d: Duplex, p: seq<u8>) returns (action: Action)
    requires ValidDuplex(d) && 0 < |p| <= MAX_PAYLOAD && (!d.a.started || d.a.inbox != [])
    ensures Act(d, action, p, d.clock) != d
  {
    hide Valid, StartTransmit, OnCanFrame;
    if d.a.started {
      action := Takes;
      assert |Act(d, Takes, p, d.clock).a.inbox| == |d.a.inbox| - 1;
    } else {
      action := Starts;
      assert Act(d, Starts, p, d.clock).a.started;
    }
  }

  /** Both transfers run, and nothing is in flight. */
  predicate BothOpen(d: Duplex, p: seq<u8>, q: seq<u8>, forth: Progress, back: Progress) {
    Both(d, p, q, forth, back) && d.a.started && d.b.started && d.a.inbox == d.b.inbox == []
  }

  ghost predicate BothFeasible(d: Duplex, p: seq<u8>, q: seq<u8>)
    requires ValidDuplex(d)
  {
    && Feasible(d.b.chan.cfg, FrameCount(|p|)) && Feasible(d.a.chan.cfg, FrameCount(|q|))
    && Polled(Forth(d)) && Polled(Back(d))
  }

  /** The sender whose pace is due first can be polled before any receiver gives up. */
  lemma PollIsDue(d: Duplex, p: seq<u8>, q: seq<u8>, forth: Progress, back: Progress) returns (t: nat)
    requires BothOpen(d, p, q, forth, back) && BothFeasible(d, p, q)
    requires !Transferred(Forth(d), p) && (Transferred(Back(d), q) || d.a.txDue <= d.b.txDue)
    ensures InTime(d, t) && Act(d, Polls, p, t) != d.(clock := t)
  {
    hide Valid, Lockstep, Transferred, Act;
    PaceIsOpen(Forth(d), p, forth.k, forth.j);
    PaceIsOpen(Back(d), q, back.k, back.j);
    t := if d.clock < d.a.txDue then d.a.txDue else d.clock;
    assert InTime(d, t);
    ReachedIsTrueOrder(t, d.a.txDue);
    InTimeForBoth(d, t);
    DeadlineAhead(d, q, back, t);
    ForthPolls(d, p, t);
    PollSends(Forth(d), p, forth.k, forth.j, t);
  }

  lemma PollSends(net: Net, payload: seq<u8>, k: nat, j: nat, t: nat)
    requires Lockstep(net, payload, k, j) && Timely(net, SenderPolls(t)) && net.toReceiver == []
    requires net.sender.tx.state == SendConsecutive && Reached(Wrap32(t), net.sender.tx.deadline)
    ensures ValidNet(net) && Next(net, SenderPolls(t)) != net.(clock := t)
  {
    hide Valid, Next;
    var k' := SenderPollsInLockstep(net, payload, k, j, t);
    assert |Next(net, SenderPolls(t)).toReceiver| == k + 1 - j;
  }

  /** Unless both payloads have been delivered, some move that is in time takes a transfer further. */
  lemma NeverHalted(d: Duplex, p: seq<u8>, q: seq<u8>, forth: Progress, back: Progress) returns (m: Move)
    requires Both(d, p, q, forth, back) && BothFeasible(d, p, q)
    requires !(d.a.started && d.b.started && Transferred(Forth(d), p) && Transferred(Back(d), q))
    ensures InTime(d, m.t) && Moved(d, m, p, q) != d.(clock := m.t)
  {
    hide Direction, Act, Feasible, Transferred, Polled, InTime, Valid, Forth;
    var n := Mirror(d);
    assert Mirror(n) == d;
    NowIsInTime(d, p, q, forth, back);
    if !d.a.started || d.a.inbox != [] {
      var action := AtOnce(d, p);
      m := Move(true, action, d.clock);
    } else if !d.b.started || d.b.inbox != [] {
      var action := AtOnce(n, q);
      m := Move(false, action, d.clock);
    } else if !Transferred(Forth(d), p) && (Transferred(Back(d), q) || d.a.txDue <= d.b.txDue) {
      var t := PollIsDue(d, p, q, forth, back);
      m := Move(true, Polls, t);
    } else {
      var t := PollIsDue(n, q, p, back, forth);
      InTimeMirrored(n, t);
      m := Move(false, Polls, t);
    }
  }

  lemma InTimeMirrored(d: Duplex, t: nat)
    ensures InTime(Mirror(d), t) <==> InTime(d, t)
  {
  }

  /**
   * However the two transfers are started, polled and interleaved in time: at most 4 effective steps
   * for every frame; a transfer that falls quiet has delivered its payload; and if both
   * configurations are feasible, a run that can go no further has delivered both.
   */
  lemma BothAreDelivered(a: Chan, b: Chan, p: seq<u8>, q: seq<u8>, t: nat, run: seq<Move>)
    requires Exchangeable(a, b, p, q) && InTimeRun(Fresh(a, b, t), run, p, q)
    ensures var first := Fresh(a, b, t);
            var last := LastOf(first, run, p, q);
            && Changes(first, run, p, q) <= 4 * (FrameCount(|p|) + FrameCount(|q|))
            && (last.a.started && Quiet(Forth(last)) ==> Transferred(Forth(last), p))
            && (last.b.started && Quiet(Back(last)) ==> Transferred(Back(last), q))
            && (Feasible(b.cfg, FrameCount(|p|)) && Feasible(a.cfg, FrameCount(|q|))
                && Polled(Forth(last)) && Polled(Back(last)) && Halted(last, p, q) ==>
                  last.a.started && last.b.started && Transferred(Forth(last), p) && Transferred(Back(last), q))
  {
    hide Both, AllWork, Forth, Transferred, Feasible, Valid, Polled, Quiet, FrameCount, Moved, InTime;
    FreshIsBoth(a, b, p, q, t);
    var first := Fresh(a, b, t);
    var last := LastOf(first, run, p, q);
    var forth, back := RunKeepsBoth(first, run, p, q, Progress(0, 0), Progress(0, 0));
    RunKeepsConfigs(first, run, p, q);
    WorkIsLeft(last, p, q, forth, back);
    QuietIsDone(last, p, q, forth, back);
    if BothFeasible(last, p, q) && Halted(last, p, q)
       && !(last.a.started && last.b.started && Transferred(Forth(last), p) && Transferred(Back(last), q)) {
      var m := NeverHalted(last, p, q, forth, back);
      assert false;
    }
  }

  lemma WorkIsLeft(d: Duplex, p: seq<u8>, q: seq<u8>, forth: Progress, back: Progress)
    requires Both(d, p, q, forth, back)
    ensures AllWork(d, p, q, forth, back) >= 0
  {
    hide Valid;
  }

  lemma QuietIsDone(d: Duplex, p: seq<u8>, q: seq<u8>, forth: Progress, back: Progress)
    requires Both(d, p, q, forth, back)
    ensures d.a.started && Quiet(Forth(d)) ==> Transferred(Forth(d), p)
    ensures d.b.started && Quiet(Back(d)) ==> Transferred(Back(d), q)
  {
    hide Valid, Forth;
    if d.a.started && Quiet(Forth(d)) {
      QuietInLockstep(Forth(d), p, forth.k, forth.j);
    }
    if d.b.started && Quiet(Back(d)) {
      QuietInLockstep(Back(d), q, back.k, back.j);
    }
  }

  lemma QuietInLockstep(net: Net, payload: seq<u8>, k: nat, j: nat)
    requires Lockstep(net, payload, k, j) && Quiet(net)
    ensures Transferred(net, payload)
  {
    hide Valid;
    assert |Frames(payload, j, k)| == k - j;
  }

  lemma {:induction false} RunKeepsConfigs(d: Duplex, run: seq<Move>, p: seq<u8>, q: seq<u8>)
    requires InTimeRun(d, run, p, q)
    ensures var last := LastOf(d, run, p, q);
            last.a.chan.cfg == d.a.chan.cfg && last.b.chan.cfg == d.b.chan.cfg
    decreases |run|
  {
    hide Moved, InTime;
    if run != [] {
      MoveKeepsConfigs(d, run[0], p, q);
      RunKeepsConfigs(Moved(d, run[0], p, q), run[1..], p, q);
    }
  }

  lemma MoveKeepsConfigs(d: Duplex, m: Move, p: seq<u8>, q: seq<u8>)
    requires ValidDuplex(d) && 0 < |p| <= MAX_PAYLOAD && 0 < |q| <= MAX_PAYLOAD
    ensures var e := Moved(d, m, p, q);
            e.a.chan.cfg == d.a.chan.cfg && e.b.chan.cfg == d.b.chan.cfg
  {
    hide Act;
    if m.first {
      ActKeepsConfigs(d, m.action, p, m.t);
    } else {
      ActKeepsConfigs(Mirror(d), m.action, q, m.t);
    }
  }

  lemma ActKeepsConfigs(d: Duplex, action: Action, p: seq<u8>, t: nat)
    requires ValidDuplex(d) && 0 < |p| <= MAX_PAYLOAD
    ensures var e := Act(d, action, p, t);
            e.a.chan.cfg == d.a.chan.cfg && e.b.chan.cfg == d.b.chan.cfg
  {
    hide Valid, OnCanFrame, Process, StartTransmit, IsFlow;
    match action {
      case Starts => StartKeepsValid(d.a.chan, p, Wrap32(t));
      case Polls => ProcessKeepsValid(d.a.chan, Wrap32(t));
      case Takes =>
        if d.a.inbox != [] {
          FrameKeepsValid(d.a.chan, d.a.inbox[0], Wrap32(t));
        }
    }
  }
}
