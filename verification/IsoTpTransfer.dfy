/**
 * Two ISO-TP channels and the frames in flight between them: one payload from a sender to a
 * receiver, in lockstep while both are polled in time, and its fate when frames are lost.
 */
module IsoTpTransfer {
  import opened Machine
  import opened IsoTp

  // ---------------------------------------------------------------- segmentation

  /** A payload travels as one single frame, or a first frame and its consecutive frames. */
  function FrameCount(length: nat): (n: nat)
    ensures n >= 1
  {
    if length <= SINGLE_PAYLOAD then 1 else 1 + length / CONSECUTIVE_PAYLOAD
  }

  /** Payload bytes carried by the first `k` frames. */
  function Carried(length: nat, k: nat): (offset: nat)
    ensures offset <= length
  {
    if k == 0 then 0
    else if length <= SINGLE_PAYLOAD then length
    else Min(length, FIRST_PAYLOAD + CONSECUTIVE_PAYLOAD * (k - 1))
  }

  lemma CarriedAll(length: nat, k: nat)
    requires 0 < k <= FrameCount(length)
    ensures Carried(length, k) == length <==> k == FrameCount(length)
    ensures SINGLE_PAYLOAD < length ==>
              Carried(length, k + 1) == Min(length, Carried(length, k) + CONSECUTIVE_PAYLOAD)
  {
  }

  /** The `i`-th frame of a transfer. */
  function FrameAt(payload: seq<u8>, i: nat): (f: Frame)
    requires 0 < |payload| <= MAX_PAYLOAD
    requires i < FrameCount(|payload|)
  {
    var n := |payload|;
    if n <= SINGLE_PAYLOAD then Padded([n] + payload)
    else if i == 0 then Padded([0x10 + n / 0x100, n % 0x100] + payload[..FIRST_PAYLOAD])
    else Padded([0x20 + i % 16] + payload[Carried(n, i)..Carried(n, i + 1)])
  }

  lemma NextNumber(k: nat)
    ensures (k % 16 + 1) % 16 == (k + 1) % 16
  {
  }

  /** Number and bytes of a consecutive frame. */
  lemma ConsecutiveFrame(payload: seq<u8>, i: nat)
    requires 0 < |payload| <= MAX_PAYLOAD && 0 < i < FrameCount(|payload|)
    ensures var f, from, to := FrameAt(payload, i), Carried(|payload|, i), Carried(|payload|, i + 1);
            && SINGLE_PAYLOAD < |payload| && f.data[0] == 0x20 + i % 16 && f.dlc == FRAME_SIZE
            && from < to && to - from == Min(|payload| - from, CONSECUTIVE_PAYLOAD)
            && f.data[1..1 + (to - from)] == payload[from..to]
  {
    var f, from, to := FrameAt(payload, i), Carried(|payload|, i), Carried(|payload|, i + 1);
    CarriedAll(|payload|, i);
    hide Carried;
    var bytes := payload[from..to];
    assert f.data[..1 + |bytes|] == [0x20 + i % 16] + bytes;
    assert f.data[1..1 + |bytes|] == f.data[..1 + |bytes|][1..] == bytes;
    assert f.data[0] == f.data[..1 + |bytes|][0];
  }

  lemma Dispatched(c: Chan, f: Frame, now: u32)
    requires Valid(c) && 0x20 <= f.data[0] < 0x30 && f.dlc == FRAME_SIZE
    ensures OnCanFrame(c, f, now) == ReceiveConsecutive(c, f, now)
    ensures f.data[0] % 16 == f.data[0] - 0x20
  {
    hide ReceiveConsecutive;
  }

  function Frames(payload: seq<u8>, from: nat, to: nat): (fs: seq<Frame>)
    requires 0 < |payload| <= MAX_PAYLOAD
    requires from <= to <= FrameCount(|payload|)
    ensures |fs| == to - from
  {
    seq<Frame>(to - from, i requires 0 <= i < to - from => FrameAt(payload, from + i))
  }

  // ---------------------------------------------------------------- blocks

  /** Position inside the current block after `m` frames; with block size 0 there is one block. */
  function BlockPos(b: u8, m: nat): (p: nat)
    requires m >= 1
    ensures b == 0 ==> p == m - 1
    ensures b != 0 ==> p < b
    decreases m
  {
    if m == 1 then 0
    else
      var p := BlockPos(b, m - 1) + 1;
      if b != 0 && p >= b then 0 else p
  }

  /** A flow-control frame falls due after the `m`-th of `n` frames. */
  predicate Grant(b: u8, n: nat, m: nat)
    requires m >= 1
  {
    m < n && BlockPos(b, m) == 0
  }

  // ---------------------------------------------------------------- the network

  /** Two channels, the frames in flight, the true time and the true time of both deadlines. */
  datatype Net = Net(sender: Chan, receiver: Chan, toReceiver: seq<Frame>, toSender: seq<Frame>,
                     clock: nat, txDue: nat, rxDue: nat)

  datatype Event =
    | SenderPolls(t: nat)
    | ReceiverPolls(t: nat)
    | ReceiverTakes(t: nat)
    | SenderTakes(t: nat)

  function Sent(reply: Option<Frame>): seq<Frame> {
    if reply.Some? then [reply.value] else []
  }

  predicate ValidNet(net: Net) {
    Valid(net.sender) && Valid(net.receiver)
  }

  function Next(net: Net, e: Event): (r: Net)
    requires ValidNet(net)
  {
    match e
    case SenderPolls(t) =>
      var o := Process(net.sender, Wrap32(t));
      net.(sender := o.chan, toReceiver := net.toReceiver + Sent(o.reply), clock := t,
           txDue := TxDue(net.sender, net.txDue, o, t))
    case ReceiverPolls(t) =>
      var o := Process(net.receiver, Wrap32(t));
      net.(receiver := o.chan, toSender := net.toSender + Sent(o.reply), clock := t)
    case ReceiverTakes(t) =>
      if net.toReceiver == [] then net.(clock := t)
      else
        Delivered(net, OnCanFrame(net.receiver, net.toReceiver[0], Wrap32(t)), t)
    case SenderTakes(t) =>
      if net.toSender == [] then net.(clock := t)
      else
        var o := OnCanFrame(net.sender, net.toSender[0], Wrap32(t));
        net.(sender := o.chan, toSender := net.toSender[1..],
             toReceiver := net.toReceiver + Sent(o.reply), clock := t,
             txDue := TxDue(net.sender, net.txDue, o, t))
  }

  /** The true time of the sender's deadline after outcome `o`: awaited permission, or pacing. */
  function TxDue(sender: Chan, due: nat, o: Outcome, t: nat): nat {
    if o.result !in {FrameReady, Ok, Wait} || o.chan == sender then due
    else if o.chan.tx.state == WaitFlowControl then t + sender.cfg.flowControlTimeout
    else if o.result == FrameReady then t + o.chan.tx.stMin
    else t
  }

  /** The receiver has taken the oldest frame with outcome `o`; its reply is on its way. */
  function Delivered(net: Net, o: Outcome, t: nat): (r: Net)
    requires net.toReceiver != []
  {
    net.(receiver := o.chan, toReceiver := net.toReceiver[1..],
         toSender := net.toSender + Sent(o.reply), clock := t,
         rxDue := t + net.receiver.cfg.consecutiveTimeout)
  }

  /** Time does not run backwards and both sides are served before their armed deadlines. */
  predicate Timely(net: Net, e: Event) {
    && net.clock <= e.t
    && (net.sender.tx.state == WaitFlowControl ==> e.t < net.txDue)
    && (net.receiver.rx.state == Receiving ==> e.t < net.rxDue)
  }

  // ---------------------------------------------------------------- lockstep

  /** The sender has sent `k` frames of the payload. */
  predicate SenderAt(net: Net, payload: seq<u8>, k: nat)
    requires 1 <= k <= FrameCount(|payload|)
  {
    var tx := net.sender.tx;
    var b := net.receiver.cfg.blockSize;
    && tx.length == |payload| <= |tx.buffer| && tx.buffer[..|payload|] == payload
    && tx.offset == Carried(|payload|, k)
    && (k == FrameCount(|payload|) <==> tx.state == TxComplete)
    && (k < FrameCount(|payload|) ==> TxActive(tx) && tx.nextSequence == k % 16)
    && (tx.state == SendConsecutive ==>
          && tx.blockRemaining == (if b == 0 then 0 else b - BlockPos(b, k))
          && DecodeStMin(net.receiver.cfg.stMin) == Some(tx.stMin)
          && tx.deadline == Wrap32(net.txDue)
          && net.txDue <= net.clock + tx.stMin
          && (b == 1 || k == 1 ==> net.txDue <= net.clock))
    && (tx.state == WaitFlowControl ==>
          && tx.deadline == Wrap32(net.txDue)
          && net.txDue <= net.clock + INT32_MAX)
  }

  /** The receiver has consumed `j` frames of the payload. */
  predicate ReceiverAt(net: Net, payload: seq<u8>, j: nat)
    requires j <= FrameCount(|payload|)
  {
    var rx := net.receiver.rx;
    var b := net.receiver.cfg.blockSize;
    if j == 0 then rx.state == RxIdle
    else
      && rx.length == |payload| && rx.offset == Carried(|payload|, j) <= |rx.buffer|
      && rx.buffer[..rx.offset] == payload[..rx.offset]
      && if j == FrameCount(|payload|) then rx.state == RxComplete
         else
           && rx.state == Receiving
           && rx.nextSequence == j % 16
           && rx.blockCount == (if b == 0 then 0 else BlockPos(b, j))
           && rx.deadline == Wrap32(net.rxDue)
           && net.rxDue <= net.clock + INT32_MAX
  }

  /** Both block counters agree: the receiver's permission is on its way iff it is awaited. */
  predicate FlowAt(net: Net, n: nat, k: nat, j: nat)
    requires 1 <= k && j <= k
  {
    var b := net.receiver.cfg.blockSize;
    && (forall m :: j < m < k ==> !Grant(b, n, m))
    && (net.sender.tx.state == WaitFlowControl ==> Grant(b, n, k))
    && (net.sender.tx.state == SendConsecutive && j < k ==> !Grant(b, n, k))
    && net.toSender == if net.sender.tx.state == WaitFlowControl && j == k
                       then [FlowControl(net.receiver.cfg, FLOW_CONTINUE)] else []
  }

  /** No armed deadline has passed, and the sender may go on before the receiver gives up. */
  predicate PaceAt(net: Net) {
    && (net.sender.tx.state == WaitFlowControl ==> net.clock < net.txDue)
    && (net.receiver.rx.state == Receiving ==> net.clock < net.rxDue)
    && (net.sender.tx.state == SendConsecutive && net.receiver.rx.state == Receiving ==>
          net.toReceiver != []
          || net.sender.tx.stMin >= net.receiver.cfg.consecutiveTimeout
          || net.txDue < net.rxDue)
  }

  predicate Lockstep(net: Net, payload: seq<u8>, k: nat, j: nat) {
    && ValidNet(net)
    && 0 < |payload| <= MAX_PAYLOAD && |payload| <= net.receiver.cfg.rxCapacity
    && 1 <= k <= FrameCount(|payload|) && j <= k
    && net.toReceiver == Frames(payload, j, k)
    && net.sender.rx.state != Receiving && !TxActive(net.receiver.tx)
    && SenderAt(net, payload, k) && ReceiverAt(net, payload, j)
    && FlowAt(net, FrameCount(|payload|), k, j)
    && PaceAt(net)
  }

  /** Fresh out of StartTransmit, with an idle receiver on the other side. */
  function Started(sender: Chan, receiver: Chan, payload: seq<u8>, t: nat): (net: Net)
    requires Valid(sender) && Valid(receiver)
    requires 0 < |payload| <= MAX_PAYLOAD
  {
    var o := StartTransmit(sender, payload, Wrap32(t));
    Net(o.chan, receiver, Sent(o.reply), [], t, t + sender.cfg.flowControlTimeout, 0)
  }

  /** Neither side is busy, and the payload fits both. */
  predicate Startable(sender: Chan, receiver: Chan, payload: seq<u8>) {
    && Valid(sender) && Valid(receiver)
    && !TxActive(sender.tx) && sender.rx.state != Receiving
    && receiver.rx.state == RxIdle && !TxActive(receiver.tx)
    && 0 < |payload| <= MAX_PAYLOAD
    && |payload| <= sender.cfg.txCapacity && |payload| <= receiver.cfg.rxCapacity
  }

  lemma StartIsInLockstep(sender: Chan, receiver: Chan, payload: seq<u8>, t: nat)
    requires Startable(sender, receiver, payload)
    ensures Lockstep(Started(sender, receiver, payload, t), payload, 1, 0)
  {
    AddIsWrapped(t, sender.cfg.flowControlTimeout);
    StartKeepsValid(sender, payload, Wrap32(t));
    var net := Started(sender, receiver, payload, t);
    assert net.toReceiver == Frames(payload, 0, 1);
  }

  // ---------------------------------------------------------------- one step

  lemma SenderPollsInLockstep(net: Net, payload: seq<u8>, k: nat, j: nat, t: nat)
    returns (k': nat)
    requires Lockstep(net, payload, k, j) && Timely(net, SenderPolls(t))
    ensures k <= k' <= k + 1
    ensures Lockstep(Next(net, SenderPolls(t)), payload, k', j)
    ensures k' == k ==> Next(net, SenderPolls(t)) == net.(clock := t)
    ensures k' == k + 1 <==>
              net.sender.tx.state == SendConsecutive && Reached(Wrap32(t), net.sender.tx.deadline)
  {
    var tx := net.sender.tx;
    if tx.state == SendConsecutive && Reached(Wrap32(t), tx.deadline) {
      k' := k + 1;
      NextFrame(net.sender, payload, k, Wrap32(t));
      SentInLockstep(net, Process(net.sender, Wrap32(t)), payload, k, j, t);
    } else {
      k' := k;
      if tx.state == WaitFlowControl {
        ReachedIsTrueOrder(t, net.txDue);
      }
      assert Next(net, SenderPolls(t)) == net.(clock := t);
    }
  }

  /** Nothing but the sender and the queue has changed, so the lockstep follows. */
  lemma SentInLockstep(net: Net, o: Outcome, payload: seq<u8>, k: nat, j: nat, t: nat)
    requires Lockstep(net, payload, k, j) && Timely(net, SenderPolls(t))
    requires net.sender.tx.state == SendConsecutive
    requires Valid(o.chan) && SentNext(net.sender, o, payload, k, Wrap32(t))
    ensures Lockstep(net.(sender := o.chan, toReceiver := net.toReceiver + Sent(o.reply),
                          clock := t, txDue := TxDue(net.sender, net.txDue, o, t)), payload, k + 1, j)
  {
    hide FrameAt, FrameCount, FlowControl, Frames, DecodeStMin, Carried, Wrap32, BlockPos, Valid, Add32;
    var net' := net.(sender := o.chan, toReceiver := net.toReceiver + Sent(o.reply),
                     clock := t, txDue := TxDue(net.sender, net.txDue, o, t));
    AddIsWrapped(t, net.sender.cfg.flowControlTimeout);
    AddIsWrapped(t, net.sender.tx.stMin);
    SenderTimeoutIs(net.sender);
    FramesExtended(payload, j, k);
    NextBlockPos(net.receiver.cfg.blockSize, k);
    assert o.chan != net.sender;
    assert SenderAt(net', payload, k + 1);
    assert ReceiverAt(net', payload, j);
    assert PaceAt(net');
  }

  lemma SenderTimeoutIs(c: Chan)
    requires Valid(c)
    ensures 0 < c.cfg.flowControlTimeout <= INT32_MAX
  {
  }

  lemma FramesExtended(payload: seq<u8>, j: nat, k: nat)
    requires 0 < |payload| <= MAX_PAYLOAD && j <= k < FrameCount(|payload|)
    ensures Frames(payload, j, k + 1) == Frames(payload, j, k) + [FrameAt(payload, k)]
  {
    hide FrameAt;
  }

  /** The outcome of a poll that sends frame `k`. */
  predicate SentNext(c: Chan, o: Outcome, payload: seq<u8>, k: nat, now: u32)
    requires 0 < |payload| <= MAX_PAYLOAD && k < FrameCount(|payload|)
  {
    var tx := o.chan.tx;
    && o.chan == c.(tx := tx)
    && o.result == FrameReady && o.reply == Some(FrameAt(payload, k))
    && tx.length == |payload| && tx.offset == Carried(|payload|, k + 1)
    && tx.offset > c.tx.offset
    && tx.buffer == c.tx.buffer
    && if k + 1 == FrameCount(|payload|) then tx.state == TxComplete
       else
         && tx.nextSequence == (k + 1) % 16
         && if c.tx.blockRemaining == 1 then
              tx.state == WaitFlowControl && tx.deadline == Add32(now, c.cfg.flowControlTimeout)
            else
              && tx.state == SendConsecutive && tx.stMin == c.tx.stMin
              && tx.deadline == Add32(now, tx.stMin)
              && tx.blockRemaining == if c.tx.blockRemaining == 0 then 0
                                      else c.tx.blockRemaining - 1
  }

  /** What a poll does to a sender that has sent `k` frames and may send the next. */
  lemma NextFrame(c: Chan, payload: seq<u8>, k: nat, now: u32)
    requires Valid(c) && c.rx.state != Receiving
    requires c.tx.state == SendConsecutive && Reached(now, c.tx.deadline)
    requires SINGLE_PAYLOAD < |payload| <= MAX_PAYLOAD && 0 < k < FrameCount(|payload|)
    requires c.tx.length == |payload| && c.tx.offset == Carried(|payload|, k)
    requires c.tx.nextSequence == k % 16 && c.tx.buffer[..|payload|] == payload
    ensures Valid(Process(c, now).chan)
    ensures SentNext(c, Process(c, now), payload, k, now)
  {
    hide Carried, FrameCount, Padded, Reached, Add32, ValidRx, ValidConfig;
    var n := |payload|;
    CarriedAll(n, k);
    CarriedAll(n, k + 1);
    NextNumber(k);
    ProcessKeepsValid(c, now);
    SliceOfPrefix(c.tx.buffer, payload, Carried(n, k), Carried(n, k + 1));
  }

  lemma SliceOfPrefix(buffer: seq<u8>, prefix: seq<u8>, from: nat, to: nat)
    requires |prefix| <= |buffer| && buffer[..|prefix|] == prefix && from <= to <= |prefix|
    ensures buffer[from..to] == prefix[from..to]
  {
    forall i | from <= i < to
      ensures buffer[i] == prefix[i]
    {
      assert buffer[..|prefix|][i] == buffer[i];
    }
  }

  lemma ReceiverPollsInLockstep(net: Net, payload: seq<u8>, k: nat, j: nat, t: nat)
    requires Lockstep(net, payload, k, j) && Timely(net, ReceiverPolls(t))
    ensures Next(net, ReceiverPolls(t)) == net.(clock := t)
    ensures Lockstep(net.(clock := t), payload, k, j)
  {
    if net.receiver.rx.state == Receiving {
      ReachedIsTrueOrder(t, net.rxDue);
    }
  }

  lemma SenderTakesInLockstep(net: Net, payload: seq<u8>, k: nat, j: nat, t: nat)
    requires Lockstep(net, payload, k, j) && Timely(net, SenderTakes(t))
    ensures Lockstep(Next(net, SenderTakes(t)), payload, k, j)
    ensures net.toSender == [] ==> Next(net, SenderTakes(t)) == net.(clock := t)
    ensures net.toSender != [] ==>
              net.sender.tx.state == WaitFlowControl
              && Next(net, SenderTakes(t)).sender.tx.state == SendConsecutive
  {
    if net.toSender != [] {
      ReachedIsTrueOrder(t, net.txDue);
      var f := net.toSender[0];
      FrameKeepsValid(net.sender, f, Wrap32(t));
      assert f.data[..3] == [0x30, net.receiver.cfg.blockSize, net.receiver.cfg.stMin];
      assert f.data[..3][0] == 0x30 && f.data[..3][1] == f.data[1] && f.data[..3][2] == f.data[2];
    }
  }

  lemma ReceiverTakesInLockstep(net: Net, payload: seq<u8>, k: nat, j: nat, t: nat)
    returns (j': nat)
    requires Lockstep(net, payload, k, j) && Timely(net, ReceiverTakes(t))
    ensures j' == (if net.toReceiver == [] then j else j + 1) <= k
    ensures Lockstep(Next(net, ReceiverTakes(t)), payload, k, j')
    ensures net.toReceiver == [] ==> Next(net, ReceiverTakes(t)) == net.(clock := t)
  {
    j' := j;
    if net.toReceiver != [] {
      j' := j + 1;
      assert net.toReceiver[0] == FrameAt(payload, j);
      if j > 0 {
        ReachedIsTrueOrder(t, net.rxDue);
      }
      FrameKeepsValid(net.receiver, FrameAt(payload, j), Wrap32(t));
      ExpectedFrame(net.receiver, payload, j, Wrap32(t));
      AcceptedInLockstep(net, OnCanFrame(net.receiver, FrameAt(payload, j), Wrap32(t)), payload, k, j, t);
    }
  }

  /** The receiver stands where `j` consumed frames have left it. */
  predicate Expects(c: Chan, payload: seq<u8>, j: nat)
    requires j < FrameCount(|payload|)
  {
    if j == 0 then c.rx.state == RxIdle
    else
      && c.rx.state == Receiving && c.rx.nextSequence == j % 16
      && c.rx.length == |payload| && c.rx.offset == Carried(|payload|, j) <= |c.rx.buffer|
      && c.rx.buffer[..c.rx.offset] == payload[..c.rx.offset]
  }

  /** The outcome of frame `j` at a receiver that expects it; `due`: a block ends with it. */
  predicate Accepted(c: Chan, o: Outcome, payload: seq<u8>, j: nat, now: u32) {
    var rx := o.chan.rx;
    var b := c.cfg.blockSize;
    var due := j == 0 || (b != 0 && c.rx.blockCount + 1 >= b);
    && o.chan == c.(rx := rx)
    && rx.length == |payload| && rx.offset == Carried(|payload|, j + 1) <= |rx.buffer|
    && rx.buffer[..rx.offset] == payload[..rx.offset]
    && if j + 1 == FrameCount(|payload|) then rx.state == RxComplete && o.reply == None
       else
         && rx.state == Receiving && rx.nextSequence == (j + 1) % 16
         && rx.blockCount == (if b == 0 || due then 0 else c.rx.blockCount + 1)
         && rx.deadline == Add32(now, c.cfg.consecutiveTimeout)
         && o.reply == if due then Some(FlowControl(c.cfg, FLOW_CONTINUE)) else None
  }

  /** Nothing but the receiver and the queues has changed, so the lockstep follows. */
  lemma AcceptedInLockstep(net: Net, o: Outcome, payload: seq<u8>, k: nat, j: nat, t: nat)
    requires Lockstep(net, payload, k, j) && j < k && Timely(net, ReceiverTakes(t))
    requires Valid(o.chan) && Accepted(net.receiver, o, payload, j, Wrap32(t))
    ensures Lockstep(Delivered(net, o, t), payload, k, j + 1)
  {
    hide FrameAt, FrameCount, FlowControl, Frames, DecodeStMin, Carried, Wrap32, BlockPos, Valid, Add32;
    var net' := Delivered(net, o, t);
    var b := net.receiver.cfg.blockSize;
    FramesTail(payload, j, k);
    AddIsWrapped(t, net.receiver.cfg.consecutiveTimeout);
    TimeoutIs(net.receiver);
    if j > 0 {
      NextBlockPos(b, j);
    }
    FirstBlockPos(b);
    assert o.reply.Some? <==> Grant(b, FrameCount(|payload|), j + 1);
    assert SenderAt(net', payload, k);
    assert ReceiverAt(net', payload, j + 1);
    assert PaceAt(net');
  }

  lemma TimeoutIs(c: Chan)
    requires Valid(c)
    ensures 0 < c.cfg.consecutiveTimeout <= INT32_MAX
  {
  }

  lemma FramesTail(payload: seq<u8>, j: nat, k: nat)
    requires 0 < |payload| <= MAX_PAYLOAD && j < k <= FrameCount(|payload|)
    ensures Frames(payload, j, k) != [] && Frames(payload, j, k)[1..] == Frames(payload, j + 1, k)
  {
  }

  lemma FirstBlockPos(b: u8)
    ensures BlockPos(b, 1) == 0
  {
  }

  lemma NextBlockPos(b: u8, m: nat)
    requires m >= 1
    ensures BlockPos(b, m + 1) == if b != 0 && BlockPos(b, m) + 1 >= b then 0 else BlockPos(b, m) + 1
  {
  }

  lemma ExpectedFrame(c: Chan, payload: seq<u8>, j: nat, now: u32)
    requires Valid(c) && (j > 0 ==> !Reached(now, c.rx.deadline))
    requires 0 < |payload| <= MAX_PAYLOAD && |payload| <= c.cfg.rxCapacity
    requires j < FrameCount(|payload|) && Expects(c, payload, j)
    ensures Accepted(c, OnCanFrame(c, FrameAt(payload, j), now), payload, j, now)
  {
    if j == 0 {
      OpeningFrame(c, payload, now);
    } else {
      MiddleFrame(c, payload, j, now);
    }
  }

  /** What the single or first frame does to an idle receiver. */
  lemma OpeningFrame(c: Chan, payload: seq<u8>, now: u32)
    requires Valid(c) && c.rx.state == RxIdle
    requires 0 < |payload| <= MAX_PAYLOAD && |payload| <= c.cfg.rxCapacity
    ensures Accepted(c, OnCanFrame(c, FrameAt(payload, 0), now), payload, 0, now)
  {
    var n := |payload|;
    var f := FrameAt(payload, 0);
    if n <= SINGLE_PAYLOAD {
      assert f.data[..1 + n] == [n] + payload;
      assert f.data[1..1 + n] == f.data[..1 + n][1..] == payload;
    } else {
      assert f.data[..8] == [0x10 + n / 0x100, n % 0x100] + payload[..FIRST_PAYLOAD];
      assert f.data[2..] == f.data[..8][2..] == payload[..FIRST_PAYLOAD];
      assert f.data[0] == f.data[..8][0] && f.data[1] == f.data[..8][1];
    }
  }

  /** What consecutive frame `j` does to a receiver that expects it. */
  lemma MiddleFrame(c: Chan, payload: seq<u8>, j: nat, now: u32)
    requires Valid(c) && 0 < |payload| <= MAX_PAYLOAD && |payload| <= c.cfg.rxCapacity
    requires 0 < j < FrameCount(|payload|)
    requires Expects(c, payload, j) && !Reached(now, c.rx.deadline)
    ensures Accepted(c, OnCanFrame(c, FrameAt(payload, j), now), payload, j, now)
  {
    hide FrameAt, FrameCount, Carried, OnCanFrame, Valid, Reached, Add32;
    var f := FrameAt(payload, j);
    var from, to := Carried(|payload|, j), Carried(|payload|, j + 1);
    CarriedAll(|payload|, j);
    CarriedAll(|payload|, j + 1);
    ConsecutiveFrame(payload, j);
    Dispatched(c, f, now);
    NextNumber(j);
    CapacityIs(c);
    var rx := ReceiveConsecutive(c, f, now).chan.rx;
    assert rx.buffer[..to] == rx.buffer[..from] + rx.buffer[from..to];
    assert payload[..to] == payload[..from] + payload[from..to];
  }

  lemma CapacityIs(c: Chan)
    requires Valid(c) && c.rx.state == Receiving
    ensures |c.rx.buffer| == c.cfg.rxCapacity && (c.cfg.blockSize == 0 ==> c.rx.blockCount == 0)
  {
  }

  // ---------------------------------------------------------------- whole runs

  predicate TimelyRun(net: Net, run: seq<Event>)
    decreases |run|
  {
    && ValidNet(net)
    && (run != [] ==> Timely(net, run[0]) && TimelyRun(Next(net, run[0]), run[1..]))
  }

  function RunTo(net: Net, run: seq<Event>): (r: Net)
    requires TimelyRun(net, run)
    ensures ValidNet(r)
    decreases |run|
  {
    if run == [] then net else RunTo(Next(net, run[0]), run[1..])
  }

  /** The event does more than let time pass. */
  predicate Effective(net: Net, e: Event)
    requires ValidNet(net)
  {
    Next(net, e) != net.(clock := e.t)
  }

  function Effects(net: Net, run: seq<Event>): (n: nat)
    requires TimelyRun(net, run)
    decreases |run|
  {
    if run == [] then 0
    else (if Effective(net, run[0]) then 1 else 0) + Effects(Next(net, run[0]), run[1..])
  }

  /** Frames still to send and to take, and permissions still to come. */
  function Work(net: Net, n: nat, k: nat, j: nat): int {
    3 * (n - k) + (n - j) + if net.sender.tx.state == WaitFlowControl then 1 else 0
  }

  lemma StepInLockstep(net: Net, payload: seq<u8>, k: nat, j: nat, e: Event)
    returns (k': nat, j': nat)
    requires Lockstep(net, payload, k, j) && Timely(net, e)
    ensures Lockstep(Next(net, e), payload, k', j')
    ensures Work(Next(net, e), FrameCount(|payload|), k', j')
         <= Work(net, FrameCount(|payload|), k, j) - if Effective(net, e) then 1 else 0
  {
    k', j' := k, j;
    match e {
      case SenderPolls(t) => k' := SenderPollsInLockstep(net, payload, k, j, t);
      case ReceiverPolls(t) => ReceiverPollsInLockstep(net, payload, k, j, t);
      case ReceiverTakes(t) => j' := ReceiverTakesInLockstep(net, payload, k, j, t);
      case SenderTakes(t) => SenderTakesInLockstep(net, payload, k, j, t);
    }
  }

  lemma {:induction false} RunInLockstep(net: Net, payload: seq<u8>, k: nat, j: nat, run: seq<Event>)
    returns (k': nat, j': nat)
    requires Lockstep(net, payload, k, j) && TimelyRun(net, run)
    ensures Lockstep(RunTo(net, run), payload, k', j')
    ensures Work(RunTo(net, run), FrameCount(|payload|), k', j')
         <= Work(net, FrameCount(|payload|), k, j) - Effects(net, run)
    decreases |run|
  {
    k', j' := k, j;
    if run != [] {
      var k1, j1 := StepInLockstep(net, payload, k, j, run[0]);
      k', j' := RunInLockstep(Next(net, run[0]), payload, k1, j1, run[1..]);
    }
  }

  /** Both sides are complete and the receiver holds exactly the payload. */
  predicate Transferred(net: Net, payload: seq<u8>) {
    && net.sender.tx.state == TxComplete
    && net.receiver.rx.state == RxComplete
    && net.receiver.rx.length == |payload| <= |net.receiver.rx.buffer|
    && net.receiver.rx.buffer[..net.receiver.rx.length] == payload
  }

  /** Nothing is in flight and the sender has no frame to send of its own accord. */
  predicate Quiet(net: Net) {
    net.toReceiver == [] && net.toSender == [] && net.sender.tx.state != SendConsecutive
  }

  /**
   * The receiver waits longer than the pace it asks for, or never paces the sender: with block
   * size 1 or at most two frames every frame follows a permission, which allows it at once.
   */
  predicate Feasible(cfg: Config, n: nat)
    requires ValidConfig(cfg)
  {
    var encoded: nat := cfg.stMin;
    var microseconds := if encoded <= 0x7F then 1000 * encoded else 100 * (encoded - 0xF0);
    microseconds < cfg.consecutiveTimeout || cfg.blockSize == 1 || n <= 2
  }

  /** A sender that may go on has been polled within the 2^31 microseconds it can tell apart. */
  predicate Polled(net: Net) {
    net.sender.tx.state == SendConsecutive ==> net.clock < net.txDue + TWO_31
  }

  /** No event that is in time would change anything. */
  ghost predicate Stuck(net: Net)
    requires ValidNet(net)
  {
    forall e :: Timely(net, e) ==> !Effective(net, e)
  }

  /** Unless the transfer is finished, some event that is in time takes it further. */
  lemma LockstepIsNeverStuck(net: Net, payload: seq<u8>, k: nat, j: nat)
    returns (e: Event)
    requires Lockstep(net, payload, k, j) && !Transferred(net, payload)
    requires Polled(net) && Feasible(net.receiver.cfg, FrameCount(|payload|))
    ensures Timely(net, e) && Effective(net, e)
  {
    if net.toReceiver != [] {
      e := ReceiverTakes(net.clock);
    } else if net.toSender != [] {
      e := SenderTakes(net.clock);
      SenderTakesInLockstep(net, payload, k, j, net.clock);
    } else {
      var t := if net.clock < net.txDue then net.txDue else net.clock;
      e := SenderPolls(t);
      ReachedIsTrueOrder(t, net.txDue);
      var k' := SenderPollsInLockstep(net, payload, k, j, t);
    }
  }

  /**
   * Every timely run of a transfer does at most 4n effective steps; wherever it stops, a
   * flow-control frame is in flight exactly if the sender waits for it and everything sent has
   * arrived; and if it stops with nothing in flight and nothing to send, the payload has been
   * delivered. If the configuration is feasible, that is the only way to stop.
   */
  lemma TimelyTransferDelivers(sender: Chan, receiver: Chan, payload: seq<u8>, t: nat, run: seq<Event>)
    requires Startable(sender, receiver, payload)
    requires TimelyRun(Started(sender, receiver, payload, t), run)
    ensures var first := Started(sender, receiver, payload, t);
            var last := RunTo(first, run);
            && ValidNet(last)
            && Effects(first, run) <= 4 * FrameCount(|payload|)
            && |last.toSender| <= 1
            && (last.toSender != [] <==>
                  last.sender.tx.state == WaitFlowControl && last.toReceiver == [])
            && (Quiet(last) ==> Transferred(last, payload))
            && (Feasible(receiver.cfg, FrameCount(|payload|)) && Polled(last) && Stuck(last) ==>
                  Transferred(last, payload))
  {
    var first := Started(sender, receiver, payload, t);
    StartIsInLockstep(sender, receiver, payload, t);
    var k, j := RunInLockstep(first, payload, 1, 0, run);
    RunKeepsConfig(first, run);
    var last := RunTo(first, run);
    if Feasible(receiver.cfg, FrameCount(|payload|)) && Polled(last) && Stuck(last) && !Transferred(last, payload) {
      var e := LockstepIsNeverStuck(last, payload, k, j);
    }
  }

  lemma {:induction false} RunKeepsConfig(net: Net, run: seq<Event>)
    requires TimelyRun(net, run)
    ensures RunTo(net, run).receiver.cfg == net.receiver.cfg
    decreases |run|
  {
    if run != [] {
      StepKeepsConfig(net, run[0]);
      RunKeepsConfig(Next(net, run[0]), run[1..]);
    }
  }

  lemma StepKeepsConfig(net: Net, e: Event)
    requires ValidNet(net)
    ensures Next(net, e).receiver.cfg == net.receiver.cfg
  {
    hide OnCanFrame, Process, Valid;
    match e {
      case ReceiverPolls(t) => ProcessKeepsValid(net.receiver, Wrap32(t));
      case ReceiverTakes(t) =>
        if net.toReceiver != [] {
          FrameKeepsValid(net.receiver, net.toReceiver[0], Wrap32(t));
        }
      case _ =>
    }
  }

  /**
   * Otherwise the first paced frame cannot come in time: after the first two frames the sender has
   * to wait for longer than the receiver does.
   */
  lemma SlowSenderIsStuck(sender: Chan, receiver: Chan, payload: seq<u8>, t: nat)
    returns (run: seq<Event>)
    requires Startable(sender, receiver, payload)
    requires !Feasible(receiver.cfg, FrameCount(|payload|))
    ensures TimelyRun(Started(sender, receiver, payload, t), run)
    ensures var last := RunTo(Started(sender, receiver, payload, t), run);
            Polled(last) && Stuck(last) && !Transferred(last, payload)
  {
    hide Lockstep;
    var n0 := Started(sender, receiver, payload, t);
    StartIsInLockstep(sender, receiver, payload, t);
    var n1 := FirstFrameTaken(n0, payload, t);
    var n2 := PermissionTaken(n1, payload, t);
    var n3 := SecondFrameSent(n2, payload, t);
    var n4 := SecondFrameTaken(n3, payload, t);
    NothingInTime(n4, payload, t);
    run := [ReceiverTakes(t), SenderTakes(t), SenderPolls(t), ReceiverTakes(t)];
    FourSteps(n0, run, n1, n2, n3, n4);
  }

  lemma FourSteps(net: Net, run: seq<Event>, n1: Net, n2: Net, n3: Net, n4: Net)
    requires |run| == 4 && ValidNet(net) && ValidNet(n1) && ValidNet(n2) && ValidNet(n3) && ValidNet(n4)
    requires Timely(net, run[0]) && n1 == Next(net, run[0])
    requires Timely(n1, run[1]) && n2 == Next(n1, run[1])
    requires Timely(n2, run[2]) && n3 == Next(n2, run[2])
    requires Timely(n3, run[3]) && n4 == Next(n3, run[3])
    ensures TimelyRun(net, run) && RunTo(net, run) == n4
  {
    hide Next, Timely, ValidNet;
    assert run[1..][0] == run[1] && run[1..][1..] == run[2..];
    assert run[2..][0] == run[2] && run[2..][1..] == run[3..];
    assert run[3..][0] == run[3] && run[3..][1..] == [];
    assert TimelyRun(n4, []) && RunTo(n4, []) == n4;
    assert TimelyRun(n3, run[3..]) && RunTo(n3, run[3..]) == n4;
    assert TimelyRun(n2, run[2..]) && RunTo(n2, run[2..]) == n4;
    assert TimelyRun(n1, run[1..]) && RunTo(n1, run[1..]) == n4;
  }

  /** The configuration asks for a pace beyond its own timeout, and the payload is long enough. */
  predicate Slow(net: Net, payload: seq<u8>, t: nat) {
    && ValidNet(net) && net.clock == t
    && !Feasible(net.receiver.cfg, FrameCount(|payload|))
  }

  lemma FirstFrameTaken(net: Net, payload: seq<u8>, t: nat) returns (next: Net)
    requires Slow(net, payload, t) && Lockstep(net, payload, 1, 0)
    ensures Timely(net, ReceiverTakes(t)) && next == Next(net, ReceiverTakes(t))
    ensures Slow(next, payload, t) && Lockstep(next, payload, 1, 1)
    ensures next.sender.tx.state == WaitFlowControl
  {
    hide OnCanFrame;
    next := Next(net, ReceiverTakes(t));
    StepKeepsConfig(net, ReceiverTakes(t));
    var j := ReceiverTakesInLockstep(net, payload, 1, 0, t);
  }

  lemma PermissionTaken(net: Net, payload: seq<u8>, t: nat) returns (next: Net)
    requires Slow(net, payload, t) && Lockstep(net, payload, 1, 1)
    requires net.sender.tx.state == WaitFlowControl
    ensures Timely(net, SenderTakes(t)) && next == Next(net, SenderTakes(t))
    ensures Slow(next, payload, t) && Lockstep(next, payload, 1, 1)
    ensures next.sender.tx.state == SendConsecutive && next.txDue == t
  {
    hide OnCanFrame;
    next := Next(net, SenderTakes(t));
    SenderTakesInLockstep(net, payload, 1, 1, t);
  }

  lemma SecondFrameSent(net: Net, payload: seq<u8>, t: nat) returns (next: Net)
    requires Slow(net, payload, t) && Lockstep(net, payload, 1, 1)
    requires net.sender.tx.state == SendConsecutive && net.txDue == t
    ensures Timely(net, SenderPolls(t)) && next == Next(net, SenderPolls(t))
    ensures Slow(next, payload, t) && Lockstep(next, payload, 2, 1)
    ensures next.sender.tx.state == SendConsecutive && next.txDue == t + next.sender.tx.stMin
  {
    next := Next(net, SenderPolls(t));
    ReachedIsTrueOrder(t, net.txDue);
    var k := SenderPollsInLockstep(net, payload, 1, 1, t);
    SecondIsNoBlockEnd(net.receiver.cfg.blockSize, FrameCount(|payload|));
    NextFrame(net.sender, payload, 1, Wrap32(t));
    hide Process, Reached, Wrap32;
  }

  lemma SecondFrameTaken(net: Net, payload: seq<u8>, t: nat) returns (next: Net)
    requires Slow(net, payload, t) && Lockstep(net, payload, 2, 1)
    requires net.sender.tx.state == SendConsecutive && net.txDue == t + net.sender.tx.stMin
    ensures Timely(net, ReceiverTakes(t)) && next == Next(net, ReceiverTakes(t))
    ensures Slow(next, payload, t) && Lockstep(next, payload, 2, 2)
    ensures next.sender == net.sender && next.txDue == net.txDue
    ensures next.rxDue == t + next.receiver.cfg.consecutiveTimeout
  {
    hide OnCanFrame;
    next := Next(net, ReceiverTakes(t));
    StepKeepsConfig(net, ReceiverTakes(t));
    var j := ReceiverTakesInLockstep(net, payload, 2, 1, t);
  }

  lemma SecondIsNoBlockEnd(b: u8, n: nat)
    requires b != 1
    ensures BlockPos(b, 1) == 0 && BlockPos(b, 2) == 1 && !Grant(b, n, 2)
  {
  }

  /** The receiver gives up before the sender may go on, and nothing is in flight. */
  lemma NothingInTime(net: Net, payload: seq<u8>, t: nat)
    requires Slow(net, payload, t) && Lockstep(net, payload, 2, 2)
    requires net.sender.tx.state == SendConsecutive && net.txDue == t + net.sender.tx.stMin
    requires net.rxDue == t + net.receiver.cfg.consecutiveTimeout
    ensures Polled(net) && Stuck(net) && !Transferred(net, payload)
  {
    forall e | Timely(net, e)
      ensures !Effective(net, e)
    {
      match e {
        case SenderPolls(at) =>
          ReachedIsTrueOrder(at, net.txDue);
          var k := SenderPollsInLockstep(net, payload, 2, 2, at);
        case ReceiverPolls(at) => ReceiverPollsInLockstep(net, payload, 2, 2, at);
        case ReceiverTakes(at) => var j := ReceiverTakesInLockstep(net, payload, 2, 2, at);
        case SenderTakes(at) => SenderTakesInLockstep(net, payload, 2, 2, at);
      }
    }
  }

  /** Every timely run that can go no further has delivered the payload. */
  ghost predicate AlwaysDelivers(net: Net, payload: seq<u8>) {
    forall run :: TimelyRun(net, run) && Polled(RunTo(net, run)) && Stuck(RunTo(net, run)) ==>
      Transferred(RunTo(net, run), payload)
  }

  /** Delivery depends on the configuration alone: it is certain exactly if that is feasible. */
  lemma DeliveryIsExact(sender: Chan, receiver: Chan, payload: seq<u8>, t: nat)
    requires Startable(sender, receiver, payload)
    ensures AlwaysDelivers(Started(sender, receiver, payload, t), payload)
            <==> Feasible(receiver.cfg, FrameCount(|payload|))
  {
    hide Stuck, Feasible, Polled, Transferred, TimelyRun, RunTo, StartTransmit, ValidRx, ValidTx;
    var first := Started(sender, receiver, payload, t);
    if Feasible(receiver.cfg, FrameCount(|payload|)) {
      forall run | TimelyRun(first, run) && Polled(RunTo(first, run)) && Stuck(RunTo(first, run))
        ensures Transferred(RunTo(first, run), payload)
      {
        TimelyTransferDelivers(sender, receiver, payload, t, run);
      }
    } else {
      var run := SlowSenderIsStuck(sender, receiver, payload, t);
    }
  }

  // ---------------------------------------------------------------- lost frames

  /** What a receiver gets to see of a transfer: some of its frames, and polls, at any times. */
  datatype Sight = Sees(i: nat, at: u32) | Idles(at: u32)

  function Indices(sights: seq<Sight>): (s: set<nat>) {
    set x | x in sights && x.Sees? :: x.i
  }

  /** One more than the last index seen. */
  function SeenUpTo(sights: seq<Sight>): (n: nat) {
    if sights == [] then 0
    else
      var last := sights[|sights| - 1];
      if last.Sees? then last.i + 1 else SeenUpTo(sights[..|sights| - 1])
  }

  /** Frames may be lost anywhere, but those that arrive keep their order. */
  predicate InOrder(payload: seq<u8>, sights: seq<Sight>) {
    sights == [] ||
    var last := sights[|sights| - 1];
    var before := sights[..|sights| - 1];
    && InOrder(payload, before)
    && (last.Sees? ==> SeenUpTo(before) <= last.i < FrameCount(|payload|))
  }

  function Watch(c: Chan, payload: seq<u8>, sights: seq<Sight>): (r: Chan)
    requires Valid(c) && 0 < |payload| <= MAX_PAYLOAD && InOrder(payload, sights)
    ensures Valid(r) && r.cfg == c.cfg
  {
    if sights == [] then c
    else
      var before := Watch(c, payload, sights[..|sights| - 1]);
      match sights[|sights| - 1]
      case Sees(i, at) =>
        FrameKeepsValid(before, FrameAt(payload, i), at);
        OnCanFrame(before, FrameAt(payload, i), at).chan
      case Idles(at) =>
        ProcessKeepsValid(before, at);
        Process(before, at).chan
  }

  /** The receiver has accepted `m` frames, no more than have passed; if all, it has them all. */
  predicate Caught(c: Chan, payload: seq<u8>, seen: nat, indices: set<nat>, m: nat)
    requires seen <= FrameCount(|payload|)
  {
    var rx := c.rx;
    && (rx.state == RxIdle ==> m == 0)
    && (rx.state != RxIdle ==>
          && 1 <= m <= seen
          && rx.length == |payload| && rx.offset == Carried(|payload|, m) <= |rx.buffer|
          && (rx.state == RxComplete <==> m == FrameCount(|payload|))
          && (rx.state == Receiving ==> rx.nextSequence == m % 16)
          && (m == seen ==>
                && rx.buffer[..rx.offset] == payload[..rx.offset]
                && forall i :: 0 <= i < m ==> i in indices))
  }

  /** A consecutive frame after a gap ends the reception or is mistaken for the lost one. */
  lemma FrameAfterGap(c: Chan, payload: seq<u8>, m: nat, i: nat, at: u32)
    requires Valid(c) && 0 < |payload| <= MAX_PAYLOAD
    requires 0 < m < i < FrameCount(|payload|)
    requires c.rx.state == Receiving
    requires c.rx.length == |payload| && c.rx.offset == Carried(|payload|, m)
    requires c.rx.nextSequence == m % 16
    ensures var rx := OnCanFrame(c, FrameAt(payload, i), at).chan.rx;
            rx.state != RxIdle ==>
              && rx.state == Receiving && rx.length == |payload|
              && rx.offset == Carried(|payload|, m + 1)
              && rx.nextSequence == (m + 1) % 16
  {
    hide FrameAt, FrameCount, Carried, OnCanFrame, ReceiveConsecutive, Valid;
    CarriedAll(|payload|, m);
    CarriedAll(|payload|, m + 1);
    var f := FrameAt(payload, i);
    ConsecutiveFrame(payload, i);
    Dispatched(c, f, at);
    NextNumber(m);
    FullConsecutive(c, f, at);
  }

  lemma FullConsecutive(c: Chan, f: Frame, now: u32)
    requires Valid(c) && c.rx.state == Receiving && f.dlc == FRAME_SIZE
    ensures var rx := ReceiveConsecutive(c, f, now).chan.rx;
            rx.state == RxIdle
            || (&& rx.length == c.rx.length
                && rx.offset == Min(c.rx.length, c.rx.offset + CONSECUTIVE_PAYLOAD)
                && rx.nextSequence == (c.rx.nextSequence + 1) % 16
                && (rx.state == Receiving <==> rx.offset < rx.length))
  {
  }

  /** Any frame but the expected one leaves a receiver that still lacks something. */
  lemma StrayFrame(c: Chan, payload: seq<u8>, seen: nat, indices: set<nat>, m: nat, i: nat, at: u32)
    returns (m': nat)
    requires Valid(c) && 0 < |payload| <= MAX_PAYLOAD && |payload| <= c.cfg.rxCapacity
    requires 0 < i < FrameCount(|payload|) && seen <= i
    requires Caught(c, payload, seen, indices, m)
    requires !(c.rx.state == Receiving && m == i)
    ensures Caught(OnCanFrame(c, FrameAt(payload, i), at).chan, payload, i + 1, indices + {i}, m')
  {
    var f := FrameAt(payload, i);
    assert f.data[0] == 0x20 + i % 16;
    if c.rx.state == Receiving {
      FrameAfterGap(c, payload, m, i, at);
      FrameKeepsValid(c, f, at);
      m' := if OnCanFrame(c, f, at).chan.rx.state == RxIdle then 0 else m + 1;
      hide OnCanFrame, FrameAt;
    } else {
      assert OnCanFrame(c, f, at).chan == c;
      m' := m;
    }
  }

  lemma {:induction false} WatchCatches(c: Chan, payload: seq<u8>, sights: seq<Sight>)
    returns (m: nat)
    requires Valid(c) && c.rx.state == RxIdle
    requires 0 < |payload| <= MAX_PAYLOAD && |payload| <= c.cfg.rxCapacity
    requires InOrder(payload, sights)
    ensures SeenUpTo(sights) <= FrameCount(|payload|)
    ensures Caught(Watch(c, payload, sights), payload, SeenUpTo(sights), Indices(sights), m)
  {
    m := 0;
    if sights != [] {
      var before := sights[..|sights| - 1];
      var last := sights[|sights| - 1];
      assert sights == before + [last];
      m := WatchCatches(c, payload, before);
      var was := Watch(c, payload, before);
      match last {
        case Idles(at) =>
          assert Indices(sights) == Indices(before);
          ProcessKeepsValid(was, at);
          if Process(was, at).chan.rx != was.rx { m := 0; }
        case Sees(i, at) =>
          assert Indices(sights) == Indices(before) + {i};
          m := SightCatches(was, payload, SeenUpTo(before), Indices(before), m, i, at);
      }
    }
  }

  lemma SightCatches(c: Chan, payload: seq<u8>, seen: nat, indices: set<nat>, m: nat, i: nat, at: u32)
    returns (m': nat)
    requires Valid(c) && 0 < |payload| <= MAX_PAYLOAD && |payload| <= c.cfg.rxCapacity
    requires seen <= i < FrameCount(|payload|)
    requires Caught(c, payload, seen, indices, m)
    ensures Caught(OnCanFrame(c, FrameAt(payload, i), at).chan, payload, i + 1, indices + {i}, m')
  {
    hide FrameAt, Valid, ReceiveSingle, ReceiveFirst, ReceiveFlowControl, Carried, FrameCount;
    if i == 0 {
      OpeningFrame(c, payload, at);
      m' := 1;
    } else if c.rx.state == Receiving && m == i {
      ConsecutiveFrame(payload, i);
      if Reached(at, c.rx.deadline) {
        Dispatched(c, FrameAt(payload, i), at);
        m' := 0;
      } else {
        MiddleFrame(c, payload, i, at);
        CarriedAll(|payload|, i + 1);
        m' := i + 1;
      }
    } else {
      m' := StrayFrame(c, payload, seen, indices, m, i, at);
    }
  }

  /**
   * However many frames of a transfer are lost and whenever the others arrive: if the receiver
   * completes, nothing was lost and the message is the payload.
   */
  lemma LossNeverCompletes(c: Chan, payload: seq<u8>, sights: seq<Sight>)
    requires Valid(c) && c.rx.state == RxIdle
    requires 0 < |payload| <= MAX_PAYLOAD && |payload| <= c.cfg.rxCapacity
    requires InOrder(payload, sights)
    ensures var rx := Watch(c, payload, sights).rx;
            rx.state == RxComplete ==>
              && (forall i :: 0 <= i < FrameCount(|payload|) ==> i in Indices(sights))
              && rx.length == |payload| && rx.buffer[..rx.length] == payload
  {
    var m := WatchCatches(c, payload, sights);
    CarriedAll(|payload|, FrameCount(|payload|));
  }
}
