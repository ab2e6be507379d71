/**
 * The ISO-TP channel as a state machine on values: both halves of a channel, and for every
 * entry point the channel it leaves, the result code and the frame it hands back, if any.
 * Class Channel (IsoTpChannel.dfy) is the imperative form and is proved equal to this one.
 */
module IsoTp {
  import opened Machine

  const FRAME_SIZE := 8
  const MAX_PAYLOAD := 4095
  const SINGLE_PAYLOAD := 7
  const FIRST_PAYLOAD := 6
  const CONSECUTIVE_PAYLOAD := 7

  const PCI_SINGLE := 0
  const PCI_FIRST := 1
  const PCI_CONSECUTIVE := 2
  const PCI_FLOW_CONTROL := 3

  const FLOW_CONTINUE := 0
  const FLOW_WAIT := 1
  const FLOW_OVERFLOW := 2

  datatype CanFrame = CanFrame(data: seq<u8>, dlc: u8)

  /** Eight data bytes, of which `dlc` were on the wire. */
  type Frame = f: CanFrame | |f.data| == FRAME_SIZE witness CanFrame([0, 0, 0, 0, 0, 0, 0, 0], 8)

  datatype Result =
    | Ok | FrameReady | MessageReady | Wait
    | InvalidArgument | InvalidFrame | PayloadTooLarge | ReceiveOverflow | RemoteOverflow
    | Busy | UnexpectedFrame | SequenceError | Timeout | WaitLimit

  datatype RxState = RxIdle | Receiving | RxComplete
  datatype TxState = TxIdle | WaitFlowControl | SendConsecutive | TxComplete

  datatype Config = Config(
    rxCapacity: u16, txCapacity: u16,
    flowControlTimeout: u32, consecutiveTimeout: u32,
    blockSize: u8, stMin: u8, maxWait: u8)

  datatype Rx = Rx(state: RxState, length: nat, offset: nat, deadline: u32,
                   nextSequence: nat, blockCount: nat, buffer: seq<u8>)
  datatype Tx = Tx(state: TxState, length: nat, offset: nat, deadline: u32, stMin: u32,
                   nextSequence: nat, blockRemaining: nat, waitCount: nat, buffer: seq<u8>)
  datatype Chan = Chan(cfg: Config, rx: Rx, tx: Tx)

  datatype Outcome = Outcome(chan: Chan, result: Result, reply: Option<Frame>)

  // ---------------------------------------------------------------- validity

  /** What IsoTp_Init demands of a configuration. */
  predicate ValidConfig(cfg: Config) {
    && cfg.rxCapacity != 0 && cfg.txCapacity != 0
    && 0 < cfg.flowControlTimeout <= INT32_MAX
    && 0 < cfg.consecutiveTimeout <= INT32_MAX
    && DecodeStMin(cfg.stMin).Some?
  }

  /**
   * The receiver is inside its buffer, and its offset and next sequence number are those of
   * the number of frames it has accepted.
   */
  predicate ValidRx(cfg: Config, rx: Rx) {
    && |rx.buffer| == cfg.rxCapacity
    && match rx.state
       case RxIdle => rx.length == rx.offset == 0
       case Receiving =>
         && FIRST_PAYLOAD <= rx.offset < rx.length <= cfg.rxCapacity
         && SINGLE_PAYLOAD < rx.length <= MAX_PAYLOAD
         && (rx.offset - FIRST_PAYLOAD) % CONSECUTIVE_PAYLOAD == 0
         && rx.nextSequence == ((rx.offset - FIRST_PAYLOAD) / CONSECUTIVE_PAYLOAD + 1) % 16
         && (cfg.blockSize == 0 ==> rx.blockCount == 0)
         && (cfg.blockSize != 0 ==> rx.blockCount < cfg.blockSize)
       case RxComplete => 0 < rx.length == rx.offset <= cfg.rxCapacity && rx.length <= MAX_PAYLOAD
  }

  predicate TxActive(tx: Tx) {
    tx.state == WaitFlowControl || tx.state == SendConsecutive
  }

  predicate ValidTx(cfg: Config, tx: Tx) {
    && |tx.buffer| == cfg.txCapacity
    && tx.nextSequence < 16
    && tx.blockRemaining < 0x100 && tx.waitCount <= cfg.maxWait
    && (TxActive(tx) ==>
          && FIRST_PAYLOAD <= tx.offset < tx.length <= cfg.txCapacity
          && SINGLE_PAYLOAD < tx.length <= MAX_PAYLOAD)
  }

  predicate Valid(c: Chan) {
    ValidConfig(c.cfg) && ValidRx(c.cfg, c.rx) && ValidTx(c.cfg, c.tx)
  }

  // ---------------------------------------------------------------- helpers

  function Min(a: int, b: int): int { if a <= b then a else b }

  function Zeros(n: nat): (r: seq<u8>)
    ensures |r| == n && forall i :: 0 <= i < n ==> r[i] == 0
  {
    seq(n, i => 0)
  }

  /** A zero-padded eight-byte frame carrying `bytes`. */
  function Padded(bytes: seq<u8>): (f: Frame)
    requires |bytes| <= FRAME_SIZE
    ensures f.dlc == FRAME_SIZE && f.data[..|bytes|] == bytes
  {
    CanFrame(bytes + Zeros(FRAME_SIZE - |bytes|), FRAME_SIZE)
  }

  function Splice(buffer: seq<u8>, at: nat, bytes: seq<u8>): (r: seq<u8>)
    requires at + |bytes| <= |buffer|
    ensures |r| == |buffer|
    ensures r[..at] == buffer[..at] && r[at..at + |bytes|] == bytes
  {
    buffer[..at] + bytes + buffer[at + |bytes|..]
  }

  function DecodeStMin(encoded: u8): (us: Option<u32>) {
    if encoded <= 0x7F then Some(encoded * 1000)
    else if 0xF1 <= encoded <= 0xF9 then Some((encoded - 0xF0) * 100)
    else None
  }

  function IdleRx(buffer: seq<u8>): Rx {
    Rx(RxIdle, 0, 0, 0, 0, 0, buffer)
  }

  function IdleTx(buffer: seq<u8>): Tx {
    Tx(TxIdle, 0, 0, 0, 0, 0, 0, 0, buffer)
  }

  /** Continue carries the block size and STmin; the overflow reply carries zeros. */
  function FlowControl(cfg: Config, status: nat): (f: Frame)
    requires status <= FLOW_OVERFLOW
  {
    if status == FLOW_CONTINUE then Padded([0x30, cfg.blockSize, cfg.stMin])
    else Padded([0x30 + status])
  }

  // ---------------------------------------------------------------- reception

  function ReceiveSingle(c: Chan, f: Frame): (o: Outcome)
    requires Valid(c)
  {
    var n := f.data[0] % 16;
    if c.rx.state != RxIdle then Outcome(c, Busy, None)
    else if n == 0 || n > SINGLE_PAYLOAD || n > c.cfg.rxCapacity || n + 1 > f.dlc then
      Outcome(c, InvalidFrame, None)
    else
      var rx := c.rx.(buffer := Splice(c.rx.buffer, 0, f.data[1..1 + n]),
                      length := n, offset := n, state := RxComplete);
      Outcome(c.(rx := rx), MessageReady, None)
  }

  function ReceiveFirst(c: Chan, f: Frame, now: u32): (o: Outcome)
    requires Valid(c)
  {
    var high: nat := f.data[0] % 16;
    var n := high * 0x100 + f.data[1];
    if c.rx.state != RxIdle then Outcome(c, Busy, None)
    else if f.dlc != FRAME_SIZE || n <= SINGLE_PAYLOAD then Outcome(c, InvalidFrame, None)
    else if n > c.cfg.rxCapacity then
      Outcome(c, ReceiveOverflow, Some(FlowControl(c.cfg, FLOW_OVERFLOW)))
    else
      var rx := Rx(Receiving, n, FIRST_PAYLOAD, Add32(now, c.cfg.consecutiveTimeout), 1, 0,
                   Splice(c.rx.buffer, 0, f.data[2..]));
      Outcome(c.(rx := rx), FrameReady, Some(FlowControl(c.cfg, FLOW_CONTINUE)))
  }

  function ReceiveConsecutive(c: Chan, f: Frame, now: u32): (o: Outcome)
    requires Valid(c)
  {
    var rx := c.rx;
    var reset := c.(rx := IdleRx(rx.buffer));
    if rx.state != Receiving then Outcome(c, UnexpectedFrame, None)
    else if Reached(now, rx.deadline) then Outcome(reset, Timeout, None)
    else if f.data[0] % 16 != rx.nextSequence then Outcome(reset, SequenceError, None)
    else
      var n := Min(rx.length - rx.offset, CONSECUTIVE_PAYLOAD);
      if f.dlc < 2 || n + 1 > f.dlc then Outcome(reset, InvalidFrame, None)
      else
        var got := rx.(buffer := Splice(rx.buffer, rx.offset, f.data[1..1 + n]),
                       offset := rx.offset + n,
                       nextSequence := (rx.nextSequence + 1) % 16);
        if got.offset == got.length then
          Outcome(c.(rx := got.(state := RxComplete, deadline := 0)), MessageReady, None)
        else
          var armed := got.(deadline := Add32(now, c.cfg.consecutiveTimeout));
          if c.cfg.blockSize == 0 then Outcome(c.(rx := armed), Ok, None)
          else if rx.blockCount + 1 >= c.cfg.blockSize then
            Outcome(c.(rx := armed.(blockCount := 0)), FrameReady,
                    Some(FlowControl(c.cfg, FLOW_CONTINUE)))
          else
            Outcome(c.(rx := armed.(blockCount := rx.blockCount + 1)), Ok, None)
  }

  function ReceiveFlowControl(c: Chan, f: Frame, now: u32): (o: Outcome)
    requires Valid(c)
  {
    var tx := c.tx;
    var reset := c.(tx := IdleTx(tx.buffer));
    var status := f.data[0] % 16;
    if tx.state != WaitFlowControl then Outcome(c, UnexpectedFrame, None)
    else if Reached(now, tx.deadline) then Outcome(reset, Timeout, None)
    else if f.dlc < 3 then Outcome(reset, InvalidFrame, None)
    else if status == FLOW_CONTINUE then
      match DecodeStMin(f.data[2])
      case None => Outcome(reset, InvalidFrame, None)
      case Some(us) =>
        Outcome(c.(tx := tx.(blockRemaining := f.data[1], stMin := us, deadline := now,
                             waitCount := 0, state := SendConsecutive)), Ok, None)
    else if status == FLOW_WAIT then
      if tx.waitCount >= c.cfg.maxWait then Outcome(reset, WaitLimit, None)
      else Outcome(c.(tx := tx.(waitCount := tx.waitCount + 1,
                                deadline := Add32(now, c.cfg.flowControlTimeout))), Wait, None)
    else if status == FLOW_OVERFLOW then Outcome(reset, RemoteOverflow, None)
    else Outcome(reset, InvalidFrame, None)
  }

  function OnCanFrame(c: Chan, f: Frame, now: u32): (o: Outcome)
    requires Valid(c)
  {
    if f.dlc == 0 || f.dlc > FRAME_SIZE then Outcome(c, InvalidArgument, None)
    else
      var pci := f.data[0] / 16;
      if pci == PCI_SINGLE then ReceiveSingle(c, f)
      else if pci == PCI_FIRST then ReceiveFirst(c, f, now)
      else if pci == PCI_CONSECUTIVE then ReceiveConsecutive(c, f, now)
      else if pci == PCI_FLOW_CONTROL then ReceiveFlowControl(c, f, now)
      else Outcome(c, InvalidFrame, None)
  }

  // ---------------------------------------------------------------- transmission

  function StartTransmit(c: Chan, payload: seq<u8>, now: u32): (o: Outcome)
    requires Valid(c)
    requires |payload| < 0x1_0000
  {
    var n := |payload|;
    if n == 0 then Outcome(c, InvalidArgument, None)
    else if n > MAX_PAYLOAD || n > c.cfg.txCapacity then Outcome(c, PayloadTooLarge, None)
    else if TxActive(c.tx) then Outcome(c, Busy, None)
    else
      var tx := c.tx.(buffer := Splice(c.tx.buffer, 0, payload), length := n, waitCount := 0);
      if n <= SINGLE_PAYLOAD then
        Outcome(c.(tx := tx.(offset := n, state := TxComplete)), FrameReady,
                Some(Padded([n] + payload)))
      else
        Outcome(c.(tx := tx.(offset := FIRST_PAYLOAD, nextSequence := 1, blockRemaining := 0,
                             stMin := 0, deadline := Add32(now, c.cfg.flowControlTimeout),
                             state := WaitFlowControl)), FrameReady,
                Some(Padded([0x10 + n / 0x100, n % 0x100] + payload[..FIRST_PAYLOAD])))
  }

  /** One poll: receive timeout, then flow-control timeout, then at most one paced frame. */
  function Process(c: Chan, now: u32): (o: Outcome)
    requires Valid(c)
  {
    var tx := c.tx;
    if c.rx.state == Receiving && Reached(now, c.rx.deadline) then
      Outcome(c.(rx := IdleRx(c.rx.buffer)), Timeout, None)
    else if tx.state == WaitFlowControl && Reached(now, tx.deadline) then
      Outcome(c.(tx := IdleTx(tx.buffer)), Timeout, None)
    else if tx.state != SendConsecutive || !Reached(now, tx.deadline) then
      Outcome(c, Wait, None)
    else
      var n := Min(tx.length - tx.offset, CONSECUTIVE_PAYLOAD);
      var frame := Padded([0x20 + tx.nextSequence] + tx.buffer[tx.offset..tx.offset + n]);
      var sent := tx.(offset := tx.offset + n, nextSequence := (tx.nextSequence + 1) % 16);
      if sent.offset == sent.length then
        Outcome(c.(tx := sent.(state := TxComplete, deadline := 0)), FrameReady, Some(frame))
      else if tx.blockRemaining == 1 then
        Outcome(c.(tx := sent.(blockRemaining := 0, state := WaitFlowControl,
                               deadline := Add32(now, c.cfg.flowControlTimeout))),
                FrameReady, Some(frame))
      else
        var left := if tx.blockRemaining == 0 then 0 else tx.blockRemaining - 1;
        Outcome(c.(tx := sent.(blockRemaining := left, deadline := Add32(now, tx.stMin))),
                FrameReady, Some(frame))
  }

  /** ReleaseReceivedMessage: only a completed message is released. */
  function Release(c: Chan): (r: Chan) {
    if c.rx.state == RxComplete then c.(rx := IdleRx(c.rx.buffer)) else c
  }

  function CancelReceive(c: Chan): (r: Chan) {
    c.(rx := IdleRx(c.rx.buffer))
  }

  function CancelTransmit(c: Chan): (r: Chan) {
    c.(tx := IdleTx(c.tx.buffer))
  }

  // ---------------------------------------------------------------- arbitrary traffic

  /** Everything that can happen to a channel, with arbitrary frames and arbitrary times. */
  datatype Input =
    | Arrives(frame: Frame, at: u32)
    | Poll(at: u32)
    | Start(payload: seq<u8>, at: u32)
    | ReleaseMessage
    | AbandonReceive
    | AbandonTransmit

  function Step(c: Chan, i: Input): (r: Chan)
    requires Valid(c)
  {
    match i
    case Arrives(f, at) => OnCanFrame(c, f, at).chan
    case Poll(at) => Process(c, at).chan
    case Start(p, at) => if |p| < 0x1_0000 then StartTransmit(c, p, at).chan else c
    case ReleaseMessage => Release(c)
    case AbandonReceive => CancelReceive(c)
    case AbandonTransmit => CancelTransmit(c)
  }

  /** What one input may do to a reception in progress: nothing, advance it, or end it. */
  predicate ReceptionOnlyGrows(before: Rx, after: Rx)
    requires before.offset <= |before.buffer| == |after.buffer|
  {
    before.state == Receiving && after.state == Receiving && after != before ==>
      && after.length == before.length
      && after.offset == before.offset + CONSECUTIVE_PAYLOAD
      && after.buffer[..before.offset] == before.buffer[..before.offset]
  }

  /** One input of any kind keeps the channel valid and never rewinds a reception. */
  lemma StepKeepsValid(c: Chan, i: Input)
    requires Valid(c)
    ensures Valid(Step(c, i)) && Step(c, i).cfg == c.cfg
    ensures ReceptionOnlyGrows(c.rx, Step(c, i).rx)
  {
    match i
    case Arrives(f, at) => FrameKeepsValid(c, f, at);
    case Poll(at) => ProcessKeepsValid(c, at);
    case Start(p, at) => if |p| < 0x1_0000 { StartKeepsValid(c, p, at); }
    case _ =>
  }

  lemma StartKeepsValid(c: Chan, payload: seq<u8>, now: u32)
    requires Valid(c) && |payload| < 0x1_0000
    ensures Valid(StartTransmit(c, payload, now).chan)
    ensures StartTransmit(c, payload, now).chan.(tx := c.tx) == c
  {
  }

  lemma ProcessKeepsValid(c: Chan, now: u32)
    requires Valid(c)
    ensures Valid(Process(c, now).chan)
    ensures Process(c, now).chan.cfg == c.cfg
    ensures Process(c, now).chan.rx in {c.rx, IdleRx(c.rx.buffer)}
  {
  }

  lemma FrameKeepsValid(c: Chan, f: Frame, now: u32)
    requires Valid(c)
    ensures Valid(OnCanFrame(c, f, now).chan)
    ensures OnCanFrame(c, f, now).chan.cfg == c.cfg
    ensures ReceptionOnlyGrows(c.rx, OnCanFrame(c, f, now).chan.rx)
  {
    var pci := f.data[0] / 16;
    if pci == PCI_CONSECUTIVE && c.rx.state == Receiving {
      ConsecutiveKeepsValid(c, f, now);
    } else if pci == PCI_FLOW_CONTROL {
      FlowControlKeepsValid(c, f, now);
    } else if pci == PCI_FIRST {
      FirstKeepsValid(c, f, now);
    }
  }

  lemma FirstKeepsValid(c: Chan, f: Frame, now: u32)
    requires Valid(c)
    ensures Valid(ReceiveFirst(c, f, now).chan)
    ensures ReceiveFirst(c, f, now).chan.(rx := c.rx) == c
  {
  }

  lemma FlowControlKeepsValid(c: Chan, f: Frame, now: u32)
    requires Valid(c)
    ensures Valid(ReceiveFlowControl(c, f, now).chan)
    ensures ReceiveFlowControl(c, f, now).chan.(tx := c.tx) == c
  {
  }

  lemma ConsecutiveKeepsValid(c: Chan, f: Frame, now: u32)
    requires Valid(c) && c.rx.state == Receiving
    ensures Valid(ReceiveConsecutive(c, f, now).chan)
    ensures ReceiveConsecutive(c, f, now).chan.(rx := c.rx) == c
    ensures ReceptionOnlyGrows(c.rx, ReceiveConsecutive(c, f, now).chan.rx)
  {
    if c.rx.offset + CONSECUTIVE_PAYLOAD < c.rx.length {
      SequenceNumberAdvances(c.rx.offset - FIRST_PAYLOAD);
    }
  }

  lemma SequenceNumberAdvances(d: nat)
    requires d % CONSECUTIVE_PAYLOAD == 0
    ensures (d + CONSECUTIVE_PAYLOAD) % CONSECUTIVE_PAYLOAD == 0
    ensures ((d + CONSECUTIVE_PAYLOAD) / CONSECUTIVE_PAYLOAD + 1) % 16
         == ((d / CONSECUTIVE_PAYLOAD + 1) % 16 + 1) % 16
  {
  }

  /** Validity along every history of inputs. */
  predicate ValidAlong(c: Chan, inputs: seq<Input>)
    decreases |inputs|
  {
    Valid(c) && (inputs == [] || ValidAlong(Step(c, inputs[0]), inputs[1..]))
  }

  function After(c: Chan, inputs: seq<Input>): (r: Chan)
    requires ValidAlong(c, inputs)
    decreases |inputs|
  {
    if inputs == [] then c else After(Step(c, inputs[0]), inputs[1..])
  }

  lemma {:induction false} EveryHistoryIsValid(c: Chan, inputs: seq<Input>)
    requires Valid(c)
    ensures ValidAlong(c, inputs) && Valid(After(c, inputs))
    decreases |inputs|
  {
    if inputs != [] {
      StepKeepsValid(c, inputs[0]);
      EveryHistoryIsValid(Step(c, inputs[0]), inputs[1..]);
    }
  }

  /** Until it is released or abandoned, a completed message is untouchable. */
  lemma {:induction false} CompletedMessageIsFrozen(c: Chan, inputs: seq<Input>)
    requires Valid(c) && c.rx.state == RxComplete
    requires ReleaseMessage !in inputs && AbandonReceive !in inputs
    ensures ValidAlong(c, inputs) && After(c, inputs).rx == c.rx
    decreases |inputs|
  {
    if inputs != [] {
      StepKeepsValid(c, inputs[0]);
      assert inputs[0] in inputs;
      CompletedMessageIsFrozen(Step(c, inputs[0]), inputs[1..]);
    }
  }
}
