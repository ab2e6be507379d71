/**
 * The ISO-TP channel object: caller-owned buffers filled byte by byte and a record of fields
 * updated in place. Every method is proved equal to the value-level function of module IsoTp.
 */
module IsoTpChannel {
  import opened Machine
  import opened IsoTp

  /** The byte-copy loop of the transport. */
  method CopyInto(target: array<u8>, at: nat, bytes: seq<u8>)
    requires at + |bytes| <= target.Length
    modifies target
    ensures target[..] == Splice(old(target[..]), at, bytes)
  {
    var index := 0;
    while index < |bytes|
      invariant 0 <= index <= |bytes|
      invariant target[..] == Splice(old(target[..]), at, bytes[..index])
    {
      target[at + index] := bytes[index];
      index := index + 1;
    }
    assert bytes[..index] == bytes;
  }

  /** Clears a frame, then fills in its first bytes. */
  method BuildFrame(bytes: seq<u8>) returns (frame: Frame)
    requires |bytes| <= FRAME_SIZE
    ensures frame == Padded(bytes)
  {
    var data := new u8[FRAME_SIZE];
    var index := 0;
    while index < FRAME_SIZE
      invariant 0 <= index <= FRAME_SIZE
      invariant data[..index] == Zeros(index)
    {
      data[index] := 0;
      index := index + 1;
    }
    assert data[..] == Zeros(FRAME_SIZE);
    CopyInto(data, 0, bytes);
    assert data[..] == bytes + Zeros(FRAME_SIZE - |bytes|);
    frame := CanFrame(data[..], FRAME_SIZE);
  }

  /** The indices a channel uses lie inside its buffers. */
  lemma Room(c: Chan)
    requires Valid(c)
    ensures |c.rx.buffer| == c.cfg.rxCapacity
    ensures c.rx.state == Receiving ==> c.rx.offset < c.rx.length <= c.cfg.rxCapacity
    ensures c.tx.state == SendConsecutive ==> c.tx.offset < c.tx.length <= |c.tx.buffer|
    ensures c.tx.nextSequence < 16
  {
  }

  lemma CancelKeepsValid(c: Chan)
    requires Valid(c)
    ensures Valid(CancelReceive(c)) && Valid(CancelTransmit(c))
  {
  }

  class Channel {
    const cfg: Config
    const rxBuffer: array<u8>
    const txBuffer: array<u8>

    var rxState: RxState
    var rxLength: nat
    var rxOffset: nat
    var rxDeadline: u32
    var rxNextSequence: nat
    var rxBlockCount: nat

    var txState: TxState
    var txLength: nat
    var txOffset: nat
    var txDeadline: u32
    var txStMin: u32
    var txNextSequence: nat
    var txBlockRemaining: nat
    var txWaitCount: nat

    ghost function Value(): Chan
      reads this, rxBuffer, txBuffer
    {
      Chan(cfg,
           Rx(rxState, rxLength, rxOffset, rxDeadline, rxNextSequence, rxBlockCount, rxBuffer[..]),
           Tx(txState, txLength, txOffset, txDeadline, txStMin, txNextSequence,
              txBlockRemaining, txWaitCount, txBuffer[..]))
    }

    ghost predicate Ready()
      reads this, rxBuffer, txBuffer
    {
      rxBuffer != txBuffer && Valid(Value())
    }

    constructor (cfg: Config, rxBuffer: array<u8>, txBuffer: array<u8>)
      requires ValidConfig(cfg)
      requires rxBuffer.Length == cfg.rxCapacity && txBuffer.Length == cfg.txCapacity
      ensures rxBuffer != txBuffer ==> Ready()
      ensures this.cfg == cfg && this.rxBuffer == rxBuffer && this.txBuffer == txBuffer
      ensures Value() == Chan(cfg, IdleRx(rxBuffer[..]), IdleTx(txBuffer[..]))
    {
      this.cfg, this.rxBuffer, this.txBuffer := cfg, rxBuffer, txBuffer;
      rxState, rxLength, rxOffset, rxDeadline := RxIdle, 0, 0, 0;
      rxNextSequence, rxBlockCount := 0, 0;
      txState, txLength, txOffset, txDeadline := TxIdle, 0, 0, 0;
      txStMin, txNextSequence, txBlockRemaining, txWaitCount := 0, 0, 0, 0;
    }

    /** IsoTp_Init: an unusable configuration is refused; a shared buffer is not, but nothing is promised of it. */
    static method Init(cfg: Config, rxBuffer: array<u8>, txBuffer: array<u8>)
      returns (result: Result, channel: Channel?)
      requires rxBuffer.Length == cfg.rxCapacity && txBuffer.Length == cfg.txCapacity
      ensures result == Ok <==> ValidConfig(cfg)
      ensures result != Ok ==> result == InvalidArgument && channel == null
      ensures result == Ok ==>
                && channel != null && fresh(channel) && (rxBuffer != txBuffer ==> channel.Ready())
                && channel.Value() == Chan(cfg, IdleRx(rxBuffer[..]), IdleTx(txBuffer[..]))
    {
      if cfg.rxCapacity == 0 || cfg.txCapacity == 0
         || cfg.flowControlTimeout == 0 || cfg.flowControlTimeout > INT32_MAX
         || cfg.consecutiveTimeout == 0 || cfg.consecutiveTimeout > INT32_MAX
         || DecodeStMin(cfg.stMin) == None {
        return InvalidArgument, null;
      }
      channel := new Channel(cfg, rxBuffer, txBuffer);
      result := Ok;
    }

    method ResetReceiveState()
      requires Ready()
      modifies this
      ensures Ready() && Value() == CancelReceive(old(Value()))
    {
      hide Valid;
      CancelKeepsValid(Value());
      rxState, rxLength, rxOffset, rxDeadline := RxIdle, 0, 0, 0;
      rxNextSequence, rxBlockCount := 0, 0;
    }

    method ResetTransmitState()
      requires Ready()
      modifies this
      ensures Ready() && Value() == CancelTransmit(old(Value()))
    {
      hide Valid;
      CancelKeepsValid(Value());
      txState, txLength, txOffset, txDeadline := TxIdle, 0, 0, 0;
      txStMin, txNextSequence, txBlockRemaining, txWaitCount := 0, 0, 0, 0;
    }

    method BuildFlowControl(status: nat) returns (frame: Frame)
      requires status <= FLOW_OVERFLOW
      ensures frame == FlowControl(cfg, status)
    {
      if status == FLOW_CONTINUE {
        frame := BuildFrame([0x30, cfg.blockSize, cfg.stMin]);
      } else {
        frame := BuildFrame([0x30 + status]);
      }
    }

    method ReceiveSingleFrame(f: Frame) returns (result: Result)
      requires Ready()
      modifies this, rxBuffer
      ensures Ready()
      ensures Outcome(Value(), result, None) == ReceiveSingle(old(Value()), f)
    {
      if rxState != RxIdle {
        return Busy;
      }
      var n := f.data[0] % 16;
      if n == 0 || n > SINGLE_PAYLOAD || n > cfg.rxCapacity || n + 1 > f.dlc {
        return InvalidFrame;
      }
      CopyInto(rxBuffer, 0, f.data[1..1 + n]);
      rxLength, rxOffset, rxState := n, n, RxComplete;
      result := MessageReady;
    }

    method ReceiveFirstFrame(f: Frame, now: u32) returns (result: Result, reply: Option<Frame>)
      requires Ready()
      modifies this, rxBuffer
      ensures Ready()
      ensures Outcome(Value(), result, reply) == ReceiveFirst(old(Value()), f, now)
    {
      hide Valid, FlowControl, Splice, Add32;
      FirstKeepsValid(Value(), f, now);
      Room(Value());
      if rxState != RxIdle {
        return Busy, None;
      }
      if f.dlc != FRAME_SIZE {
        return InvalidFrame, None;
      }
      var high: nat := f.data[0] % 16;
      var n := high * 0x100 + f.data[1];
      if n <= SINGLE_PAYLOAD {
        return InvalidFrame, None;
      }
      if n > cfg.rxCapacity {
        var overflow := BuildFlowControl(FLOW_OVERFLOW);
        return ReceiveOverflow, Some(overflow);
      }
      CopyInto(rxBuffer, 0, f.data[2..]);
      rxLength, rxOffset, rxNextSequence, rxBlockCount := n, FIRST_PAYLOAD, 1, 0;
      rxDeadline := Add32(now, cfg.consecutiveTimeout);
      rxState := Receiving;
      var proceed := BuildFlowControl(FLOW_CONTINUE);
      return FrameReady, Some(proceed);
    }

    method ReceiveConsecutiveFrame(f: Frame, now: u32)
      returns (result: Result, reply: Option<Frame>)
      requires Ready()
      modifies this, rxBuffer
      ensures Ready()
      ensures Outcome(Value(), result, reply) == ReceiveConsecutive(old(Value()), f, now)
    {
      reply := None;
      if rxState != Receiving {
        return UnexpectedFrame, None;
      }
      ConsecutiveKeepsValid(Value(), f, now);
      if Reached(now, rxDeadline) {
        ResetReceiveState();
        return Timeout, None;
      }
      if f.data[0] % 16 != rxNextSequence {
        ResetReceiveState();
        return SequenceError, None;
      }
      var remaining := rxLength - rxOffset;
      var n := if remaining > CONSECUTIVE_PAYLOAD then CONSECUTIVE_PAYLOAD else remaining;
      if f.dlc < 2 || n + 1 > f.dlc {
        ResetReceiveState();
        return InvalidFrame, None;
      }
      result, reply := Absorb(f.data[1..1 + n], now);
    }

    /** The accepting half of the consecutive-frame handler. */
    method Absorb(bytes: seq<u8>, now: u32) returns (result: Result, reply: Option<Frame>)
      requires Ready() && rxState == Receiving
      requires |bytes| == Min(rxLength - rxOffset, CONSECUTIVE_PAYLOAD)
      modifies this, rxBuffer
      ensures rxBuffer[..] == Splice(old(rxBuffer[..]), old(rxOffset), bytes)
      ensures Value().(rx := old(Value()).rx) == old(Value())
      ensures rxLength == old(rxLength) && rxOffset == old(rxOffset) + |bytes|
      ensures rxNextSequence == (old(rxNextSequence) + 1) % 16
      ensures if rxOffset == rxLength then
                && (rxState, rxDeadline, rxBlockCount) == (RxComplete, 0, old(rxBlockCount))
                && (result, reply) == (MessageReady, None)
              else
                && rxState == Receiving && rxDeadline == Add32(now, cfg.consecutiveTimeout)
                && if cfg.blockSize == 0 || old(rxBlockCount) + 1 < cfg.blockSize then
                     && rxBlockCount == (if cfg.blockSize == 0 then old(rxBlockCount)
                                         else old(rxBlockCount) + 1)
                     && (result, reply) == (Ok, None)
                   else
                     && rxBlockCount == 0
                     && (result, reply) == (FrameReady, Some(FlowControl(cfg, FLOW_CONTINUE)))
    {
      hide Valid, Splice, FlowControl, Add32;
      Room(Value());
      reply := None;
      CopyInto(rxBuffer, rxOffset, bytes);
      rxOffset := rxOffset + |bytes|;
      rxNextSequence := (rxNextSequence + 1) % 16;
      if rxOffset == rxLength {
        rxState, rxDeadline := RxComplete, 0;
        return MessageReady, None;
      }
      rxDeadline := Add32(now, cfg.consecutiveTimeout);
      if cfg.blockSize != 0 {
        rxBlockCount := rxBlockCount + 1;
        if rxBlockCount >= cfg.blockSize {
          rxBlockCount := 0;
          var proceed := BuildFlowControl(FLOW_CONTINUE);
          return FrameReady, Some(proceed);
        }
      }
      result := Ok;
    }

    method ReceiveFlowControlFrame(f: Frame, now: u32) returns (result: Result)
      requires Ready()
      modifies this
      ensures Ready()
      ensures Outcome(Value(), result, None) == ReceiveFlowControl(old(Value()), f, now)
    {
      if txState != WaitFlowControl {
        return UnexpectedFrame;
      }
      if Reached(now, txDeadline) {
        ResetTransmitState();
        return Timeout;
      }
      if f.dlc < 3 {
        ResetTransmitState();
        return InvalidFrame;
      }
      var status := f.data[0] % 16;
      if status == FLOW_CONTINUE {
        var pace := DecodeStMin(f.data[2]);
        if pace == None {
          ResetTransmitState();
          return InvalidFrame;
        }
        txBlockRemaining, txStMin, txDeadline := f.data[1], pace.value, now;
        txWaitCount, txState := 0, SendConsecutive;
        return Ok;
      }
      if status == FLOW_WAIT {
        if txWaitCount >= cfg.maxWait {
          ResetTransmitState();
          return WaitLimit;
        }
        txWaitCount := txWaitCount + 1;
        txDeadline := Add32(now, cfg.flowControlTimeout);
        return Wait;
      }
      ResetTransmitState();
      result := if status == FLOW_OVERFLOW then RemoteOverflow else InvalidFrame;
    }

    method OnFrame(f: Frame, now: u32) returns (result: Result, reply: Option<Frame>)
      requires Ready()
      modifies this, rxBuffer
      ensures Ready()
      ensures Outcome(Value(), result, reply) == OnCanFrame(old(Value()), f, now)
    {
      reply := None;
      if f.dlc == 0 || f.dlc > FRAME_SIZE {
        return InvalidArgument, None;
      }
      var pci := f.data[0] / 16;
      if pci == PCI_SINGLE {
        result := ReceiveSingleFrame(f);
      } else if pci == PCI_FIRST {
        result, reply := ReceiveFirstFrame(f, now);
      } else if pci == PCI_CONSECUTIVE {
        result, reply := ReceiveConsecutiveFrame(f, now);
      } else if pci == PCI_FLOW_CONTROL {
        result := ReceiveFlowControlFrame(f, now);
      } else {
        result := InvalidFrame;
      }
    }

    method Transmit(payload: seq<u8>, now: u32) returns (result: Result, reply: Option<Frame>)
      requires Ready() && |payload| < 0x1_0000
      modifies this, txBuffer
      ensures Ready()
      ensures Outcome(Value(), result, reply) == StartTransmit(old(Value()), payload, now)
    {
      StartKeepsValid(Value(), payload, now);
      var n := |payload|;
      if n == 0 {
        return InvalidArgument, None;
      }
      if n > MAX_PAYLOAD || n > cfg.txCapacity {
        return PayloadTooLarge, None;
      }
      if txState == WaitFlowControl || txState == SendConsecutive {
        return Busy, None;
      }
      CopyInto(txBuffer, 0, payload);
      txLength, txWaitCount := n, 0;
      var frame := Open(payload, now);
      return FrameReady, Some(frame);
    }

    /** The framing half of a transmission: a single frame, or a first frame and the wait. */
    method Open(ghost payload: seq<u8>, now: u32) returns (frame: Frame)
      requires 0 < txLength == |payload| <= txBuffer.Length && txBuffer[..txLength] == payload
      requires txLength <= MAX_PAYLOAD
      modifies this`txOffset, this`txNextSequence, this`txBlockRemaining, this`txStMin, this`txDeadline,
               this`txState
      ensures Value().(tx := old(Value()).tx) == old(Value())
      ensures var was := old(Value()).tx;
              if |payload| <= SINGLE_PAYLOAD then
                && Value().tx == was.(offset := |payload|, state := TxComplete)
                && frame == Padded([|payload|] + payload)
              else
                && Value().tx == was.(offset := FIRST_PAYLOAD, nextSequence := 1,
                                      blockRemaining := 0, stMin := 0, state := WaitFlowControl,
                                      deadline := Add32(now, cfg.flowControlTimeout))
                && frame == Padded([0x10 + |payload| / 0x100, |payload| % 0x100]
                                   + payload[..FIRST_PAYLOAD])
    {
      hide Padded, Add32;
      if txLength <= SINGLE_PAYLOAD {
        frame := BuildFrame([txLength] + txBuffer[..txLength]);
        txOffset, txState := txLength, TxComplete;
      } else {
        assert txBuffer[..FIRST_PAYLOAD] == txBuffer[..txLength][..FIRST_PAYLOAD] == payload[..FIRST_PAYLOAD];
        frame := BuildFrame([0x10 + txLength / 0x100, txLength % 0x100] + txBuffer[..FIRST_PAYLOAD]);
        txOffset, txNextSequence, txBlockRemaining, txStMin := FIRST_PAYLOAD, 1, 0, 0;
        txDeadline := Add32(now, cfg.flowControlTimeout);
        txState := WaitFlowControl;
      }
    }

    method Poll(now: u32) returns (result: Result, reply: Option<Frame>)
      requires Ready()
      modifies this
      ensures Ready()
      ensures Outcome(Value(), result, reply) == Process(old(Value()), now)
    {
      hide Valid, Padded, Add32, Reached;
      ProcessKeepsValid(Value(), now);
      Room(Value());
      reply := None;
      if rxState == Receiving && Reached(now, rxDeadline) {
        ResetReceiveState();
        return Timeout, None;
      }
      if txState == WaitFlowControl && Reached(now, txDeadline) {
        ResetTransmitState();
        return Timeout, None;
      }
      if txState != SendConsecutive {
        return Wait, None;
      }
      if !Reached(now, txDeadline) {
        return Wait, None;
      }
      var frame := SendConsecutiveFrame(now);
      return FrameReady, Some(frame);
    }

    /** The sending half of a poll: one frame, and what the sender waits for next. */
    method SendConsecutiveFrame(now: u32) returns (frame: Frame)
      requires Ready() && txState == SendConsecutive
      modifies this`txOffset, this`txNextSequence, this`txState, this`txDeadline, this`txBlockRemaining
      ensures var n := Min(old(txLength) - old(txOffset), CONSECUTIVE_PAYLOAD);
              && frame == Padded([0x20 + old(txNextSequence)] + txBuffer[old(txOffset)..old(txOffset) + n])
              && txOffset == old(txOffset) + n && txNextSequence == (old(txNextSequence) + 1) % 16
      ensures if txOffset == txLength then
                (txState, txDeadline, txBlockRemaining) == (TxComplete, 0, old(txBlockRemaining))
              else if old(txBlockRemaining) == 1 then
                (txState, txDeadline, txBlockRemaining) == (WaitFlowControl, Add32(now, cfg.flowControlTimeout), 0)
              else
                (txState, txDeadline, txBlockRemaining)
                == (SendConsecutive, Add32(now, txStMin),
                    if old(txBlockRemaining) == 0 then 0 else old(txBlockRemaining) - 1)
    {
      hide Valid, Padded, Add32;
      Room(Value());
      var remaining := txLength - txOffset;
      var n := if remaining > CONSECUTIVE_PAYLOAD then CONSECUTIVE_PAYLOAD else remaining;
      frame := BuildFrame([0x20 + txNextSequence] + txBuffer[txOffset..txOffset + n]);
      txOffset := txOffset + n;
      txNextSequence := (txNextSequence + 1) % 16;
      if txOffset == txLength {
        txState, txDeadline := TxComplete, 0;
        return;
      }
      if txBlockRemaining != 0 {
        txBlockRemaining := txBlockRemaining - 1;
        if txBlockRemaining == 0 {
          txState := WaitFlowControl;
          txDeadline := Add32(now, cfg.flowControlTimeout);
          return;
        }
      }
      txDeadline := Add32(now, txStMin);
    }

    method ReleaseReceivedMessage()
      requires Ready()
      modifies this
      ensures Ready() && Value() == Release(old(Value()))
    {
      if rxState == RxComplete {
        ResetReceiveState();
      }
    }
  }
}
