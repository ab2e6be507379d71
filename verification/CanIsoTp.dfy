/**
 * The adapter between the ISO-TP channel and the CAN transmit queue: it starts responses, polls,
 * feeds frames in, and books the fate of every message it has started.
 */
module CanIsoTp {
  import opened Machine
  import opened IsoTp
  import opened IsoTpChannel

  /** A started message is active until it is settled, once. */
  datatype Fate = Active | Completed | Aborted

  function Tally(fates: seq<Fate>, fate: Fate): (n: nat)
    ensures n <= |fates|
  {
    if fates == [] then 0
    else Tally(fates[..|fates| - 1], fate) + if fates[|fates| - 1] == fate then 1 else 0
  }

  lemma TallyAppend(fates: seq<Fate>, last: Fate, fate: Fate)
    ensures Tally(fates + [last], fate) == Tally(fates, fate) + if last == fate then 1 else 0
  {
    assert (fates + [last])[..|fates|] == fates;
  }

  lemma StartedTally(fates: seq<Fate>)
    ensures Tally(fates + [Active], Completed) == Tally(fates, Completed)
    ensures Tally(fates + [Active], Aborted) == Tally(fates, Aborted)
  {
    TallyAppend(fates, Active, Completed);
    TallyAppend(fates, Active, Aborted);
  }

  /** Only the newest message may be unsettled. */
  predicate Settled(fates: seq<Fate>) {
    Active !in fates
  }

  predicate Booked(fates: seq<Fate>, transmitting: bool) {
    if transmitting then fates != [] && fates[|fates| - 1] == Active && Settled(fates[..|fates| - 1])
    else Settled(fates)
  }

  /** Every message is completed, aborted, or the one in transmission. */
  lemma {:induction false} EveryMessageCountedOnce(fates: seq<Fate>, transmitting: bool)
    requires Booked(fates, transmitting)
    ensures |fates| == Tally(fates, Completed) + Tally(fates, Aborted) + if transmitting then 1 else 0
  {
    if fates != [] {
      var before := fates[..|fates| - 1];
      assert fates == before + [fates[|fates| - 1]];
      assert fates[|fates| - 1] in fates;
      EveryMessageCountedOnce(before, false);
    }
  }

  /** History only grows, and what is settled stays as it is. */
  predicate Extends(before: seq<Fate>, after: seq<Fate>) {
    && |before| <= |after|
    && forall i :: 0 <= i < |before| && before[i] != Active ==> after[i] == before[i]
  }

  /** The newest message has come to its end. */
  function Ended(fates: seq<Fate>, fate: Fate): (r: seq<Fate>)
    requires fates != []
    ensures |r| == |fates|
  {
    fates[..|fates| - 1] + [fate]
  }

  /** What sending a frame of the newest message makes of it, `complete` if it was the last one. */
  function AfterSending(fates: seq<Fate>, complete: bool, accepted: bool): (r: seq<Fate>)
    requires fates != []
    ensures |r| == |fates|
  {
    if !accepted then Ended(fates, Aborted) else if complete then Ended(fates, Completed) else fates
  }

  /** A message that the core has given up is aborted. */
  function AfterCore(fates: seq<Fate>, before: Tx, after: Tx): (r: seq<Fate>)
    ensures |r| == |fates|
  {
    if fates != [] && TxActive(before) && after.state == TxIdle then Ended(fates, Aborted) else fates
  }

  datatype AdapterResult =
    | AdapterOk | NoWork | RequestReady | AdapterBusy | BadArgument | TooLarge
    | ProtocolError | Overflowed | TimedOut | TransportError | TransmitAborted

  /** The adapter's answer to a core result that is neither progress nor a frame. */
  function CoreError(result: Result): AdapterResult {
    match result
    case Busy => AdapterBusy
    case Timeout => TimedOut
    case PayloadTooLarge => TooLarge
    case RemoteOverflow => TransmitAborted
    case WaitLimit => TransmitAborted
    case InvalidArgument => BadArgument
    case _ => ProtocolError
  }

  function FrameAnswer(core: Result, accepted: bool): AdapterResult {
    match core
    case MessageReady => RequestReady
    case FrameReady => if accepted then AdapterOk else TransportError
    case ReceiveOverflow => if accepted then Overflowed else TransportError
    case Ok => AdapterOk
    case Wait => AdapterOk
    case _ => CoreError(core)
  }

  function PollAnswer(core: Result, accepted: bool): AdapterResult {
    match core
    case Wait => NoWork
    case FrameReady => if accepted then AdapterOk else TransportError
    case _ => CoreError(core)
  }

  /** Which core results each answer stands for. */
  lemma AnswersAreExact(core: Result, accepted: bool)
    ensures var a := FrameAnswer(core, accepted);
            && (a == RequestReady <==> core == MessageReady)
            && (a == AdapterOk <==> core in {Ok, Wait} || (core == FrameReady && accepted))
            && (a == TransportError <==> core in {FrameReady, ReceiveOverflow} && !accepted)
            && (a == Overflowed <==> core == ReceiveOverflow && accepted)
            && (a == AdapterBusy <==> core == Busy) && (a == TimedOut <==> core == Timeout)
            && (a == TransmitAborted <==> core in {RemoteOverflow, WaitLimit})
            && (a == TooLarge <==> core == PayloadTooLarge) && (a == BadArgument <==> core == InvalidArgument)
            && (a == ProtocolError <==> core in {InvalidFrame, UnexpectedFrame, SequenceError})
    ensures var a := PollAnswer(core, accepted);
            && (a == NoWork <==> core == Wait)
            && (a == AdapterOk <==> core == FrameReady && accepted)
            && (a == TransportError <==> core == FrameReady && !accepted)
            && (a == TimedOut <==> core == Timeout)
            && (core !in {Wait, FrameReady} ==> a == CoreError(core))
  {
  }

  /** A received frame lets a transmission go on or ends it unfinished, and starts none. */
  lemma FrameLeavesTransmission(c: Chan, f: Frame, now: u32)
    requires Valid(c)
    ensures var o := OnCanFrame(c, f, now);
            && (TxActive(c.tx) ==> TxActive(o.chan.tx) || o.chan.tx.state == TxIdle)
            && (!TxActive(c.tx) ==> o.chan.tx == c.tx)
            && (o.result == MessageReady ==> o.chan.rx.state == RxComplete)
  {
    hide Valid, Add32, Reached, Splice, DecodeStMin, FlowControl;
  }

  /** A poll hands out a frame only of the transmission that goes on, and starts none. */
  lemma PollLeavesTransmission(c: Chan, now: u32)
    requires Valid(c)
    ensures var o := Process(c, now);
            if o.result == FrameReady then TxActive(c.tx) && (TxActive(o.chan.tx) || o.chan.tx.state == TxComplete)
            else if TxActive(c.tx) then TxActive(o.chan.tx) || o.chan.tx.state == TxIdle
            else o.chan.tx == c.tx
  {
    hide Valid, Add32, Reached, Padded;
  }

  /** A payload is taken only when no transmission is under way, and a refusal changes nothing. */
  lemma StartBeginsTransmission(c: Chan, payload: seq<u8>, now: u32)
    requires Valid(c) && |payload| < 0x1_0000
    ensures var o := StartTransmit(c, payload, now);
            if o.result == FrameReady then
              !TxActive(c.tx) && (TxActive(o.chan.tx) || o.chan.tx.state == TxComplete)
            else o.chan == c
  {
    hide Valid, Add32, Padded, Splice;
  }

  class Adapter {
    const channel: Channel
    var txStarted: u32
    var txCompleted: u32
    var txAborted: u32
    ghost var fates: seq<Fate>

    ghost predicate Ready()
      reads this, channel, channel.rxBuffer, channel.txBuffer
    {
      && channel.Ready()
      && Booked(fates, TxActive(channel.Value().tx))
      && txStarted == Wrap32(|fates|)
      && txCompleted == Wrap32(Tally(fates, Completed))
      && txAborted == Wrap32(Tally(fates, Aborted))
    }

    constructor (channel: Channel)
      requires channel.Ready() && channel.txState == TxIdle
      ensures Ready() && this.channel == channel && fates == []
    {
      this.channel := channel;
      txStarted, txCompleted, txAborted := 0, 0, 0;
      fates := [];
    }

    /** started = completed + aborted + (1 while transmitting), in 32-bit arithmetic. */
    lemma Conservation()
      requires Ready()
      ensures txStarted == Add32(Add32(txCompleted, txAborted),
                                 if TxActive(channel.Value().tx) then 1 else 0)
    {
      var transmitting := TxActive(channel.Value().tx);
      EveryMessageCountedOnce(fates, transmitting);
      AddIsWrapped(Tally(fates, Completed), Wrap32(Tally(fates, Aborted)));
      WrapOfSum(Tally(fates, Completed), Tally(fates, Aborted));
      AddIsWrapped(Tally(fates, Completed) + Tally(fates, Aborted), if transmitting then 1 else 0);
    }

    /** Books the end of the message in transmission. */
    ghost method Settle(fate: Fate)
      requires fates != [] && fates[|fates| - 1] == Active && Settled(fates[..|fates| - 1])
      requires fate != Active
      modifies this`fates
      ensures fates == Ended(old(fates), fate) && Settled(fates)
      ensures forall f :: f != Active ==>
                Tally(fates, f) == Tally(old(fates), f) + if f == fate then 1 else 0
    {
      var before := fates[..|fates| - 1];
      assert fates == before + [Active];
      forall f | f != Active
        ensures Tally(before + [fate], f) == Tally(fates, f) + if f == fate then 1 else 0
      {
        TallyAppend(before, Active, f);
        TallyAppend(before, fate, f);
      }
      fates := before + [fate];
    }

    method CountAborted()
      requires channel.Ready() && !TxActive(channel.Value().tx)
      requires fates != [] && fates[|fates| - 1] == Active && Settled(fates[..|fates| - 1])
      requires txStarted == Wrap32(|fates|) && txCompleted == Wrap32(Tally(fates, Completed))
      requires txAborted == Wrap32(Tally(fates, Aborted))
      modifies this
      ensures Ready() && fates == Ended(old(fates), Aborted)
    {
      AddIsWrapped(Tally(fates, Aborted), 1);
      txAborted := Add32(txAborted, 1);
      Settle(Aborted);
    }

    method CountCompleted()
      requires channel.Ready() && !TxActive(channel.Value().tx)
      requires fates != [] && fates[|fates| - 1] == Active && Settled(fates[..|fates| - 1])
      requires txStarted == Wrap32(|fates|) && txCompleted == Wrap32(Tally(fates, Completed))
      requires txAborted == Wrap32(Tally(fates, Aborted))
      modifies this
      ensures Ready() && fates == Ended(old(fates), Completed)
    {
      AddIsWrapped(Tally(fates, Completed), 1);
      txCompleted := Add32(txCompleted, 1);
      Settle(Completed);
    }

    /**
     * A frame of the message in transmission has been built; `accepted` says whether the CAN
     * queue took it. A refused frame aborts the message, the last accepted one completes it.
     */
    method SendTransmitFrame(accepted: bool) returns (result: AdapterResult)
      requires channel.Ready() && channel.txState != TxIdle
      requires fates != [] && fates[|fates| - 1] == Active && Settled(fates[..|fates| - 1])
      requires txStarted == Wrap32(|fates|) && txCompleted == Wrap32(Tally(fates, Completed))
      requires txAborted == Wrap32(Tally(fates, Aborted))
      modifies this, channel
      ensures Ready() && fates == AfterSending(old(fates), old(channel.txState) == TxComplete, accepted)
      ensures channel.Value() == if accepted then old(channel.Value()) else CancelTransmit(old(channel.Value()))
      ensures result == if accepted then AdapterOk else TransportError
    {
      if !accepted {
        channel.ResetTransmitState();
        CountAborted();
        return TransportError;
      }
      if channel.txState == TxComplete {
        CountCompleted();
      }
      result := AdapterOk;
    }

    method OnFrame(f: Frame, now: u32, accepted: bool) returns (result: AdapterResult)
      requires Ready()
      modifies this, channel, channel.rxBuffer
      ensures Ready() && Extends(old(fates), fates)
      ensures var o := OnCanFrame(old(channel.Value()), f, now);
              && fates == AfterCore(old(fates), old(channel.Value()).tx, o.chan.tx)
              && channel.Value() == (if o.result in {FrameReady, ReceiveOverflow} && !accepted
                                     then CancelReceive(o.chan) else o.chan)
              && result == FrameAnswer(o.result, accepted)
    {
      hide OnCanFrame, Valid, Wrap32, Tally;
      FrameLeavesTransmission(channel.Value(), f, now);
      var transmitWasActive := channel.txState == WaitFlowControl || channel.txState == SendConsecutive;
      var core, reply := channel.OnFrame(f, now);
      if transmitWasActive && channel.txState == TxIdle {
        CountAborted();
      }
      if core == MessageReady {
        return RequestReady;
      }
      if core == FrameReady || core == ReceiveOverflow {
        if !accepted {
          channel.ResetReceiveState();
          return TransportError;
        }
        return if core == ReceiveOverflow then Overflowed else AdapterOk;
      }
      if core == Ok || core == Wait {
        return AdapterOk;
      }
      result := CoreError(core);
    }

    method Poll(now: u32, accepted: bool) returns (result: AdapterResult)
      requires Ready()
      modifies this, channel
      ensures Ready() && Extends(old(fates), fates)
      ensures var o := Process(old(channel.Value()), now);
              && fates == (if o.result == FrameReady && old(fates) != []
                           then AfterSending(old(fates), o.chan.tx.state == TxComplete, accepted)
                           else AfterCore(old(fates), old(channel.Value()).tx, o.chan.tx))
              && channel.Value() == (if o.result == FrameReady && !accepted
                                     then CancelTransmit(o.chan) else o.chan)
              && result == PollAnswer(o.result, accepted)
    {
      hide Process, Valid, Wrap32, Tally;
      PollLeavesTransmission(channel.Value(), now);
      var transmitWasActive := channel.txState == WaitFlowControl || channel.txState == SendConsecutive;
      var core, reply := channel.Poll(now);
      if transmitWasActive && channel.txState == TxIdle {
        CountAborted();
      }
      if core == Wait {
        return NoWork;
      }
      if core == FrameReady {
        result := SendTransmitFrame(accepted);
        return;
      }
      result := CoreError(core);
    }

    /** One more message, exactly if the core took the payload; it may be settled at once. */
    method StartResponse(payload: seq<u8>, now: u32, accepted: bool) returns (result: AdapterResult)
      requires Ready() && |payload| < 0x1_0000
      modifies this, channel, channel.txBuffer
      ensures Ready() && Extends(old(fates), fates)
      ensures var o := StartTransmit(old(channel.Value()), payload, now);
              if o.result == FrameReady then
                && fates == AfterSending(old(fates) + [Active], o.chan.tx.state == TxComplete, accepted)
                && channel.Value() == (if accepted then o.chan else CancelTransmit(o.chan))
                && result == if accepted then AdapterOk else TransportError
              else
                && fates == old(fates) && channel.Value() == o.chan
                && result == CoreError(o.result)
    {
      hide StartTransmit, Valid, Wrap32, Tally;
      StartBeginsTransmission(channel.Value(), payload, now);
      var core, reply := channel.Transmit(payload, now);
      if core == Busy {
        return AdapterBusy;
      }
      if core != FrameReady {
        return CoreError(core);
      }
      AddIsWrapped(|fates|, 1);
      StartedTally(fates);
      txStarted := Add32(txStarted, 1);
      fates := fates + [Active];
      result := SendTransmitFrame(accepted);
    }
  }
}
