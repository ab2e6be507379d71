/**
 * How long a channel waits, in true time: the separation time it is asked for, both timeouts, and the
 * number of wait frames it puts up with; and which frames it accepts at all.
 */
module IsoTpTiming {
  import opened Machine
  import opened IsoTp

  /** A reception in progress does not time out at `t`. */
  predicate ReceptionInTime(c: Chan, t: nat) {
    c.rx.state == Receiving ==> !Reached(Wrap32(t), c.rx.deadline)
  }

  // ---------------------------------------------------------------- separation time

  /** A flow-control frame with its block size and its encoded separation time. */
  predicate IsContinue(f: Frame, blockSize: u8, stMin: u8) {
    f.data[0] == 0x30 && f.data[1] == blockSize && f.data[2] == stMin && 3 <= f.dlc <= 8
  }

  /** Whole milliseconds up to 127, or 1 to 9 tenths of one; everything else is reserved. */
  lemma ContinueIsExact(c: Chan, f: Frame, blockSize: u8, stMin: u8, t: nat)
    requires Valid(c) && c.tx.state == WaitFlowControl && !Reached(Wrap32(t), c.tx.deadline)
    requires IsContinue(f, blockSize, stMin)
    ensures var o := OnCanFrame(c, f, Wrap32(t));
            if stMin <= 127 || 0xF1 <= stMin <= 0xF9 then
              && o.result == Ok && o.chan.tx.state == SendConsecutive && o.chan.tx.blockRemaining == blockSize
              && o.chan.tx.waitCount == 0 && o.chan.rx == c.rx
            else o == Outcome(c.(tx := IdleTx(c.tx.buffer)), InvalidFrame, None)
  {
    hide Reached;
  }

  /**
   * After permission at `t0` the next frame is sent at the first poll, at `t1`; while the block is open,
   * the one behind it exactly from the separation time after `t1` on.
   */
  lemma PaceIsExact(c: Chan, f: Frame, blockSize: u8, stMin: u8, t0: nat, t1: nat, t2: nat)
    requires Valid(c) && c.tx.state == WaitFlowControl && !Reached(Wrap32(t0), c.tx.deadline)
    requires IsContinue(f, blockSize, stMin) && (stMin <= 127 || 0xF1 <= stMin <= 0xF9)
    requires blockSize != 1 && c.tx.offset + 7 < c.tx.length
    requires t0 <= t1 < t0 + TWO_31 && t1 <= t2 < t1 + TWO_31
    requires ReceptionInTime(c, t1) && ReceptionInTime(c, t2)
    ensures var granted := OnCanFrame(c, f, Wrap32(t0)).chan;
            && Valid(granted)
            && var first := Process(granted, Wrap32(t1));
               && Valid(first.chan) && first.result == FrameReady && first.reply.Some?
               && first.chan.tx.offset == c.tx.offset + 7
               && var encoded: nat := stMin;
                  var pace := if encoded <= 127 then 1000 * encoded else 100 * (encoded - 0xF0);
                  var second := Process(first.chan, Wrap32(t2));
                  if t2 >= t1 + pace then
                    second.result == FrameReady && second.reply.Some? && second.chan.tx.offset > c.tx.offset + 7
                  else second == Outcome(first.chan, Wait, None)
  {
    FrameKeepsValid(c, f, Wrap32(t0));
    ContinueIsExact(c, f, blockSize, stMin, t0);
    var granted := OnCanFrame(c, f, Wrap32(t0)).chan;
    GrantedNow(c, f, blockSize, stMin, t0);
    FirstPoll(granted, t0, t1);
    var first := Process(granted, Wrap32(t1)).chan;
    ProcessKeepsValid(granted, Wrap32(t1));
    NextPoll(first, t1, granted.tx.stMin, t2);
  }

  lemma GrantedNow(c: Chan, f: Frame, blockSize: u8, stMin: u8, t: nat)
    requires Valid(c) && c.tx.state == WaitFlowControl && !Reached(Wrap32(t), c.tx.deadline)
    requires IsContinue(f, blockSize, stMin) && (stMin <= 127 || 0xF1 <= stMin <= 0xF9)
    ensures var tx, encoded: nat := OnCanFrame(c, f, Wrap32(t)).chan.tx, stMin;
            && tx.deadline == Wrap32(t) && tx.offset == c.tx.offset && tx.length == c.tx.length
            && tx.stMin == if encoded <= 127 then 1000 * encoded else 100 * (encoded - 0xF0)
  {
    hide Reached;
  }

  lemma FirstPoll(c: Chan, t0: nat, t1: nat)
    requires Valid(c) && c.tx.state == SendConsecutive && c.tx.deadline == Wrap32(t0)
    requires t0 <= t1 < t0 + TWO_31 && ReceptionInTime(c, t1)
    requires c.tx.blockRemaining != 1 && c.tx.offset + 7 < c.tx.length
    ensures var o := Process(c, Wrap32(t1));
            && o.result == FrameReady && o.reply.Some? && o.chan.rx == c.rx
            && o.chan.tx.state == SendConsecutive && o.chan.tx.offset == c.tx.offset + 7
            && o.chan.tx.length == c.tx.length
            && o.chan.tx.deadline == Add32(Wrap32(t1), c.tx.stMin) && o.chan.tx.stMin == c.tx.stMin
  {
    ReachedIsTrueOrder(t1, t0);
    hide Reached, Wrap32, Add32;
  }

  lemma NextPoll(c: Chan, t1: nat, stMin: u32, t2: nat)
    requires Valid(c) && c.tx.state == SendConsecutive && c.tx.deadline == Add32(Wrap32(t1), stMin)
    requires stMin < TWO_31 && t1 <= t2 < t1 + TWO_31 && ReceptionInTime(c, t2)
    ensures var o := Process(c, Wrap32(t2));
            if t2 >= t1 + stMin then
              o.result == FrameReady && o.reply.Some? && o.chan.tx.offset > c.tx.offset
            else o == Outcome(c, Wait, None)
  {
    AddIsWrapped(t1, stMin);
    ReachedIsTrueOrder(t2, t1 + stMin);
    hide Reached, Wrap32, Add32;
  }

  // ---------------------------------------------------------------- timeouts

  /** A sender waits for permission exactly as long as its timeout says, from the last frame it sent on. */
  lemma SenderWaits(c: Chan, t: nat, t2: nat, f: Frame)
    requires Valid(c) && c.tx.state == WaitFlowControl && c.tx.deadline == Add32(Wrap32(t), c.cfg.flowControlTimeout)
    requires t <= t2 < t + TWO_31 && ReceptionInTime(c, t2)
    requires f.data[0] / 16 == 3 && 1 <= f.dlc <= 8
    ensures var late := t2 >= t + c.cfg.flowControlTimeout;
            && Process(c, Wrap32(t2)) == (if late then Outcome(c.(tx := IdleTx(c.tx.buffer)), Timeout, None)
                                          else Outcome(c, Wait, None))
            && (OnCanFrame(c, f, Wrap32(t2)).result == Timeout <==> late)
            && (late ==> OnCanFrame(c, f, Wrap32(t2)).chan == c.(tx := IdleTx(c.tx.buffer)))
  {
    AddIsWrapped(t, c.cfg.flowControlTimeout);
    ReachedIsTrueOrder(t2, t + c.cfg.flowControlTimeout);
    hide Reached, Wrap32, Add32;
  }

  /** Whenever a transmission comes to wait for permission, its timeout starts anew. */
  lemma WaitStartsTimeout(c: Chan, payload: seq<u8>, t: nat)
    requires Valid(c)
    ensures |payload| < 0x1_0000 && StartTransmit(c, payload, Wrap32(t)).chan.tx != c.tx && |payload| > 7 ==>
              var tx := StartTransmit(c, payload, Wrap32(t)).chan.tx;
              tx.state == WaitFlowControl && tx.deadline == Add32(Wrap32(t), c.cfg.flowControlTimeout)
    ensures c.tx.state != WaitFlowControl && Process(c, Wrap32(t)).chan.tx.state == WaitFlowControl ==>
              Process(c, Wrap32(t)).chan.tx.deadline == Add32(Wrap32(t), c.cfg.flowControlTimeout)
  {
    hide Reached, Wrap32, Add32;
  }

  /**
   * A receiver waits for the next frame exactly as long as its timeout says, from the last frame it
   * accepted on.
   */
  lemma ReceiverWaits(c: Chan, t: nat, t2: nat, f: Frame)
    requires Valid(c) && c.rx.state == Receiving && c.rx.deadline == Add32(Wrap32(t), c.cfg.consecutiveTimeout)
    requires t <= t2 < t + TWO_31
    requires f.data[0] / 16 == 2 && 1 <= f.dlc <= 8
    ensures var late, gone := t2 >= t + c.cfg.consecutiveTimeout, Outcome(c.(rx := IdleRx(c.rx.buffer)), Timeout, None);
            && (late ==> Process(c, Wrap32(t2)) == gone && OnCanFrame(c, f, Wrap32(t2)) == gone)
            && (!late ==> Process(c, Wrap32(t2)).chan.rx == c.rx && OnCanFrame(c, f, Wrap32(t2)).result != Timeout)
  {
    AddIsWrapped(t, c.cfg.consecutiveTimeout);
    ReachedIsTrueOrder(t2, t + c.cfg.consecutiveTimeout);
    hide Reached, Wrap32, Add32;
  }

  /** Whatever frame leaves a reception open that was not, or moves it on, starts its timeout anew. */
  lemma AcceptedStartsTimeout(c: Chan, f: Frame, t: nat)
    requires Valid(c)
    ensures var rx := OnCanFrame(c, f, Wrap32(t)).chan.rx;
            rx.state == Receiving && rx != c.rx ==> rx.deadline == Add32(Wrap32(t), c.cfg.consecutiveTimeout)
  {
    hide Reached, Wrap32, Add32;
  }

  // ---------------------------------------------------------------- wait frames

  /** The sender after `n` wait frames, each of which came in time. */
  function AfterWaits(c: Chan, f: Frame, times: seq<nat>): (o: Outcome)
    requires Valid(c)
    ensures Valid(o.chan)
    decreases |times|
  {
    if times == [] then Outcome(c, Wait, None)
    else
      var before := AfterWaits(c, f, times[..|times| - 1]).chan;
      FrameKeepsValid(before, f, Wrap32(times[|times| - 1]));
      OnCanFrame(before, f, Wrap32(times[|times| - 1]))
  }

  /** Each of the times lies within the timeout of the one before. */
  predicate WaitsInTime(c: Chan, times: seq<nat>) {
    && (times != [] ==> !Reached(Wrap32(times[0]), c.tx.deadline))
    && forall i :: 0 < i < |times| ==> times[i - 1] <= times[i] < times[i - 1] + c.cfg.flowControlTimeout
  }

  /** Exactly `maxWait` wait frames in a row are put up with; the next one ends the transmission. */
  lemma {:induction false} WaitsAreCounted(c: Chan, f: Frame, times: seq<nat>)
    requires Valid(c) && c.tx.state == WaitFlowControl && c.tx.waitCount == 0
    requires f.data[0] == 0x31 && 3 <= f.dlc <= 8 && WaitsInTime(c, times)
    requires |times| <= c.cfg.maxWait + 1
    ensures var o := AfterWaits(c, f, times);
            if |times| <= c.cfg.maxWait then
              && o.result == Wait && o.chan.rx == c.rx
              && o.chan.tx == c.tx.(waitCount := |times|, deadline := o.chan.tx.deadline)
              && (times != [] ==> o.chan.tx.deadline
                                  == Add32(Wrap32(times[|times| - 1]), c.cfg.flowControlTimeout))
              && o.chan.cfg == c.cfg
            else o == Outcome(o.chan, WaitLimit, None) && o.chan == c.(tx := IdleTx(c.tx.buffer))
    decreases |times|
  {
    hide Reached, Wrap32, Add32, Valid;
    if times != [] {
      var n := |times| - 1;
      WaitsAreCounted(c, f, times[..n]);
      var before := AfterWaits(c, f, times[..n]).chan;
      if n > 0 {
        InTimeAgain(before, times[n - 1], times[n]);
      }
      OneMoreWait(before, f, times[n]);
    }
  }

  lemma InTimeAgain(c: Chan, t: nat, t2: nat)
    requires c.tx.deadline == Add32(Wrap32(t), c.cfg.flowControlTimeout) && Valid(c)
    requires t <= t2 < t + c.cfg.flowControlTimeout
    ensures !Reached(Wrap32(t2), c.tx.deadline)
  {
    AddIsWrapped(t, c.cfg.flowControlTimeout);
    ReachedIsTrueOrder(t2, t + c.cfg.flowControlTimeout);
  }

  lemma OneMoreWait(c: Chan, f: Frame, t: nat)
    requires Valid(c) && c.tx.state == WaitFlowControl && !Reached(Wrap32(t), c.tx.deadline)
    requires f.data[0] == 0x31 && 3 <= f.dlc <= 8
    ensures OnCanFrame(c, f, Wrap32(t))
            == if c.tx.waitCount < c.cfg.maxWait then
                 Outcome(c.(tx := c.tx.(waitCount := c.tx.waitCount + 1,
                                        deadline := Add32(Wrap32(t), c.cfg.flowControlTimeout))), Wait, None)
               else Outcome(c.(tx := IdleTx(c.tx.buffer)), WaitLimit, None)
  {
    hide Reached, Wrap32, Add32;
  }

  /** An overflow status, a reserved status or a short frame ends the transmission. */
  lemma OtherStatusEnds(c: Chan, f: Frame, t: nat)
    requires Valid(c) && c.tx.state == WaitFlowControl && !Reached(Wrap32(t), c.tx.deadline)
    requires f.data[0] / 16 == 3 && 1 <= f.dlc <= 8
    requires f.dlc < 3 || f.data[0] >= 0x32
    ensures OnCanFrame(c, f, Wrap32(t))
            == Outcome(c.(tx := IdleTx(c.tx.buffer)),
                       if f.dlc >= 3 && f.data[0] == 0x32 then RemoteOverflow else InvalidFrame, None)
  {
    hide Reached, Wrap32;
  }

  // ---------------------------------------------------------------- what is accepted

  /** A payload is taken over exactly if it is not empty, fits, and nothing is being sent. */
  lemma TransmitIsExact(c: Chan, payload: seq<u8>, now: u32)
    requires Valid(c) && |payload| < 0x1_0000
    ensures var o, free := StartTransmit(c, payload, now), !(c.tx.state in {WaitFlowControl, SendConsecutive});
            && (o.result == FrameReady <==>
                  0 < |payload| <= 4095 && |payload| <= c.cfg.txCapacity && free)
            && (o.result != FrameReady ==> o.chan == c && o.reply == None)
            && (o.result == InvalidArgument <==> payload == [])
            && (o.result == PayloadTooLarge <==> |payload| > 4095 || |payload| > c.cfg.txCapacity)
  {
  }

  /** A message of one frame is taken exactly if nothing is held and its length is one that the frame carries. */
  lemma SingleIsExact(c: Chan, f: Frame, now: u32)
    requires Valid(c) && f.data[0] < 16 && 1 <= f.dlc <= 8
    ensures var o, n: nat := OnCanFrame(c, f, now), f.data[0];
            if c.rx.state == RxIdle && 1 <= n <= 7 && n <= c.cfg.rxCapacity && n < f.dlc then
              && o.result == MessageReady && o.reply == None && o.chan.tx == c.tx
              && o.chan.rx.state == RxComplete && o.chan.rx.length == n && o.chan.rx.buffer[..n] == f.data[1..1 + n]
            else o == Outcome(c, if c.rx.state == RxIdle then InvalidFrame else Busy, None)
  {
  }

  /** A longer one is opened exactly if nothing is held, the frame is full and the length fits. */
  lemma FirstIsExact(c: Chan, f: Frame, now: u32)
    requires Valid(c) && 16 <= f.data[0] < 32 && 1 <= f.dlc <= 8
    ensures var high: nat, o := f.data[0] - 16, OnCanFrame(c, f, now);
            var n := 256 * high + f.data[1];
            if c.rx.state != RxIdle then o == Outcome(c, Busy, None)
            else if f.dlc != 8 || n <= 7 then o == Outcome(c, InvalidFrame, None)
            else if n > c.cfg.rxCapacity then
              && o.chan == c && o.result == ReceiveOverflow && o.reply.Some?
              && o.reply.value.data[0] == 0x32 && o.reply.value.dlc == 8
            else
              && o.result == FrameReady && o.chan.tx == c.tx && o.chan.rx.state == Receiving
              && o.chan.rx.length == n && o.chan.rx.offset == 6 && o.chan.rx.buffer[..6] == f.data[2..]
              && o.reply.Some? && IsContinue(o.reply.value, c.cfg.blockSize, c.cfg.stMin)
  {
    hide Add32;
    ReplyBytes(c.cfg);
    hide FlowControl;
  }

  lemma ReplyBytes(cfg: Config)
    ensures IsContinue(FlowControl(cfg, FLOW_CONTINUE), cfg.blockSize, cfg.stMin)
    ensures FlowControl(cfg, FLOW_OVERFLOW).data[0] == 0x32 && FlowControl(cfg, FLOW_OVERFLOW).dlc == 8
  {
    var f := FlowControl(cfg, FLOW_CONTINUE);
    assert f.data[..3] == [0x30, cfg.blockSize, cfg.stMin];
    assert f.data[0] == f.data[..3][0] && f.data[1] == f.data[..3][1] && f.data[2] == f.data[..3][2];
  }

  /**
   * A consecutive frame is taken exactly if a reception is open and not late, it has the next number, and it
   * carries the seven bytes that come next, or all that are missing; otherwise it ends the reception.
   */
  lemma ConsecutiveIsExact(c: Chan, f: Frame, now: u32)
    requires Valid(c) && 32 <= f.data[0] < 48 && 1 <= f.dlc <= 8
    ensures var o := OnCanFrame(c, f, now);
            var left := c.rx.length - c.rx.offset;
            var n := if left < 7 then left else 7;
            if c.rx.state != Receiving then o == Outcome(c, UnexpectedFrame, None)
            else if Reached(now, c.rx.deadline) then o == Outcome(c.(rx := IdleRx(c.rx.buffer)), Timeout, None)
            else if f.data[0] - 32 != c.rx.nextSequence then
              o == Outcome(c.(rx := IdleRx(c.rx.buffer)), SequenceError, None)
            else if n >= f.dlc then o == Outcome(c.(rx := IdleRx(c.rx.buffer)), InvalidFrame, None)
            else
              && o.chan.tx == c.tx && o.chan.rx.offset == c.rx.offset + n
              && o.chan.rx.buffer[..c.rx.offset + n] == c.rx.buffer[..c.rx.offset] + f.data[1..1 + n]
              && (o.result == MessageReady <==> n == left) && (n == left <==> o.chan.rx.state == RxComplete)
  {
    hide Add32, Reached, FlowControl;
    if c.rx.state == Receiving && !Reached(now, c.rx.deadline) && f.data[0] - 32 == c.rx.nextSequence {
      ConsecutiveKeepsValid(c, f, now);
      var rx := OnCanFrame(c, f, now).chan.rx;
      var n := Min(c.rx.length - c.rx.offset, 7);
      if n < f.dlc {
        var to := c.rx.offset + n;
        assert rx.buffer == Splice(c.rx.buffer, c.rx.offset, f.data[1..1 + n]);
        assert rx.buffer[..to] == rx.buffer[..c.rx.offset] + rx.buffer[c.rx.offset..to];
      }
    }
  }
}
