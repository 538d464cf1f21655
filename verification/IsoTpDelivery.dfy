/** When nothing goes wrong every message arrives: prompt runs are finite, and they can only stop when the message
    has been delivered, success reported and both contexts freed. */
module IsoTpDelivery {
  import opened IsoTpFrame
  import opened IsoTpLink
  import opened IsoTpSafety
  import opened IsoTpLockstep
  import opened IsoTpAccounting
  import opened IsoTpEnding
  import opened IsoTpErrors
  import opened Wrappers
  import Tx = IsoTpSender
  import Rx = IsoTpReceiver

  /** Nothing is lost, refused or short of memory, and the only timer that expires is the separation
      time. */
  predicate Prompt(s: System, a: Action) {
    match a
    case TxWork(_, accept) => accept.Taken?
    case TxResume(_, accept) => accept.Taken?
    case TxTimer => s.tx.Some? && s.tx.value.state == Tx.SendCf
    case TxComplete(lost, failed) => !lost && !failed
    case TxFlow => true
    case RxFrame(allocOk) => allocOk
    case RxWork => true
    case RxTimer => false
    case FcComplete(lost, failed) => !lost && !failed
    case LoseData(_) => false
    case LoseFlow(_) => false
  }

  /** The message is short enough for the receive buffers where no flow control limits it. */
  predicate Deliverable(cfg: Config, msg: seq<Byte>) {
    Sendable(cfg, msg) && (|msg| > cfg.SfMax() ==> !Refused(cfg, msg))
  }

  predicate Done(msg: seq<Byte>, s: System) {
    && s.tx.None? && s.rx.None?
    && s.delivered == [msg] && s.results == [Ok] && s.errors == []
  }

  // ----- what holds in prompt runs

  predicate Contiguous(flight: seq<Packet>, seen: int, next: nat) {
    && |flight| == next - 1 - seen
    && forall i | 0 <= i < |flight| :: flight[i].index == seen + 1 + i
  }

  /** The sender always has something to do or something to wait for. */
  predicate TxAlive(tx: Option<Tx.SendCtx>, outstanding: bool, results: seq<Status>) {
    match tx
    case None => results == [Ok]
    case Some(c) =>
      && results == []
      && c.state != Tx.TxErr
      && (c.single ==> c.state == Tx.SendFf)
      && (c.state == Tx.WaitFin ==> c.work)
      && (c.state == Tx.SendCf && !c.blocked ==> c.work || c.timer)
      && (c.state == Tx.WaitSt ==> c.work || outstanding)
  }

  /** So has the receiver, and it has appended every frame that arrived. */
  predicate RxAlive(cfg: Config, msg: seq<Byte>, s: System) {
    && cfg.Valid()
    && s.errors == []
    && match s.rx
       case None =>
         s.seen >= 0 ==> s.delivered == [msg] && (|msg| > cfg.SfMax() ==> Offset(cfg, |msg|, s.seen) == |msg|)
       case Some(c) =>
         && c.state != Rx.RxErr && c.state != Rx.SendWait
         && (c.state != Rx.WaitFfSf && c.state != Rx.WaitCf ==> c.work)
         && (|msg| > cfg.SfMax() ==> s.accepted == s.lastAccepted == s.seen)
  }

  /** Every clear-to-send frame that was sent is taken up or still under way. */
  predicate FlowAlive(s: System) {
    && (forall f <- Flow(s) :: IsCts(f))
    && s.ctsSent == s.grants + |Flow(s)|
  }

  predicate Smooth(cfg: Config, msg: seq<Byte>, s: System) {
    && Typed(cfg, msg, s) && Accounted(cfg, msg, s) && Deliverable(cfg, msg)
    && Contiguous(InFlight(s), s.seen, s.next)
    && TxAlive(s.tx, s.outbox != [], s.results)
    && RxAlive(cfg, msg, s)
    && FlowAlive(s)
    && (|msg| <= cfg.SfMax() ==> Flow(s) == [] && s.next == 1)
  }

  lemma StartsSmooth(cfg: Config, msg: seq<Byte>, s: System)
    requires Deliverable(cfg, msg) && Initial(cfg, msg, s)
    ensures Smooth(cfg, msg, s)
  {
    StartsAccounted(cfg, msg, s);
    hide Accounted, Deliverable, Offset;
  }

  // ----- the sender

  lemma HandlersStayAlive(cfg: Config, msg: seq<Byte>, c: Tx.SendCtx, outstanding: bool, pad: seq<Byte>)
    requires TxAlive(Some(c), outstanding, []) && c.Ready(cfg, msg) && cfg.Valid() && |pad| == cfg.dlen
    ensures c.work && !c.blocked ==>
              var out := Tx.Work(cfg, msg, c, pad, Taken);
              TxAlive(out.ctx, outstanding || out.frames != [], out.results)
    ensures c.blocked ==>
              var out := Tx.Resume(cfg, msg, c, pad, Taken);
              TxAlive(out.ctx, outstanding || out.frames != [], out.results)
    ensures var out := Tx.Completed(c, false); TxAlive(out.ctx, false, out.results) && out.frames == []
  {
  }

  /** The effects of a handler of the sender that emits what it wants to emit. */
  lemma SentStaysSmooth(cfg: Config, msg: seq<Byte>, s: System, out: Tx.TxOut)
    requires Smooth(cfg, msg, s) && s.tx.Some? && |out.frames| <= 1
    requires Typed(cfg, msg, Sent(s, out, s.next + |out.frames|))
    requires Accounted(cfg, msg, Sent(s, out, s.next + |out.frames|))
    requires TxAlive(out.ctx, s.outbox != [] || out.frames != [], out.results)
    requires |msg| > cfg.SfMax()
    ensures Smooth(cfg, msg, Sent(s, out, s.next + |out.frames|))
  {
    hide Accounted, Typed;
    var s' := Sent(s, out, s.next + |out.frames|);
    assert Flow(s') == Flow(s);
    assert s'.results == out.results;
    if out.frames == [] {
      assert InFlight(s') == InFlight(s);
    } else {
      assert InFlight(s') == InFlight(s) + [Packet(s.next, out.frames[0])];
    }
  }

  /** A single frame keeps its sender busy until it has left. */
  lemma ShortIsSent(cfg: Config, msg: seq<Byte>, s: System, a: Action)
    requires Smooth(cfg, msg, s) && |msg| <= cfg.SfMax() && Enabled(cfg, msg, s, a) && Prompt(s, a)
    ensures !a.TxWork? && !a.TxResume? && !a.TxTimer?
  {
  }

  lemma TxStaysSmooth(cfg: Config, msg: seq<Byte>, s: System, a: Action)
    requires Smooth(cfg, msg, s) && Enabled(cfg, msg, s, a) && Prompt(s, a)
    requires a.TxWork? || a.TxResume? || a.TxTimer?
    requires Accounted(cfg, msg, Next(cfg, msg, s, a))
    ensures Smooth(cfg, msg, Next(cfg, msg, s, a))
  {
    hide Tx.Work, Tx.Resume, Accounted;
    NextTyped(cfg, msg, s, a);
    if |msg| <= cfg.SfMax() {
      ShortIsSent(cfg, msg, s, a);
    }
    var c := s.tx.value;
    match a {
      case TxWork(pad, accept) =>
        HandlersStayAlive(cfg, msg, c, s.outbox != [], pad);
        if c.state == Tx.SendFf {
          FirstIsEmitted(cfg, msg, s, pad);
        }
        SentStaysSmooth(cfg, msg, s, Tx.Work(cfg, msg, c, pad, Taken));
      case TxResume(pad, accept) =>
        HandlersStayAlive(cfg, msg, c, s.outbox != [], pad);
        SentStaysSmooth(cfg, msg, s, Tx.Resume(cfg, msg, c, pad, Taken));
      case TxTimer =>
        assert Flow(Next(cfg, msg, s, a)) == Flow(s) && InFlight(Next(cfg, msg, s, a)) == InFlight(s);
    }
  }

  lemma FirstIsEmitted(cfg: Config, msg: seq<Byte>, s: System, pad: seq<Byte>)
    requires Accounted(cfg, msg, s) && Enabled(cfg, msg, s, TxWork(pad, Taken)) && s.tx.value.state == Tx.SendFf
    ensures s.next == 0 && |Tx.Work(cfg, msg, s.tx.value, pad, Taken).frames| == 1
  {
  }

  lemma CompletionStaysSmooth(cfg: Config, msg: seq<Byte>, s: System)
    requires Smooth(cfg, msg, s) && s.outbox != []
    requires Accounted(cfg, msg, Next(cfg, msg, s, TxComplete(false, false)))
    ensures Smooth(cfg, msg, Next(cfg, msg, s, TxComplete(false, false)))
  {
    hide Tx.Completed, Accounted;
    NextTyped(cfg, msg, s, TxComplete(false, false));
    var s' := Next(cfg, msg, s, TxComplete(false, false));
    if s.tx.Some? {
      HandlersStayAlive(cfg, msg, s.tx.value, true, seq(cfg.dlen, _ => 0));
    }
    assert Flow(s') == Flow(s) && InFlight(s') == InFlight(s);
  }

  // ----- flow control

  /** There is something left to send when a clear-to-send frame is under way. */
  lemma FlowHasPurpose(cfg: Config, msg: seq<Byte>, s: System)
    requires InStep(cfg, msg, s) && CtsUnderWay(Flow(s))
    ensures s.next > 0 && Offset(cfg, |msg|, s.next - 1) < |msg|
  {
    hide Core;
    assert Core(cfg, msg, s) && s.next > 0 by { SeenIsPast(cfg, msg, s); }
    if cfg.bs > 0 {
      SpanMonotone(cfg, s.next - 1, Quota(cfg, s.grants));
    }
  }

  lemma SeenIsPast(cfg: Config, msg: seq<Byte>, s: System)
    requires Core(cfg, msg, s) && Flow(s) != []
    ensures s.next > 0
  {
    assert s.fcOutbox + s.fcWire != [];
  }

  /** It finds the sender waiting for it. */
  lemma FlowIsAwaited(cfg: Config, msg: seq<Byte>, s: System)
    requires Smooth(cfg, msg, s) && Flow(s) != []
    ensures |Flow(s)| == 1 && s.tx.Some? && s.tx.value.state == Tx.WaitFc && !s.tx.value.blocked
  {
    assert Flow(s)[0] in Flow(s);
    FlowHasPurpose(cfg, msg, s);
    assert s.ctsSent == s.grants + 1;
  }

  lemma FlowStaysSmooth(cfg: Config, msg: seq<Byte>, s: System)
    requires Smooth(cfg, msg, s) && s.fcWire != [] && Accounted(cfg, msg, Next(cfg, msg, s, TxFlow))
    ensures Smooth(cfg, msg, Next(cfg, msg, s, TxFlow))
  {
    hide Accounted;
    var s' := Next(cfg, msg, s, TxFlow);
    assert s.fcWire[0] == Flow(s)[0] && Flow(s)[0] in Flow(s);
    FlowIsAwaited(cfg, msg, s);
    CtsStaysAlive(cfg, msg, s, s.fcWire[0]);
    assert Flow(s') == Flow(s)[1..] && InFlight(s') == InFlight(s);
  }

  lemma CtsStaysAlive(cfg: Config, msg: seq<Byte>, s: System, f: CanFrame)
    requires Accounted(cfg, msg, s) && LongMessage(cfg, msg) && f in Flow(s) && IsCts(f)
    requires s.tx.Some? && s.tx.value.state == Tx.WaitFc && TxAlive(s.tx, s.outbox != [], s.results)
    ensures WellFormed(cfg, f) && TxAlive(Some(Tx.CanRx(cfg, s.tx.value, f)), s.outbox != [], s.results)
  {
  }

  lemma FlowSentStaysSmooth(cfg: Config, msg: seq<Byte>, s: System)
    requires Smooth(cfg, msg, s) && s.fcOutbox != []
    requires Accounted(cfg, msg, Next(cfg, msg, s, FcComplete(false, false)))
    ensures Smooth(cfg, msg, Next(cfg, msg, s, FcComplete(false, false)))
  {
    hide Accounted;
    var s' := Next(cfg, msg, s, FcComplete(false, false));
    assert Flow(s') == Flow(s) && InFlight(s') == InFlight(s);
  }

  // ----- the receiver

  /** Frames in flight find the receiver waiting for exactly the first of them. */
  lemma FrameIsAwaited(cfg: Config, msg: seq<Byte>, s: System)
    requires Smooth(cfg, msg, s) && |msg| > cfg.SfMax() && s.wire != [] && s.seen >= 0
    ensures s.rx.Some? && s.rx.value.state == Rx.WaitCf && Rx.Continues(s.rx.value, s.wire[0].frame)
    ensures s.wire[0].index == s.seen + 1
  {
    var p := InFlight(s)[0];
    assert p == s.wire[0] && p in InFlight(s);
    LastIsNotYetSeen(cfg, msg, s, p);
    if cfg.bs > 0 {
      QuotaMonotone(cfg, s.grants, s.ctsSent);
    }
  }

  lemma LastIsNotYetSeen(cfg: Config, msg: seq<Byte>, s: System, p: Packet)
    requires Core(cfg, msg, s) && |msg| > cfg.SfMax() && p in InFlight(s) && s.seen >= 0
    ensures Offset(cfg, |msg|, s.seen) < |msg|
  {
    SpanMonotone(cfg, s.seen, p.index - 1);
  }

  lemma FrameStaysSmooth(cfg: Config, msg: seq<Byte>, s: System)
    requires Smooth(cfg, msg, s) && s.wire != [] && Accounted(cfg, msg, Next(cfg, msg, s, RxFrame(true)))
    ensures Smooth(cfg, msg, Next(cfg, msg, s, RxFrame(true)))
  {
    hide Typed, RxAlive, TxAlive;
    hide Accounted;
    NextTyped(cfg, msg, s, RxFrame(true));
    var s' := Next(cfg, msg, s, RxFrame(true));
    var p := InFlight(s)[0];
    assert p == s.wire[0] && p in InFlight(s);
    assert Flow(s') == Flow(s) && InFlight(s') == InFlight(s)[1..];
    FrameStaysAlive(cfg, msg, s);
  }

  lemma FrameStaysAlive(cfg: Config, msg: seq<Byte>, s: System)
    requires Smooth(cfg, msg, s) && s.wire != []
    ensures RxAlive(cfg, msg, Next(cfg, msg, s, RxFrame(true)))
  {
    var p := InFlight(s)[0];
    assert p == s.wire[0] && p in InFlight(s);
    if s.seen < 0 {
      OpeningStaysAlive(cfg, msg, p.frame);
    } else if |msg| > cfg.SfMax() {
      FrameIsAwaited(cfg, msg, s);
      ContinuationStaysAlive(cfg, s.rx.value, p.frame);
    } else {
      assert false;
    }
  }

  lemma OpeningStaysAlive(cfg: Config, msg: seq<Byte>, f: CanFrame)
    requires Sendable(cfg, msg) && (IsSingle(cfg, msg, f) || IsFirst(cfg, msg, f))
    ensures var rx := Rx.CanRx(cfg, None, f, true);
            rx.Some? && rx.value.work && (rx.value.state == Rx.ProcessSf || rx.value.state == Rx.ProcessFf)
  {
  }

  lemma ContinuationStaysAlive(cfg: Config, c: Rx.RecvCtx, f: CanFrame)
    requires c.state == Rx.WaitCf && WellFormed(cfg, f) && Rx.Continues(c, f)
    ensures var rx := Rx.CanRx(cfg, Some(c), f, true);
            && rx.Some?
            && (rx.value.state == Rx.WaitCf
                || (rx.value.work && (rx.value.state == Rx.TryAlloc || rx.value.state == Rx.Recycle)))
  {
  }

  lemma RxWorkStaysSmooth(cfg: Config, msg: seq<Byte>, s: System)
    requires Smooth(cfg, msg, s) && s.rx.Some? && s.rx.value.work
    requires Accounted(cfg, msg, Next(cfg, msg, s, RxWork))
    ensures Smooth(cfg, msg, Next(cfg, msg, s, RxWork))
  {
    hide Accounted, Rx.Work;
    NextTyped(cfg, msg, s, RxWork);
    var s' := Next(cfg, msg, s, RxWork);
    RxWorkStaysAlive(cfg, msg, s);
    assert Flow(s') == Flow(s) + Rx.Work(cfg, s.rx.value).fcs;
    assert InFlight(s') == InFlight(s);
  }

  lemma RxWorkStaysAlive(cfg: Config, msg: seq<Byte>, s: System)
    requires Smooth(cfg, msg, s) && s.rx.Some? && s.rx.value.work
    ensures var out := Rx.Work(cfg, s.rx.value);
            && (out.fcs == [] || (out.fcs == [FlowControl(cfg, Cts)] && |msg| > cfg.SfMax()))
            && RxAlive(cfg, msg, Next(cfg, msg, s, RxWork))
  {
    var c := s.rx.value;
    if |msg| > cfg.SfMax() && c.state == Rx.Recycle {
      CompleteIsWhole(cfg, msg, c, ProgressOf(s));
    }
  }

  // ----- every action

  lemma StepStaysSmooth(cfg: Config, msg: seq<Byte>, s: System, a: Action)
    requires Smooth(cfg, msg, s) && Enabled(cfg, msg, s, a) && Prompt(s, a)
    ensures Smooth(cfg, msg, Next(cfg, msg, s, a))
  {
    hide Accounted, TxAlive, RxAlive, FlowAlive;
    StepStaysAccounted(cfg, msg, s, a);
    match a {
      case TxComplete(_, _) => CompletionStaysSmooth(cfg, msg, s);
      case TxFlow => FlowStaysSmooth(cfg, msg, s);
      case FcComplete(_, _) => FlowSentStaysSmooth(cfg, msg, s);
      case RxFrame(_) => FrameStaysSmooth(cfg, msg, s);
      case RxWork => RxWorkStaysSmooth(cfg, msg, s);
      case _ => TxStaysSmooth(cfg, msg, s, a);
    }
  }

  // ----- progress

  /** Where nothing can be done any more, everything has been done. */
  lemma StuckMeansDone(cfg: Config, msg: seq<Byte>, s: System)
    requires Smooth(cfg, msg, s)
    requires s.outbox == s.wire == [] && s.fcOutbox == s.fcWire == []
    requires s.rx.Some? ==> !s.rx.value.work
    requires s.tx.Some? ==>
               var c := s.tx.value;
               (if c.blocked then !c.sem else !c.work) && !(c.state == Tx.SendCf && c.timer)
    ensures Done(msg, s)
  {
    assert InFlight(s) == [] && Flow(s) == [];
    if s.tx.Some? || s.rx.Some? {
      assert false;
    }
  }

  lemma SomethingToDo(cfg: Config, msg: seq<Byte>, s: System) returns (a: Action)
    requires Smooth(cfg, msg, s) && !Done(msg, s)
    ensures Enabled(cfg, msg, s, a) && Prompt(s, a)
  {
    var pad: seq<Byte> := seq(cfg.dlen, _ => 0);
    if s.outbox != [] {
      a := TxComplete(false, false);
    } else if s.wire != [] {
      a := RxFrame(true);
    } else if s.fcOutbox != [] {
      a := FcComplete(false, false);
    } else if s.fcWire != [] {
      a := TxFlow;
    } else if s.rx.Some? && s.rx.value.work {
      a := RxWork;
    } else if s.tx.Some? && s.tx.value.work && !s.tx.value.blocked {
      a := TxWork(pad, Taken);
    } else if s.tx.Some? && s.tx.value.blocked && s.tx.value.sem {
      a := TxResume(pad, Taken);
    } else {
      a := TxTimer;
      if !(s.tx.Some? && s.tx.value.state == Tx.SendCf && s.tx.value.timer) {
        StuckMeansDone(cfg, msg, s);
      }
    }
  }

  predicate PromptRun(cfg: Config, msg: seq<Byte>, s: System, run: seq<Action>)
    requires Legal(cfg, msg, s, run)
    decreases |run|
  {
    run != [] ==> Prompt(s, run[0]) && PromptRun(cfg, msg, Next(cfg, msg, s, run[0]), run[1..])
  }

  lemma SmoothNeverWaits(cfg: Config, msg: seq<Byte>, s: System, a: Action)
    requires Smooth(cfg, msg, s)
    ensures !Waits(s, a)
  {
  }

  lemma {:induction false} PromptRunStaysSmooth(cfg: Config, msg: seq<Byte>, s: System, run: seq<Action>)
    requires Smooth(cfg, msg, s) && Awake(cfg, msg, s) && Legal(cfg, msg, s, run) && PromptRun(cfg, msg, s, run)
    ensures Smooth(cfg, msg, Run(cfg, msg, s, run))
    ensures |run| + Weight(cfg, Run(cfg, msg, s, run)) <= Weight(cfg, s)
    decreases |run|
  {
    hide Smooth, Weight, Awake, Waits;
    if run != [] {
      StepStaysSmooth(cfg, msg, s, run[0]);
      StepStaysAwake(cfg, msg, s, run[0]);
      SmoothNeverWaits(cfg, msg, s, run[0]);
      StepUsesWeight(cfg, msg, s, run[0]);
      PromptRunStaysSmooth(cfg, msg, Next(cfg, msg, s, run[0]), run[1..]);
    }
  }

  /** Delivery and termination: a prompt run from the start has a bounded number of actions, and unless the
      message has been delivered, success reported and both contexts freed, it can go on. */
  lemma PromptRunsDeliver(cfg: Config, msg: seq<Byte>, s: System, run: seq<Action>)
    requires Deliverable(cfg, msg) && Initial(cfg, msg, s)
    requires Legal(cfg, msg, s, run) && PromptRun(cfg, msg, s, run)
    ensures |run| <= Weight(cfg, s)
    ensures var end := Run(cfg, msg, s, run);
            Done(msg, end) || exists a :: Enabled(cfg, msg, end, a) && Prompt(end, a)
  {
    StartsSmooth(cfg, msg, s);
    StartsAwake(cfg, msg, s);
    PromptRunStaysSmooth(cfg, msg, s, run);
    var end := Run(cfg, msg, s, run);
    if !Done(msg, end) {
      var a := SomethingToDo(cfg, msg, end);
    }
  }

  /** The condition is needed: a message that is too long for the receive buffers is never delivered when
      no flow control limits it. */
  lemma RefusedIsNeverDelivered(cfg: Config, msg: seq<Byte>, s: System)
    requires LongMessage(cfg, msg) && Refused(cfg, msg) && Reachable(cfg, msg, s)
    ensures s.delivered == []
  {
    ReachableInStep(cfg, msg, s);
  }

  // ----- a refused message

  /** How far a refusal has got: the first frame is on its way, the receiver has it, the overflow frame is on its way
      back, the sender knows. */
  predicate Refusing(s: System) {
    && s.delivered == []
    && (s.tx.Some? ==> s.results == [] && !s.tx.value.blocked)
    && if s.seen < 0 then
         && s.rx.None? && Flow(s) == [] && s.errors == [] && s.tx.Some?
         && (s.tx.value.state == Tx.SendFf || (s.tx.value.state == Tx.WaitFc && InFlight(s) != []))
       else if s.rx.Some? then
         && s.rx.value.state == Rx.ProcessFf && s.rx.value.work && Flow(s) == [] && s.errors == []
         && s.tx.Some? && s.tx.value.state == Tx.WaitFc
       else
         && s.errors == [BufferOverflow]
         && if Flow(s) == [] then
              if s.tx.None? then s.results == [BufferOverflow]
              else s.tx.value.state == Tx.TxErr && s.tx.value.error == BufferOverflow && s.tx.value.work
            else
              && |Flow(s)| == 1 && |Flow(s)[0].data| > 0 && PciType(Flow(s)[0]) == TYPE_FC
              && FlowStatusOf(Flow(s)[0]) == Overflow && s.tx.Some? && s.tx.value.state == Tx.WaitFc
  }

  predicate BothRefused(s: System) {
    s.tx.None? && s.rx.None? && s.delivered == [] && s.results == [BufferOverflow] && s.errors == [BufferOverflow]
  }

  /** Nothing but the first frame is ever sent. */
  lemma OnlyFirst(cfg: Config, msg: seq<Byte>, s: System)
    requires Awake(cfg, msg, s) && LongMessage(cfg, msg) && Refused(cfg, msg)
    ensures Typed(cfg, msg, s) && (s.tx.Some? ==> !s.tx.value.single) && (s.seen >= 0 ==> InFlight(s) == [])
    ensures s.tx.Some? && s.tx.value.state == Tx.SendFf ==> InFlight(s) == []
    ensures s.wire != [] ==> var f := s.wire[0].frame;
              WellFormed(cfg, f) && IsFirst(cfg, msg, f) && s.wire[0].index == 0
  {
    hide RxOk, DeliveryOk, TxAccounted, ResultsAccounted, TxAwake, RxAwake;
    assert s.grants == 0;
    if InFlight(s) != [] {
      assert InFlight(s)[0] in InFlight(s);
    }
  }

  lemma RefusingTx(cfg: Config, msg: seq<Byte>, s: System, a: Action)
    requires Typed(cfg, msg, s) && Enabled(cfg, msg, s, a) && Prompt(s, a) && Refusing(s)
    requires (s.tx.Some? ==> !s.tx.value.single) && (s.seen >= 0 ==> InFlight(s) == [])
    requires a.TxWork? || a.TxResume? || a.TxTimer?
    ensures Refusing(Next(cfg, msg, s, a))
  {
    hide FirstFrame, ConsecutiveFrame, Tx.TypedOut, Tx.Take, Typed;
    var s' := Next(cfg, msg, s, a);
    assert Flow(s') == Flow(s);
    if a.TxWork? && s.tx.value.state == Tx.SendFf {
      assert s'.outbox != [];
    } else {
      assert s.outbox + [] == s.outbox;
    }
  }

  lemma RefusingComplete(cfg: Config, msg: seq<Byte>, s: System)
    requires Typed(cfg, msg, s) && s.outbox != [] && Refusing(s)
    requires (s.tx.Some? ==> !s.tx.value.single) && (s.seen >= 0 ==> InFlight(s) == [])
    ensures Refusing(Next(cfg, msg, s, TxComplete(false, false)))
  {
    hide Typed;
    var s' := Next(cfg, msg, s, TxComplete(false, false));
    assert Flow(s') == Flow(s) && InFlight(s') == InFlight(s);
  }

  lemma RefusingFlow(cfg: Config, msg: seq<Byte>, s: System, a: Action)
    requires Typed(cfg, msg, s) && Enabled(cfg, msg, s, a) && Prompt(s, a) && Refusing(s)
    requires a.TxFlow? || a.FcComplete?
    ensures Refusing(Next(cfg, msg, s, a))
  {
    hide Typed;
    var s' := Next(cfg, msg, s, a);
    if a.FcComplete? {
      assert Flow(s') == Flow(s);
    } else {
      assert Flow(s)[0] == s.fcWire[0];
      assert Flow(s') == [];
    }
  }

  lemma RefusingRx(cfg: Config, msg: seq<Byte>, s: System, a: Action)
    requires Typed(cfg, msg, s) && Enabled(cfg, msg, s, a) && Prompt(s, a) && Refusing(s)
    requires Refused(cfg, msg) && (s.seen >= 0 ==> InFlight(s) == [])
    requires s.tx.Some? && s.tx.value.state == Tx.SendFf ==> InFlight(s) == []
    requires s.wire != [] ==> var f := s.wire[0].frame;
               WellFormed(cfg, f) && IsFirst(cfg, msg, f) && s.wire[0].index == 0
    requires s.rx.Some? && s.rx.value.state == Rx.ProcessFf ==> s.rx.value.remLen == |msg| - (cfg.dlen - 2)
    requires a.RxFrame? || a.RxWork?
    ensures Refusing(Next(cfg, msg, s, a))
  {
    hide Typed;
    var s' := Next(cfg, msg, s, a);
    if a.RxFrame? {
      assert Flow(s') == Flow(s);
      assert s.seen < 0;
    } else {
      assert s'.errors == [] + [BufferOverflow] == [BufferOverflow];
      assert Flow(s') == Flow(s) + [FlowControl(cfg, Overflow)] == [FlowControl(cfg, Overflow)];
    }
  }

  lemma StepStaysRefusing(cfg: Config, msg: seq<Byte>, s: System, a: Action)
    requires Awake(cfg, msg, s) && LongMessage(cfg, msg) && Refused(cfg, msg)
    requires Enabled(cfg, msg, s, a) && Prompt(s, a) && Refusing(s)
    ensures Refusing(Next(cfg, msg, s, a))
  {
    OnlyFirst(cfg, msg, s);
    if s.rx.Some? {
      AsRefused(cfg, msg, s);
    }
    hide Awake, Refusing, Typed;
    match a {
      case TxFlow => RefusingFlow(cfg, msg, s, a);
      case FcComplete(_, _) => RefusingFlow(cfg, msg, s, a);
      case RxFrame(_) => RefusingRx(cfg, msg, s, a);
      case RxWork => RefusingRx(cfg, msg, s, a);
      case TxComplete(_, _) => RefusingComplete(cfg, msg, s);
      case _ => RefusingTx(cfg, msg, s, a);
    }
  }

  lemma {:induction false} PromptRunStaysRefusing(cfg: Config, msg: seq<Byte>, s: System, run: seq<Action>)
    requires Awake(cfg, msg, s) && LongMessage(cfg, msg) && Refused(cfg, msg) && Refusing(s)
    requires Legal(cfg, msg, s, run) && PromptRun(cfg, msg, s, run)
    ensures var end := Run(cfg, msg, s, run);
            Refusing(end) && Awake(cfg, msg, end) && |run| + Weight(cfg, end) <= Weight(cfg, s)
    decreases |run|
  {
    hide Refusing, Weight, Awake, Waits;
    if run != [] {
      StepStaysRefusing(cfg, msg, s, run[0]);
      StepStaysAwake(cfg, msg, s, run[0]);
      RefusingNeverWaits(s, run[0]);
      StepUsesWeight(cfg, msg, s, run[0]);
      PromptRunStaysRefusing(cfg, msg, Next(cfg, msg, s, run[0]), run[1..]);
    }
  }

  lemma RefusingNeverWaits(s: System, a: Action)
    requires Refusing(s)
    ensures !Waits(s, a)
  {
  }

  lemma RefusalGoesOn(cfg: Config, msg: seq<Byte>, s: System) returns (a: Action)
    requires Awake(cfg, msg, s) && LongMessage(cfg, msg) && Refusing(s) && !BothRefused(s)
    ensures Enabled(cfg, msg, s, a) && Prompt(s, a)
  {
    var pad: seq<Byte> := seq(cfg.dlen, _ => 0);
    a := if s.outbox != [] then TxComplete(false, false)
         else if s.wire != [] then RxFrame(true)
         else if s.fcOutbox != [] then FcComplete(false, false)
         else if s.fcWire != [] then TxFlow
         else if s.rx.Some? then RxWork
         else TxWork(pad, Taken);
    hide Core, InStep, ResultsAccounted;
  }

  /** Such a message is refused for both: a prompt run is bounded and can go on until sender and receiver have each
      reported the overflow, and nothing else, and are gone. */
  lemma RefusalIsReported(cfg: Config, msg: seq<Byte>, s: System, run: seq<Action>)
    requires LongMessage(cfg, msg) && Refused(cfg, msg) && Initial(cfg, msg, s)
    requires Legal(cfg, msg, s, run) && PromptRun(cfg, msg, s, run)
    ensures |run| <= Weight(cfg, s)
    ensures var end := Run(cfg, msg, s, run);
            BothRefused(end) || exists a :: Enabled(cfg, msg, end, a) && Prompt(end, a)
  {
    StartsAwake(cfg, msg, s);
    PromptRunStaysRefusing(cfg, msg, s, run);
    var end := Run(cfg, msg, s, run);
    if !BothRefused(end) {
      var a := RefusalGoesOn(cfg, msg, end);
    }
  }
}
