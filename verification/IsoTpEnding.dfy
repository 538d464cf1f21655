/** Every transfer comes to an end, whatever is lost: as long as a context is there it has something to do or to
    wait for, runs are bounded, and who ends reports it once. There is one exception, a consecutive frame that the
    driver refuses. */
module IsoTpEnding {
  import opened IsoTpFrame
  import opened IsoTpLink
  import opened IsoTpSafety
  import opened IsoTpLockstep
  import opened IsoTpAccounting
  import opened IsoTpWindow
  import opened Wrappers
  import Tx = IsoTpSender
  import Rx = IsoTpReceiver

  // ----- who waits for what

  /** The sender has work to do, waits for a timer or for one of its `n` frames to complete, or has been left in the
      error state with nothing to wake it up. */
  predicate TxAwake(tx: Option<Tx.SendCtx>, n: nat) {
    tx.Some? ==>
      var c := tx.value;
      !c.single ==>
        && (c.state == Tx.SendFf || c.state == Tx.WaitFin ==> c.work)
        && (c.state == Tx.WaitFc ==> c.timer)
        && (c.state == Tx.SendCf && !c.blocked ==> c.work || c.timer)
        && (c.blocked && c.sem ==> c.work)
        && (c.state == Tx.WaitSt ==> c.work || n > 0)
        && (c.state == Tx.TxErr && !c.blocked ==> c.work || (n == 0 && !c.timer))
  }

  /** The receiver has work to do or waits for its timer. */
  predicate RxAwake(rx: Option<Rx.RecvCtx>) {
    rx.Some? ==>
      var c := rx.value;
      && (c.state == Rx.WaitCf ==> c.timer)
      && (c.state == Rx.TryAlloc ==> c.work || c.timer)
      && (c.state != Rx.WaitCf && c.state != Rx.TryAlloc ==> c.work)
      && (c.state == Rx.RxErr ==> c.error != BufferOverflow)
  }

  /** Each end reports once, and then it is gone. */
  predicate Reported(s: System) {
    && (s.tx.None? ==> |s.results| == 1)
    && (s.rx.Some? || s.seen < 0 ==> s.delivered == [] && s.errors == [])
    && (s.rx.Some? ==> s.seen >= 0)
    && |s.delivered| + |s.errors| <= 1
  }

  predicate Awake(cfg: Config, msg: seq<Byte>, s: System) {
    Accounted(cfg, msg, s) && TxAwake(s.tx, |s.outbox|) && RxAwake(s.rx) && Reported(s)
  }

  lemma StartsAwake(cfg: Config, msg: seq<Byte>, s: System)
    requires Sendable(cfg, msg) && Initial(cfg, msg, s)
    ensures Awake(cfg, msg, s)
  {
    StartsAccounted(cfg, msg, s);
    hide Accounted;
  }

  // ----- the sender

  lemma CfStaysAwake(cfg: Config, msg: seq<Byte>, c: Tx.SendCtx, pad: seq<Byte>, accept: Answer)
    requires cfg.Valid() && |pad| == cfg.dlen && c.Ready(cfg, msg)
    requires !c.single && !c.blocked && (c.stmin == 0 ==> !c.sem)
    requires c.state == Tx.SendCf || (c.state == Tx.TxErr && c.work)
    requires c.state == Tx.SendCf && !c.work ==> !c.timer
    ensures var out := Tx.RunCf(cfg, msg, c, pad, accept);
            out.ctx.Some? && TxAwake(out.ctx, |out.frames|) && out.results == []
  {
    hide ConsecutiveFrame, Tx.Take;
  }

  lemma WorkStaysAwake(cfg: Config, msg: seq<Byte>, c: Tx.SendCtx, n: nat, grants: nat, pad: seq<Byte>, accept: Answer)
    requires cfg.Valid() && |pad| == cfg.dlen && c.Ready(cfg, msg) && c.work && !c.blocked
    requires TxAccounted(cfg, Some(c), n, grants) && TxAwake(Some(c), n)
    requires c.state == Tx.SendCf ==> c.stmin == cfg.stmin
    ensures var out := Tx.Work(cfg, msg, c, pad, accept);
            TxAwake(out.ctx, n + |out.frames|) && (out.ctx.None? <==> |out.results| == 1) && |out.results| <= 1
  {
    hide Tx.RunCf;
    if c.state == Tx.SendCf {
      CfStaysAwake(cfg, msg, c.(work := false, timer := false), pad, accept);
    }
  }

  lemma ResumeStaysAwake(cfg: Config, msg: seq<Byte>, c: Tx.SendCtx, n: nat, grants: nat, pad: seq<Byte>,
                         accept: Answer)
    requires cfg.Valid() && |pad| == cfg.dlen && c.Ready(cfg, msg) && c.blocked && c.sem
    requires TxAccounted(cfg, Some(c), n, grants) && TxAwake(Some(c), n)
    ensures var out := Tx.Resume(cfg, msg, c, pad, accept);
            TxAwake(out.ctx, n + |out.frames|) && out.ctx.Some? && out.results == []
  {
    hide ConsecutiveFrame, Tx.Take;
  }

  lemma CompletedStaysAwake(cfg: Config, c: Tx.SendCtx, n: nat, grants: nat, failed: bool)
    requires TxAccounted(cfg, Some(c), n, grants) && TxAwake(Some(c), n) && n > 0
    requires !c.single && c.state == Tx.WaitBacklog ==> grants > 0
    ensures var out := Tx.Completed(c, failed);
            out.frames == [] && TxAwake(out.ctx, n - 1) && (out.ctx.None? <==> |out.results| == 1) && |out.results| <= 1
  {
  }

  lemma FlowStaysAwake(cfg: Config, c: Tx.SendCtx, f: CanFrame, n: nat)
    requires TxAwake(Some(c), n) && WellFormed(cfg, f)
    ensures TxAwake(Some(Tx.CanRx(cfg, c, f)), n)
  {
  }

  lemma TxStepStaysAwake(cfg: Config, msg: seq<Byte>, s: System, a: Action)
    requires Awake(cfg, msg, s) && Enabled(cfg, msg, s, a)
    requires a.TxWork? || a.TxResume? || a.TxTimer? || a.TxComplete? || a.TxFlow?
    ensures var s' := Next(cfg, msg, s, a);
            TxAwake(s'.tx, |s'.outbox|) && RxAwake(s'.rx) && Reported(s')
  {
    hide FlightOk, RxOk, RxInStep, FlowInStep, DeliveryOk, Tx.Work, Tx.Resume, Tx.Completed, Tx.CanRx;
    if s.tx.Some? {
      var c, n := s.tx.value, |s.outbox|;
      match a {
        case TxWork(pad, accept) => WorkStaysAwake(cfg, msg, c, n, s.grants, pad, accept);
        case TxResume(pad, accept) => ResumeStaysAwake(cfg, msg, c, n, s.grants, pad, accept);
        case TxTimer =>
        case TxComplete(_, failed) => CompletedStaysAwake(cfg, c, n, s.grants, failed);
        case TxFlow => FlowStaysAwake(cfg, c, s.fcWire[0], n);
      }
    }
  }

  // ----- the receiver

  lemma FrameStaysAwake(cfg: Config, msg: seq<Byte>, rx: Option<Rx.RecvCtx>, at: Progress, p: Packet, allocOk: bool)
    requires Sendable(cfg, msg) && RxOk(cfg, msg, rx, at) && Genuine(cfg, msg, p) && -1 <= at.seen < p.index
    requires RxAwake(rx) && WellFormed(cfg, p.frame)
    ensures var rx' := Rx.CanRx(cfg, rx, p.frame, allocOk); RxAwake(rx') && (rx.None? && rx'.Some? ==> p.index == 0)
  {
    if rx.None? && p.index == 0 && allocOk {
      FirstKeeps(cfg, msg, p.frame);
    }
  }

  lemma RxWorkStaysAwake(cfg: Config, c: Rx.RecvCtx)
    requires cfg.Valid() && RxAwake(Some(c)) && c.work && c.state != Rx.WaitFfSf
    ensures var out := Rx.Work(cfg, c);
            RxAwake(out.ctx) && |out.delivered| + |out.errors| == if out.ctx.None? then 1 else 0
  {
  }

  lemma RxStepStaysAwake(cfg: Config, msg: seq<Byte>, s: System, a: Action)
    requires Awake(cfg, msg, s) && Enabled(cfg, msg, s, a)
    requires !a.TxWork? && !a.TxResume? && !a.TxTimer? && !a.TxComplete? && !a.TxFlow?
    ensures var s' := Next(cfg, msg, s, a);
            TxAwake(s'.tx, |s'.outbox|) && RxAwake(s'.rx) && Reported(s')
  {
    hide TxOk, TxInStep, RxInStep, FlowInStep, DeliveryOk, TxAwake, Rx.Work, Rx.CanRx, TxAccounted;
    if a.RxFrame? {
      RxFrameStaysAwake(cfg, msg, s, a.allocOk);
    } else if a.RxWork? {
      RxWorkStaysAwake(cfg, s.rx.value);
    }
  }

  lemma RxFrameStaysAwake(cfg: Config, msg: seq<Byte>, s: System, allocOk: bool)
    requires Awake(cfg, msg, s) && s.wire != []
    ensures var s' := Next(cfg, msg, s, RxFrame(allocOk));
            TxAwake(s'.tx, |s'.outbox|) && RxAwake(s'.rx) && Reported(s')
  {
    var p := s.wire[0];
    assert p == InFlight(s)[0];
    FrameInFlight(cfg, msg, s);
    hide TxOk, TxInStep, RxInStep, FlowInStep, FlightOk, DeliveryOk, TxAwake, TxAccounted, Rx.CanRx, RxOk, Genuine;
    hide RxAwake;
    FrameStaysAwake(cfg, msg, s.rx, ProgressOf(s), p, allocOk);
  }

  // ----- every action

  lemma StepStaysAwake(cfg: Config, msg: seq<Byte>, s: System, a: Action)
    requires Awake(cfg, msg, s) && Enabled(cfg, msg, s, a)
    ensures Awake(cfg, msg, Next(cfg, msg, s, a))
  {
    hide Accounted, TxAwake, RxAwake, Reported;
    StepStaysAccounted(cfg, msg, s, a);
    if a.TxWork? || a.TxResume? || a.TxTimer? || a.TxComplete? || a.TxFlow? {
      TxStepStaysAwake(cfg, msg, s, a);
    } else {
      RxStepStaysAwake(cfg, msg, s, a);
    }
  }

  lemma {:induction false} RunStaysAwake(cfg: Config, msg: seq<Byte>, s: System, run: seq<Action>)
    requires Awake(cfg, msg, s) && Legal(cfg, msg, s, run)
    ensures Awake(cfg, msg, Run(cfg, msg, s, run))
    decreases |run|
  {
    hide Awake;
    if run != [] {
      StepStaysAwake(cfg, msg, s, run[0]);
      RunStaysAwake(cfg, msg, Next(cfg, msg, s, run[0]), run[1..]);
    }
  }

  lemma ReachableAwake(cfg: Config, msg: seq<Byte>, s: System)
    requires Sendable(cfg, msg) && Reachable(cfg, msg, s)
    ensures Awake(cfg, msg, s)
  {
    var start: System, run: seq<Action> :|
      Initial(cfg, msg, start) && Legal(cfg, msg, start, run) && s == Run(cfg, msg, start, run);
    StartsAwake(cfg, msg, start);
    RunStaysAwake(cfg, msg, start, run);
  }

  // ----- a context that is there can act

  predicate OfTx(a: Action) { a.TxWork? || a.TxResume? || a.TxTimer? || a.TxComplete? }

  predicate OfRx(a: Action) { a.RxWork? || a.RxTimer? }

  ghost predicate TxCanAct(cfg: Config, msg: seq<Byte>, s: System) { exists a :: OfTx(a) && Enabled(cfg, msg, s, a) }

  ghost predicate RxCanAct(cfg: Config, msg: seq<Byte>, s: System) { exists a :: OfRx(a) && Enabled(cfg, msg, s, a) }

  /** The sender is in the error state, and nothing will run its work handler: no work has been submitted, no timer runs
      and no completion callback is outstanding. */
  predicate Abandoned(s: System) {
    && s.tx.Some? && s.outbox == []
    && var c := s.tx.value;
       !c.single && c.state == Tx.TxErr && !c.work && !c.timer && !c.blocked
  }

  /** In every reachable state, whatever has been lost: a live receiver has work to do or its timer runs; a live
      sender can act exactly if it has not been abandoned; and the sender has reported one result if it is gone and
      none before. */
  lemma TheLiveCanAct(cfg: Config, msg: seq<Byte>, s: System)
    requires Sendable(cfg, msg) && Reachable(cfg, msg, s)
    ensures s.rx.Some? ==> RxCanAct(cfg, msg, s)
    ensures s.tx.Some? ==> (TxCanAct(cfg, msg, s) <==> !Abandoned(s))
    ensures |s.results| == if s.tx.Some? then 0 else 1
    ensures |s.delivered| + |s.errors| <= if s.rx.Some? then 0 else 1
  {
    ReachableAwake(cfg, msg, s);
    if s.rx.Some? {
      ReceiverActs(cfg, msg, s);
    }
    if s.tx.Some? && !Abandoned(s) {
      var a := SenderActs(cfg, msg, s);
    }
  }

  lemma ReceiverActs(cfg: Config, msg: seq<Byte>, s: System)
    requires Awake(cfg, msg, s) && s.rx.Some?
    ensures RxCanAct(cfg, msg, s)
  {
    assert OfRx(RxWork) && OfRx(RxTimer);
    assert Enabled(cfg, msg, s, RxWork) || Enabled(cfg, msg, s, RxTimer);
  }

  lemma SenderActs(cfg: Config, msg: seq<Byte>, s: System) returns (a: Action)
    requires Awake(cfg, msg, s) && s.tx.Some? && !Abandoned(s)
    ensures OfTx(a) && Enabled(cfg, msg, s, a)
  {
    var c, pad: seq<Byte> := s.tx.value, seq(cfg.dlen, _ => 0);
    a := if s.outbox != [] then TxComplete(false, false)
         else if c.timer then TxTimer
         else if c.blocked then TxResume(pad, Taken)
         else TxWork(pad, Taken);
  }

  // ----- the exception

  /** can_send refuses a consecutive frame that the work handler sends when it is run. Inside its loop, where it
      waits for the frame before to complete, it does no harm. */
  predicate RefusesCf(s: System, a: Action) {
    a.TxWork? && !a.accept.Taken? && s.tx.Some? && s.tx.value.state == Tx.SendCf
  }

  /** This is what abandons a sender, and nothing else is. */
  lemma AbandonedExactlyIf(cfg: Config, msg: seq<Byte>, s: System, a: Action)
    requires Sendable(cfg, msg) && Reachable(cfg, msg, s) && Enabled(cfg, msg, s, a) && Typed(cfg, msg, s)
    ensures !Abandoned(s) ==> (Abandoned(Next(cfg, msg, s, a)) <==> RefusesCf(s, a))
  {
    ReachableAwake(cfg, msg, s);
    hide Reachable, FlightOk, RxOk, RxInStep, FlowInStep, DeliveryOk, Reported, ResultsAccounted, RxAwake;
    match a {
      case TxWork(pad, accept) =>
        WorkAbandons(cfg, msg, s.tx.value, |s.outbox|, s.grants, pad, accept);
        hide Tx.Work;
      case TxResume(pad, accept) =>
        ResumeStaysAwake(cfg, msg, s.tx.value, |s.outbox|, s.grants, pad, accept);
        ResumeKeepsWork(cfg, msg, s.tx.value, pad, accept);
        hide Tx.Resume;
      case _ =>
    }
  }

  lemma WorkAbandons(cfg: Config, msg: seq<Byte>, c: Tx.SendCtx, n: nat, grants: nat, pad: seq<Byte>, accept: Answer)
    requires cfg.Valid() && |pad| == cfg.dlen && c.Ready(cfg, msg) && c.work && !c.blocked
    requires TxAccounted(cfg, Some(c), n, grants) && TxAwake(Some(c), n)
    ensures var out := Tx.Work(cfg, msg, c, pad, accept);
            !accept.Taken? && c.state == Tx.SendCf
            <==> n == 0 && out.frames == [] && out.ctx.Some?
                 && var c' := out.ctx.value;
                    !c'.single && c'.state == Tx.TxErr && !c'.work && !c'.timer && !c'.blocked
  {
    hide ConsecutiveFrame, Tx.Take, FirstFrame;
  }

  lemma ResumeKeepsWork(cfg: Config, msg: seq<Byte>, c: Tx.SendCtx, pad: seq<Byte>, accept: Answer)
    requires cfg.Valid() && |pad| == cfg.dlen && c.Ready(cfg, msg) && c.blocked
    ensures var out := Tx.Resume(cfg, msg, c, pad, accept); out.ctx.Some? && out.ctx.value.work == c.work
  {
    hide ConsecutiveFrame, Tx.Take;
  }

  predicate RefusesNone(cfg: Config, msg: seq<Byte>, s: System, run: seq<Action>)
    requires Legal(cfg, msg, s, run)
    decreases |run|
  {
    run != [] ==> !RefusesCf(s, run[0]) && RefusesNone(cfg, msg, Next(cfg, msg, s, run[0]), run[1..])
  }

  /** If the driver never does this, a live sender can always act. */
  lemma {:induction false} WithoutRefusal(cfg: Config, msg: seq<Byte>, s: System, run: seq<Action>)
    requires Sendable(cfg, msg) && Reachable(cfg, msg, s) && Legal(cfg, msg, s, run) && RefusesNone(cfg, msg, s, run)
    requires !Abandoned(s)
    ensures var end := Run(cfg, msg, s, run);
            Reachable(cfg, msg, end) && !Abandoned(end) && (end.tx.Some? ==> TxCanAct(cfg, msg, end))
    decreases |run|
  {
    hide Abandoned, RefusesCf, Reachable, TxCanAct;
    if run == [] {
      TheLiveCanAct(cfg, msg, s);
    } else {
      AbandonedExactlyIf(cfg, msg, s, run[0]);
      ReachNext(cfg, msg, s, run[0]);
      WithoutRefusal(cfg, msg, Next(cfg, msg, s, run[0]), run[1..]);
    }
  }

  /** If it does, the transfer can come to a dead end: the sender's context is never freed and its callback never
      made. */
  lemma DeadEnd(cfg: Config, msg: seq<Byte>) returns (s: System)
    requires LongMessage(cfg, msg) && !Refused(cfg, msg)
    ensures Reachable(cfg, msg, s) && s.tx.Some? && s.results == []
    ensures forall a :: !Enabled(cfg, msg, s, a)
  {
    hide Reachable, Typed, Due;
    s := Open(cfg, msg);
    s := Refuse(cfg, msg, s);
    ReachNext(cfg, msg, s, RxTimer);
    s := Next(cfg, msg, s, RxTimer);
    ReachNext(cfg, msg, s, RxWork);
    s := Next(cfg, msg, s, RxWork);
  }

  lemma Refuse(cfg: Config, msg: seq<Byte>, s: System) returns (s': System)
    requires Reachable(cfg, msg, s) && Losing(cfg, msg, s, 0) && !s.tx.value.blocked
    ensures Reachable(cfg, msg, s') && Abandoned(s') && s' == s.(tx := s'.tx)
  {
    var pad: seq<Byte> := seq(cfg.dlen, _ => 0);
    ReachNext(cfg, msg, s, TxWork(pad, Denied));
    s' := Next(cfg, msg, s, TxWork(pad, Denied));
    assert s'.outbox == s.outbox + [] == [] && s'.results == s.results + [] == s.results;
  }

  // ----- every run is bounded

  /** Every action uses up some of this: bytes not yet sent, frames under way, work to do, timers to expire, and the
      number of times that the receiver may ask the sender to wait. */
  function Weight(cfg: Config, s: System): nat {
    TxWeight(s.tx) + 70 * |s.outbox| + 60 * |s.wire| + RxWeight(cfg, s.rx) + 20 * |s.fcOutbox| + 6 * |s.fcWire|
    + if s.seen < 0 then 40 * cfg.wftMax else 0
  }

  function TxWeight(tx: Option<Tx.SendCtx>): nat {
    match tx
    case None => 0
    case Some(c) =>
      5 + (if c.single then 0 else 100 * c.remLen) + (if c.work then 1 else 0) + (if c.timer then 2 else 0)
      + if c.state == Tx.WaitSt then 3 else 0
  }

  function RxWeight(cfg: Config, rx: Option<Rx.RecvCtx>): nat {
    match rx
    case None => 0
    case Some(c) =>
      2 + (if c.work then 1 else 0) + (if c.timer then 14 else 0) + 40 * WaitsLeft(cfg, c)
      + match c.state case WaitCf => 0 case WaitFfSf => 0 case RxErr => 10 case _ => 40
  }

  /** How often the receiver can still ask for a wait. */
  function WaitsLeft(cfg: Config, c: Rx.RecvCtx): nat {
    var n := (c.wft + 1) % 256;
    if c.state == Rx.ProcessFf then cfg.wftMax else if n < cfg.wftMax then cfg.wftMax - n else 0
  }

  lemma CfUsesWeight(cfg: Config, msg: seq<Byte>, c: Tx.SendCtx, pad: seq<Byte>, accept: Answer)
    requires cfg.Valid() && |pad| == cfg.dlen && c.Ready(cfg, msg)
    requires !c.single && !c.blocked && (c.state == Tx.SendCf || c.state == Tx.TxErr) && c.remLen > 0
    ensures var out := Tx.RunCf(cfg, msg, c, pad, accept);
            TxWeight(out.ctx) + 70 * |out.frames| + 20 < TxWeight(Some(c))
  {
    hide ConsecutiveFrame, Tx.Take;
  }

  lemma WorkUsesWeight(cfg: Config, msg: seq<Byte>, c: Tx.SendCtx, pad: seq<Byte>, accept: Answer)
    requires cfg.Valid() && c.Ready(cfg, msg) && |pad| == cfg.dlen && c.work && !c.blocked
    requires !c.single && c.state == Tx.SendCf ==> c.remLen > 0
    ensures var out := Tx.Work(cfg, msg, c, pad, accept); TxWeight(out.ctx) + 70 * |out.frames| < TxWeight(Some(c))
  {
    hide Tx.RunCf, FirstFrame, Tx.Take;
    if c.state == Tx.SendCf {
      CfUsesWeight(cfg, msg, c.(work := false, timer := false), pad, accept);
    }
  }

  lemma ResumeUsesWeight(cfg: Config, msg: seq<Byte>, c: Tx.SendCtx, pad: seq<Byte>, accept: Answer)
    requires cfg.Valid() && c.Ready(cfg, msg) && |pad| == cfg.dlen && c.blocked && c.remLen > 0
    ensures var out := Tx.Resume(cfg, msg, c, pad, accept); TxWeight(out.ctx) + 70 * |out.frames| < TxWeight(Some(c))
  {
    hide Tx.RunCf;
    CfUsesWeight(cfg, msg, c.(sem := false, blocked := false), pad, accept);
  }

  lemma TxTimerUsesWeight(c: Tx.SendCtx)
    requires c.timer
    ensures TxWeight(Some(Tx.Timeout(c))) < TxWeight(Some(c))
  {
  }

  lemma CompletedAddsLittle(c: Tx.SendCtx, failed: bool)
    ensures var out := Tx.Completed(c, failed); TxWeight(out.ctx) <= TxWeight(Some(c)) + 1 && out.frames == []
  {
  }

  lemma SameLoad(c: Tx.SendCtx, d: Tx.SendCtx)
    requires d.remLen == c.remLen && d.single == c.single && d.state != Tx.WaitSt
    ensures TxWeight(Some(d)) <= TxWeight(Some(c)) + 3
  {
  }

  lemma FlowTakenKeepsLoad(cfg: Config, c: Tx.SendCtx, f: CanFrame)
    requires WellFormed(cfg, f)
    ensures var d := Tx.ProcessFc(cfg, c, f);
            d.remLen == c.remLen && d.single == c.single && (d.state == Tx.WaitSt ==> c.state == Tx.WaitSt)
  {
    hide WellFormed, PciType, FlowStatusOf;
  }

  lemma FlowAddsLittle(cfg: Config, c: Tx.SendCtx, f: CanFrame)
    requires WellFormed(cfg, f)
    ensures TxWeight(Some(Tx.CanRx(cfg, c, f))) <= TxWeight(Some(c)) + 3
  {
    hide TxWeight, WellFormed, Tx.ProcessFc;
    FlowTakenKeepsLoad(cfg, c.(timer := false), f);
    SameLoad(c, Tx.CanRx(cfg, c, f));
  }

  lemma TxStepUsesWeight(cfg: Config, msg: seq<Byte>, s: System, a: Action)
    requires Awake(cfg, msg, s) && Enabled(cfg, msg, s, a)
    requires a.TxWork? || a.TxResume? || a.TxTimer? || a.TxComplete? || a.TxFlow?
    ensures Weight(cfg, Next(cfg, msg, s, a)) < Weight(cfg, s)
  {
    hide FlightOk, RxOk, RxInStep, FlowInStep, DeliveryOk, Reported, ResultsAccounted, TxAccounted, TxAwake, RxAwake;
    hide Tx.Work, Tx.Resume, Tx.CanRx, Tx.Completed, Tx.Timeout, TxWeight, RxWeight;
    if s.tx.Some? {
      var c := s.tx.value;
      match a {
        case TxWork(pad, accept) => WorkUsesWeight(cfg, msg, c, pad, accept);
        case TxResume(pad, accept) => ResumeUsesWeight(cfg, msg, c, pad, accept);
        case TxTimer => TxTimerUsesWeight(c);
        case TxComplete(_, failed) => CompletedAddsLittle(c, failed);
        case TxFlow => FlowAddsLittle(cfg, c, s.fcWire[0]);
      }
    }
  }

  lemma FrameAddsLittle(cfg: Config, msg: seq<Byte>, rx: Option<Rx.RecvCtx>, at: Progress, p: Packet, allocOk: bool)
    requires Sendable(cfg, msg) && RxOk(cfg, msg, rx, at) && Genuine(cfg, msg, p) && -1 <= at.seen < p.index
    requires WellFormed(cfg, p.frame)
    ensures RxWeight(cfg, Rx.CanRx(cfg, rx, p.frame, allocOk))
            <= RxWeight(cfg, rx) + 57 + if rx.None? && at.seen < 0 then 40 * cfg.wftMax else 0
  {
  }

  lemma RxWorkUsesWeight(cfg: Config, c: Rx.RecvCtx)
    requires cfg.Valid() && RxAwake(Some(c)) && c.work && (cfg.wftMax <= 255 || c.state != Rx.SendWait)
    ensures var out := Rx.Work(cfg, c); RxWeight(cfg, out.ctx) + 20 * |out.fcs| < RxWeight(cfg, Some(c))
  {
  }

  lemma RxTimerUsesWeight(cfg: Config, c: Rx.RecvCtx)
    requires c.timer
    ensures RxWeight(cfg, Some(Rx.Timeout(c))) < RxWeight(cfg, Some(c))
  {
  }

  lemma FcSentAddsLittle(cfg: Config, c: Rx.RecvCtx, failed: bool)
    ensures RxWeight(cfg, Some(Rx.FcSent(c, failed))) <= RxWeight(cfg, Some(c)) + 11
  {
  }

  /** The receiver asks for yet another wait. */
  predicate Waits(s: System, a: Action) { a.RxWork? && s.rx.Some? && s.rx.value.state == Rx.SendWait }

  lemma RxStepUsesWeight(cfg: Config, msg: seq<Byte>, s: System, a: Action)
    requires Awake(cfg, msg, s) && Enabled(cfg, msg, s, a) && (cfg.wftMax <= 255 || !Waits(s, a))
    requires a.RxWork? || a.RxTimer? || a.FcComplete? || a.LoseData? || a.LoseFlow?
    ensures Weight(cfg, Next(cfg, msg, s, a)) < Weight(cfg, s)
  {
    hide TxOk, TxInStep, RxInStep, FlowInStep, FlightOk, DeliveryOk, TxAwake, TxAccounted, RxOk, ResultsAccounted;
    hide TxWeight, RxWeight, Rx.Work, Rx.Timeout, Rx.FcSent, RxAwake;
    if s.rx.Some? {
      var c := s.rx.value;
      match a {
        case RxWork => RxWorkUsesWeight(cfg, c);
        case RxTimer => RxTimerUsesWeight(cfg, c);
        case FcComplete(_, failed) => FcSentAddsLittle(cfg, c, failed);
        case _ =>
      }
    }
  }

  lemma FrameUsesWeight(cfg: Config, msg: seq<Byte>, s: System, allocOk: bool)
    requires Awake(cfg, msg, s) && s.wire != []
    ensures Weight(cfg, Next(cfg, msg, s, RxFrame(allocOk))) < Weight(cfg, s)
  {
    var p := s.wire[0];
    assert p == InFlight(s)[0];
    FrameInFlight(cfg, msg, s);
    FrameAddsLittle(cfg, msg, s.rx, ProgressOf(s), p, allocOk);
    hide TxOk, TxInStep, RxInStep, FlowInStep, FlightOk, DeliveryOk, TxAwake, TxAccounted, RxOk, ResultsAccounted;
    hide TxWeight, RxWeight, Rx.CanRx, RxAwake, Genuine;
  }

  lemma StepUsesWeight(cfg: Config, msg: seq<Byte>, s: System, a: Action)
    requires Awake(cfg, msg, s) && Enabled(cfg, msg, s, a) && (cfg.wftMax <= 255 || !Waits(s, a))
    ensures Weight(cfg, Next(cfg, msg, s, a)) < Weight(cfg, s)
  {
    hide Weight, Next, Awake;
    AwakeIsTyped(cfg, msg, s);
    if a.TxWork? || a.TxResume? || a.TxTimer? || a.TxComplete? || a.TxFlow? {
      TxStepUsesWeight(cfg, msg, s, a);
    } else if a.RxFrame? {
      FrameUsesWeight(cfg, msg, s, a.allocOk);
    } else {
      RxStepUsesWeight(cfg, msg, s, a);
    }
  }

  lemma AwakeIsTyped(cfg: Config, msg: seq<Byte>, s: System)
    requires Awake(cfg, msg, s)
    ensures Typed(cfg, msg, s) && Core(cfg, msg, s)
  {
  }

  lemma {:induction false} RunUsesWeight(cfg: Config, msg: seq<Byte>, s: System, run: seq<Action>)
    requires Awake(cfg, msg, s) && Legal(cfg, msg, s, run) && cfg.wftMax <= 255
    ensures Awake(cfg, msg, Run(cfg, msg, s, run)) && |run| + Weight(cfg, Run(cfg, msg, s, run)) <= Weight(cfg, s)
    decreases |run|
  {
    hide Awake, Weight;
    if run != [] {
      StepStaysAwake(cfg, msg, s, run[0]);
      StepUsesWeight(cfg, msg, s, run[0]);
      RunUsesWeight(cfg, msg, Next(cfg, msg, s, run[0]), run[1..]);
    }
  }

  /** Every transfer ends: whatever is lost, refused or late, a run is bounded in length, and where nothing can
      happen any more both contexts are gone and one result has been reported, or the sender has been abandoned. */
  lemma EveryRunEnds(cfg: Config, msg: seq<Byte>, s: System, run: seq<Action>)
    requires Sendable(cfg, msg) && Initial(cfg, msg, s) && Legal(cfg, msg, s, run) && cfg.wftMax <= 255
    ensures |run| <= Weight(cfg, s)
    ensures var end := Run(cfg, msg, s, run);
            (forall a :: !Enabled(cfg, msg, end, a)) ==>
              end.rx.None? && (Abandoned(end) || (end.tx.None? && |end.results| == 1))
  {
    StartsAwake(cfg, msg, s);
    RunUsesWeight(cfg, msg, s, run);
    var end := Run(cfg, msg, s, run);
    hide Awake, Abandoned;
    if end.rx.Some? {
      ReceiverActs(cfg, msg, end);
    }
    if end.tx.Some? && !Abandoned(end) {
      var a := SenderActs(cfg, msg, end);
    }
    AwakeIsReported(cfg, msg, end);
  }

  lemma AwakeIsReported(cfg: Config, msg: seq<Byte>, s: System)
    requires Awake(cfg, msg, s)
    ensures s.tx.None? ==> |s.results| == 1
  {
  }

  /** The bound on the number of waits is needed: the receiver counts them modulo 256, so that with a greater limit
      one that has asked for a wait asks for ever. */
  lemma {:induction false} WaitsForEver(cfg: Config, msg: seq<Byte>, s: System, n: nat) returns (run: seq<Action>)
    requires Typed(cfg, msg, s) && cfg.wftMax > 255
    requires s.rx.Some? && s.rx.value.state == Rx.TryAlloc && s.rx.value.timer
    ensures Legal(cfg, msg, s, run) && |run| == 2 * n
    decreases n
  {
    if n == 0 {
      run := [];
    } else {
      NextTyped(cfg, msg, s, RxTimer);
      var s1 := Next(cfg, msg, s, RxTimer);
      NextTyped(cfg, msg, s1, RxWork);
      var s2 := Next(cfg, msg, s1, RxWork);
      hide Typed;
      var rest := WaitsForEver(cfg, msg, s2, n - 1);
      assert ([RxWork] + rest)[1..] == rest;
      run := [RxTimer] + ([RxWork] + rest);
      assert run[1..] == [RxWork] + rest;
    }
  }
}
