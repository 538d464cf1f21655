/** Every error that either end reports has its cause, and every cause is reported. Flow control comes in turn, waits
    stay within the limit, and what is blamed on the other end or on the bus has happened there. */
module IsoTpErrors {
  import opened IsoTpFrame
  import opened IsoTpLink
  import opened IsoTpSafety
  import opened IsoTpLockstep
  import opened IsoTpAccounting
  import opened IsoTpEnding
  import opened Wrappers
  import Tx = IsoTpSender
  import Rx = IsoTpReceiver

  // ----- flow control comes in turn

  /** The sender waits for flow control, or has failed. */
  predicate Waiting(tx: Option<Tx.SendCtx>) {
    tx.Some? ==> !tx.value.blocked && (tx.value.state == Tx.WaitFc || tx.value.state == Tx.TxErr)
  }

  predicate Asking(rx: Option<Rx.RecvCtx>) {
    rx.Some? && (rx.value.state == Rx.TryAlloc || rx.value.state == Rx.SendWait)
  }

  /** Flow control frames are under way only while the sender waits, and behind a clear-to-send frame there is none. */
  predicate InTurn(flow: seq<CanFrame>, tx: Option<Tx.SendCtx>, rx: Option<Rx.RecvCtx>, grants: nat, cts: nat) {
    && (flow != [] ==> Waiting(tx))
    && (forall i | 0 <= i < |flow| - 1 :: !IsCts(flow[i]))
    && (Asking(rx) ==> Waiting(tx) && cts == grants && !CtsUnderWay(flow))
  }

  predicate Turns(s: System) { InTurn(Flow(s), s.tx, s.rx, s.grants, s.ctsSent) }

  lemma AskedWhileWaiting(cfg: Config, msg: seq<Byte>, s: System)
    requires InStep(cfg, msg, s) && s.rx.Some? && (s.rx.value.state == Rx.TryAlloc || s.rx.value.state == Rx.ProcessFf)
    ensures Waiting(s.tx)
    ensures s.rx.value.state == Rx.TryAlloc || !Refused(cfg, msg) ==> s.ctsSent == s.grants && !CtsUnderWay(Flow(s))
  {
    if s.rx.value.state == Rx.TryAlloc || !Refused(cfg, msg) {
      AsksInStep(cfg, msg, s);
      if cfg.bs > 0 {
        SpanMonotone(cfg, Emitted(s.next), Quota(cfg, s.grants));
      }
    }
    hide Typed, FlightOk, DeliveryOk, FlowInStep;
  }

  lemma TxStaysWaiting(cfg: Config, msg: seq<Byte>, c: Tx.SendCtx, pad: seq<Byte>, accept: Answer, failed: bool)
    requires cfg.Valid() && |pad| == cfg.dlen && c.Ready(cfg, msg) && Waiting(Some(c))
    ensures c.work ==> Waiting(Tx.Work(cfg, msg, c, pad, accept).ctx)
    ensures Waiting(Some(Tx.Timeout(c))) && Waiting(Tx.Completed(c, failed).ctx)
  {
  }

  lemma TxStepTurns(cfg: Config, msg: seq<Byte>, s: System, a: Action)
    requires Typed(cfg, msg, s) && Enabled(cfg, msg, s, a) && Turns(s)
    requires a.TxWork? || a.TxResume? || a.TxTimer? || a.TxComplete?
    ensures Turns(Next(cfg, msg, s, a))
  {
    hide Tx.Work, Tx.Resume, Tx.Timeout, Tx.Completed;
    assert Flow(Next(cfg, msg, s, a)) == Flow(s);
    if s.tx.Some? && Waiting(s.tx) {
      var pad: seq<Byte> := seq(cfg.dlen, _ => 0);
      match a {
        case TxWork(p, accept) => TxStaysWaiting(cfg, msg, s.tx.value, p, accept, false);
        case TxTimer => TxStaysWaiting(cfg, msg, s.tx.value, pad, Taken, false);
        case TxComplete(_, failed) => TxStaysWaiting(cfg, msg, s.tx.value, pad, Taken, failed);
        case TxResume(_, _) =>
      }
    }
  }

  lemma FlowShrinksInTurn(flow: seq<CanFrame>, i: nat, tx: Option<Tx.SendCtx>, rx: Option<Rx.RecvCtx>, grants: nat,
                          cts: nat)
    requires InTurn(flow, tx, rx, grants, cts) && i < |flow|
    ensures InTurn(Remove(flow, i), tx, rx, grants, cts)
  {
    hide Waiting, Asking, IsCts;
    assert forall f <- Remove(flow, i) :: f in flow;
    assert forall k | 0 <= k < |flow| - 1 :: Remove(flow, i)[k] == flow[if k < i then k else k + 1];
  }

  lemma TakenInTurn(cfg: Config, c: Tx.SendCtx, f: CanFrame)
    requires IsFlow(cfg, f) && Waiting(Some(c)) && !IsCts(f)
    ensures Waiting(Some(Tx.CanRx(cfg, c, f)))
  {
  }

  lemma FlowStepTurns(cfg: Config, msg: seq<Byte>, s: System, a: Action)
    requires Typed(cfg, msg, s) && Enabled(cfg, msg, s, a) && Turns(s) && forall f <- Flow(s) :: IsFlow(cfg, f)
    requires a.TxFlow? || a.FcComplete? || a.LoseFlow?
    ensures Turns(Next(cfg, msg, s, a))
  {
    hide Tx.CanRx, Waiting, IsFlow, Rx.FcSent;
    var s' := Next(cfg, msg, s, a);
    match a {
      case TxFlow =>
        FlowShrinksInTurn(Flow(s), 0, s.tx, s.rx, s.grants, s.ctsSent);
        assert Flow(s') == Remove(Flow(s), 0);
        var f := Flow(s)[0];
        assert f == s.fcWire[0] && f in Flow(s);
        if s.tx.Some? && !IsCts(f) {
          TakenInTurn(cfg, s.tx.value, f);
        }
      case FcComplete(lost, failed) =>
        if lost {
          FlowShrinksInTurn(Flow(s), |s.fcWire|, s.tx, s.rx, s.grants, s.ctsSent);
          assert Flow(s') == Remove(Flow(s), |s.fcWire|);
        } else {
          assert Flow(s') == Flow(s);
        }
        FcSentAsksNothing(s.rx, failed);
      case LoseFlow(i) =>
        FlowShrinksInTurn(Flow(s), i, s.tx, s.rx, s.grants, s.ctsSent);
        assert Flow(s') == Remove(Flow(s), i);
    }
  }

  lemma FcSentAsksNothing(rx: Option<Rx.RecvCtx>, failed: bool)
    ensures rx.Some? && Asking(Some(Rx.FcSent(rx.value, failed))) ==> Asking(rx)
  {
  }

  lemma FrameTurns(cfg: Config, msg: seq<Byte>, s: System, s': System, allocOk: bool)
    requires Typed(cfg, msg, s) && s.wire != [] && s' == Next(cfg, msg, s, RxFrame(allocOk))
    requires InStep(cfg, msg, s') && Turns(s)
    ensures Turns(s')
  {
    hide InStep, Waiting, IsCts;
    FrameTaken(cfg, msg, s, s', allocOk);
    assert Flow(s') == Flow(s);
    if Asking(s'.rx) && !Asking(s.rx) {
      FrameAsks(cfg, s.rx, s.wire[0].frame, allocOk);
      AskedWhileWaiting(cfg, msg, s');
    }
  }

  lemma FrameAsks(cfg: Config, rx: Option<Rx.RecvCtx>, f: CanFrame, allocOk: bool)
    requires WellFormed(cfg, f) && !Asking(rx) && Asking(Rx.CanRx(cfg, rx, f, allocOk))
    ensures Rx.CanRx(cfg, rx, f, allocOk).value.state == Rx.TryAlloc
  {
  }

  lemma FlowGrowsInTurn(flow: seq<CanFrame>, f: CanFrame, tx: Option<Tx.SendCtx>, rx: Option<Rx.RecvCtx>, grants: nat,
                        cts: nat)
    requires Waiting(tx) && !CtsUnderWay(flow)
    requires Asking(rx) ==> cts == grants && !IsCts(f)
    ensures InTurn(flow + [f], tx, rx, grants, cts)
  {
    hide Waiting, Asking, IsCts;
    assert forall g <- flow :: !IsCts(g);
  }

  /** What the receiver sends, and what it does next. */
  lemma Asks(cfg: Config, c: Rx.RecvCtx)
    requires cfg.Valid()
    ensures var out := Rx.Work(cfg, c);
            && (out.fcs != [] ==> c.state == Rx.ProcessFf || c.state == Rx.TryAlloc || c.state == Rx.SendWait
                                  || (c.state == Rx.RxErr && c.error == BufferOverflow))
            && |out.fcs| <= 1
            && (Asking(out.ctx) ==> c.state == Rx.SendWait && forall f <- out.fcs :: !IsCts(f))
  {
  }

  lemma RxWorkTurns(cfg: Config, msg: seq<Byte>, s: System)
    requires InStep(cfg, msg, s) && Turns(s) && RxAwake(s.rx) && s.rx.Some? && s.rx.value.work
    ensures Turns(Next(cfg, msg, s, RxWork))
  {
    var c := s.rx.value;
    var out := Rx.Work(cfg, c);
    Asks(cfg, c);
    if c.state == Rx.ProcessFf || c.state == Rx.TryAlloc {
      AskedWhileWaiting(cfg, msg, s);
      if c.state == Rx.ProcessFf {
        RefusedBeforeAsking(cfg, msg, s);
      }
    }
    hide InStep, Typed, Waiting, IsCts, CtsUnderWay, Rx.Work;
    if out.fcs == [] {
      assert Flow(Next(cfg, msg, s, RxWork)) == Flow(s);
    } else {
      assert Flow(Next(cfg, msg, s, RxWork)) == Flow(s) + [out.fcs[0]];
      FlowGrowsInTurn(Flow(s), out.fcs[0], s.tx, out.ctx, s.grants, s.ctsSent);
    }
  }

  lemma RefusedBeforeAsking(cfg: Config, msg: seq<Byte>, s: System)
    requires InStep(cfg, msg, s) && s.rx.Some? && s.rx.value.state == Rx.ProcessFf
    ensures !CtsUnderWay(Flow(s))
  {
  }

  lemma StepTurns(cfg: Config, msg: seq<Byte>, s: System, a: Action)
    requires Awake(cfg, msg, s) && LongMessage(cfg, msg) && Enabled(cfg, msg, s, a) && Turns(s)
    ensures Turns(Next(cfg, msg, s, a))
  {
    StepStaysInStep(cfg, msg, s, a);
    match a {
      case RxFrame(allocOk) => FrameTurns(cfg, msg, s, Next(cfg, msg, s, a), allocOk);
      case RxWork => RxWorkTurns(cfg, msg, s);
      case RxTimer => assert Flow(Next(cfg, msg, s, a)) == Flow(s);
      case LoseData(_) => assert Flow(Next(cfg, msg, s, a)) == Flow(s);
      case TxFlow => FlowStepTurns(cfg, msg, s, a);
      case FcComplete(_, _) => FlowStepTurns(cfg, msg, s, a);
      case LoseFlow(_) => FlowStepTurns(cfg, msg, s, a);
      case _ => TxStepTurns(cfg, msg, s, a);
    }
  }

  // ----- waits

  predicate IsWait(f: CanFrame) { |f.data| > 0 && FlowStatusOf(f) == Wait }

  function WaitFrames(flow: seq<CanFrame>): nat {
    if flow == [] then 0 else (if IsWait(flow[0]) then 1 else 0) + WaitFrames(flow[1..])
  }

  lemma {:induction false} WaitsAdd(a: seq<CanFrame>, b: seq<CanFrame>)
    ensures WaitFrames(a + b) == WaitFrames(a) + WaitFrames(b)
  {
    if a == [] {
      assert a + b == b;
    } else {
      WaitsAdd(a[1..], b);
      assert (a + b)[1..] == a[1..] + b;
    }
  }

  lemma WaitsOne(f: CanFrame)
    ensures WaitFrames([f]) == if IsWait(f) then 1 else 0
  {
  }

  lemma WaitsRemoved(flow: seq<CanFrame>, i: nat)
    requires i < |flow|
    ensures WaitFrames(Remove(flow, i)) == WaitFrames(flow) - if IsWait(flow[i]) then 1 else 0
  {
    hide WaitFrames, IsWait;
    assert flow == flow[..i] + ([flow[i]] + flow[i + 1..]);
    WaitsAdd(flow[..i], [flow[i]] + flow[i + 1..]);
    WaitsAdd([flow[i]], flow[i + 1..]);
    WaitsAdd(flow[..i], flow[i + 1..]);
    WaitsOne(flow[i]);
  }

  /** How often the receiver has asked for a wait so far, or may have before it went. */
  function Asked(cfg: Config, rx: Option<Rx.RecvCtx>): nat {
    if Asking(rx) || (rx.Some? && rx.value.state == Rx.WaitCf) then (rx.value.wft + 1) % 256 else cfg.wftMax
  }

  /** Waits that have been taken up since the last block was granted or are under way have been asked for. */
  predicate WithinLimit(cfg: Config, flow: seq<CanFrame>, tx: Option<Tx.SendCtx>, rx: Option<Rx.RecvCtx>, grants: nat) {
    cfg.wftMax <= 255 ==>
      && Asked(cfg, rx) <= cfg.wftMax
      && (WaitFrames(flow) > 0 ==> grants > 0)
      && (tx.Some? && grants > 0 ==> tx.value.wft + WaitFrames(flow) <= Asked(cfg, rx))
  }

  predicate Limited(cfg: Config, s: System) { WithinLimit(cfg, Flow(s), s.tx, s.rx, s.grants) }

  lemma TxStepLimited(cfg: Config, msg: seq<Byte>, s: System, a: Action)
    requires Typed(cfg, msg, s) && Enabled(cfg, msg, s, a) && Limited(cfg, s)
    requires a.TxWork? || a.TxResume? || a.TxTimer? || a.TxComplete?
    ensures Limited(cfg, Next(cfg, msg, s, a))
  {
    hide WaitFrames, Asked, ConsecutiveFrame, FirstFrame, Tx.TypedOut, Tx.Take;
    assert Flow(Next(cfg, msg, s, a)) == Flow(s);
  }

  lemma FlowTakenLimited(cfg: Config, c: Tx.SendCtx, f: CanFrame)
    requires IsFlow(cfg, f) && Waiting(Some(c))
    ensures var d := Tx.CanRx(cfg, c, f);
            if IsCts(f) && c.state == Tx.WaitFc then d.wft == 0
            else if IsWait(f) && c.state == Tx.WaitFc then d.wft == (c.wft + 1) % 256 else d.wft == c.wft
  {
  }

  lemma FlowArrivesLimited(cfg: Config, msg: seq<Byte>, s: System, s': System)
    requires Typed(cfg, msg, s) && s.fcWire != [] && s' == Next(cfg, msg, s, TxFlow)
    requires Turns(s) && Limited(cfg, s) && forall f <- Flow(s) :: IsFlow(cfg, f)
    ensures Limited(cfg, s')
  {
    hide WaitFrames, Tx.CanRx, IsCts, IsWait, IsFlow, Asked;
    var f := Flow(s)[0];
    assert f == s.fcWire[0] && f in Flow(s);
    WaitsRemoved(Flow(s), 0);
    assert Flow(s') == Remove(Flow(s), 0);
    if s.tx.Some? {
      FlowTakenLimited(cfg, s.tx.value, f);
      if IsCts(f) {
        NoWaits();
        assert Flow(s') == [];
      }
    }
  }

  lemma FlowMovesLimited(cfg: Config, msg: seq<Byte>, s: System, a: Action)
    requires Typed(cfg, msg, s) && Enabled(cfg, msg, s, a) && Limited(cfg, s) && (a.FcComplete? || a.LoseFlow?)
    ensures Limited(cfg, Next(cfg, msg, s, a))
  {
    hide WaitFrames, IsWait;
    var s' := Next(cfg, msg, s, a);
    if a.LoseFlow? {
      WaitsRemoved(Flow(s), a.i);
      assert Flow(s') == Remove(Flow(s), a.i);
    } else if a.lost {
      WaitsRemoved(Flow(s), |s.fcWire|);
      assert Flow(s') == Remove(Flow(s), |s.fcWire|);
    } else {
      assert Flow(s') == Flow(s);
    }
  }

  lemma NoWaits()
    ensures WaitFrames([]) == 0
  {
  }

  lemma RxWorkLimited(cfg: Config, msg: seq<Byte>, s: System, s': System)
    requires Typed(cfg, msg, s) && s.rx.Some? && s.rx.value.work && s' == Next(cfg, msg, s, RxWork)
    requires InStep(cfg, msg, s) && Turns(s) && RxAwake(s.rx) && Limited(cfg, s)
    ensures Limited(cfg, s')
  {
    assert cfg.Valid();
    hide InStep, Typed, WaitFrames, IsWait, Asked, Turns;
    var c := s.rx.value;
    var fcs := Rx.Work(cfg, c).fcs;
    AskedWithin(cfg, c);
    GrantedWhen(cfg, msg, s);
    RxWorkSends(cfg, msg, s, s');
    hide Next, Rx.Work;
    WaitsAdd(Flow(s), fcs);
    if fcs == [] {
      NoWaits();
    } else {
      WaitsOne(fcs[0]);
      assert fcs == [fcs[0]];
    }
  }

  lemma RxWorkSends(cfg: Config, msg: seq<Byte>, s: System, s': System)
    requires Typed(cfg, msg, s) && s.rx.Some? && s.rx.value.work && s' == Next(cfg, msg, s, RxWork)
    ensures var out := Rx.Work(cfg, s.rx.value);
            && Flow(s') == Flow(s) + out.fcs && s'.rx == out.ctx && s'.errors == s.errors + out.errors
            && s' == s.(rx := s'.rx, fcOutbox := s'.fcOutbox, delivered := s'.delivered, errors := s'.errors,
                        ctsSent := s'.ctsSent)
  {
    hide Rx.Work, Typed;
  }

  lemma GrantedWhen(cfg: Config, msg: seq<Byte>, s: System)
    requires InStep(cfg, msg, s) && Turns(s) && s.rx.Some?
    ensures s.rx.value.state == Rx.ProcessFf ==> s.grants == 0
    ensures s.rx.value.state == Rx.SendWait ==> s.grants > 0
  {
  }

  lemma AskedWithin(cfg: Config, c: Rx.RecvCtx)
    requires cfg.Valid() && (c.state == Rx.RxErr ==> c.error != BufferOverflow)
    ensures var out := Rx.Work(cfg, c);
            && |out.fcs| <= 1
            && (out.fcs != [] && IsWait(out.fcs[0]) ==> c.state == Rx.SendWait)
            && (cfg.wftMax <= 255 && Asked(cfg, Some(c)) <= cfg.wftMax ==> Asked(cfg, out.ctx) <= cfg.wftMax)
            && (cfg.wftMax <= 255 && c.state != Rx.ProcessFf && Asked(cfg, Some(c)) <= cfg.wftMax ==>
                  Asked(cfg, out.ctx)
                  >= Asked(cfg, Some(c)) + if out.fcs != [] && IsWait(out.fcs[0]) then 1 else 0)
  {
  }

  lemma FrameLimited(cfg: Config, msg: seq<Byte>, s: System, s': System, allocOk: bool)
    requires Typed(cfg, msg, s) && s.wire != [] && s' == Next(cfg, msg, s, RxFrame(allocOk))
    requires RxAwake(s.rx) && Limited(cfg, s) && (s.rx.None? ==> Asked(cfg, s'.rx) == cfg.wftMax)
    ensures Limited(cfg, s')
  {
    hide WaitFrames;
    FrameTaken(cfg, msg, s, s', allocOk);
    assert Flow(s') == Flow(s);
  }

  // ----- timers

  /** A sender that waits inside its loop or has failed has no timer running. */
  predicate Calm(tx: Option<Tx.SendCtx>) {
    tx.Some? && !tx.value.single && (tx.value.blocked || tx.value.state == Tx.TxErr) ==> !tx.value.timer
  }

  lemma TxStepCalm(cfg: Config, msg: seq<Byte>, s: System, a: Action)
    requires Typed(cfg, msg, s) && Enabled(cfg, msg, s, a) && Calm(s.tx) && !a.TxFlow?
    ensures Calm(Next(cfg, msg, s, a).tx)
  {
    hide ConsecutiveFrame, FirstFrame, Tx.TypedOut, Tx.Take;
  }

  lemma FlowTakenCalm(cfg: Config, c: Tx.SendCtx, f: CanFrame)
    requires IsFlow(cfg, f) && Waiting(Some(c)) && Calm(Some(c))
    requires IsWait(f) && c.state == Tx.WaitFc ==> c.wft < cfg.wftMax
    ensures Calm(Some(Tx.CanRx(cfg, c, f)))
  {
  }

  lemma WaitsAreFew(cfg: Config, msg: seq<Byte>, s: System)
    requires Typed(cfg, msg, s) && s.fcWire != [] && s.tx.Some? && Limited(cfg, s) && IsWait(s.fcWire[0])
    ensures s.tx.value.wft < cfg.wftMax
  {
    var f := Flow(s)[0];
    WaitsRemoved(Flow(s), 0);
  }

  // ----- causes

  /** What a sender may have to report, given what the receiver has reported. */
  predicate TxCause(e: Status, errors: seq<Status>) {
    e == TimeoutBs || e == TimeoutA || e == Error || e == UnexpectedPdu
    || (e == BufferOverflow && errors == [BufferOverflow])
  }

  predicate TxBlames(tx: Option<Tx.SendCtx>, results: seq<Status>, errors: seq<Status>) {
    && (tx.Some? && tx.value.state == Tx.TxErr ==> TxCause(tx.value.error, errors))
    && forall r <- results :: r == Ok || TxCause(r, errors)
  }

  predicate IsOverflow(f: CanFrame) { |f.data| > 0 && FlowStatusOf(f) == Overflow }

  predicate FlowBlames(flow: seq<CanFrame>, errors: seq<Status>) {
    forall f <- flow :: IsCts(f) || IsWait(f) || (IsOverflow(f) && errors == [BufferOverflow])
  }

  /** What a live receiver may have to report. A wrong sequence number means that a frame before has not been
      appended. */
  predicate RxCause(e: Status, at: Progress) {
    e == TimeoutCr || e == Error || (e == WrongSn && at.accepted + 2 <= at.seen)
  }

  predicate RxBlames(cfg: Config, msg: seq<Byte>, rx: Option<Rx.RecvCtx>, errors: seq<Status>, at: Progress) {
    && (rx.Some? && rx.value.state == Rx.RxErr ==> RxCause(rx.value.error, at))
    && forall e <- errors :: RxCause(e, at) || (e == BufferOverflow && (cfg.bs == 0 ==> Refused(cfg, msg)))
  }

  predicate Blames(cfg: Config, msg: seq<Byte>, s: System) {
    && TxBlames(s.tx, s.results, s.errors)
    && FlowBlames(Flow(s), s.errors)
    && RxBlames(cfg, msg, s.rx, s.errors, ProgressOf(s))
  }

  lemma TxStepBlames(cfg: Config, msg: seq<Byte>, s: System, a: Action)
    requires Typed(cfg, msg, s) && Enabled(cfg, msg, s, a) && Blames(cfg, msg, s)
    requires a.TxWork? || a.TxResume? || a.TxTimer? || a.TxComplete?
    requires s.tx.Some? ==> !s.tx.value.single
    ensures Blames(cfg, msg, Next(cfg, msg, s, a))
  {
    hide ConsecutiveFrame, FirstFrame, Tx.TypedOut, Tx.Take, FlowBlames, RxBlames;
    assert Flow(Next(cfg, msg, s, a)) == Flow(s);
  }

  lemma FlowTakenBlames(cfg: Config, c: Tx.SendCtx, f: CanFrame, errors: seq<Status>)
    requires IsFlow(cfg, f) && Waiting(Some(c)) && (c.state == Tx.TxErr ==> TxCause(c.error, errors))
    requires FlowBlames([f], errors) && (IsWait(f) && c.state == Tx.WaitFc ==> c.wft < cfg.wftMax)
    ensures var d := Tx.CanRx(cfg, c, f); d.state == Tx.TxErr ==> TxCause(d.error, errors)
  {
    assert f in [f];
  }

  lemma FlowArrivesBlames(cfg: Config, msg: seq<Byte>, s: System, s': System)
    requires Typed(cfg, msg, s) && s.fcWire != [] && s' == Next(cfg, msg, s, TxFlow)
    requires Blames(cfg, msg, s) && Turns(s) && Limited(cfg, s) && forall f <- Flow(s) :: IsFlow(cfg, f)
    ensures Blames(cfg, msg, s')
  {
    hide Tx.CanRx, IsFlow, TxCause, RxBlames, IsCts, IsWait, Limited;
    var f := Flow(s)[0];
    assert f == s.fcWire[0] && f in Flow(s);
    assert forall g <- Flow(s') :: g in Flow(s);
    if s.tx.Some? {
      if IsWait(f) {
        WaitsAreFew(cfg, msg, s);
      }
      FlowTakenBlames(cfg, s.tx.value, f, s.errors);
    }
  }

  lemma FlowMovesBlames(cfg: Config, msg: seq<Byte>, s: System, a: Action)
    requires Typed(cfg, msg, s) && Enabled(cfg, msg, s, a) && Blames(cfg, msg, s) && (a.FcComplete? || a.LoseFlow?)
    ensures Blames(cfg, msg, Next(cfg, msg, s, a))
  {
    hide TxBlames, IsCts, IsWait;
    assert forall g <- Flow(Next(cfg, msg, s, a)) :: g in Flow(s);
  }

  lemma FrameBlames(cfg: Config, msg: seq<Byte>, rx: Option<Rx.RecvCtx>, at: Progress, p: Packet, allocOk: bool)
    requires LongMessage(cfg, msg) && Sendable(cfg, msg) && RxOk(cfg, msg, rx, at) && Genuine(cfg, msg, p)
    requires WellFormed(cfg, p.frame) && -1 <= at.seen < p.index
    requires rx.Some? && rx.value.state == Rx.RxErr ==> RxCause(rx.value.error, at)
    ensures var rx' := Rx.CanRx(cfg, rx, p.frame, allocOk);
            var taken := allocOk && rx.Some? && rx.value.state == Rx.WaitCf && Rx.Continues(rx.value, p.frame);
            rx'.Some? && rx'.value.state == Rx.RxErr ==>
              RxCause(rx'.value.error, Progress(p.index, if taken then at.accepted + 1 else at.accepted, 0))
  {
  }

  lemma FrameStepBlames(cfg: Config, msg: seq<Byte>, s: System, s': System, allocOk: bool)
    requires Typed(cfg, msg, s) && s.wire != [] && s' == Next(cfg, msg, s, RxFrame(allocOk))
    requires InStep(cfg, msg, s) && Blames(cfg, msg, s) && Reported(s)
    ensures Blames(cfg, msg, s')
  {
    FrameInFlight(cfg, msg, s);
    FrameTaken(cfg, msg, s, s', allocOk);
    FrameBlames(cfg, msg, s.rx, ProgressOf(s), InFlight(s)[0], allocOk);
    hide Next, InStep, Typed, TxBlames, FlowBlames, Rx.CanRx, Genuine, WellFormed;
    assert Flow(s') == Flow(s);
  }

  lemma WorkBlames(cfg: Config, msg: seq<Byte>, c: Rx.RecvCtx, at: Progress)
    requires cfg.Valid() && RxAwake(Some(c)) && (c.state == Rx.RxErr ==> RxCause(c.error, at))
    requires c.state == Rx.ProcessFf ==> c.remLen == |msg| - (cfg.dlen - 2)
    requires c.state == Rx.SendWait ==> cfg.bs > 0
    ensures var out := Rx.Work(cfg, c);
            && RxBlames(cfg, msg, out.ctx, out.errors, at) && |out.fcs| <= 1
            && (out.fcs != [] ==> var f := out.fcs[0];
                  IsCts(f) || IsWait(f) || (IsOverflow(f) && out.errors == [BufferOverflow]))
  {
    hide RxCause;
  }

  lemma AsRefused(cfg: Config, msg: seq<Byte>, s: System)
    requires InStep(cfg, msg, s) && s.rx.Some?
    ensures s.rx.value.state == Rx.ProcessFf ==> s.rx.value.remLen == |msg| - (cfg.dlen - 2)
    ensures s.rx.value.state == Rx.SendWait ==> cfg.bs > 0
  {
    hide Typed, FlightOk, TxOk, TxInStep, FlowInStep, DeliveryOk;
  }

  lemma RxWorkBlames(cfg: Config, msg: seq<Byte>, s: System, s': System)
    requires Typed(cfg, msg, s) && s.rx.Some? && s.rx.value.work && s' == Next(cfg, msg, s, RxWork)
    requires InStep(cfg, msg, s) && Blames(cfg, msg, s) && Reported(s) && RxAwake(s.rx)
    ensures Blames(cfg, msg, s')
  {
    AsRefused(cfg, msg, s);
    assert cfg.Valid();
    hide InStep, Typed, RxAwake, IsWait, IsCts, RxCause;
    WorkBlames(cfg, msg, s.rx.value, ProgressOf(s));
    RxWorkSends(cfg, msg, s, s');
    var out := Rx.Work(cfg, s.rx.value);
    assert [] + out.errors == out.errors;
    hide Next, Rx.Work;
    assert forall f <- Flow(s') :: f in Flow(s) || f in out.fcs;
  }

  // ----- every run

  predicate Orderly(cfg: Config, msg: seq<Byte>, s: System) {
    Awake(cfg, msg, s) && Turns(s) && Limited(cfg, s) && Calm(s.tx) && Blames(cfg, msg, s)
  }

  lemma StartsOrderly(cfg: Config, msg: seq<Byte>, s: System)
    requires LongMessage(cfg, msg) && Sendable(cfg, msg) && Initial(cfg, msg, s)
    ensures Orderly(cfg, msg, s)
  {
    StartsAwake(cfg, msg, s);
    hide Awake;
  }

  /** What the step lemmas need of the other invariants. */
  lemma AwakeFacts(cfg: Config, msg: seq<Byte>, s: System)
    requires Awake(cfg, msg, s) && LongMessage(cfg, msg)
    ensures Typed(cfg, msg, s) && InStep(cfg, msg, s) && RxAwake(s.rx) && Reported(s)
    ensures (s.tx.Some? ==> !s.tx.value.single) && forall f <- Flow(s) :: IsFlow(cfg, f)
  {
    hide Typed, FlightOk, RxOk, DeliveryOk, RxInStep;
  }

  lemma NewReceiver(cfg: Config, msg: seq<Byte>, s: System, s': System, allocOk: bool)
    requires InStep(cfg, msg, s) && s.wire != [] && s.rx.None? && s' == Next(cfg, msg, s, RxFrame(allocOk))
    ensures Asked(cfg, s'.rx) == cfg.wftMax
  {
    FrameTaken(cfg, msg, s, s', allocOk);
  }

  lemma StepStaysOrderly(cfg: Config, msg: seq<Byte>, s: System, a: Action)
    requires Orderly(cfg, msg, s) && LongMessage(cfg, msg) && Enabled(cfg, msg, s, a)
    ensures Orderly(cfg, msg, Next(cfg, msg, s, a))
  {
    StepStaysAwake(cfg, msg, s, a);
    AwakeFacts(cfg, msg, s);
    StepTurns(cfg, msg, s, a);
    hide Awake, Turns, Limited, Calm, Blames, InStep, RxAwake, Reported, IsFlow;
    var s' := Next(cfg, msg, s, a);
    match a {
      case TxFlow =>
        FlowArrivesLimited(cfg, msg, s, s');
        FlowArrivesBlames(cfg, msg, s, s');
        FlowArrivesCalm(cfg, msg, s, s');
      case RxFrame(allocOk) =>
        if s.rx.None? {
          NewReceiver(cfg, msg, s, s', allocOk);
        }
        FrameLimited(cfg, msg, s, s', allocOk);
        FrameStepBlames(cfg, msg, s, s', allocOk);
        TxStepCalm(cfg, msg, s, a);
      case RxWork =>
        RxWorkLimited(cfg, msg, s, s');
        RxWorkBlames(cfg, msg, s, s');
        TxStepCalm(cfg, msg, s, a);
      case FcComplete(_, _) => FlowMoves(cfg, msg, s, a);
      case LoseFlow(_) => FlowMoves(cfg, msg, s, a);
      case RxTimer => OtherStays(cfg, msg, s, a);
      case LoseData(_) => OtherStays(cfg, msg, s, a);
      case _ =>
        TxStepLimited(cfg, msg, s, a);
        TxStepBlames(cfg, msg, s, a);
        TxStepCalm(cfg, msg, s, a);
    }
  }

  lemma FlowArrivesCalm(cfg: Config, msg: seq<Byte>, s: System, s': System)
    requires Typed(cfg, msg, s) && s.fcWire != [] && s' == Next(cfg, msg, s, TxFlow)
    requires Turns(s) && Limited(cfg, s) && Calm(s.tx) && forall f <- Flow(s) :: IsFlow(cfg, f)
    ensures Calm(s'.tx)
  {
    hide Tx.CanRx, IsFlow, Calm, IsCts, IsWait, Limited;
    var f := Flow(s)[0];
    assert f == s.fcWire[0] && f in Flow(s);
    if s.tx.Some? {
      if IsWait(f) {
        WaitsAreFew(cfg, msg, s);
      }
      FlowTakenCalm(cfg, s.tx.value, f);
    }
  }

  lemma FlowMoves(cfg: Config, msg: seq<Byte>, s: System, a: Action)
    requires Typed(cfg, msg, s) && Enabled(cfg, msg, s, a) && (a.FcComplete? || a.LoseFlow?)
    requires Limited(cfg, s) && Calm(s.tx) && Blames(cfg, msg, s)
    ensures var s' := Next(cfg, msg, s, a); Limited(cfg, s') && Calm(s'.tx) && Blames(cfg, msg, s')
  {
    hide Limited, Calm, Blames;
    FlowMovesLimited(cfg, msg, s, a);
    FlowMovesBlames(cfg, msg, s, a);
    TxStepCalm(cfg, msg, s, a);
  }

  lemma OtherStays(cfg: Config, msg: seq<Byte>, s: System, a: Action)
    requires Typed(cfg, msg, s) && Enabled(cfg, msg, s, a) && (a.RxTimer? || a.LoseData?)
    requires Limited(cfg, s) && Calm(s.tx) && Blames(cfg, msg, s)
    ensures var s' := Next(cfg, msg, s, a); Limited(cfg, s') && Calm(s'.tx) && Blames(cfg, msg, s')
  {
    hide WaitFrames, IsCts, IsWait;
    assert Flow(Next(cfg, msg, s, a)) == Flow(s);
  }

  lemma {:induction false} RunStaysOrderly(cfg: Config, msg: seq<Byte>, s: System, run: seq<Action>)
    requires Orderly(cfg, msg, s) && LongMessage(cfg, msg) && Legal(cfg, msg, s, run)
    ensures Orderly(cfg, msg, Run(cfg, msg, s, run))
    decreases |run|
  {
    hide Orderly;
    if run != [] {
      StepStaysOrderly(cfg, msg, s, run[0]);
      RunStaysOrderly(cfg, msg, Next(cfg, msg, s, run[0]), run[1..]);
    }
  }

  lemma ReachableOrderly(cfg: Config, msg: seq<Byte>, s: System)
    requires LongMessage(cfg, msg) && Sendable(cfg, msg) && Reachable(cfg, msg, s)
    ensures Orderly(cfg, msg, s)
  {
    var start: System, run: seq<Action> :|
      Initial(cfg, msg, start) && Legal(cfg, msg, start, run) && s == Run(cfg, msg, start, run);
    StartsOrderly(cfg, msg, start);
    RunStaysOrderly(cfg, msg, start, run);
  }

  /** A flow control frame that reaches a live sender finds it waiting for one, or already failed. */
  lemma FlowControlComesInTurn(cfg: Config, msg: seq<Byte>, s: System)
    requires LongMessage(cfg, msg) && Sendable(cfg, msg) && Reachable(cfg, msg, s) && s.fcWire != [] && s.tx.Some?
    ensures !s.tx.value.blocked && (s.tx.value.state == Tx.WaitFc || s.tx.value.state == Tx.TxErr)
    ensures s.tx.value.state == Tx.WaitFc && |s.fcWire[0].data| > 0 && FlowStatusOf(s.fcWire[0]) == Wait ==>
              s.tx.value.wft < cfg.wftMax
    ensures WellFormed(cfg, s.fcWire[0])
  {
    ReachableOrderly(cfg, msg, s);
    AwakeFacts(cfg, msg, s);
    assert s.fcWire[0] == Flow(s)[0] && s.fcWire[0] in Flow(s);
    if IsWait(s.fcWire[0]) {
      WaitsAreFew(cfg, msg, s);
    }
    hide Awake, Limited, Blames, InStep;
  }

  /** In every run, whatever is lost. The sender never finds too many waits, an invalid status or an unexpected frame,
      unless it had failed before; it reports an overflow only if the receiver has reported one. The receiver never
      finds an unexpected frame; it reports a wrong sequence number only if a frame before the rejected one had not been
      appended, and without flow control an overflow only if the message does not fit its buffers. */
  lemma ErrorsHaveCauses(cfg: Config, msg: seq<Byte>, s: System)
    requires LongMessage(cfg, msg) && Sendable(cfg, msg) && Reachable(cfg, msg, s)
    ensures forall r <- s.results :: r == Ok || r == TimeoutBs || r == TimeoutA || r == Error || r == UnexpectedPdu
                                     || (r == BufferOverflow && s.errors == [BufferOverflow])
    ensures forall e <- s.errors ::
              || e == TimeoutCr || e == Error || (e == WrongSn && s.accepted + 2 <= s.seen)
              || (e == BufferOverflow && (cfg.bs == 0 ==> Refused(cfg, msg)))
  {
    ReachableOrderly(cfg, msg, s);
    hide Awake, Turns, Limited, Calm, Reachable;
  }

  lemma OverflowSent(cfg: Config, c: Rx.RecvCtx)
    requires cfg.Valid() && Rx.Work(cfg, c).errors == [BufferOverflow]
    ensures Rx.Work(cfg, c).fcs == [FlowControl(cfg, Overflow)] && Rx.Work(cfg, c).ctx == None
  {
  }

  /** A receiver that reports an overflow tells the sender, which is waiting to hear of it or has failed. */
  lemma OverflowIsPassedOn(cfg: Config, msg: seq<Byte>, s: System)
    requires LongMessage(cfg, msg) && Sendable(cfg, msg) && Reachable(cfg, msg, s) && Typed(cfg, msg, s)
    requires s.rx.Some? && s.rx.value.work && Next(cfg, msg, s, RxWork).errors == [BufferOverflow]
    ensures var s' := Next(cfg, msg, s, RxWork);
            && s'.rx == None && s'.fcOutbox == s.fcOutbox + [FlowControl(cfg, Overflow)]
            && (s'.tx.Some? ==> s'.tx.value.state == Tx.WaitFc || s'.tx.value.state == Tx.TxErr)
  {
    ReachableOrderly(cfg, msg, s);
    AwakeFacts(cfg, msg, s);
    StepTurns(cfg, msg, s, RxWork);
    assert cfg.Valid();
    hide Awake, InStep, Limited, Blames, Calm, IsCts, IsFlow, Typed, Reachable, Rx.Work;
    assert s.errors + Rx.Work(cfg, s.rx.value).errors == Rx.Work(cfg, s.rx.value).errors;
    OverflowSent(cfg, s.rx.value);
  }

  // ----- every fault is reported

  /** What goes wrong for a live sender when this happens. */
  function TxFault(s: System, a: Action): Option<Status>
    requires s.tx.Some?
  {
    match a
    case TxTimer => if s.tx.value.state == Tx.SendCf then None else Some(TimeoutBs)
    case TxResume(_, accept) => if accept.Taken? then None else Some(if accept.Late? then TimeoutA else Error)
    case TxFlow =>
      if s.tx.value.state == Tx.TxErr then Some(UnexpectedPdu)
      else if s.fcWire != [] && IsOverflow(s.fcWire[0]) then Some(BufferOverflow)
      else None
    case _ => None
  }

  predicate TxFailing(s: System, e: Status) {
    s.tx.Some? &&
    var c := s.tx.value;
    !c.single && c.state == Tx.TxErr && c.error == e && c.work && !c.blocked && !c.timer
  }

  lemma TxFaultFails(cfg: Config, msg: seq<Byte>, s: System, a: Action)
    requires Orderly(cfg, msg, s) && LongMessage(cfg, msg) && s.tx.Some? && Enabled(cfg, msg, s, a)
    requires TxFault(s, a).Some?
    ensures TxFailing(Next(cfg, msg, s, a), TxFault(s, a).value) && Next(cfg, msg, s, a).results == []
  {
    AwakeFacts(cfg, msg, s);
    if a.TxFlow? {
      assert s.fcWire[0] == Flow(s)[0] && s.fcWire[0] in Flow(s);
    }
    LiveSender(cfg, msg, s);
    hide Awake, InStep, Limited, Blames, RxAwake, Reported, ConsecutiveFrame, Tx.Take, Tx.TypedOut;
  }

  lemma LiveSender(cfg: Config, msg: seq<Byte>, s: System)
    requires Awake(cfg, msg, s) && s.tx.Some?
    ensures s.results == [] && (!s.tx.value.single && s.tx.value.blocked && s.tx.value.sem ==> s.tx.value.work)
  {
    hide Core, InStep;
  }

  lemma TxStaysFailing(cfg: Config, msg: seq<Byte>, s: System, a: Action, e: Status)
    requires Typed(cfg, msg, s) && Enabled(cfg, msg, s, a) && TxFailing(s, e) && !a.TxWork? && !a.TxFlow?
    ensures TxFailing(Next(cfg, msg, s, a), e) && Next(cfg, msg, s, a).results == s.results
  {
  }

  lemma {:induction false} RunStaysTxFailing(cfg: Config, msg: seq<Byte>, s: System, run: seq<Action>, e: Status)
    requires Legal(cfg, msg, s, run) && TxFailing(s, e) && forall a <- run :: !a.TxWork? && !a.TxFlow?
    ensures TxFailing(Run(cfg, msg, s, run), e) && Run(cfg, msg, s, run).results == s.results
    ensures Typed(cfg, msg, Run(cfg, msg, s, run))
    decreases |run|
  {
    hide TxFailing, Typed;
    if run != [] {
      assert run[0] in run && forall a <- run[1..] :: a in run;
      TxStaysFailing(cfg, msg, s, run[0], e);
      RunStaysTxFailing(cfg, msg, Next(cfg, msg, s, run[0]), run[1..], e);
    }
  }

  lemma TxReports(cfg: Config, msg: seq<Byte>, s: System, pad: seq<Byte>, accept: Answer, e: Status)
    requires Typed(cfg, msg, s) && TxFailing(s, e) && |pad| == cfg.dlen && s.results == []
    ensures Enabled(cfg, msg, s, TxWork(pad, accept))
    ensures var last := Next(cfg, msg, s, TxWork(pad, accept)); last.tx == None && last.results == [e]
  {
  }

  /** Whatever goes wrong for the sender, the next run of its work handler reports it, once, and frees the context,
      no matter what else has happened in between but for a flow control frame. */
  lemma TxFaultIsReported(cfg: Config, msg: seq<Byte>, s: System, a: Action, run: seq<Action>, pad: seq<Byte>,
                          accept: Answer)
    requires LongMessage(cfg, msg) && Sendable(cfg, msg) && Reachable(cfg, msg, s) && Typed(cfg, msg, s)
    requires s.tx.Some? && Enabled(cfg, msg, s, a) && TxFault(s, a).Some?
    requires Legal(cfg, msg, Next(cfg, msg, s, a), run) && |pad| == cfg.dlen
    requires forall b <- run :: !b.TxWork? && !b.TxFlow?
    ensures var end := Run(cfg, msg, Next(cfg, msg, s, a), run);
            && Typed(cfg, msg, end) && Enabled(cfg, msg, end, TxWork(pad, accept))
            && var last := Next(cfg, msg, end, TxWork(pad, accept));
               last.tx == None && last.results == [TxFault(s, a).value]
  {
    hide Reachable, Typed, Next, Run, Legal, TxFailing, TxFault;
    ReachableOrderly(cfg, msg, s);
    TxFaultFails(cfg, msg, s, a);
    var e := TxFault(s, a).value;
    RunStaysTxFailing(cfg, msg, Next(cfg, msg, s, a), run, e);
    TxReports(cfg, msg, Run(cfg, msg, Next(cfg, msg, s, a), run), pad, accept, e);
  }

  /** The same for a live receiver. */
  function RxFault(s: System, a: Action): Option<Status>
    requires s.rx.Some?
  {
    match a
    case RxTimer => if s.rx.value.state == Rx.WaitCf then Some(TimeoutCr) else None
    case RxFrame(allocOk) =>
      if allocOk && s.rx.value.state == Rx.WaitCf && s.wire != [] && |s.wire[0].frame.data| > 0
         && !Rx.Continues(s.rx.value, s.wire[0].frame)
      then Some(WrongSn) else None
    case FcComplete(_, failed) => if failed then Some(Error) else None
    case _ => None
  }

  predicate RxFailing(s: System, e: Status) {
    s.rx.Some? && s.rx.value.state == Rx.RxErr && s.rx.value.error == e && s.rx.value.work
  }

  /** Neither a report of its own, nor memory running out for it, nor a flow control frame that could not be sent. */
  predicate LeavesReceiver(a: Action) {
    !a.RxWork? && (a.RxFrame? ==> a.allocOk) && (a.FcComplete? ==> !a.failed)
  }

  lemma RxFaultFails(cfg: Config, msg: seq<Byte>, s: System, a: Action)
    requires Orderly(cfg, msg, s) && LongMessage(cfg, msg) && s.rx.Some? && Enabled(cfg, msg, s, a)
    requires RxFault(s, a).Some?
    ensures var s' := Next(cfg, msg, s, a);
            RxFailing(s', RxFault(s, a).value) && s'.errors == [] && s'.delivered == []
  {
    AwakeFacts(cfg, msg, s);
    if a.RxFrame? {
      FrameInFlight(cfg, msg, s);
      FrameTaken(cfg, msg, s, Next(cfg, msg, s, a), a.allocOk);
    }
    hide Awake, InStep, Limited, Blames, Turns;
  }

  lemma RxStaysFailing(cfg: Config, msg: seq<Byte>, s: System, a: Action, e: Status)
    requires Typed(cfg, msg, s) && Enabled(cfg, msg, s, a) && RxFailing(s, e) && LeavesReceiver(a)
    ensures var s' := Next(cfg, msg, s, a);
            RxFailing(s', e) && s'.errors == s.errors && s'.delivered == s.delivered
  {
  }

  lemma {:induction false} RunStaysRxFailing(cfg: Config, msg: seq<Byte>, s: System, run: seq<Action>, e: Status)
    requires Legal(cfg, msg, s, run) && RxFailing(s, e) && forall a <- run :: LeavesReceiver(a)
    ensures var end := Run(cfg, msg, s, run);
            RxFailing(end, e) && end.errors == s.errors && end.delivered == s.delivered && Typed(cfg, msg, end)
    decreases |run|
  {
    hide RxFailing, LeavesReceiver, Typed;
    if run != [] {
      assert run[0] in run && forall a <- run[1..] :: a in run;
      RxStaysFailing(cfg, msg, s, run[0], e);
      RunStaysRxFailing(cfg, msg, Next(cfg, msg, s, run[0]), run[1..], e);
    }
  }

  lemma RxReports(cfg: Config, msg: seq<Byte>, s: System, e: Status)
    requires Typed(cfg, msg, s) && RxFailing(s, e) && s.errors == [] && s.delivered == []
    ensures Enabled(cfg, msg, s, RxWork)
    ensures var last := Next(cfg, msg, s, RxWork); last.rx == None && last.errors == [e] && last.delivered == []
  {
  }

  lemma RxFaultIsReported(cfg: Config, msg: seq<Byte>, s: System, a: Action, run: seq<Action>)
    requires LongMessage(cfg, msg) && Sendable(cfg, msg) && Reachable(cfg, msg, s) && Typed(cfg, msg, s)
    requires s.rx.Some? && Enabled(cfg, msg, s, a) && RxFault(s, a).Some?
    requires Legal(cfg, msg, Next(cfg, msg, s, a), run) && forall b <- run :: LeavesReceiver(b)
    ensures var end := Run(cfg, msg, Next(cfg, msg, s, a), run);
            && Typed(cfg, msg, end) && Enabled(cfg, msg, end, RxWork)
            && var last := Next(cfg, msg, end, RxWork);
               last.rx == None && last.errors == [RxFault(s, a).value] && last.delivered == []
  {
    hide Reachable, Typed, Next, Run, Legal, RxFailing, RxFault;
    ReachableOrderly(cfg, msg, s);
    RxFaultFails(cfg, msg, s, a);
    var e := RxFault(s, a).value;
    RunStaysRxFailing(cfg, msg, Next(cfg, msg, s, a), run, e);
    RxReports(cfg, msg, Run(cfg, msg, Next(cfg, msg, s, a), run), e);
  }

  /** So who waits for the other end does not wait for ever: its timer is running, and when it expires the timeout
      is reported. */
  lemma TimeoutBsIsReported(cfg: Config, msg: seq<Byte>, s: System, run: seq<Action>, pad: seq<Byte>, accept: Answer)
    requires LongMessage(cfg, msg) && Sendable(cfg, msg) && Reachable(cfg, msg, s) && Typed(cfg, msg, s)
    requires s.tx.Some? && s.tx.value.state == Tx.WaitFc && |pad| == cfg.dlen
    requires Enabled(cfg, msg, s, TxTimer) ==> Legal(cfg, msg, Next(cfg, msg, s, TxTimer), run)
    requires forall a <- run :: !a.TxWork? && !a.TxFlow?
    ensures Enabled(cfg, msg, s, TxTimer)
    ensures var end := Run(cfg, msg, Next(cfg, msg, s, TxTimer), run);
            && Typed(cfg, msg, end) && Enabled(cfg, msg, end, TxWork(pad, accept))
            && var last := Next(cfg, msg, end, TxWork(pad, accept));
               last.tx == None && last.results == [TimeoutBs]
  {
    ReachableAwake(cfg, msg, s);
    AwakeFacts(cfg, msg, s);
    assert Enabled(cfg, msg, s, TxTimer);
    hide Reachable, Typed, Next, Run, Legal, Awake, InStep;
    TxFaultIsReported(cfg, msg, s, TxTimer, run, pad, accept);
  }

  lemma TimeoutCrIsReported(cfg: Config, msg: seq<Byte>, s: System, run: seq<Action>)
    requires LongMessage(cfg, msg) && Sendable(cfg, msg) && Reachable(cfg, msg, s) && Typed(cfg, msg, s)
    requires s.rx.Some? && s.rx.value.state == Rx.WaitCf
    requires Enabled(cfg, msg, s, RxTimer) ==> Legal(cfg, msg, Next(cfg, msg, s, RxTimer), run)
    requires forall a <- run :: LeavesReceiver(a)
    ensures Enabled(cfg, msg, s, RxTimer)
    ensures var end := Run(cfg, msg, Next(cfg, msg, s, RxTimer), run);
            && Typed(cfg, msg, end) && Enabled(cfg, msg, end, RxWork)
            && var last := Next(cfg, msg, end, RxWork);
               last.rx == None && last.errors == [TimeoutCr] && last.delivered == []
  {
    ReachableAwake(cfg, msg, s);
    assert Enabled(cfg, msg, s, RxTimer);
    hide Reachable, Typed, Next, Run, Legal, Awake;
    RxFaultIsReported(cfg, msg, s, RxTimer, run);
  }

  // ----- the limit on waits

  /** The context after n more of these frames. */
  function AfterFrames(cfg: Config, c: Tx.SendCtx, f: CanFrame, n: nat): Tx.SendCtx
    requires WellFormed(cfg, f)
  {
    if n == 0 then c else Tx.CanRx(cfg, AfterFrames(cfg, c, f, n - 1), f)
  }

  /** Since its last clear-to-send frame a sender puts up with n waits if the limit is no less, and reports the first
      that is too many; its counter has eight bits, so that a limit above 255 is none. */
  predicate Tolerates(cfg: Config, c: Tx.SendCtx, n: nat) {
    if cfg.wftMax > 255 || n <= cfg.wftMax then c.state == Tx.WaitFc && c.wft == n % 256
    else c.state == Tx.TxErr && (n == cfg.wftMax + 1 ==> c.error == WaitOverrun)
  }

  lemma OneMoreWait(cfg: Config, c: Tx.SendCtx, f: CanFrame, n: nat)
    requires WellFormed(cfg, f) && PciType(f) == TYPE_FC && FlowStatusOf(f) == Wait && Tolerates(cfg, c, n)
    ensures Tolerates(cfg, Tx.CanRx(cfg, c, f), n + 1)
  {
    hide WellFormed, FlowStatusOf, PciType;
    NextModulo(n);
  }

  lemma NextModulo(n: nat)
    ensures (n % 256 + 1) % 256 == (n + 1) % 256
  {
  }

  lemma {:induction false} WaitsTolerated(cfg: Config, c: Tx.SendCtx, f: CanFrame, n: nat)
    requires WellFormed(cfg, f) && PciType(f) == TYPE_FC && FlowStatusOf(f) == Wait
    requires c.state == Tx.WaitFc && c.wft == 0
    ensures Tolerates(cfg, AfterFrames(cfg, c, f, n), n)
  {
    if n > 0 {
      hide Tolerates, Tx.CanRx;
      WaitsTolerated(cfg, c, f, n - 1);
      OneMoreWait(cfg, AfterFrames(cfg, c, f, n - 1), f, n - 1);
    }
  }
}
