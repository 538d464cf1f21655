/** Flow control keeps the two ends in step: what the block size countdowns, the flow control frames on
    the way and the frames awaiting completion have to do with each other. */
module IsoTpLockstep {
  import opened IsoTpFrame
  import opened IsoTpLink
  import opened IsoTpSafety
  import opened Wrappers
  import Tx = IsoTpSender
  import Rx = IsoTpReceiver

  /** The number of consecutive frames that `k` clear-to-send frames allow, for a non-zero block size. */
  function Quota(cfg: Config, k: nat): nat {
    if k == 0 then 0 else Quota(cfg, k - 1) + cfg.bs
  }

  lemma {:induction false} QuotaMonotone(cfg: Config, j: nat, k: nat)
    requires j <= k
    ensures Quota(cfg, j) <= Quota(cfg, k)
    ensures cfg.bs > 0 && j < k ==> Quota(cfg, j) < Quota(cfg, k)
  {
    if j < k {
      QuotaMonotone(cfg, j, k - 1);
    }
  }

  /** Consecutive frames emitted so far. */
  function Emitted(next: nat): nat { if next == 0 then 0 else next - 1 }

  predicate Going(c: Tx.SendCtx) { c.state == Tx.SendCf || c.state == Tx.WaitSt || c.blocked }

  /** The sender's countdown is what is left of the frames it has been granted. */
  predicate TxInStep(cfg: Config, tx: Option<Tx.SendCtx>, next: nat, grants: nat) {
    && (grants == 0 ==> next <= 1)
    && (cfg.bs > 0 ==> Emitted(next) <= Quota(cfg, grants))
    && (cfg.bs == 0 ==> grants <= 1)
    && (tx.Some? ==>
          var c := tx.value;
          && !c.single
          && (c.state == Tx.SendFf ==> grants == 0)
          && (c.state == Tx.WaitFc ==> if cfg.bs > 0 then Emitted(next) == Quota(cfg, grants) else grants == 0)
          && (Going(c) ==> grants > 0 && c.stmin == cfg.stmin)
          && (Going(c) && cfg.bs > 0 ==> c.bs > 0 && Emitted(next) + c.bs == Quota(cfg, grants))
          && (c.state == Tx.WaitBacklog || c.state == Tx.WaitFin ==> grants > 0))
  }

  /** With block size 0 the receiver refuses at once what it could not buffer. */
  predicate Refused(cfg: Config, msg: seq<Byte>) {
    cfg.bs == 0 && |msg| - (cfg.dlen - 2) > cfg.maxPackets * (cfg.dlen - 1)
  }

  /** The receiver's countdown is what is left of the frames it has asked for. */
  predicate RxInStep(cfg: Config, msg: seq<Byte>, rx: Option<Rx.RecvCtx>, at: Progress, cts: nat) {
    && cfg.Valid()
    && (at.seen < 0 ==> cts == 0 && rx.None?)
    && (cfg.bs == 0 ==> cts <= 1)
    && (cts == 0 ==> at.accepted == at.last == 0)
    && (cfg.bs > 0 ==> (if cts == 0 then 0 else Quota(cfg, cts - 1)) <= at.accepted <= Quota(cfg, cts))
    && (cts > 0 && cfg.bs > 0 ==> cfg.dlen - 2 + Span(cfg, Quota(cfg, cts - 1)) < |msg|)
    && (cts > 0 ==> !Refused(cfg, msg))
    && (rx.Some? ==>
          var c := rx.value;
          && (c.state == Rx.ProcessFf ==> cts == 0)
          && (c.state == Rx.WaitCf ==>
                cts > 0 && (cfg.bs > 0 ==> 0 < c.bs <= cfg.bs && at.accepted + c.bs == Quota(cfg, cts)))
          && (c.state == Rx.TryAlloc || c.state == Rx.SendWait ==>
                cts > 0 && cfg.bs > 0 && c.bs == cfg.bs && at.accepted == Quota(cfg, cts)))
  }

  function Flow(s: System): seq<CanFrame> { s.fcWire + s.fcOutbox }

  predicate IsFlow(cfg: Config, f: CanFrame) {
    WellFormed(cfg, f) && PciType(f) == TYPE_FC && f.data[1] == cfg.bs && f.data[2] == cfg.stmin
  }

  predicate OneCts(flow: seq<CanFrame>) {
    forall i, j | 0 <= i < j < |flow| :: !(IsCts(flow[i]) && IsCts(flow[j]))
  }

  predicate CtsUnderWay(flow: seq<CanFrame>) { exists f <- flow :: IsCts(f) }

  predicate Idle(tx: Option<Tx.SendCtx>) {
    tx.Some? ==> !Going(tx.value) && tx.value.state != Tx.SendFf
  }

  /** A clear-to-send frame under way finds the sender waiting, with nothing else of its under way. */
  predicate FlowInStep(cfg: Config, flow: seq<CanFrame>, tx: Option<Tx.SendCtx>, next: nat, seen: int,
                       grants: nat, cts: nat) {
    && (forall f <- flow :: IsFlow(cfg, f))
    && OneCts(flow)
    && grants <= cts <= grants + 1
    && (CtsUnderWay(flow) ==> cts == grants + 1 && seen == next - 1 && Idle(tx))
  }

  predicate InStep(cfg: Config, msg: seq<Byte>, s: System) {
    && Core(cfg, msg, s) && LongMessage(cfg, msg)
    && TxInStep(cfg, s.tx, s.next, s.grants)
    && RxInStep(cfg, msg, s.rx, ProgressOf(s), s.ctsSent)
    && (s.delivered != [] ==> s.ctsSent > 0)
    && FlowInStep(cfg, Flow(s), s.tx, s.next, s.seen, s.grants, s.ctsSent)
  }

  lemma StartsInStep(cfg: Config, msg: seq<Byte>, s: System)
    requires LongMessage(cfg, msg) && Initial(cfg, msg, s)
    ensures InStep(cfg, msg, s)
  {
    StartsInCore(cfg, msg, s);
  }

  // ----- the sender

  lemma CfInStep(cfg: Config, msg: seq<Byte>, c: Tx.SendCtx, next: nat, grants: nat, pad: seq<Byte>, accept: Answer)
    requires cfg.Valid() && |pad| == cfg.dlen && c.Ready(cfg, msg)
    requires !c.single && !c.blocked && (c.state == Tx.SendCf || c.state == Tx.TxErr)
    requires TxInStep(cfg, None, next, grants) && next > 0 && grants > 0 && c.stmin == cfg.stmin
    requires cfg.bs > 0 ==> c.bs > 0 && Emitted(next) + c.bs == Quota(cfg, grants)
    requires c.remLen > 0
    ensures var out := Tx.RunCf(cfg, msg, c, pad, accept); TxInStep(cfg, out.ctx, next + |out.frames|, grants)
  {
  }

  lemma WorkInStep(cfg: Config, msg: seq<Byte>, c: Tx.SendCtx, next: nat, grants: nat, pad: seq<Byte>, accept: Answer)
    requires TxOk(cfg, msg, Some(c), next) && TxInStep(cfg, Some(c), next, grants)
    requires cfg.Valid() && |pad| == cfg.dlen && c.work && !c.blocked
    ensures var out := Tx.Work(cfg, msg, c, pad, accept);
            TxInStep(cfg, out.ctx, if c.state == Tx.SendFf then 1 else next + |out.frames|, grants)
  {
    if c.state == Tx.SendCf {
      CfInStep(cfg, msg, c.(work := false, timer := false), next, grants, pad, accept);
    }
  }

  lemma ResumeInStep(cfg: Config, msg: seq<Byte>, c: Tx.SendCtx, next: nat, grants: nat, pad: seq<Byte>, accept: Answer)
    requires TxOk(cfg, msg, Some(c), next) && TxInStep(cfg, Some(c), next, grants)
    requires cfg.Valid() && |pad| == cfg.dlen && c.blocked
    ensures var out := Tx.Resume(cfg, msg, c, pad, accept); TxInStep(cfg, out.ctx, next + |out.frames|, grants)
  {
    CfInStep(cfg, msg, c.(sem := false, blocked := false), next, grants, pad, accept);
  }

  lemma TxActionInStep(cfg: Config, msg: seq<Byte>, s: System, a: Action)
    requires InStep(cfg, msg, s) && Enabled(cfg, msg, s, a) && (a.TxWork? || a.TxResume? || a.TxTimer?)
    requires Core(cfg, msg, Next(cfg, msg, s, a))
    ensures InStep(cfg, msg, Next(cfg, msg, s, a))
  {
    hide Typed, FlightOk, RxOk, RxInStep, DeliveryOk, Tx.RunCf;
    var c := s.tx.value;
    assert Flow(Next(cfg, msg, s, a)) == Flow(s);
    match a {
      case TxWork(pad, accept) => WorkInStep(cfg, msg, c, s.next, s.grants, pad, accept);
      case TxResume(pad, accept) => ResumeInStep(cfg, msg, c, s.next, s.grants, pad, accept);
      case TxTimer =>
    }
  }

  // ----- flow control frames

  lemma FlowShrinks(cfg: Config, flow: seq<CanFrame>, tx: Option<Tx.SendCtx>, next: nat, seen: int,
                    grants: nat, cts: nat, i: nat)
    requires FlowInStep(cfg, flow, tx, next, seen, grants, cts) && i < |flow|
    ensures FlowInStep(cfg, Remove(flow, i), tx, next, seen, grants, cts)
  {
    assert forall f <- Remove(flow, i) :: f in flow;
  }

  lemma TakenUp(cfg: Config, c: Tx.SendCtx, f: CanFrame, next: nat, grants: nat)
    requires TxInStep(cfg, Some(c), next, grants) && IsFlow(cfg, f) && next > 0
    requires IsCts(f) ==> !Going(c)
    requires IsCts(f) && cfg.bs > 0 ==> grants > 0 || next == 1
    ensures TxInStep(cfg, Some(Tx.CanRx(cfg, c, f)), next,
                     if c.state == Tx.WaitFc && IsCts(f) then grants + 1 else grants)
    ensures !IsCts(f) && Idle(Some(c)) ==> Idle(Some(Tx.CanRx(cfg, c, f)))
  {
  }

  lemma FlowActionInStep(cfg: Config, msg: seq<Byte>, s: System, a: Action)
    requires InStep(cfg, msg, s) && Enabled(cfg, msg, s, a) && (a.FcComplete? || a.LoseFlow?)
    requires Core(cfg, msg, Next(cfg, msg, s, a))
    ensures InStep(cfg, msg, Next(cfg, msg, s, a))
  {
    hide Typed, FlightOk, TxOk, DeliveryOk, FlowInStep, TxInStep;
    var s' := Next(cfg, msg, s, a);
    if a.LoseFlow? {
      assert Flow(s') == Remove(Flow(s), a.i);
      FlowShrinks(cfg, Flow(s), s.tx, s.next, s.seen, s.grants, s.ctsSent, a.i);
    } else if a.lost {
      assert Flow(s') == Flow(s)[..|s.fcWire|] + Flow(s)[|s.fcWire| + 1..];
      FlowShrinks(cfg, Flow(s), s.tx, s.next, s.seen, s.grants, s.ctsSent, |s.fcWire|);
    } else {
      assert Flow(s') == Flow(s);
    }
  }

  /** The flow control frame in front reaches the sender. */
  lemma FlowTaken(cfg: Config, flow: seq<CanFrame>, tx: Option<Tx.SendCtx>, tx': Option<Tx.SendCtx>, next: nat,
                  seen: int, grants: nat, cts: nat, up: bool)
    requires FlowInStep(cfg, flow, tx, next, seen, grants, cts) && flow != []
    requires up ==> IsCts(flow[0])
    requires !IsCts(flow[0]) && Idle(tx) ==> Idle(tx')
    ensures FlowInStep(cfg, flow[1..], tx', next, seen, if up then grants + 1 else grants, cts)
  {
    assert flow[0] in flow;
    assert forall k | 0 <= k < |flow[1..]| :: flow[1..][k] == flow[k + 1];
  }

  lemma FlowArrivesInStep(cfg: Config, msg: seq<Byte>, s: System)
    requires InStep(cfg, msg, s) && s.fcWire != [] && Core(cfg, msg, Next(cfg, msg, s, TxFlow))
    ensures InStep(cfg, msg, Next(cfg, msg, s, TxFlow))
  {
    hide Tx.CanRx;
    var f := s.fcWire[0];
    assert f == Flow(s)[0] && f in Flow(s);
    var s' := Next(cfg, msg, s, TxFlow);
    assert Flow(s') == Flow(s)[1..];
    var up := s.tx.Some? && s.tx.value.state == Tx.WaitFc && IsCts(f);
    if s.tx.Some? {
      TakenUp(cfg, s.tx.value, f, s.next, s.grants);
    }
    FlowTaken(cfg, Flow(s), s.tx, s'.tx, s.next, s.seen, s.grants, s.ctsSent, up);
  }

  // ----- the receiver

  lemma AcceptInStep(cfg: Config, msg: seq<Byte>, c: Rx.RecvCtx, at: Progress, cts: nat, p: Packet)
    requires RxInStep(cfg, msg, Some(c), at, cts) && c.state == Rx.WaitCf && p.index >= 1
    requires WellFormed(cfg, p.frame) && Rx.Continues(c, p.frame)
    ensures RxInStep(cfg, msg, Some(Rx.ProcessCf(cfg, c.NewFragment(), p.frame)),
                     Progress(p.index, at.accepted + 1, p.index), cts)
  {
  }

  /** While a clear-to-send frame is under way no data frame is. */
  lemma FlowSees(cfg: Config, flow: seq<CanFrame>, tx: Option<Tx.SendCtx>, next: nat, seen: int, seen': int,
                 grants: nat, cts: nat)
    requires FlowInStep(cfg, flow, tx, next, seen, grants, cts) && seen < seen' < next
    ensures FlowInStep(cfg, flow, tx, next, seen', grants, cts)
  {
  }

  lemma FrameInFlight(cfg: Config, msg: seq<Byte>, s: System)
    requires Core(cfg, msg, s) && s.wire != []
    ensures var p := InFlight(s)[0];
            && p == s.wire[0] && WellFormed(cfg, p.frame)
            && -1 <= s.seen < p.index < s.next && Genuine(cfg, msg, p)
  {
    hide TxOk, RxOk;
    assert InFlight(s)[0] in InFlight(s);
  }

  lemma RxFrameInStep(cfg: Config, msg: seq<Byte>, rx: Option<Rx.RecvCtx>, at: Progress, cts: nat, p: Packet,
                      allocOk: bool)
    requires LongMessage(cfg, msg) && Sendable(cfg, msg) && RxOk(cfg, msg, rx, at) && RxInStep(cfg, msg, rx, at, cts)
    requires Genuine(cfg, msg, p) && WellFormed(cfg, p.frame) && -1 <= at.seen < p.index
    ensures var taken := allocOk && rx.Some? && rx.value.state == Rx.WaitCf && Rx.Continues(rx.value, p.frame);
            RxInStep(cfg, msg, Rx.CanRx(cfg, rx, p.frame, allocOk),
                     Progress(p.index, if taken then at.accepted + 1 else at.accepted,
                              if taken then p.index else at.last), cts)
  {
    hide Rx.Continues, Holding, Quota, Span;
    if rx.Some? && allocOk && rx.value.state == Rx.WaitCf {
      hide Rx.ProcessCf;
      if Rx.Continues(rx.value, p.frame) {
        AcceptInStep(cfg, msg, rx.value, at, cts, p);
      } else {
        RejectKeeps(cfg, msg, rx.value, at, p);
      }
    }
  }

  lemma FrameTaken(cfg: Config, msg: seq<Byte>, s: System, s': System, allocOk: bool)
    requires Typed(cfg, msg, s) && s.wire != [] && s' == Next(cfg, msg, s, RxFrame(allocOk))
    ensures var p := InFlight(s)[0];
            var taken := allocOk && s.rx.Some? && s.rx.value.state == Rx.WaitCf && Rx.Continues(s.rx.value, p.frame);
            && p == s.wire[0]
            && s'.rx == Rx.CanRx(cfg, s.rx, p.frame, allocOk)
            && ProgressOf(s') == Progress(p.index, if taken then s.accepted + 1 else s.accepted,
                                          if taken then p.index else s.lastAccepted)
            && s' == s.(wire := s'.wire, rx := s'.rx, seen := s'.seen, accepted := s'.accepted,
                        lastAccepted := s'.lastAccepted)
  {
    hide Rx.CanRx, Rx.Continues;
  }

  lemma FrameInStep(cfg: Config, msg: seq<Byte>, s: System, s': System, allocOk: bool)
    requires Typed(cfg, msg, s) && s.wire != [] && s' == Next(cfg, msg, s, RxFrame(allocOk))
    requires Core(cfg, msg, s') && InStep(cfg, msg, s)
    ensures InStep(cfg, msg, s')
  {
    FrameInFlight(cfg, msg, s);
    FrameTaken(cfg, msg, s, s', allocOk);
    hide Next, Typed, TxOk, TxInStep, FlowInStep, DeliveryOk, FlightOk, RxOk, RxInStep, LongMessage, Genuine, Rx.CanRx;
    hide Rx.Continues, WellFormed;
    var p := InFlight(s)[0];
    assert Flow(s') == Flow(s);
    FlowSees(cfg, Flow(s), s.tx, s.next, s.seen, p.index, s.grants, s.ctsSent);
    RxFrameInStep(cfg, msg, s.rx, ProgressOf(s), s.ctsSent, p, allocOk);
  }

  /** When the receiver asks for a block it has everything the sender was allowed to send. */
  lemma AsksInStep(cfg: Config, msg: seq<Byte>, s: System)
    requires InStep(cfg, msg, s) && s.rx.Some?
    requires s.rx.value.state == Rx.TryAlloc || (s.rx.value.state == Rx.ProcessFf && !Refused(cfg, msg))
    ensures s.ctsSent == s.grants && s.seen == s.next - 1 && !CtsUnderWay(Flow(s))
    ensures Idle(s.tx)
    ensures cfg.bs > 0 ==> cfg.dlen - 2 + Span(cfg, Quota(cfg, s.ctsSent)) < |msg|
    ensures cfg.bs == 0 ==> s.ctsSent == 0
  {
    var c := s.rx.value;
    var at := ProgressOf(s);
    if cfg.bs > 0 && s.grants < s.ctsSent {
      QuotaMonotone(cfg, s.grants, s.ctsSent);
      assert false;
    }
  }

  lemma FlowGrows(cfg: Config, flow: seq<CanFrame>, tx: Option<Tx.SendCtx>, next: nat, seen: int,
                  grants: nat, cts: nat, f: CanFrame)
    requires FlowInStep(cfg, flow, tx, next, seen, grants, cts) && IsFlow(cfg, f)
    requires IsCts(f) ==> cts == grants && seen == next - 1 && Idle(tx) && !CtsUnderWay(flow)
    ensures FlowInStep(cfg, flow + [f], tx, next, seen, grants, if IsCts(f) then cts + 1 else cts)
  {
  }

  /** Any other run of the state machine asks for nothing. */
  lemma OtherRxWork(cfg: Config, msg: seq<Byte>, c: Rx.RecvCtx, at: Progress, cts: nat)
    requires RxInStep(cfg, msg, Some(c), at, cts) && c.Fits() && at.seen >= 0
    requires c.state != Rx.TryAlloc && c.state != Rx.WaitFfSf
    requires c.state == Rx.ProcessFf ==> Refused(cfg, msg) && c.remLen == |msg| - (cfg.dlen - 2)
    ensures var out := Rx.Work(cfg, c);
            RxInStep(cfg, msg, out.ctx, at, cts) && |out.fcs| <= 1
            && (out.delivered != [] ==> c.state == Rx.Recycle || c.state == Rx.ProcessSf)
            && forall f <- out.fcs :: IsFlow(cfg, f) && !IsCts(f)
  {
  }

  lemma AskedInStep(cfg: Config, msg: seq<Byte>, s: System)
    requires InStep(cfg, msg, s) && s.rx.Some?
    requires s.rx.value.state == Rx.TryAlloc || (s.rx.value.state == Rx.ProcessFf && !Refused(cfg, msg))
    ensures var out := Rx.Work(cfg, s.rx.value);
            && out.fcs == [FlowControl(cfg, Cts)] && out.delivered == []
            && RxInStep(cfg, msg, out.ctx, ProgressOf(s), s.ctsSent + 1)
  {
    AsksInStep(cfg, msg, s);
  }

  lemma RxWorkInStep(cfg: Config, msg: seq<Byte>, s: System)
    requires InStep(cfg, msg, s) && s.rx.Some? && s.rx.value.work && Core(cfg, msg, Next(cfg, msg, s, RxWork))
    ensures InStep(cfg, msg, Next(cfg, msg, s, RxWork))
  {
    hide Rx.Work, TxInStep, TxOk, Typed, FlightOk, DeliveryOk;
    var c := s.rx.value;
    var out := Rx.Work(cfg, c);
    assert Flow(Next(cfg, msg, s, RxWork)) == Flow(s) + out.fcs;
    if c.state == Rx.TryAlloc || (c.state == Rx.ProcessFf && !Refused(cfg, msg)) {
      AsksInStep(cfg, msg, s);
      AskedInStep(cfg, msg, s);
      FlowGrows(cfg, Flow(s), s.tx, s.next, s.seen, s.grants, s.ctsSent, FlowControl(cfg, Cts));
    } else {
      OtherRxWork(cfg, msg, c, ProgressOf(s), s.ctsSent);
      if out.fcs != [] {
        FlowGrows(cfg, Flow(s), s.tx, s.next, s.seen, s.grants, s.ctsSent, out.fcs[0]);
        assert out.fcs == [out.fcs[0]];
      } else {
        assert Flow(s) + [] == Flow(s);
      }
    }
  }

  // ----- every action

  lemma OtherActionInStep(cfg: Config, msg: seq<Byte>, s: System, a: Action)
    requires InStep(cfg, msg, s) && Enabled(cfg, msg, s, a) && (a.TxComplete? || a.RxTimer? || a.LoseData?)
    requires Core(cfg, msg, Next(cfg, msg, s, a))
    ensures InStep(cfg, msg, Next(cfg, msg, s, a))
  {
    hide Tx.Completed;
    assert Flow(Next(cfg, msg, s, a)) == Flow(s);
    if a.TxComplete? && s.tx.Some? {
      CompletionInStep(cfg, s.tx.value, s.next, s.grants, a.failed);
    }
  }

  lemma CompletionInStep(cfg: Config, c: Tx.SendCtx, next: nat, grants: nat, failed: bool)
    requires TxInStep(cfg, Some(c), next, grants)
    ensures TxInStep(cfg, Tx.Completed(c, failed).ctx, next, grants)
    ensures Idle(Some(c)) ==> Idle(Tx.Completed(c, failed).ctx)
    ensures Tx.Completed(c, failed).frames == []
  {
  }

  lemma StepStaysInStep(cfg: Config, msg: seq<Byte>, s: System, a: Action)
    requires InStep(cfg, msg, s) && Enabled(cfg, msg, s, a)
    ensures InStep(cfg, msg, Next(cfg, msg, s, a))
  {
    StepKeepsCore(cfg, msg, s, a);
    match a {
      case TxWork(_, _) => TxActionInStep(cfg, msg, s, a);
      case TxResume(_, _) => TxActionInStep(cfg, msg, s, a);
      case TxTimer => TxActionInStep(cfg, msg, s, a);
      case TxFlow => FlowArrivesInStep(cfg, msg, s);
      case FcComplete(_, _) => FlowActionInStep(cfg, msg, s, a);
      case LoseFlow(_) => FlowActionInStep(cfg, msg, s, a);
      case RxFrame(allocOk) => FrameInStep(cfg, msg, s, Next(cfg, msg, s, a), allocOk);
      case RxWork => RxWorkInStep(cfg, msg, s);
      case _ => OtherActionInStep(cfg, msg, s, a);
    }
  }

  lemma {:induction false} RunStaysInStep(cfg: Config, msg: seq<Byte>, s: System, run: seq<Action>)
    requires InStep(cfg, msg, s) && Legal(cfg, msg, s, run)
    ensures InStep(cfg, msg, Run(cfg, msg, s, run))
    decreases |run|
  {
    if run != [] {
      StepStaysInStep(cfg, msg, s, run[0]);
      RunStaysInStep(cfg, msg, Next(cfg, msg, s, run[0]), run[1..]);
    }
  }

  lemma ReachableInStep(cfg: Config, msg: seq<Byte>, s: System)
    requires LongMessage(cfg, msg) && Reachable(cfg, msg, s)
    ensures InStep(cfg, msg, s)
  {
    var start: System, run: seq<Action> :|
      Initial(cfg, msg, start) && Legal(cfg, msg, start, run) && s == Run(cfg, msg, start, run);
    StartsInStep(cfg, msg, start);
    RunStaysInStep(cfg, msg, start, run);
  }

  /** Lock-step flow control, in every state and whatever gets lost. The k-th consecutive frame carries k mod 16. At
      most a block has been emitted since the last clear-to-send frame was taken up, and at most a block has not
      been appended, whether or not the receiver is still there. The sender's countdown is exactly what is left of
      what it was granted, the receiver's what is left of what it asked for; in the same block they differ by the
      frames emitted and not appended. No clear-to-send frame is ever sent for a block that would begin at or behind
      the end of the message. */
  lemma EndsAgree(cfg: Config, msg: seq<Byte>, s: System)
    requires LongMessage(cfg, msg) && Reachable(cfg, msg, s)
    ensures forall p <- InFlight(s) | p.index > 0 :: WellFormed(cfg, p.frame) && p.frame.data[0] % 16 == p.index % 16
    ensures cfg.bs > 0 ==> Emitted(s.next) - s.accepted <= cfg.bs
    ensures cfg.bs > 0 && s.grants > 0 ==> Emitted(s.next) - Quota(cfg, s.grants - 1) <= cfg.bs
    ensures s.grants == 0 ==> Emitted(s.next) == 0
    ensures cfg.bs > 0 && s.tx.Some? && Going(s.tx.value) ==> Emitted(s.next) + s.tx.value.bs == Quota(cfg, s.grants)
    ensures s.rx.Some? && s.rx.value.state == Rx.WaitCf && cfg.bs > 0 ==>
              && s.accepted + s.rx.value.bs == Quota(cfg, s.ctsSent)
              && Emitted(s.next) - s.accepted <= s.rx.value.bs
              && (s.tx.Some? && Going(s.tx.value) && s.grants == s.ctsSent ==>
                    s.rx.value.bs - s.tx.value.bs == Emitted(s.next) - s.accepted)
    ensures s.grants <= s.ctsSent <= s.grants + 1
    ensures cfg.bs > 0 && s.ctsSent > 0 ==> cfg.dlen - 2 + Span(cfg, Quota(cfg, s.ctsSent - 1)) < |msg|
    ensures cfg.bs == 0 ==> s.ctsSent <= 1
  {
    hide Core, Reachable, LongMessage, Span, Quota, WellFormed, OneCts, CtsUnderWay, IsFlow;
    ReachableInStep(cfg, msg, s);
    CoreNumbers(cfg, msg, s);
    if cfg.bs > 0 {
      BlockBounds(cfg, Emitted(s.next), s.accepted, s.grants, s.ctsSent);
    }
  }

  lemma BlockBounds(cfg: Config, emitted: nat, accepted: nat, grants: nat, cts: nat)
    requires cfg.bs > 0 && grants <= cts <= grants + 1 && emitted <= Quota(cfg, grants)
    requires (if cts == 0 then 0 else Quota(cfg, cts - 1)) <= accepted
    ensures emitted - accepted <= cfg.bs
    ensures grants > 0 ==> emitted - Quota(cfg, grants - 1) <= cfg.bs
    ensures grants == 0 ==> emitted == 0
    ensures Quota(cfg, grants) <= Quota(cfg, cts)
  {
  }

  lemma CoreNumbers(cfg: Config, msg: seq<Byte>, s: System)
    requires Core(cfg, msg, s)
    ensures forall p <- InFlight(s) | p.index > 0 :: WellFormed(cfg, p.frame) && p.frame.data[0] % 16 == p.index % 16
  {
    hide Typed, TxOk, RxOk;
  }
}
