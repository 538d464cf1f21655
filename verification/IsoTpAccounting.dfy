/** Completion callbacks: every frame the driver accepted is counted until its callback has run, and success
    is reported only when nothing is left to count. */
module IsoTpAccounting {
  import opened IsoTpFrame
  import opened IsoTpLink
  import opened IsoTpSafety
  import opened IsoTpLockstep
  import opened Wrappers
  import Tx = IsoTpSender

  /** `n` frames are awaiting their completion. */
  predicate TxAccounted(cfg: Config, tx: Option<Tx.SendCtx>, n: nat, grants: nat) {
    tx.Some? ==>
      var c := tx.value;
      && c.pendingCb == n && n <= 1
      && (c.state == Tx.TxErr ==> c.error != Ok)
      && (c.single ==> n == 1)
      && (!c.single ==>
            && (c.state == Tx.SendFf || c.state == Tx.WaitFin ==> n == 0)
            && (c.state == Tx.WaitBacklog ==> n == 1)
            && (c.state == Tx.SendCf && !c.blocked ==> n == 0 && (cfg.stmin == 0 ==> !c.sem))
            && (c.state == Tx.WaitSt ==> cfg.stmin != 0 && (c.work ==> n == 0))
            && (c.blocked ==> cfg.stmin == 0 && (c.sem <==> n == 0))
            && (grants > 0 ==> c.backlog == n))
  }

  /** sent_callback has been called at most once, and with success only for a message whose frames have all
      left. */
  predicate ResultsAccounted(cfg: Config, msg: seq<Byte>, s: System) {
    && cfg.Valid()
    && |s.results| <= 1
    && (s.tx.Some? ==> s.results == [])
    && (s.results != [] && s.results[0] == Ok && LongMessage(cfg, msg) ==>
          s.outbox == [] && s.next > 0 && Offset(cfg, |msg|, s.next - 1) == |msg|)
  }

  predicate Accounted(cfg: Config, msg: seq<Byte>, s: System) {
    && Core(cfg, msg, s) && (LongMessage(cfg, msg) ==> InStep(cfg, msg, s))
    && TxAccounted(cfg, s.tx, |s.outbox|, s.grants)
    && ResultsAccounted(cfg, msg, s)
  }

  lemma StartsAccounted(cfg: Config, msg: seq<Byte>, s: System)
    requires Sendable(cfg, msg) && Initial(cfg, msg, s)
    ensures Accounted(cfg, msg, s)
  {
    StartsInCore(cfg, msg, s);
    if LongMessage(cfg, msg) {
      StartsInStep(cfg, msg, s);
    }
  }

  lemma CfAccounted(cfg: Config, msg: seq<Byte>, c: Tx.SendCtx, grants: nat, pad: seq<Byte>, accept: Answer)
    requires cfg.Valid() && |pad| == cfg.dlen && c.Ready(cfg, msg)
    requires !c.single && !c.blocked && (c.state == Tx.SendCf || c.state == Tx.TxErr)
    requires grants > 0 && c.backlog == c.pendingCb == 0 && (cfg.stmin == 0 ==> !c.sem) && c.stmin == cfg.stmin
    requires (c.work ==> cfg.stmin == 0) && (c.state == Tx.TxErr ==> c.error != Ok)
    ensures var out := Tx.RunCf(cfg, msg, c, pad, accept);
            TxAccounted(cfg, out.ctx, |out.frames|, grants) && out.results == [] && out.ctx.Some?
  {
  }

  lemma WorkCounted(cfg: Config, msg: seq<Byte>, c: Tx.SendCtx, next: nat, n: nat, grants: nat, pad: seq<Byte>,
                    accept: Answer)
    requires cfg.Valid() && |pad| == cfg.dlen && c.work && !c.blocked && TxOk(cfg, msg, Some(c), next)
    requires TxAccounted(cfg, Some(c), n, grants) && (!c.single ==> TxInStep(cfg, Some(c), next, grants))
    ensures var out := Tx.Work(cfg, msg, c, pad, accept);
            && TxAccounted(cfg, out.ctx, n + |out.frames|, grants)
            && if out.ctx.Some? then out.results == []
               else out.frames == [] && |out.results| == 1 && (out.results[0] == Ok ==> c.state == Tx.WaitFin)
  {
    hide Tx.RunCf;
    if c.state == Tx.SendCf {
      CfAccounted(cfg, msg, c.(work := false, timer := false), grants, pad, accept);
    }
  }

  lemma WorkAccounted(cfg: Config, msg: seq<Byte>, s: System, pad: seq<Byte>, accept: Answer)
    requires Accounted(cfg, msg, s) && Enabled(cfg, msg, s, TxWork(pad, accept))
    ensures var s' := Next(cfg, msg, s, TxWork(pad, accept));
            TxAccounted(cfg, s'.tx, |s'.outbox|, s'.grants) && ResultsAccounted(cfg, msg, s')
  {
    WorkCounted(cfg, msg, s.tx.value, s.next, |s.outbox|, s.grants, pad, accept);
    hide FlightOk, RxOk, RxInStep, FlowInStep, DeliveryOk, Tx.Work;
  }

  lemma ResumeAccounted(cfg: Config, msg: seq<Byte>, s: System, pad: seq<Byte>, accept: Answer)
    requires Accounted(cfg, msg, s) && Enabled(cfg, msg, s, TxResume(pad, accept))
    ensures var s' := Next(cfg, msg, s, TxResume(pad, accept));
            TxAccounted(cfg, s'.tx, |s'.outbox|, s'.grants) && ResultsAccounted(cfg, msg, s')
  {
    CfAccounted(cfg, msg, s.tx.value.(sem := false, blocked := false), s.grants, pad, accept);
  }

  lemma CompletedAccounted(cfg: Config, c: Tx.SendCtx, n: nat, grants: nat, failed: bool)
    requires TxAccounted(cfg, Some(c), n, grants) && n > 0
    requires !c.single && c.state == Tx.WaitBacklog ==> grants > 0
    ensures var out := Tx.Completed(c, failed);
            && TxAccounted(cfg, out.ctx, n - 1, grants)
            && out.frames == [] && (out.ctx.Some? <==> !c.single) && |out.results| == if c.single then 1 else 0
  {
  }

  lemma CompletionAccounted(cfg: Config, msg: seq<Byte>, s: System, lost: bool, failed: bool)
    requires Accounted(cfg, msg, s) && s.outbox != []
    ensures var s' := Next(cfg, msg, s, TxComplete(lost, failed));
            TxAccounted(cfg, s'.tx, |s'.outbox|, s'.grants) && ResultsAccounted(cfg, msg, s')
  {
    hide Typed, FlightOk, RxOk, RxInStep, FlowInStep, Tx.Completed;
    if s.tx.Some? {
      CompletedAccounted(cfg, s.tx.value, |s.outbox|, s.grants, failed);
    }
  }

  /** A clear-to-send frame finds nothing outstanding, so resetting the backlog loses no count. */
  lemma FlowAccounted(cfg: Config, msg: seq<Byte>, s: System)
    requires Accounted(cfg, msg, s) && s.fcWire != []
    ensures var s' := Next(cfg, msg, s, TxFlow);
            TxAccounted(cfg, s'.tx, |s'.outbox|, s'.grants) && ResultsAccounted(cfg, msg, s')
  {
    hide Tx.CanRx;
    var f := Flow(s)[0];
    assert f == s.fcWire[0] && f in Flow(s);
    if s.tx.Some? {
      if LongMessage(cfg, msg) && IsCts(f) {
        QuietBus(cfg, msg, InFlight(s), s.seen, s.next);
      }
      FlowTakenAccounted(cfg, s.tx.value, f, |s.outbox|, s.grants);
    }
  }

  lemma QuietBus(cfg: Config, msg: seq<Byte>, flight: seq<Packet>, seen: int, next: nat)
    requires FlightOk(cfg, msg, flight, seen, next)
    ensures flight != [] ==> seen < next - 1
  {
    if flight != [] {
      assert flight[0] in flight;
    }
  }

  lemma FlowTakenAccounted(cfg: Config, c: Tx.SendCtx, f: CanFrame, n: nat, grants: nat)
    requires TxAccounted(cfg, Some(c), n, grants) && WellFormed(cfg, f)
    requires c.single ==> c.state == Tx.SendFf || c.state == Tx.TxErr
    requires !c.single ==> IsFlow(cfg, f) && (IsCts(f) ==> n == 0 && !c.blocked)
    ensures TxAccounted(cfg, Some(Tx.CanRx(cfg, c, f)), n,
                        if c.state == Tx.WaitFc && IsCts(f) then grants + 1 else grants)
  {
    if c.state == Tx.WaitFc && PciType(f) == TYPE_FC {
      match FlowStatusOf(f) {
        case Cts =>
        case Wait =>
        case Overflow =>
        case InvalidFs =>
      }
    }
  }

  lemma StepStaysAccounted(cfg: Config, msg: seq<Byte>, s: System, a: Action)
    requires Accounted(cfg, msg, s) && Enabled(cfg, msg, s, a)
    ensures Accounted(cfg, msg, Next(cfg, msg, s, a))
  {
    hide Core, InStep, TxAccounted, ResultsAccounted;
    assert Core(cfg, msg, s);
    StepKeepsCore(cfg, msg, s, a);
    if LongMessage(cfg, msg) {
      StepStaysInStep(cfg, msg, s, a);
    }
    match a {
      case TxWork(pad, accept) => WorkAccounted(cfg, msg, s, pad, accept);
      case TxResume(pad, accept) => ResumeAccounted(cfg, msg, s, pad, accept);
      case TxComplete(lost, failed) => CompletionAccounted(cfg, msg, s, lost, failed);
      case TxFlow => FlowAccounted(cfg, msg, s);
      case _ => OthersAccounted(cfg, msg, s, a);
    }
  }

  lemma OthersAccounted(cfg: Config, msg: seq<Byte>, s: System, a: Action)
    requires Accounted(cfg, msg, s) && Enabled(cfg, msg, s, a)
    requires !a.TxWork? && !a.TxResume? && !a.TxComplete? && !a.TxFlow?
    ensures var s' := Next(cfg, msg, s, a);
            TxAccounted(cfg, s'.tx, |s'.outbox|, s'.grants) && ResultsAccounted(cfg, msg, s')
  {
  }

  lemma {:induction false} RunStaysAccounted(cfg: Config, msg: seq<Byte>, s: System, run: seq<Action>)
    requires Accounted(cfg, msg, s) && Legal(cfg, msg, s, run)
    ensures Accounted(cfg, msg, Run(cfg, msg, s, run))
    decreases |run|
  {
    hide Accounted;
    if run != [] {
      StepStaysAccounted(cfg, msg, s, run[0]);
      RunStaysAccounted(cfg, msg, Next(cfg, msg, s, run[0]), run[1..]);
    }
  }

  lemma ReachableAccounted(cfg: Config, msg: seq<Byte>, s: System)
    requires Sendable(cfg, msg) && Reachable(cfg, msg, s)
    ensures Accounted(cfg, msg, s)
  {
    var start: System, run: seq<Action> :|
      Initial(cfg, msg, start) && Legal(cfg, msg, start, run) && s == Run(cfg, msg, start, run);
    StartsAccounted(cfg, msg, start);
    RunStaysAccounted(cfg, msg, start, run);
  }

  /** In every run, pending_cb of the live context is the number of accepted frames whose completion has
      not run, at most one; and success is reported at most once, for a long message only when every
      byte has been sent and every frame completed. */
  lemma CallbacksAccountedFor(cfg: Config, msg: seq<Byte>, s: System)
    requires Sendable(cfg, msg) && Reachable(cfg, msg, s)
    ensures s.tx.Some? ==> s.tx.value.pendingCb == |s.outbox| <= 1
    ensures |s.results| <= 1
    ensures Ok in s.results && LongMessage(cfg, msg) ==>
              s.outbox == [] && s.next > 0 && Offset(cfg, |msg|, s.next - 1) == |msg|
  {
    ReachableAccounted(cfg, msg, s);
    hide Core, InStep, Reachable;
  }
}
