/** The separation time: with one, a sender never sends two consecutive frames of a block without its timer having
    expired in between. */
module IsoTpPacing {
  import opened IsoTpFrame
  import opened IsoTpLink
  import opened IsoTpSafety
  import opened IsoTpLockstep
  import opened IsoTpAccounting
  import opened Wrappers
  import Tx = IsoTpSender

  /** While the separation timer runs nothing makes the sender go on. */
  predicate Timed(tx: Option<Tx.SendCtx>) {
    tx.Some? && tx.value.state == Tx.SendCf && tx.value.timer ==> !tx.value.work
  }

  /** The consecutive frames that the sender may send as things are. */
  function Permitted(tx: Option<Tx.SendCtx>): nat {
    if tx.Some? && tx.value.state == Tx.SendCf && !tx.value.timer then 1 else 0
  }

  predicate Paced(cfg: Config, msg: seq<Byte>, s: System) {
    Accounted(cfg, msg, s) && Timed(s.tx)
  }

  lemma StartsPaced(cfg: Config, msg: seq<Byte>, s: System)
    requires LongMessage(cfg, msg) && Sendable(cfg, msg) && Initial(cfg, msg, s)
    ensures Paced(cfg, msg, s)
  {
    StartsAccounted(cfg, msg, s);
    hide Accounted;
  }

  lemma WorkPaced(cfg: Config, msg: seq<Byte>, c: Tx.SendCtx, next: nat, n: nat, grants: nat, pad: seq<Byte>,
                  accept: Answer)
    requires cfg.Valid() && |pad| == cfg.dlen && c.work && !c.blocked && !c.single && TxOk(cfg, msg, Some(c), next)
    requires cfg.stmin > 0 && Timed(Some(c)) && TxInStep(cfg, Some(c), next, grants)
    ensures var out := Tx.Work(cfg, msg, c, pad, accept);
            && Timed(out.ctx)
            && Emitted(if c.state == Tx.SendFf then 1 else next + |out.frames|) + Permitted(out.ctx)
               <= Emitted(next) + Permitted(Some(c))
  {
    hide ConsecutiveFrame, FirstFrame, Tx.TypedOut, Tx.Take;
  }

  lemma OthersPaced(cfg: Config, c: Tx.SendCtx, n: nat, grants: nat, failed: bool, f: CanFrame)
    requires !c.single && Timed(Some(c)) && TxAccounted(cfg, Some(c), n, grants) && WellFormed(cfg, f) && cfg.stmin > 0
    ensures Timed(Some(Tx.Timeout(c))) && Permitted(Some(Tx.Timeout(c))) <= Permitted(Some(c)) + 1
    ensures n > 0 ==> Timed(Tx.Completed(c, failed).ctx)
                      && Permitted(Tx.Completed(c, failed).ctx) <= Permitted(Some(c))
    ensures IsFlow(cfg, f) ==>
              var d := Tx.CanRx(cfg, c, f);
              && Timed(Some(d))
              && Permitted(Some(d)) <= Permitted(Some(c)) + if c.state == Tx.WaitFc && IsCts(f) then 1 else 0
  {
  }

  function Expiries(run: seq<Action>): nat {
    if run == [] then 0 else (if run[0].TxTimer? then 1 else 0) + Expiries(run[1..])
  }

  lemma StepStaysPaced(cfg: Config, msg: seq<Byte>, s: System, a: Action)
    requires Paced(cfg, msg, s) && LongMessage(cfg, msg) && cfg.stmin > 0 && Enabled(cfg, msg, s, a)
    ensures var s' := Next(cfg, msg, s, a);
            && Paced(cfg, msg, s') && s.grants <= s'.grants
            && Emitted(s'.next) + Permitted(s'.tx)
               <= Emitted(s.next) + Permitted(s.tx) + (s'.grants - s.grants) + (if a.TxTimer? then 1 else 0)
  {
    StepStaysAccounted(cfg, msg, s, a);
    SenderFacts(cfg, msg, s, a);
    if s.tx.Some? {
      var c := s.tx.value;
      match a {
        case TxWork(pad, accept) => WorkPaced(cfg, msg, c, s.next, |s.outbox|, s.grants, pad, accept);
        case TxTimer => OthersPaced(cfg, c, |s.outbox|, s.grants, false, FlowControl(cfg, Cts));
        case TxComplete(_, failed) => OthersPaced(cfg, c, |s.outbox|, s.grants, failed, FlowControl(cfg, Cts));
        case TxFlow => OthersPaced(cfg, c, |s.outbox|, s.grants, false, s.fcWire[0]);
        case _ =>
      }
    }
    hide Accounted, Timed, Permitted, Emitted, Typed, Tx.Work, Tx.Timeout, Tx.Completed, Tx.CanRx;
  }

  lemma SenderFacts(cfg: Config, msg: seq<Byte>, s: System, a: Action)
    requires Accounted(cfg, msg, s) && LongMessage(cfg, msg) && cfg.stmin > 0 && Enabled(cfg, msg, s, a)
    ensures Typed(cfg, msg, s) && !a.TxResume? && (a.TxFlow? ==> IsFlow(cfg, s.fcWire[0]))
    ensures s.tx.Some? ==>
              && !s.tx.value.single && TxOk(cfg, msg, s.tx, s.next) && TxInStep(cfg, s.tx, s.next, s.grants)
              && TxAccounted(cfg, s.tx, |s.outbox|, s.grants)
  {
    if a.TxFlow? {
      assert s.fcWire[0] == Flow(s)[0] && s.fcWire[0] in Flow(s);
    }
  }

  /** Over any part of any run: the consecutive frames sent are at most one more than the blocks granted and the times
      that the timer expired. So of two frames in one block the second has waited for the timer. */
  lemma {:induction false} FramesArePaced(cfg: Config, msg: seq<Byte>, s: System, run: seq<Action>)
    requires Paced(cfg, msg, s) && LongMessage(cfg, msg) && cfg.stmin > 0 && Legal(cfg, msg, s, run)
    ensures var end := Run(cfg, msg, s, run);
            && Paced(cfg, msg, end) && s.grants <= end.grants
            && Emitted(end.next) + Permitted(end.tx)
               <= Emitted(s.next) + Permitted(s.tx) + (end.grants - s.grants) + Expiries(run)
    decreases |run|
  {
    hide Paced, Permitted, Emitted;
    if run != [] {
      StepStaysPaced(cfg, msg, s, run[0]);
      FramesArePaced(cfg, msg, Next(cfg, msg, s, run[0]), run[1..]);
    }
  }

  lemma ReachablePaced(cfg: Config, msg: seq<Byte>, s: System)
    requires LongMessage(cfg, msg) && Sendable(cfg, msg) && cfg.stmin > 0 && Reachable(cfg, msg, s)
    ensures Paced(cfg, msg, s)
  {
    var start: System, run: seq<Action> :|
      Initial(cfg, msg, start) && Legal(cfg, msg, start, run) && s == Run(cfg, msg, start, run);
    StartsPaced(cfg, msg, start);
    FramesArePaced(cfg, msg, start, run);
  }

  /** The same from any reachable state. */
  lemma SeparationTimeIsKept(cfg: Config, msg: seq<Byte>, s: System, run: seq<Action>)
    requires LongMessage(cfg, msg) && Sendable(cfg, msg) && cfg.stmin > 0 && Reachable(cfg, msg, s)
    requires Legal(cfg, msg, s, run)
    ensures var end := Run(cfg, msg, s, run);
            Emitted(end.next) - Emitted(s.next) <= 1 + (end.grants - s.grants) + Expiries(run)
  {
    hide Reachable, Emitted, Paced;
    ReachablePaced(cfg, msg, s);
    FramesArePaced(cfg, msg, s, run);
  }
}
