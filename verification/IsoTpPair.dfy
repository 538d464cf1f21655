/** The two contexts of one transfer, as the classes that the handlers update, with the bus between them: each event
    does to them what the link's transition says, so that what holds of every run of the link holds of the objects. */
module IsoTpPair {
  import opened IsoTpContext
  import opened IsoTpDelivery
  import opened IsoTpEnding
  import opened IsoTpFrame
  import opened IsoTpLink
  import opened IsoTpSafety
  import opened Wrappers
  import Tx = IsoTpSender
  import Rx = IsoTpReceiver

  class Pair {
    const cfg: Config
    const msg: seq<Byte>
    const addr: bv32
    var tx: SendContext?
    var rx: ReceiveContext?
    var outbox: seq<Packet>
    var wire: seq<Packet>
    var fcOutbox: seq<CanFrame>
    var fcWire: seq<CanFrame>
    var delivered: seq<seq<Byte>>
    var results: seq<Status>
    var errors: seq<Status>
    /** What no handler reads. */
    var next: nat
    ghost var seen: int
    ghost var accepted: nat
    ghost var lastAccepted: nat
    ghost var ctsSent: nat
    ghost var grants: nat

    ghost function TxView(): Option<Tx.SendCtx>
      reads `tx, tx
    {
      if tx == null then None else tx.View()
    }

    ghost function RxView(): Option<Rx.RecvCtx>
      reads `rx, rx
    {
      if rx == null then None else rx.View()
    }

    ghost function View(): System
      reads this, tx, rx
    {
      System(TxView(), outbox, wire, RxView(), fcOutbox, fcWire, delivered, results, errors, next, seen, accepted,
             lastAccepted, ctsSent, grants)
    }

    ghost predicate Joined()
      reads this, tx, rx
    {
      && (tx != null ==> tx.live && tx.cfg == cfg && tx.msg == msg)
      && (rx != null ==> rx.live && rx.cfg == cfg)
    }

    ghost predicate Valid()
      reads this, tx, rx
    {
      Joined() && Typed(cfg, msg, View())
    }

    /** No other objects are used than before, or new ones. */
    twostate predicate Kept()
      reads this
    {
      (tx == null || tx == old(tx)) && (rx == null || rx == old(rx) || fresh(rx))
    }

    /** isotp_fast_send with a new context, the driver taking a single frame. */
    constructor (cfg: Config, msg: seq<Byte>, addr: bv32, pad: seq<Byte>, noise: Byte)
      requires cfg.Valid() && |msg| <= MAX_LEN && |pad| == cfg.dlen
      ensures this.cfg == cfg && this.msg == msg && fresh(tx) && rx == null
      ensures Valid() && View() == Start(cfg, msg, pad, noise)
    {
      var c := new SendContext(cfg, addr, noise, msg);
      if |msg| <= cfg.SfMax() {
        c.QueueSingle(msg, pad, true);
      } else {
        c.QueueLong(msg);
      }
      this.cfg, this.msg, this.addr, tx, rx := cfg, msg, addr, c, null;
      outbox, next := if c.accepted == [] then [] else [Packet(0, c.accepted[0])], |c.accepted|;
      wire, fcOutbox, fcWire, delivered, results, errors := [], [], [], [], [], [];
      seen, accepted, lastAccepted, ctsSent, grants := -1, 0, 0, 0, 0;
    }

    /** What a handler of the sender has left behind. */
    method Collect(frames: nat, calls: nat, next': nat)
      requires tx != null && frames <= |tx.accepted| && calls <= |tx.results| && |tx.accepted[frames..]| <= 1
      modifies `tx, `outbox, `results, `next
      ensures tx == if old(tx.live) then old(tx) else null
      ensures outbox == old(outbox) + if old(tx.accepted[frames..]) == [] then []
                                      else [Packet(old(next), old(tx.accepted[frames..])[0])]
      ensures results == old(results) + old(tx.results[calls..]) && next == next'
    {
      if frames < |tx.accepted| {
        outbox := outbox + [Packet(next, tx.accepted[frames])];
      }
      results, next := results + tx.results[calls..], next';
      if !tx.live {
        tx := null;
      }
    }

    method TxWork(pad: seq<Byte>, accept: Answer)
      requires Valid() && Enabled(cfg, msg, View(), IsoTpLink.TxWork(pad, accept))
      modifies this, tx
      ensures Kept() && Valid() && View() == Next(cfg, msg, old(View()), IsoTpLink.TxWork(pad, accept))
    {
      NextTyped(cfg, msg, View(), IsoTpLink.TxWork(pad, accept));
      hide Tx.Work, Tx.SendCtx.Ready;
      var frames, calls, first := |tx.accepted|, |tx.results|, tx.state == Tx.SendFf;
      tx.Work(pad, accept);
      Collect(frames, calls, if first then 1 else next + (|tx.accepted| - frames));
    }

    /** The work handler goes round its loop again. */
    method Again(pad: seq<Byte>, accept: Answer)
      requires Joined() && tx != null && tx.Ready() && tx.blocked && |pad| == cfg.dlen
      modifies this, tx
      ensures Kept() && Joined()
      ensures var out := Tx.Resume(cfg, msg, old(tx.Record()), pad, accept);
              View() == IsoTpLink.Sent(old(View()), out, old(next) + |out.frames|)
    {
      hide Tx.Resume;
      var frames, calls := |tx.accepted|, |tx.results|;
      tx.Resume(pad, accept);
      Collect(frames, calls, next + (|tx.accepted| - frames));
    }

    method TxResume(pad: seq<Byte>, accept: Answer)
      requires Valid() && Enabled(cfg, msg, View(), IsoTpLink.TxResume(pad, accept))
      modifies this, tx
      ensures Kept() && Valid() && View() == Next(cfg, msg, old(View()), IsoTpLink.TxResume(pad, accept))
    {
      NextTyped(cfg, msg, View(), IsoTpLink.TxResume(pad, accept));
      hide Tx.Resume, IsoTpLink.Sent;
      Again(pad, accept);
    }

    method TxTimer()
      requires Valid() && Enabled(cfg, msg, View(), IsoTpLink.TxTimer)
      modifies tx
      ensures Kept() && Valid() && View() == Next(cfg, msg, old(View()), IsoTpLink.TxTimer)
    {
      NextTyped(cfg, msg, View(), IsoTpLink.TxTimer);
      hide Tx.Timeout, Tx.SendCtx.Ready;
      tx.Timeout();
    }

    /** The completion callback of the frame. */
    method CallBack(failed: bool)
      requires Joined() && tx != null
      modifies this, tx
      ensures Kept() && Joined()
      ensures View() == IsoTpLink.Sent(old(View()), Tx.Completed(old(tx.Record()), failed), old(next))
    {
      hide Tx.FrameSent;
      var frames, calls := |tx.accepted|, |tx.results|;
      if tx.single {
        tx.SingleSent(failed);
      } else {
        tx.FrameSent();
      }
      Collect(frames, calls, next);
    }

    method Sent(lost: bool, failed: bool)
      requires Joined() && outbox != []
      modifies this, tx
      ensures Kept() && Joined() && View() == Complete(old(View()), lost, failed)
    {
      hide Tx.Completed, IsoTpLink.Sent;
      var p := outbox[0];
      outbox, wire := outbox[1..], if lost then wire else wire + [p];
      if tx != null {
        CallBack(failed);
      }
    }

    method TxComplete(lost: bool, failed: bool)
      requires Valid() && Enabled(cfg, msg, View(), IsoTpLink.TxComplete(lost, failed))
      modifies this, tx
      ensures Kept() && Valid() && View() == Next(cfg, msg, old(View()), IsoTpLink.TxComplete(lost, failed))
    {
      NextTyped(cfg, msg, View(), IsoTpLink.TxComplete(lost, failed));
      assert Next(cfg, msg, View(), IsoTpLink.TxComplete(lost, failed)) == Complete(View(), lost, failed);
      hide Next, Complete, TakeFlow, IsoTpLink.Receive, Ran;
      Sent(lost, failed);
    }

    method TakeUp()
      requires Joined() && fcWire != [] && WellFormed(cfg, fcWire[0])
      modifies this, tx
      ensures Kept() && Joined() && View() == TakeFlow(cfg, old(View()))
    {
      hide Tx.CanRx;
      var f := fcWire[0];
      fcWire := fcWire[1..];
      if tx != null {
        grants := if tx.state == Tx.WaitFc && IsCts(f) then grants + 1 else grants;
        tx.CanRx(f);
      }
    }

    method TxFlow()
      requires Valid() && Enabled(cfg, msg, View(), IsoTpLink.TxFlow)
      modifies this, tx
      ensures Kept() && Valid() && View() == Next(cfg, msg, old(View()), IsoTpLink.TxFlow)
    {
      NextTyped(cfg, msg, View(), IsoTpLink.TxFlow);
      assert Next(cfg, msg, View(), IsoTpLink.TxFlow) == TakeFlow(cfg, View());
      hide Next, Complete, TakeFlow, IsoTpLink.Receive, Ran;
      TakeUp();
    }

    method Arrive(allocOk: bool)
      requires Joined() && wire != [] && WellFormed(cfg, wire[0].frame)
      modifies this, rx
      ensures Kept() && Joined() && View() == IsoTpLink.Receive(cfg, old(View()), allocOk)
    {
      assert |wire[0].frame.data| > 0;
      hide Rx.CanRx, Accepts, WellFormed, PciType;
      ghost var taken := Accepts(View(), wire[0].frame, allocOk);
      Receive(wire[0].frame, allocOk);
      Note(taken);
    }

    /** The frame is off the bus. */
    method Note(ghost taken: bool)
      requires wire != []
      modifies `wire, `seen, `accepted, `lastAccepted
      ensures View() == old(View()).(wire := old(wire)[1..], seen := old(wire)[0].index,
                                     accepted := if taken then old(accepted) + 1 else old(accepted),
                                     lastAccepted := if taken then old(wire)[0].index else old(lastAccepted))
    {
      seen, accepted := wire[0].index, if taken then accepted + 1 else accepted;
      lastAccepted := if taken then wire[0].index else lastAccepted;
      wire := wire[1..];
    }

    method RxFrame(allocOk: bool)
      requires Valid() && Enabled(cfg, msg, View(), IsoTpLink.RxFrame(allocOk))
      modifies this, rx
      ensures Kept() && Valid() && View() == Next(cfg, msg, old(View()), IsoTpLink.RxFrame(allocOk))
    {
      NextTyped(cfg, msg, View(), IsoTpLink.RxFrame(allocOk));
      assert Next(cfg, msg, View(), IsoTpLink.RxFrame(allocOk)) == IsoTpLink.Receive(cfg, View(), allocOk);
      hide Next, Complete, TakeFlow, IsoTpLink.Receive, Ran;
      Arrive(allocOk);
    }

    /** receive_can_rx with get_recv_ctx. */
    method Receive(f: CanFrame, allocOk: bool)
      requires WellFormed(cfg, f) && (rx != null ==> rx.live && rx.cfg == cfg)
      modifies `rx, rx
      ensures Kept() && (rx != null ==> rx.live && rx.cfg == cfg)
      ensures RxView() == Rx.CanRx(cfg, old(RxView()), f, allocOk)
    {
      hide Rx.ProcessFfSf;
      if rx == null {
        if (PciType(f) == TYPE_FF || PciType(f) == TYPE_SF) && allocOk {
          var c := new ReceiveContext(cfg, addr);
          c.ProcessFfSf(f);
          c.work := true;
          rx := c;
        }
      } else {
        hide Rx.CanRx;
        rx.CanRx(f, allocOk);
        if !rx.live {
          rx := null;
        }
      }
    }

    method CollectRx(fcs: nat, messages: nat, calls: nat)
      requires rx != null && fcs <= |rx.sent| && messages <= |rx.delivered| && calls <= |rx.errors|
      modifies `rx, `fcOutbox, `delivered, `errors
      ensures rx == if old(rx.live) then old(rx) else null
      ensures fcOutbox == old(fcOutbox) + old(rx.sent[fcs..])
      ensures delivered == old(delivered) + old(rx.delivered[messages..])
      ensures errors == old(errors) + old(rx.errors[calls..])
    {
      fcOutbox, delivered := fcOutbox + rx.sent[fcs..], delivered + rx.delivered[messages..];
      errors := errors + rx.errors[calls..];
      if !rx.live {
        rx := null;
      }
    }

    method RunReceiver()
      requires Joined() && rx != null && rx.work && cfg.Valid()
      modifies this, rx
      ensures Kept() && Joined() && View() == Ran(old(View()), Rx.Work(cfg, old(View()).rx.value))
    {
      hide Rx.Work;
      var fcs, messages, calls := |rx.sent|, |rx.delivered|, |rx.errors|;
      ghost var out := Rx.Work(cfg, rx.Record());
      ctsSent := if out.fcs != [] && IsCts(out.fcs[0]) then ctsSent + 1 else ctsSent;
      hide IsCts;
      rx.Work();
      CollectRx(fcs, messages, calls);
    }

    method RxWork()
      requires Valid() && Enabled(cfg, msg, View(), IsoTpLink.RxWork)
      modifies this, rx
      ensures Kept() && Valid() && View() == Next(cfg, msg, old(View()), IsoTpLink.RxWork)
    {
      NextTyped(cfg, msg, View(), IsoTpLink.RxWork);
      assert Next(cfg, msg, View(), IsoTpLink.RxWork) == Ran(View(), Rx.Work(cfg, View().rx.value));
      hide Next, Complete, TakeFlow, IsoTpLink.Receive, Ran;
      RunReceiver();
    }

    method RxTimer()
      requires Valid() && Enabled(cfg, msg, View(), IsoTpLink.RxTimer)
      modifies rx
      ensures Kept() && Valid() && View() == Next(cfg, msg, old(View()), IsoTpLink.RxTimer)
    {
      NextTyped(cfg, msg, View(), IsoTpLink.RxTimer);
      hide Rx.Timeout;
      rx.Timeout();
    }

    method FcComplete(lost: bool, failed: bool)
      requires Valid() && Enabled(cfg, msg, View(), IsoTpLink.FcComplete(lost, failed))
      modifies this, rx
      ensures Kept() && Valid() && View() == Next(cfg, msg, old(View()), IsoTpLink.FcComplete(lost, failed))
    {
      NextTyped(cfg, msg, View(), IsoTpLink.FcComplete(lost, failed));
      hide Rx.FcSent;
      var f := fcOutbox[0];
      fcOutbox, fcWire := fcOutbox[1..], if lost then fcWire else fcWire + [f];
      if rx != null {
        rx.FcSent(failed);
      }
    }

    method LoseData(i: nat)
      requires Valid() && Enabled(cfg, msg, View(), IsoTpLink.LoseData(i))
      modifies this
      ensures Kept() && Valid() && View() == Next(cfg, msg, old(View()), IsoTpLink.LoseData(i))
    {
      NextTyped(cfg, msg, View(), IsoTpLink.LoseData(i));
      wire := wire[..i] + wire[i + 1..];
    }

    method LoseFlow(i: nat)
      requires Valid() && Enabled(cfg, msg, View(), IsoTpLink.LoseFlow(i))
      modifies this
      ensures Kept() && Valid() && View() == Next(cfg, msg, old(View()), IsoTpLink.LoseFlow(i))
    {
      NextTyped(cfg, msg, View(), IsoTpLink.LoseFlow(i));
      fcWire := fcWire[..i] + fcWire[i + 1..];
    }

    // ----- runs

    method Do(a: Action)
      requires Valid() && Enabled(cfg, msg, View(), a)
      modifies this, tx, rx
      ensures Kept() && Valid() && View() == Next(cfg, msg, old(View()), a)
    {
      hide Next, Typed;
      match a {
        case TxWork(pad, accept) => TxWork(pad, accept);
        case TxResume(pad, accept) => TxResume(pad, accept);
        case TxTimer => TxTimer();
        case TxComplete(lost, failed) => TxComplete(lost, failed);
        case TxFlow => TxFlow();
        case RxFrame(allocOk) => RxFrame(allocOk);
        case RxWork => RxWork();
        case RxTimer => RxTimer();
        case FcComplete(lost, failed) => FcComplete(lost, failed);
        case LoseData(i) => LoseData(i);
        case LoseFlow(i) => LoseFlow(i);
      }
    }

    /** Any sequence of events takes the objects to the state that the run of the link ends in. */
    method Drive(run: seq<Action>)
      requires Valid() && Legal(cfg, msg, View(), run)
      modifies this, tx, rx
      ensures Kept() && Valid() && View() == Run(cfg, msg, old(View()), run)
    {
      hide Next, Typed, Enabled;
      assert run[0..] == run;
      for i := 0 to |run|
        invariant Kept() && Valid() && Legal(cfg, msg, View(), run[i..])
        invariant Run(cfg, msg, View(), run[i..]) == Run(cfg, msg, old(View()), run)
      {
        assert run[i..][0] == run[i] && run[i..][1..] == run[i + 1..];
        Do(run[i]);
      }
    }
  }

  /** Whatever happens on the way, the callback of the receiving object has been given nothing, or the message once;
      the sending object has reported one result if it is gone and none before; the events are bounded in number;
      and while an object is there it can act, unless the driver has refused a consecutive frame. If nothing goes
      wrong, either another event is due or the message has been delivered, success reported and both objects freed. */
  method Transfer(cfg: Config, msg: seq<Byte>, addr: bv32, pad: seq<Byte>, noise: Byte, run: seq<Action>)
    returns (p: Pair)
    requires Sendable(cfg, msg) && |pad| == cfg.dlen && Legal(cfg, msg, Start(cfg, msg, pad, noise), run)
    ensures p.Valid() && p.cfg == cfg && p.msg == msg && p.View() == Run(cfg, msg, Start(cfg, msg, pad, noise), run)
    ensures p.delivered == [] || p.delivered == [msg]
    ensures |p.results| == if p.tx == null then 1 else 0
    ensures cfg.wftMax <= 255 ==> |run| <= Weight(cfg, Start(cfg, msg, pad, noise))
    ensures p.rx != null ==> RxCanAct(cfg, msg, p.View())
    ensures p.tx != null && RefusesNone(cfg, msg, Start(cfg, msg, pad, noise), run) ==> TxCanAct(cfg, msg, p.View())
    ensures Deliverable(cfg, msg) && PromptRun(cfg, msg, Start(cfg, msg, pad, noise), run) ==>
              && |run| <= Weight(cfg, Start(cfg, msg, pad, noise))
              && ((p.tx == null && p.rx == null && p.delivered == [msg] && p.results == [Ok])
                  || exists a :: Enabled(cfg, msg, p.View(), a) && Prompt(p.View(), a))
  {
    ghost var start := Start(cfg, msg, pad, noise);
    RunFacts(cfg, msg, pad, noise, run);
    hide Start, Typed, Legal, Run, Enabled, Prompt, PromptRun, Deliverable, RxCanAct, TxCanAct, RefusesNone, Weight;
    p := new Pair(cfg, msg, addr, pad, noise);
    p.Drive(run);
  }

  /** What is known of the run that the objects follow. */
  lemma RunFacts(cfg: Config, msg: seq<Byte>, pad: seq<Byte>, noise: Byte, run: seq<Action>)
    requires Sendable(cfg, msg) && |pad| == cfg.dlen && Legal(cfg, msg, Start(cfg, msg, pad, noise), run)
    ensures var start := Start(cfg, msg, pad, noise);
            var end := Run(cfg, msg, start, run);
            && (end.delivered == [] || end.delivered == [msg])
            && |end.results| == (if end.tx.None? then 1 else 0)
            && (cfg.wftMax <= 255 ==> |run| <= Weight(cfg, start))
            && (end.rx.Some? ==> RxCanAct(cfg, msg, end))
            && (end.tx.Some? && RefusesNone(cfg, msg, start, run) ==> TxCanAct(cfg, msg, end))
            && (Deliverable(cfg, msg) && PromptRun(cfg, msg, start, run) ==>
                  && |run| <= Weight(cfg, start)
                  && (Done(msg, end) || exists a :: Enabled(cfg, msg, end, a) && Prompt(end, a)))
  {
    var start := Start(cfg, msg, pad, noise);
    var end := Run(cfg, msg, start, run);
    assert !Abandoned(start);
    assert Initial(cfg, msg, start) && Legal(cfg, msg, start, []) && Run(cfg, msg, start, []) == start;
    hide Start, Weight, RxCanAct, TxCanAct, RefusesNone, Prompt, PromptRun, Abandoned, Deliverable;
    assert Reachable(cfg, msg, start) && Reachable(cfg, msg, end);
    DeliversOnlyTheMessage(cfg, msg, end);
    TheLiveCanAct(cfg, msg, end);
    if cfg.wftMax <= 255 {
      EveryRunEnds(cfg, msg, start, run);
    }
    if RefusesNone(cfg, msg, start, run) {
      WithoutRefusal(cfg, msg, start, run);
    }
    if Deliverable(cfg, msg) && PromptRun(cfg, msg, start, run) {
      PromptRunsDeliver(cfg, msg, start, run);
    }
  }
}
