/** When four bits of sequence number are enough: the receiver appends consecutive frames in order, in every
    run, exactly if a block has 1 to 16 frames or there are not enough frames to go wrong. */
module IsoTpWindow {
  import opened IsoTpFrame
  import opened IsoTpLink
  import opened IsoTpSafety
  import opened IsoTpLockstep
  import opened Wrappers
  import Tx = IsoTpSender
  import Rx = IsoTpReceiver

  /** The frames appended so far are the first ones, none left out. */
  predicate InOrder(s: System) { s.accepted == s.lastAccepted }

  /** The sequence number tells apart all the frames that can be on the way together. */
  predicate NumbersSuffice(cfg: Config, msg: seq<Byte>)
    requires cfg.Valid()
  {
    || 1 <= cfg.bs <= 16
    || |msg| <= cfg.dlen - 2 + Span(cfg, 16)
    || Refused(cfg, msg)
  }

  lemma OrderKept(cfg: Config, msg: seq<Byte>, s: System, a: Action)
    requires InStep(cfg, msg, s) && NumbersSuffice(cfg, msg) && InOrder(s) && Enabled(cfg, msg, s, a)
    ensures InOrder(Next(cfg, msg, s, a))
  {
    hide Tx.Work, Tx.Resume, Tx.CanRx, Tx.Completed, Rx.Work, Rx.CanRx;
    if a.RxFrame? && Accepts(s, s.wire[0].frame, a.allocOk) {
      AcceptedIsNext(cfg, msg, s, a.allocOk);
    }
    hide InStep, NumbersSuffice, Accepts;
  }

  /** The only frame that can have the number expected is the next one. */
  lemma AcceptedIsNext(cfg: Config, msg: seq<Byte>, s: System, allocOk: bool)
    requires InStep(cfg, msg, s) && NumbersSuffice(cfg, msg) && InOrder(s) && s.wire != []
    requires |s.wire[0].frame.data| > 0 && Accepts(s, s.wire[0].frame, allocOk)
    ensures s.wire[0].index == s.accepted + 1
  {
    FrameInWindow(cfg, msg, s);
    NumbersAgree(cfg, msg, s);
    NearestWithNumber(s.wire[0].index, s.accepted);
    hide InStep, NumbersSuffice, Accepts, InOrder;
  }

  lemma NearestWithNumber(i: nat, a: nat)
    requires a < i <= a + 16 && i % 16 == (a + 1) % 16
    ensures i == a + 1
  {
  }

  lemma NumbersAgree(cfg: Config, msg: seq<Byte>, s: System)
    requires InStep(cfg, msg, s) && s.wire != [] && s.rx.Some? && s.rx.value.state == Rx.WaitCf
    requires |s.wire[0].frame.data| > 0 && Rx.Continues(s.rx.value, s.wire[0].frame) && s.wire[0].index > 0
    ensures s.wire[0].index % 16 == (s.accepted + 1) % 16
  {
    assert s.wire[0] == InFlight(s)[0];
    FrameInFlight(cfg, msg, s);
    hide Typed, FlightOk, TxOk, FlowInStep, TxInStep, RxInStep, DeliveryOk;
  }

  lemma FrameInWindow(cfg: Config, msg: seq<Byte>, s: System)
    requires InStep(cfg, msg, s) && NumbersSuffice(cfg, msg) && InOrder(s) && s.wire != []
    requires s.rx.Some? && s.rx.value.state == Rx.WaitCf
    ensures s.accepted < s.wire[0].index <= s.accepted + 16
  {
    var p := s.wire[0];
    assert p == InFlight(s)[0];
    FrameInFlight(cfg, msg, s);
    QuotaMonotone(cfg, s.grants, s.ctsSent);
    SentInMessage(cfg, msg, s);
    if p.index > 16 {
      SpanMonotone(cfg, 16, p.index - 1);
    }
    hide Typed, FlightOk, TxOk, FlowInStep, DeliveryOk, Span;
  }

  /** A consecutive frame on its way has something to carry. */
  lemma SentInMessage(cfg: Config, msg: seq<Byte>, s: System)
    requires Core(cfg, msg, s) && s.wire != [] && s.wire[0].index > 0
    ensures cfg.dlen - 2 + Span(cfg, s.wire[0].index - 1) < |msg|
  {
    assert s.wire[0] == InFlight(s)[0];
    FrameInFlight(cfg, msg, s);
    hide Typed, FlightOk, TxOk, RxOk, DeliveryOk, Span;
  }

  lemma {:induction false} RunKeepsOrder(cfg: Config, msg: seq<Byte>, s: System, run: seq<Action>)
    requires InStep(cfg, msg, s) && NumbersSuffice(cfg, msg) && InOrder(s) && Legal(cfg, msg, s, run)
    ensures InOrder(Run(cfg, msg, s, run))
    decreases |run|
  {
    if run != [] {
      OrderKept(cfg, msg, s, run[0]);
      StepStaysInStep(cfg, msg, s, run[0]);
      RunKeepsOrder(cfg, msg, Next(cfg, msg, s, run[0]), run[1..]);
    }
  }

  lemma ReachableInOrder(cfg: Config, msg: seq<Byte>, s: System)
    requires LongMessage(cfg, msg) && Reachable(cfg, msg, s) && NumbersSuffice(cfg, msg)
    ensures InOrder(s)
  {
    var start: System, run: seq<Action> :|
      Initial(cfg, msg, start) && Legal(cfg, msg, start, run) && s == Run(cfg, msg, start, run);
    StartsInStep(cfg, msg, start);
    RunKeepsOrder(cfg, msg, start, run);
  }

  // ----- the other direction: a run that loses sixteen frames in a row

  /** The sender is about to emit consecutive frame k + 1. */
  predicate Due(cfg: Config, msg: seq<Byte>, c: Tx.SendCtx, k: nat) {
    && c.Ready(cfg, msg) && LongMessage(cfg, msg)
    && !c.single && c.stmin == cfg.stmin && c.state == Tx.SendCf
    && (if c.blocked then c.sem else c.work)
    && c.pos == Offset(cfg, |msg|, k) && c.sn == (k + 1) % 16
    && c.bs == (cfg.bs - k) % 256
  }

  function EmitDue(cfg: Config, msg: seq<Byte>, c: Tx.SendCtx, pad: seq<Byte>): Tx.TxOut
    requires cfg.Valid() && |pad| == cfg.dlen && c.Ready(cfg, msg) && (c.blocked || c.work)
  {
    if c.blocked then Tx.Resume(cfg, msg, c, pad, Taken) else Tx.Work(cfg, msg, c, pad, Taken)
  }

  /** The sender has emitted it, and will emit the next one after a completion and, with a separation
      time, a timeout. */
  predicate Gone(cfg: Config, msg: seq<Byte>, c: Tx.SendCtx, k: nat) {
    && c.Ready(cfg, msg) && LongMessage(cfg, msg)
    && !c.single && c.stmin == cfg.stmin
    && (if cfg.stmin != 0 then c.state == Tx.WaitSt && !c.blocked else c.state == Tx.SendCf && c.blocked)
    && c.pos == Offset(cfg, |msg|, k) && c.sn == (k + 1) % 16
    && c.bs == (cfg.bs - k) % 256
  }

  lemma DueEmits(cfg: Config, msg: seq<Byte>, c: Tx.SendCtx, k: nat, pad: seq<Byte>)
    requires Due(cfg, msg, c, k) && |pad| == cfg.dlen
    requires cfg.dlen - 2 + Span(cfg, k + 1) < |msg| && (cfg.bs == 0 || k + 1 < cfg.bs)
    ensures var out := EmitDue(cfg, msg, c, pad);
            && out.ctx.Some? && Gone(cfg, msg, out.ctx.value, k + 1)
            && |out.frames| == 1 && IsConsecutive(cfg, msg, k + 1, out.frames[0])
            && out.results == []
  {
    var c1 := if c.blocked then c.(sem := false, blocked := false) else c.(work := false, timer := false);
    assert EmitDue(cfg, msg, c, pad) == Tx.RunCf(cfg, msg, c1, pad, Taken);
    CfGoes(cfg, msg, c1, k, pad);
  }

  lemma NextNumber(k: nat)
    ensures (k % 16 + 1) % 16 == (k + 1) % 16
  {
  }

  lemma NextCount(bs: Byte, k: nat)
    ensures ((bs - k) % 256 - 1) % 256 == (bs - (k + 1)) % 256
    ensures k + 1 < bs ==> (bs - (k + 1)) % 256 != 0
  {
  }

  lemma CfGoes(cfg: Config, msg: seq<Byte>, c: Tx.SendCtx, k: nat, pad: seq<Byte>)
    requires LongMessage(cfg, msg) && c.Ready(cfg, msg) && |pad| == cfg.dlen
    requires !c.single && !c.blocked && c.state == Tx.SendCf && c.stmin == cfg.stmin
    requires c.pos == Offset(cfg, |msg|, k) && c.sn == (k + 1) % 16 && c.bs == (cfg.bs - k) % 256
    requires cfg.dlen - 2 + Span(cfg, k + 1) < |msg| && (cfg.bs == 0 || k + 1 < cfg.bs)
    ensures var out := Tx.RunCf(cfg, msg, c, pad, Taken);
            && out.ctx.Some? && Gone(cfg, msg, out.ctx.value, k + 1)
            && |out.frames| == 1 && IsConsecutive(cfg, msg, k + 1, out.frames[0])
            && out.results == []
  {
    hide ConsecutiveFrame, IsConsecutive, Tx.TypedOut;
    NextNumber(k + 1);
    NextCount(cfg.bs, k);
    ConsecutiveFrameIsConsecutive(cfg, msg, k + 1, pad);
    assert Tx.Take(cfg, msg, c, Tx.Min(c.remLen, cfg.dlen - 1)) == Slice(cfg, msg, k + 1);
  }

  /** The receiver has nothing but the first frame. */
  predicate Waiting(cfg: Config, msg: seq<Byte>, c: Rx.RecvCtx) {
    && c.Fits() && LongMessage(cfg, msg)
    && c.state == Rx.WaitCf && c.snExpected == 1
    && c.remLen == |msg| - (cfg.dlen - 2)
    && c.content == msg[..cfg.dlen - 2]
  }

  /** `k` consecutive frames have been emitted and lost, and the next one is due. */
  predicate Losing(cfg: Config, msg: seq<Byte>, s: System, k: nat) {
    && LongMessage(cfg, msg)
    && s.outbox == s.wire == []
    && s.next == k + 1 && s.seen == 0 && s.accepted == 0 && s.lastAccepted == 0
    && s.tx.Some? && Due(cfg, msg, s.tx.value, k)
    && s.rx.Some? && Waiting(cfg, msg, s.rx.value)
  }

  /** The frame that is due is on its way. */
  lemma LaunchOne(cfg: Config, msg: seq<Byte>, s: System, k: nat, pad: seq<Byte>) returns (s': System)
    requires Reachable(cfg, msg, s) && Losing(cfg, msg, s, k) && |pad| == cfg.dlen
    requires cfg.dlen - 2 + Span(cfg, k + 1) < |msg| && (cfg.bs == 0 || k + 1 < cfg.bs)
    ensures Reachable(cfg, msg, s')
    ensures s'.tx.Some? && Gone(cfg, msg, s'.tx.value, k + 1)
    ensures |s'.outbox| == 1 && s'.outbox[0].index == k + 1 && IsConsecutive(cfg, msg, k + 1, s'.outbox[0].frame)
    ensures s' == s.(tx := s'.tx, outbox := s'.outbox, next := k + 2)
  {
    hide Tx.Resume, Tx.Work;
    var c := s.tx.value;
    DueEmits(cfg, msg, c, k, pad);
    var a := if c.blocked then TxResume(pad, Taken) else TxWork(pad, Taken);
    ReachNext(cfg, msg, s, a);
    s' := Next(cfg, msg, s, a);
    assert s' == Sent(s, EmitDue(cfg, msg, c, pad), k + 2);
    assert s'.results == s.results + [] == s.results;
  }

  /** The completion callback has run, and the sender is ready again once the separation time is over. */
  lemma NextIsDue(cfg: Config, msg: seq<Byte>, s: System, k: nat, lost: bool) returns (s': System)
    requires Reachable(cfg, msg, s) && LongMessage(cfg, msg)
    requires s.tx.Some? && Gone(cfg, msg, s.tx.value, k) && |s.outbox| == 1
    ensures Reachable(cfg, msg, s') && s'.tx.Some? && Due(cfg, msg, s'.tx.value, k)
    ensures s' == s.(tx := s'.tx, outbox := [], wire := if lost then s.wire else s.wire + s.outbox)
  {
    hide Reachable;
    hide Typed;
    var pad: seq<Byte> := seq(cfg.dlen, _ => 0);
    ReachNext(cfg, msg, s, TxComplete(lost, false));
    s' := Next(cfg, msg, s, TxComplete(lost, false));
    assert s'.results == s.results + [] == s.results;
    assert s'.outbox == [] && [s.outbox[0]] == s.outbox;
    if cfg.stmin != 0 {
      ReachNext(cfg, msg, s', TxWork(pad, Taken));
      s' := Next(cfg, msg, s', TxWork(pad, Taken));
      assert s'.results == s.results + [] == s.results;
      ReachNext(cfg, msg, s', TxTimer);
      s' := Next(cfg, msg, s', TxTimer);
    }
  }

  lemma StartIsReachable(cfg: Config, msg: seq<Byte>, pad: seq<Byte>)
    requires LongMessage(cfg, msg) && |pad| == cfg.dlen
    ensures Reachable(cfg, msg, Start(cfg, msg, pad, 0)) && Typed(cfg, msg, Start(cfg, msg, pad, 0))
  {
    var s := Start(cfg, msg, pad, 0);
    assert Initial(cfg, msg, s);
    assert Legal(cfg, msg, s, []) && s == Run(cfg, msg, s, []);
  }

  /** The first frame gets through. */
  lemma OpenSender(cfg: Config, msg: seq<Byte>) returns (s: System)
    requires LongMessage(cfg, msg)
    ensures Reachable(cfg, msg, s)
    ensures s.outbox == [] && |s.wire| == 1 && s.wire[0].index == 0 && IsFirst(cfg, msg, s.wire[0].frame)
    ensures s.tx.Some? && s.tx.value.Ready(cfg, msg) && s.tx.value.state == Tx.WaitFc && !s.tx.value.single
    ensures !s.tx.value.blocked && s.tx.value.pos == cfg.dlen - 2 && s.tx.value.sn == 1
    ensures s == System(s.tx, [], s.wire, None, [], [], [], [], [], 1, -1, 0, 0, 0, 0)
  {
    hide Reachable, Typed, FirstFrame, IsFirst, Start;
    s := EmitFirst(cfg, msg);
    ReachNext(cfg, msg, s, TxComplete(false, false));
    s := Next(cfg, msg, s, TxComplete(false, false));
  }

  lemma EmitFirst(cfg: Config, msg: seq<Byte>) returns (s: System)
    requires LongMessage(cfg, msg)
    ensures Reachable(cfg, msg, s)
    ensures |s.outbox| == 1 && s.outbox[0].index == 0 && IsFirst(cfg, msg, s.outbox[0].frame)
    ensures s.tx.Some? && s.tx.value.Ready(cfg, msg) && s.tx.value.state == Tx.WaitFc && !s.tx.value.single
    ensures !s.tx.value.blocked && s.tx.value.pos == cfg.dlen - 2 && s.tx.value.sn == 1
    ensures s == System(s.tx, s.outbox, [], None, [], [], [], [], [], 1, -1, 0, 0, 0, 0)
  {
    var pad: seq<Byte> := seq(cfg.dlen, _ => 0);
    hide Reachable, Typed, FirstFrame, IsFirst;
    s := Start(cfg, msg, pad, 0);
    StartIsReachable(cfg, msg, pad);
    FirstFrameIsFirst(cfg, msg, pad);
    assert Tx.Take(cfg, msg, s.tx.value, cfg.dlen - 2) == msg[..cfg.dlen - 2];
    ReachNext(cfg, msg, s, TxWork(pad, Taken));
    s := Next(cfg, msg, s, TxWork(pad, Taken));
  }

  /** The receiver asks for the first block. */
  lemma OpenReceiver(cfg: Config, msg: seq<Byte>, s: System) returns (s': System)
    requires LongMessage(cfg, msg) && !Refused(cfg, msg) && Reachable(cfg, msg, s)
    requires |s.wire| == 1 && s.rx.None? && s.wire[0].index == 0 && IsFirst(cfg, msg, s.wire[0].frame)
    ensures Reachable(cfg, msg, s')
    ensures s'.rx.Some? && Waiting(cfg, msg, s'.rx.value) && s'.rx.value.timer
    ensures s' == s.(wire := [], rx := s'.rx, seen := 0, fcOutbox := s.fcOutbox + [FlowControl(cfg, Cts)],
                     ctsSent := s.ctsSent + 1)
  {
    hide Typed, Waiting, Rx.CanRx, Rx.Work;
    FirstArrives(cfg, msg, s.wire[0].frame);
    ReachNext(cfg, msg, s, RxFrame(true));
    var s1 := Next(cfg, msg, s, RxFrame(true));
    FirstAnswered(cfg, msg, s1.rx.value);
    ReachNext(cfg, msg, s1, RxWork);
    s' := Next(cfg, msg, s1, RxWork);
    assert s1.delivered + [] == s.delivered && s1.errors + [] == s.errors;
  }

  lemma CtsTaken(cfg: Config, msg: seq<Byte>, c: Tx.SendCtx)
    requires LongMessage(cfg, msg) && c.Ready(cfg, msg) && c.state == Tx.WaitFc && !c.single && !c.blocked
    requires c.pos == cfg.dlen - 2 && c.sn == 1
    ensures var c' := Tx.CanRx(cfg, c, FlowControl(cfg, Cts)); Due(cfg, msg, c', 0) && !c'.blocked
  {
  }

  /** So does the first clear-to-send frame. */
  lemma Open(cfg: Config, msg: seq<Byte>) returns (s: System)
    requires LongMessage(cfg, msg) && !Refused(cfg, msg)
    ensures Reachable(cfg, msg, s) && Losing(cfg, msg, s, 0)
    ensures s.fcOutbox == s.fcWire == [] && s.results == [] && !s.tx.value.blocked && s.rx.value.timer
  {
    hide Typed, Rx.Work, Tx.CanRx;
    s := OpenSender(cfg, msg);
    CtsTaken(cfg, msg, s.tx.value);
    s := OpenReceiver(cfg, msg, s);
    ReachNext(cfg, msg, s, FcComplete(false, false));
    s := Next(cfg, msg, s, FcComplete(false, false));
    ReachNext(cfg, msg, s, TxFlow);
    s := Next(cfg, msg, s, TxFlow);
  }

  lemma FirstArrives(cfg: Config, msg: seq<Byte>, f: CanFrame)
    requires IsFirst(cfg, msg, f)
    ensures var rx := Rx.CanRx(cfg, None, f, true);
            && rx.Some? && rx.value.state == Rx.ProcessFf && rx.value.work
            && Waiting(cfg, msg, rx.value.(state := Rx.WaitCf))
  {
  }

  lemma FirstAnswered(cfg: Config, msg: seq<Byte>, c: Rx.RecvCtx)
    requires c.state == Rx.ProcessFf && Waiting(cfg, msg, c.(state := Rx.WaitCf)) && !Refused(cfg, msg)
    ensures var out := Rx.Work(cfg, c);
            && out.ctx.Some? && Waiting(cfg, msg, out.ctx.value) && out.ctx.value.timer
            && out.fcs == [FlowControl(cfg, Cts)] && out.delivered == [] && out.errors == []
  {
  }

  lemma {:induction false} LoseMany(cfg: Config, msg: seq<Byte>, k: nat) returns (s: System)
    requires LongMessage(cfg, msg) && !Refused(cfg, msg)
    requires cfg.dlen - 2 + Span(cfg, k) < |msg| && (cfg.bs == 0 || k < cfg.bs)
    ensures Reachable(cfg, msg, s) && Losing(cfg, msg, s, k)
  {
    hide Reachable, Gone, Due, Waiting, IsConsecutive, Refused;
    if k == 0 {
      s := Open(cfg, msg);
    } else {
      s := LoseMany(cfg, msg, k - 1);
      s := LaunchOne(cfg, msg, s, k - 1, seq(cfg.dlen, _ => 0));
      s := NextIsDue(cfg, msg, s, k, true);
    }
  }

  /** The seventeenth frame gets through, whatever the sender does next. */
  lemma LaunchLast(cfg: Config, msg: seq<Byte>, s: System) returns (s': System)
    requires Reachable(cfg, msg, s) && Losing(cfg, msg, s, 16) && cfg.dlen - 2 + Span(cfg, 16) < |msg|
    ensures Reachable(cfg, msg, s') && s'.rx == s.rx && s'.accepted == 0
    ensures |s'.wire| == 1 && s'.wire[0].index == 17 && IsConsecutive(cfg, msg, 17, s'.wire[0].frame)
  {
    hide Typed, Tx.Resume, Tx.Work, Tx.Completed;
    var pad: seq<Byte> := seq(cfg.dlen, _ => 0);
    var c := s.tx.value;
    LastGoes(cfg, msg, c, pad);
    var a := if c.blocked then TxResume(pad, Taken) else TxWork(pad, Taken);
    ReachNext(cfg, msg, s, a);
    var s1 := Next(cfg, msg, s, a);
    ReachNext(cfg, msg, s1, TxComplete(false, false));
    s' := Next(cfg, msg, s1, TxComplete(false, false));
  }

  lemma LastGoes(cfg: Config, msg: seq<Byte>, c: Tx.SendCtx, pad: seq<Byte>)
    requires Due(cfg, msg, c, 16) && |pad| == cfg.dlen && cfg.dlen - 2 + Span(cfg, 16) < |msg|
    ensures var out := EmitDue(cfg, msg, c, pad);
            |out.frames| == 1 && IsConsecutive(cfg, msg, 17, out.frames[0])
  {
    var c1 := if c.blocked then c.(sem := false, blocked := false) else c.(work := false, timer := false);
    assert EmitDue(cfg, msg, c, pad) == Tx.RunCf(cfg, msg, c1, pad, Taken);
    hide ConsecutiveFrame, IsConsecutive, Tx.TypedOut, EmitDue;
    ConsecutiveFrameIsConsecutive(cfg, msg, 17, pad);
    assert Tx.Take(cfg, msg, c1, Tx.Min(c1.remLen, cfg.dlen - 1)) == Slice(cfg, msg, 17);
  }

  /** After sixteen losses the seventeenth frame has the number the receiver is waiting for. */
  lemma Overtake(cfg: Config, msg: seq<Byte>) returns (s: System)
    requires LongMessage(cfg, msg) && !NumbersSuffice(cfg, msg)
    ensures Reachable(cfg, msg, s) && s.accepted == 1 && s.lastAccepted == 17
    ensures s.rx.Some?
    ensures msg[..cfg.dlen - 2] + msg[Offset(cfg, |msg|, 16)..Offset(cfg, |msg|, 17)] <= s.rx.value.content
  {
    hide Typed, Reachable, Due;
    s := LoseMany(cfg, msg, 16);
    s := LaunchLast(cfg, msg, s);
    var p := s.wire[0];
    var rx := s.rx.value;
    ReachNext(cfg, msg, s, RxFrame(true));
    assert Accepts(s, p.frame, true);
    NextPayload(cfg, msg, rx, p.frame);
    s := Next(cfg, msg, s, RxFrame(true));
  }

  lemma NextPayload(cfg: Config, msg: seq<Byte>, c: Rx.RecvCtx, f: CanFrame)
    requires Waiting(cfg, msg, c) && IsConsecutive(cfg, msg, 17, f)
    ensures Slice(cfg, msg, 17) <= Rx.CfPayload(c, f)
    ensures Rx.ProcessCf(cfg, c.NewFragment(), f).content == c.content + Rx.CfPayload(c, f)
  {
  }

  /** In every run the receiver appends the frames in order, exactly under this condition on the block size,
      the length and the receive buffers. */
  lemma InOrderExactlyIfNumbersSuffice(cfg: Config, msg: seq<Byte>)
    requires LongMessage(cfg, msg)
    ensures (forall s | Reachable(cfg, msg, s) :: InOrder(s)) <==> NumbersSuffice(cfg, msg)
  {
    if NumbersSuffice(cfg, msg) {
      forall s | Reachable(cfg, msg, s) ensures InOrder(s) {
        ReachableInOrder(cfg, msg, s);
      }
    } else {
      var s := Overtake(cfg, msg);
      assert !InOrder(s);
    }
  }
}
