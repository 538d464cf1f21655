/** One message on its way from a sender to a receiver: both state machines, the CAN bus between them
    and everything that may happen to the frames. A run is any sequence of enabled actions. */
module IsoTpLink {
  import opened IsoTpFrame
  import opened Wrappers
  import Tx = IsoTpSender
  import Rx = IsoTpReceiver

  /** A data frame on the bus. `index` is its place in the order of emission (0 is the single or first
      frame, j the j-th consecutive frame); no handler reads it. */
  datatype Packet = Packet(index: nat, frame: CanFrame)

  /** `outbox` holds the frames can_send accepted whose completion callback has not run, `wire` those on
      their way to the receiver; `fcOutbox` and `fcWire` are the same for flow control frames.
      The last line is bookkeeping that no handler reads: the next packet index, the greatest index that
      reached the receiver, how many consecutive frames it appended and the last of them, how many
      clear-to-send frames it sent and how many the sender took up. */
  datatype System = System(
    tx: Option<Tx.SendCtx>,
    outbox: seq<Packet>,
    wire: seq<Packet>,
    rx: Option<Rx.RecvCtx>,
    fcOutbox: seq<CanFrame>,
    fcWire: seq<CanFrame>,
    delivered: seq<seq<Byte>>,
    results: seq<Status>,
    errors: seq<Status>,
    next: nat, seen: int, accepted: nat, lastAccepted: nat, ctsSent: nat, grants: nat)

  datatype Action =
    | TxWork(pad: seq<Byte>, accept: Answer)
    | TxResume(pad: seq<Byte>, accept: Answer)
    | TxTimer
    | TxComplete(lost: bool, failed: bool)
    | TxFlow
    | RxFrame(allocOk: bool)
    | RxWork
    | RxTimer
    | FcComplete(lost: bool, failed: bool)
    | LoseData(i: nat)
    | LoseFlow(i: nat)

  function Remove<T>(s: seq<T>, i: nat): seq<T>
    requires i < |s|
  {
    s[..i] + s[i + 1..]
  }

  predicate IsCts(f: CanFrame) {
    |f.data| > 0 && FlowStatusOf(f) == Cts
  }

  /** What every handler may rely on. */
  predicate Typed(cfg: Config, msg: seq<Byte>, s: System) {
    && cfg.Valid()
    && (s.tx.Some? ==> s.tx.value.Ready(cfg, msg))
    && (s.rx.Some? ==> s.rx.value.Fits())
    && (forall p <- s.outbox :: WellFormed(cfg, p.frame))
    && (forall p <- s.wire :: WellFormed(cfg, p.frame))
    && (forall f <- s.fcOutbox :: WellFormed(cfg, f))
    && (forall f <- s.fcWire :: WellFormed(cfg, f))
  }

  predicate Enabled(cfg: Config, msg: seq<Byte>, s: System, a: Action) {
    match a
    case TxWork(pad, _) => s.tx.Some? && s.tx.value.work && !s.tx.value.blocked && |pad| == cfg.dlen
    case TxResume(pad, _) => s.tx.Some? && s.tx.value.blocked && s.tx.value.sem && |pad| == cfg.dlen
    case TxTimer => s.tx.Some? && s.tx.value.timer
    case TxComplete(_, _) => s.outbox != []
    case TxFlow => s.fcWire != []
    case RxFrame(_) => s.wire != []
    case RxWork => s.rx.Some? && s.rx.value.work
    case RxTimer => s.rx.Some? && s.rx.value.timer
    case FcComplete(_, _) => s.fcOutbox != []
    case LoseData(i) => i < |s.wire|
    case LoseFlow(i) => i < |s.fcWire|
  }

  /** The effects of a handler of the sender. */
  function Sent(s: System, out: Tx.TxOut, next: nat): System
    requires |out.frames| <= 1
  {
    s.(tx := out.ctx,
       outbox := s.outbox + (if out.frames == [] then [] else [Packet(s.next, out.frames[0])]),
       results := s.results + out.results,
       next := next)
  }

  /** The effects of a run of the receiver's state machine. */
  function Ran(s: System, out: Rx.RxOut): System {
    s.(rx := out.ctx,
       fcOutbox := s.fcOutbox + out.fcs,
       delivered := s.delivered + out.delivered,
       errors := s.errors + out.errors,
       ctsSent := if out.fcs != [] && IsCts(out.fcs[0]) then s.ctsSent + 1 else s.ctsSent)
  }

  /** The receiver appends the payload of this consecutive frame to its message. */
  predicate Accepts(s: System, f: CanFrame, allocOk: bool)
    requires |f.data| > 0
  {
    allocOk && s.rx.Some? && s.rx.value.state == Rx.WaitCf && Rx.Continues(s.rx.value, f)
  }

  function Receive(cfg: Config, s: System, allocOk: bool): System
    requires s.wire != [] && WellFormed(cfg, s.wire[0].frame)
  {
    var p := s.wire[0];
    var taken := Accepts(s, p.frame, allocOk);
    s.(wire := s.wire[1..],
       rx := Rx.CanRx(cfg, s.rx, p.frame, allocOk),
       seen := p.index,
       accepted := if taken then s.accepted + 1 else s.accepted,
       lastAccepted := if taken then p.index else s.lastAccepted)
  }

  function TakeFlow(cfg: Config, s: System): System
    requires s.fcWire != [] && WellFormed(cfg, s.fcWire[0])
  {
    var f := s.fcWire[0];
    if s.tx.None? then s.(fcWire := s.fcWire[1..])
    else
      s.(fcWire := s.fcWire[1..],
         tx := Some(Tx.CanRx(cfg, s.tx.value, f)),
         grants := if s.tx.value.state == Tx.WaitFc && IsCts(f) then s.grants + 1 else s.grants)
  }

  function Complete(s: System, lost: bool, failed: bool): System
    requires s.outbox != []
  {
    var s1 := s.(outbox := s.outbox[1..], wire := if lost then s.wire else s.wire + [s.outbox[0]]);
    if s.tx.None? then s1 else Sent(s1, Tx.Completed(s.tx.value, failed), s.next)
  }

  function CompleteFlow(s: System, lost: bool, failed: bool): System
    requires s.fcOutbox != []
  {
    s.(fcOutbox := s.fcOutbox[1..],
       fcWire := if lost then s.fcWire else s.fcWire + [s.fcOutbox[0]],
       rx := if s.rx.None? then None else Some(Rx.FcSent(s.rx.value, failed)))
  }

  function Next(cfg: Config, msg: seq<Byte>, s: System, a: Action): (s': System)
    requires Typed(cfg, msg, s) && Enabled(cfg, msg, s, a)
  {
    match a
    case TxWork(pad, accept) =>
      var out := Tx.Work(cfg, msg, s.tx.value, pad, accept);
      Sent(s, out, if s.tx.value.state == Tx.SendFf then 1 else s.next + |out.frames|)
    case TxResume(pad, accept) =>
      var out := Tx.Resume(cfg, msg, s.tx.value, pad, accept);
      Sent(s, out, s.next + |out.frames|)
    case TxTimer => s.(tx := Some(Tx.Timeout(s.tx.value)))
    case TxComplete(lost, failed) => Complete(s, lost, failed)
    case TxFlow => TakeFlow(cfg, s)
    case RxFrame(allocOk) => Receive(cfg, s, allocOk)
    case RxWork => Ran(s, Rx.Work(cfg, s.rx.value))
    case RxTimer => s.(rx := Some(Rx.Timeout(s.rx.value)))
    case FcComplete(lost, failed) => CompleteFlow(s, lost, failed)
    case LoseData(i) => s.(wire := Remove(s.wire, i))
    case LoseFlow(i) => s.(fcWire := Remove(s.fcWire, i))
  }

  lemma NextTyped(cfg: Config, msg: seq<Byte>, s: System, a: Action)
    requires Typed(cfg, msg, s) && Enabled(cfg, msg, s, a)
    ensures Typed(cfg, msg, Next(cfg, msg, s, a))
  {
    match a {
      case TxWork(pad, accept) =>
      case TxResume(pad, accept) =>
      case TxTimer =>
        Tx.StaysReady(cfg, msg, s.tx.value, FlowControl(cfg, Cts), false);
      case TxComplete(lost, failed) =>
        if s.tx.Some? {
          Tx.StaysReady(cfg, msg, s.tx.value, FlowControl(cfg, Cts), failed);
        }
      case TxFlow =>
        if s.tx.Some? {
          Tx.StaysReady(cfg, msg, s.tx.value, s.fcWire[0], false);
        }
      case RxFrame(allocOk) =>
        Rx.StaysFitting(cfg, s.rx, s.wire[0].frame, allocOk);
      case RxWork =>
        Rx.WorkStaysFitting(cfg, s.rx.value);
      case RxTimer =>
      case FcComplete(lost, failed) =>
      case LoseData(i) =>
      case LoseFlow(i) =>
    }
  }

  /** isotp_fast_send has just been called for msg. */
  function Start(cfg: Config, msg: seq<Byte>, pad: seq<Byte>, noise: Byte): System
    requires cfg.Valid() && |msg| <= MAX_LEN && |pad| == cfg.dlen
  {
    var out := Tx.Send(cfg, msg, pad, noise);
    Sent(System(None, [], [], None, [], [], [], [], [], 0, -1, 0, 0, 0, 0), out, |out.frames|)
  }

  ghost predicate Initial(cfg: Config, msg: seq<Byte>, s: System) {
    cfg.Valid() && |msg| <= MAX_LEN
    && exists pad: seq<Byte>, noise: Byte :: |pad| == cfg.dlen && s == Start(cfg, msg, pad, noise)
  }

  predicate Legal(cfg: Config, msg: seq<Byte>, s: System, run: seq<Action>)
    decreases |run|
  {
    Typed(cfg, msg, s)
    && (run != [] ==> Enabled(cfg, msg, s, run[0]) && Legal(cfg, msg, Next(cfg, msg, s, run[0]), run[1..]))
  }

  function Run(cfg: Config, msg: seq<Byte>, s: System, run: seq<Action>): System
    requires Legal(cfg, msg, s, run)
    decreases |run|
  {
    if run == [] then s else Run(cfg, msg, Next(cfg, msg, s, run[0]), run[1..])
  }

  ghost predicate Reachable(cfg: Config, msg: seq<Byte>, s: System) {
    exists start: System, run: seq<Action> ::
      Initial(cfg, msg, start) && Legal(cfg, msg, start, run) && s == Run(cfg, msg, start, run)
  }

  lemma {:induction false} RunOneMore(cfg: Config, msg: seq<Byte>, s: System, run: seq<Action>, a: Action)
    requires Legal(cfg, msg, s, run) && Enabled(cfg, msg, Run(cfg, msg, s, run), a)
    ensures Legal(cfg, msg, s, run + [a])
    ensures Typed(cfg, msg, Run(cfg, msg, s, run))
    ensures Run(cfg, msg, s, run + [a]) == Next(cfg, msg, Run(cfg, msg, s, run), a)
    decreases |run|
  {
    if run == [] {
      NextTyped(cfg, msg, s, a);
      assert [a][1..] == [];
    } else {
      RunOneMore(cfg, msg, Next(cfg, msg, s, run[0]), run[1..], a);
      assert (run + [a])[1..] == run[1..] + [a];
    }
  }

  lemma ReachNext(cfg: Config, msg: seq<Byte>, s: System, a: Action)
    requires Reachable(cfg, msg, s) && Enabled(cfg, msg, s, a)
    ensures Typed(cfg, msg, s) && Reachable(cfg, msg, Next(cfg, msg, s, a))
  {
    var start: System, run: seq<Action> :|
      Initial(cfg, msg, start) && Legal(cfg, msg, start, run) && s == Run(cfg, msg, start, run);
    RunOneMore(cfg, msg, start, run, a);
  }
}
