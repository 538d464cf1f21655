/** Whatever is lost, delayed or timed out on the way, a message that reaches the receiver's callback is the
    message that was sent, and it gets there once. */
module IsoTpSafety {
  import opened IsoTpFrame
  import opened IsoTpLink
  import opened Wrappers
  import Tx = IsoTpSender
  import Rx = IsoTpReceiver

  /** isotp_fast_send takes this message and its frames say what it is: a single frame cannot
      express an empty message in CAN FD mode. */
  predicate Sendable(cfg: Config, msg: seq<Byte>) {
    cfg.Valid() && |msg| <= MAX_LEN && (cfg.Fd() ==> msg != [])
  }

  predicate Genuine(cfg: Config, msg: seq<Byte>, p: Packet) {
    if p.index > 0 then LongMessage(cfg, msg) && IsConsecutive(cfg, msg, p.index, p.frame)
    else IsSingle(cfg, msg, p.frame) || IsFirst(cfg, msg, p.frame)
  }

  function InFlight(s: System): seq<Packet> { s.wire + s.outbox }

  predicate Ascending(ps: seq<Packet>) {
    forall i, j | 0 <= i < j < |ps| :: ps[i].index < ps[j].index
  }

  /** Packets on the way are genuine, in order, and newer than what the receiver has seen. */
  predicate FlightOk(cfg: Config, msg: seq<Byte>, flight: seq<Packet>, seen: int, next: nat) {
    && -1 <= seen < next
    && Ascending(flight)
    && (forall p <- flight :: seen < p.index < next && Genuine(cfg, msg, p))
  }

  /** The sender stands behind packet next - 1 of the message and is able to go on from there. */
  predicate Placed(cfg: Config, msg: seq<Byte>, c: Tx.SendCtx, next: nat) {
    cfg.Valid() && next >= 1 && c.pos == Offset(cfg, |msg|, next - 1) && c.sn == next % 16
  }

  predicate Sending(c: Tx.SendCtx) {
    c.state == Tx.WaitFc || c.state == Tx.SendCf || c.state == Tx.WaitSt || c.blocked
  }

  /** The sender's position in the message follows from the number of packets emitted. */
  predicate TxOk(cfg: Config, msg: seq<Byte>, tx: Option<Tx.SendCtx>, next: nat) {
    tx.Some? ==>
      var c := tx.value;
      c.Ready(cfg, msg) &&
      if c.single then
        |msg| <= cfg.SfMax() && next == 1
      else
        && LongMessage(cfg, msg)
        && (c.state == Tx.SendFf <==> next == 0)
        && (c.state == Tx.SendFf ==> c.pos == 0 && c.work && !c.timer)
        && (c.state != Tx.SendFf && (c.state != Tx.TxErr || c.blocked) ==> Placed(cfg, msg, c, next))
        && (Sending(c) ==> c.remLen > 0)
        && (c.state == Tx.WaitBacklog || c.state == Tx.WaitFin ==> c.remLen == 0)
  }

  /** How far the receiver has got: the greatest packet index that arrived, the number of consecutive frames
      appended and the last of those. */
  datatype Progress = Progress(seen: int, accepted: nat, last: nat)

  function ProgressOf(s: System): Progress { Progress(s.seen, s.accepted, s.lastAccepted) }

  /** What the receiver holds of a message. The third line bounds what is missing by the number of frames
      taken, in order or not; the sixth says that in order it is exactly a prefix. */
  predicate Holding(cfg: Config, msg: seq<Byte>, c: Rx.RecvCtx, at: Progress) {
    && LongMessage(cfg, msg)
    && |c.content| + c.remLen == |msg|
    && at.accepted <= at.last <= at.seen
    && |msg| <= cfg.dlen - 2 + Span(cfg, at.accepted) + c.remLen
    && c.snExpected == (at.accepted + 1) % 16
    && (at.last > 0 ==> cfg.dlen - 2 + Span(cfg, at.last - 1) < |msg|)
    && (at.last == at.accepted ==> c.content == msg[..Offset(cfg, |msg|, at.accepted)])
    && (c.state == Rx.Recycle <==> c.remLen == 0)
    && c.fragLen <= cfg.dlen - 1
  }

  predicate RxOk(cfg: Config, msg: seq<Byte>, rx: Option<Rx.RecvCtx>, at: Progress) {
    && (rx.None? && at.seen < 0 ==> at.accepted == at.last == 0)
    && (rx.Some? ==>
          var c := rx.value;
          && c.Fits() && at.seen >= 0
          && if |msg| <= cfg.SfMax() then
               c.state == Rx.RxErr || (c.state == Rx.ProcessSf && c.content == msg)
             else
               && c.state != Rx.WaitFfSf && c.state != Rx.ProcessSf
               && (c.state != Rx.RxErr ==> Holding(cfg, msg, c, at)))
  }

  predicate DeliveryOk(msg: seq<Byte>, s: System) {
    s.delivered == [] || (s.delivered == [msg] && s.rx.None? && s.seen >= 0)
  }

  predicate Core(cfg: Config, msg: seq<Byte>, s: System) {
    && Typed(cfg, msg, s) && Sendable(cfg, msg)
    && FlightOk(cfg, msg, InFlight(s), s.seen, s.next)
    && TxOk(cfg, msg, s.tx, s.next)
    && RxOk(cfg, msg, s.rx, ProgressOf(s))
    && DeliveryOk(msg, s)
    && (s.fcOutbox + s.fcWire != [] ==> s.seen >= 0)
  }

  lemma StartsInCore(cfg: Config, msg: seq<Byte>, s: System)
    requires Sendable(cfg, msg) && Initial(cfg, msg, s)
    ensures Core(cfg, msg, s)
  {
    hide Start, Core;
    var pad: seq<Byte>, noise: Byte :| |pad| == cfg.dlen && s == Start(cfg, msg, pad, noise);
    if |msg| <= cfg.SfMax() {
      SingleStartInCore(cfg, msg, pad, noise);
    } else {
      LongStartInCore(cfg, msg, pad, noise);
    }
  }

  lemma SingleStartInCore(cfg: Config, msg: seq<Byte>, pad: seq<Byte>, noise: Byte)
    requires Sendable(cfg, msg) && cfg.Valid() && |pad| == cfg.dlen && |msg| <= cfg.SfMax()
    ensures Core(cfg, msg, Start(cfg, msg, pad, noise))
  {
    SingleFrameIsSingle(cfg, msg, pad);
  }

  lemma LongStartInCore(cfg: Config, msg: seq<Byte>, pad: seq<Byte>, noise: Byte)
    requires Sendable(cfg, msg) && cfg.Valid() && |pad| == cfg.dlen && cfg.SfMax() < |msg| <= MAX_LEN
    ensures Core(cfg, msg, Start(cfg, msg, pad, noise))
  {
    assert InFlight(Start(cfg, msg, pad, noise)) == [];
  }

  // ----- the sender

  /** The sender's handlers keep its position, and what they emit is the next packet. */
  predicate Emits(cfg: Config, msg: seq<Byte>, out: Tx.TxOut, next: nat, next': nat) {
    && |out.frames| <= 1
    && TxOk(cfg, msg, out.ctx, next')
    && next <= next'
    && (out.frames != [] ==> next' == next + 1 && Genuine(cfg, msg, Packet(next, out.frames[0])))
  }

  /** Where the frame behind packet next - 1 ends. */
  lemma WholeSlice(cfg: Config, msg: seq<Byte>, next: nat)
    requires cfg.Valid() && next >= 1
    ensures var from := Offset(cfg, |msg|, next - 1);
            Offset(cfg, |msg|, next) == from + Tx.Min(|msg| - from, cfg.dlen - 1)
    ensures (next % 16 + 1) % 16 == (next + 1) % 16
  {
  }

  lemma CfMovesOn(cfg: Config, msg: seq<Byte>, c: Tx.SendCtx, pad: seq<Byte>, accept: Answer)
    requires cfg.Valid() && |pad| == cfg.dlen && c.Ready(cfg, msg)
    requires !c.single && !c.blocked && (c.state == Tx.SendCf || c.state == Tx.TxErr) && c.remLen > 0
    ensures c.Fits(msg)
    ensures var out, size := Tx.RunCf(cfg, msg, c, pad, accept), Tx.Min(c.remLen, cfg.dlen - 1);
            && out.ctx.Some? && out.ctx.value.Ready(cfg, msg)
            && var c' := out.ctx.value;
               && !c'.single && c'.pos == c.pos + size && c'.remLen == c.remLen - size
               && (if accept.Taken? then
                     && out.frames == [ConsecutiveFrame(cfg, c.sn, Tx.Take(cfg, msg, c, size), pad)]
                     && c'.sn == (c.sn + 1) % 16 && c'.state != Tx.SendFf
                     && (if c'.remLen == 0 then c'.state == Tx.WaitBacklog && !c'.blocked
                         else c'.state != Tx.WaitBacklog && c'.state != Tx.WaitFin)
                   else
                     out.frames == [] && c'.state == Tx.TxErr && !c'.blocked)
  {
    hide ConsecutiveFrame;
  }

  lemma CfEmits(cfg: Config, msg: seq<Byte>, c: Tx.SendCtx, next: nat, pad: seq<Byte>, accept: Answer)
    requires LongMessage(cfg, msg) && |pad| == cfg.dlen && c.Ready(cfg, msg)
    requires !c.single && !c.blocked && (c.state == Tx.SendCf || c.state == Tx.TxErr)
    requires Placed(cfg, msg, c, next) && c.remLen > 0
    ensures var out := Tx.RunCf(cfg, msg, c, pad, accept);
            Emits(cfg, msg, out, next, next + |out.frames|)
  {
    hide ConsecutiveFrame, IsConsecutive, Tx.TypedOut, Span, Tx.RunCf, Tx.SendCtx.Ready;
    WholeSlice(cfg, msg, next);
    CfMovesOn(cfg, msg, c, pad, accept);
    if accept.Taken? {
      ConsecutiveFrameIsConsecutive(cfg, msg, next, pad);
      assert Tx.Take(cfg, msg, c, Tx.Min(c.remLen, cfg.dlen - 1)) == Slice(cfg, msg, next);
    }
  }

  lemma FfEmits(cfg: Config, msg: seq<Byte>, c: Tx.SendCtx, next: nat, pad: seq<Byte>, accept: Answer)
    requires TxOk(cfg, msg, Some(c), next) && cfg.Valid() && |pad| == cfg.dlen && c.work && !c.blocked
    requires c.state == Tx.SendFf
    ensures Emits(cfg, msg, Tx.Work(cfg, msg, c, pad, accept), next, 1)
  {
    hide FirstFrame, IsFirst;
    assert Tx.Take(cfg, msg, c, cfg.dlen - 2) == msg[..cfg.dlen - 2];
    FirstFrameIsFirst(cfg, msg, pad);
  }

  lemma WorkEmits(cfg: Config, msg: seq<Byte>, c: Tx.SendCtx, next: nat, pad: seq<Byte>, accept: Answer)
    requires TxOk(cfg, msg, Some(c), next) && cfg.Valid() && |pad| == cfg.dlen && c.work && !c.blocked
    ensures var out := Tx.Work(cfg, msg, c, pad, accept);
            Emits(cfg, msg, out, next, if c.state == Tx.SendFf then 1 else next + |out.frames|)
  {
    hide FirstFrame, IsFirst, Genuine;
    if c.state == Tx.SendFf {
      FfEmits(cfg, msg, c, next, pad, accept);
    } else if c.state == Tx.SendCf {
      CfEmits(cfg, msg, c.(work := false, timer := false), next, pad, accept);
    }
  }

  lemma ResumeEmits(cfg: Config, msg: seq<Byte>, c: Tx.SendCtx, next: nat, pad: seq<Byte>, accept: Answer)
    requires TxOk(cfg, msg, Some(c), next) && cfg.Valid() && |pad| == cfg.dlen && c.blocked
    ensures var out := Tx.Resume(cfg, msg, c, pad, accept);
            Emits(cfg, msg, out, next, next + |out.frames|)
  {
    CfEmits(cfg, msg, c.(sem := false, blocked := false), next, pad, accept);
  }

  lemma TimeoutKeepsPlace(cfg: Config, msg: seq<Byte>, c: Tx.SendCtx, next: nat)
    requires TxOk(cfg, msg, Some(c), next) && c.timer
    ensures TxOk(cfg, msg, Some(Tx.Timeout(c)), next)
  {
  }

  lemma FlowKeepsPlace(cfg: Config, msg: seq<Byte>, c: Tx.SendCtx, next: nat, f: CanFrame)
    requires TxOk(cfg, msg, Some(c), next) && next > 0 && WellFormed(cfg, f)
    ensures TxOk(cfg, msg, Some(Tx.CanRx(cfg, c, f)), next)
  {
    if c.state == Tx.WaitFc {
      hide Tx.ProcessFc;
      ProcessFcKeepsPlace(cfg, c.(timer := false), f);
      assert Tx.CanRx(cfg, c, f) == Tx.ProcessFc(cfg, c.(timer := false), f).(work := true);
    }
  }

  lemma ProcessFcKeepsPlace(cfg: Config, c: Tx.SendCtx, f: CanFrame)
    requires WellFormed(cfg, f) && c.state == Tx.WaitFc
    ensures var c' := Tx.ProcessFc(cfg, c, f);
            && (c'.state == Tx.SendCf || c'.state == Tx.WaitFc || c'.state == Tx.TxErr)
            && c'.pos == c.pos && c'.remLen == c.remLen && c'.sn == c.sn
            && c'.single == c.single && c'.blocked == c.blocked
  {
    if PciType(f) == TYPE_FC {
      match FlowStatusOf(f) {
        case Cts =>
        case Wait =>
        case Overflow =>
        case InvalidFs =>
      }
    }
  }

  lemma CompletionKeepsPlace(cfg: Config, msg: seq<Byte>, c: Tx.SendCtx, next: nat, failed: bool)
    requires TxOk(cfg, msg, Some(c), next) && next > 0
    ensures Emits(cfg, msg, Tx.Completed(c, failed), next, next)
  {
  }

  // ----- the bus

  /** A new packet goes behind all others. */
  lemma EmitKeepsFlight(cfg: Config, msg: seq<Byte>, s: System, out: Tx.TxOut, next: nat)
    requires Core(cfg, msg, s) && Emits(cfg, msg, out, s.next, next)
    requires Typed(cfg, msg, Sent(s, out, next))
    ensures Core(cfg, msg, Sent(s, out, next))
  {
    hide Typed, TxOk, RxOk, Genuine;
    var s' := Sent(s, out, next);
    if out.frames == [] {
      assert InFlight(s') == InFlight(s);
    } else {
      assert InFlight(s') == InFlight(s) + [Packet(s.next, out.frames[0])];
    }
  }

  lemma RemoveKeepsFlight(cfg: Config, msg: seq<Byte>, flight: seq<Packet>, seen: int, next: nat, i: nat)
    requires FlightOk(cfg, msg, flight, seen, next) && i < |flight|
    ensures FlightOk(cfg, msg, Remove(flight, i), seen, next)
  {
  }

  lemma HeadKeepsFlight(cfg: Config, msg: seq<Byte>, flight: seq<Packet>, seen: int, next: nat)
    requires FlightOk(cfg, msg, flight, seen, next) && flight != []
    ensures FlightOk(cfg, msg, flight[1..], flight[0].index, next)
  {
  }

  // ----- the receiver

  /** The heart of it: a frame with the expected sequence number, whichever one it is, keeps what is
      known about the receiver's bytes. */
  lemma AcceptKeeps(cfg: Config, msg: seq<Byte>, c: Rx.RecvCtx, at: Progress, p: Packet)
    requires c.Fits() && c.state == Rx.WaitCf && Holding(cfg, msg, c, at)
    requires at.seen < p.index && p.index >= 1 && IsConsecutive(cfg, msg, p.index, p.frame)
    requires Rx.Continues(c, p.frame)
    ensures Holding(cfg, msg, Rx.ProcessCf(cfg, c.NewFragment(), p.frame),
                    Progress(p.index, at.accepted + 1, p.index))
  {
    hide Rx.ProcessCf;
    NextSlice(cfg, msg, c, at, p);
    PayloadIsTaken(cfg, c, p.frame);
  }

  lemma PayloadIsTaken(cfg: Config, c: Rx.RecvCtx, f: CanFrame)
    requires WellFormed(cfg, f) && c.Fits() && c.state == Rx.WaitCf && Rx.Continues(c, f)
    ensures var c' := Rx.ProcessCf(cfg, c.NewFragment(), f);
            && c'.content == c.content + Rx.CfPayload(c, f) && c'.remLen == c.remLen - |Rx.CfPayload(c, f)|
            && c'.snExpected == (c.snExpected + 1) % 16 && c'.fragLen == |Rx.CfPayload(c, f)|
            && (c'.state == Rx.Recycle <==> c'.remLen == 0)
  {
  }

  /** Frames that come in order carry on where the receiver stands. */
  lemma NextSlice(cfg: Config, msg: seq<Byte>, c: Rx.RecvCtx, at: Progress, p: Packet)
    requires c.Fits() && c.state == Rx.WaitCf && Holding(cfg, msg, c, at)
    requires at.seen < p.index && p.index >= 1 && IsConsecutive(cfg, msg, p.index, p.frame)
    ensures |Rx.CfPayload(c, p.frame)| <= cfg.dlen - 1
    ensures p.index == at.accepted + 1 ==>
              at.last == at.accepted
              && c.content + Rx.CfPayload(c, p.frame) == msg[..Offset(cfg, |msg|, p.index)]
  {
    if p.index == at.accepted + 1 {
      assert Rx.CfPayload(c, p.frame) == Slice(cfg, msg, p.index);
      assert msg[..Offset(cfg, |msg|, at.accepted)] + Slice(cfg, msg, p.index) == msg[..Offset(cfg, |msg|, p.index)];
    }
  }

  /** Any other consecutive frame is an error, and so is every other frame that is not the first. */
  lemma RejectKeeps(cfg: Config, msg: seq<Byte>, c: Rx.RecvCtx, at: Progress, p: Packet)
    requires c.Fits() && c.state == Rx.WaitCf && WellFormed(cfg, p.frame) && !Rx.Continues(c, p.frame)
    ensures Rx.ProcessCf(cfg, c.NewFragment(), p.frame).state == Rx.RxErr
    ensures Rx.ProcessCf(cfg, c.NewFragment(), p.frame).Fits()
  {
  }

  /** The single or first frame opens the message. */
  lemma FirstKeeps(cfg: Config, msg: seq<Byte>, f: CanFrame)
    requires Sendable(cfg, msg) && (IsSingle(cfg, msg, f) || IsFirst(cfg, msg, f))
    ensures RxOk(cfg, msg, Some(Rx.ProcessFfSf(cfg, Rx.Fresh, f).(work := true)), Progress(0, 0, 0))
  {
    if IsFirst(cfg, msg, f) {
      assert msg[..cfg.dlen - 2] == msg[..Offset(cfg, |msg|, 0)];
    } else {
      var (len, index) := SfLength(cfg, f);
      assert [] + f.data[index..index + len] == msg;
    }
  }

  lemma FrameKeeps(cfg: Config, msg: seq<Byte>, rx: Option<Rx.RecvCtx>, at: Progress, p: Packet, allocOk: bool)
    requires Sendable(cfg, msg) && RxOk(cfg, msg, rx, at) && Genuine(cfg, msg, p) && at.seen < p.index
    requires at.seen >= -1
    ensures WellFormed(cfg, p.frame)
    ensures var taken := allocOk && rx.Some? && rx.value.state == Rx.WaitCf && Rx.Continues(rx.value, p.frame);
            RxOk(cfg, msg, Rx.CanRx(cfg, rx, p.frame, allocOk),
                 Progress(p.index, if taken then at.accepted + 1 else at.accepted,
                          if taken then p.index else at.last))
  {
    hide Rx.Continues;
    if rx.Some? && allocOk && rx.value.state == Rx.WaitCf {
      if Rx.Continues(rx.value, p.frame) {
        AcceptKeeps(cfg, msg, rx.value, at, p);
      } else {
        RejectKeeps(cfg, msg, rx.value, at, p);
      }
    } else if rx.None? && p.index == 0 {
      FirstKeeps(cfg, msg, p.frame);
    }
  }

  lemma ReceiveKeeps(cfg: Config, msg: seq<Byte>, s: System, allocOk: bool)
    requires Core(cfg, msg, s) && s.wire != []
    ensures Core(cfg, msg, Next(cfg, msg, s, RxFrame(allocOk)))
  {
    NextTyped(cfg, msg, s, RxFrame(allocOk));
    var s' := Next(cfg, msg, s, RxFrame(allocOk));
    var p := InFlight(s)[0];
    assert p == s.wire[0] && p in InFlight(s);
    hide RxOk, TxOk, Rx.CanRx, Rx.Continues, Genuine;
    assert InFlight(s') == InFlight(s)[1..];
    HeadKeepsFlight(cfg, msg, InFlight(s), s.seen, s.next);
    FrameKeeps(cfg, msg, s.rx, ProgressOf(s), p, allocOk);
  }

  /** A message goes to the callback only when nothing is missing from it. */
  lemma CompleteIsWhole(cfg: Config, msg: seq<Byte>, c: Rx.RecvCtx, at: Progress)
    requires c.state == Rx.Recycle && Holding(cfg, msg, c, at)
    ensures at.last == at.accepted && c.content == msg
  {
    if at.last > at.accepted {
      SpanMonotone(cfg, at.accepted, at.last - 1);
      assert false;
    }
  }

  lemma RxStepKeeps(cfg: Config, msg: seq<Byte>, s: System, a: Action)
    requires Core(cfg, msg, s) && Enabled(cfg, msg, s, a)
    requires a.RxWork? || a.RxTimer?
    ensures Core(cfg, msg, Next(cfg, msg, s, a))
  {
    hide Typed, TxOk, FlightOk;
    NextTyped(cfg, msg, s, a);
    if |msg| > cfg.SfMax() && s.rx.value.state == Rx.Recycle {
      CompleteIsWhole(cfg, msg, s.rx.value, ProgressOf(s));
    }
  }

  // ----- every action

  lemma TxWorkKeeps(cfg: Config, msg: seq<Byte>, s: System, pad: seq<Byte>, accept: Answer)
    requires Core(cfg, msg, s) && Enabled(cfg, msg, s, TxWork(pad, accept))
    ensures Core(cfg, msg, Next(cfg, msg, s, TxWork(pad, accept)))
  {
    hide Typed, FlightOk, RxOk, DeliveryOk, Emits, Tx.Work;
    NextTyped(cfg, msg, s, TxWork(pad, accept));
    var c := s.tx.value;
    var out := Tx.Work(cfg, msg, c, pad, accept);
    WorkEmits(cfg, msg, c, s.next, pad, accept);
    EmitKeepsFlight(cfg, msg, s, out, if c.state == Tx.SendFf then 1 else s.next + |out.frames|);
  }

  lemma TxResumeKeeps(cfg: Config, msg: seq<Byte>, s: System, pad: seq<Byte>, accept: Answer)
    requires Core(cfg, msg, s) && Enabled(cfg, msg, s, TxResume(pad, accept))
    ensures Core(cfg, msg, Next(cfg, msg, s, TxResume(pad, accept)))
  {
    hide Tx.Resume;
    NextTyped(cfg, msg, s, TxResume(pad, accept));
    var out := Tx.Resume(cfg, msg, s.tx.value, pad, accept);
    ResumeEmits(cfg, msg, s.tx.value, s.next, pad, accept);
    EmitKeepsFlight(cfg, msg, s, out, s.next + |out.frames|);
  }

  lemma TxReactionKeeps(cfg: Config, msg: seq<Byte>, s: System, a: Action)
    requires Core(cfg, msg, s) && Enabled(cfg, msg, s, a) && (a.TxTimer? || a.TxFlow?)
    ensures Core(cfg, msg, Next(cfg, msg, s, a))
  {
    NextTyped(cfg, msg, s, a);
    if a.TxTimer? {
      TimeoutKeepsPlace(cfg, msg, s.tx.value, s.next);
    } else if s.tx.Some? {
      FlowKeepsPlace(cfg, msg, s.tx.value, s.next, s.fcWire[0]);
    }
  }

  lemma CompletionKeeps(cfg: Config, msg: seq<Byte>, s: System, lost: bool, failed: bool)
    requires Core(cfg, msg, s) && s.outbox != []
    ensures Core(cfg, msg, Next(cfg, msg, s, TxComplete(lost, failed)))
  {
    NextTyped(cfg, msg, s, TxComplete(lost, failed));
    assert s.outbox[0] in InFlight(s);
    var s1 := s.(outbox := s.outbox[1..], wire := if lost then s.wire else s.wire + [s.outbox[0]]);
    LeavingKeeps(cfg, msg, s, s1, lost);
    if s.tx.Some? {
      CompletionKeepsPlace(cfg, msg, s.tx.value, s.next, failed);
      EmitKeepsFlight(cfg, msg, s1, Tx.Completed(s.tx.value, failed), s.next);
    }
  }

  /** A frame goes onto the wire or gets lost on the way there. */
  lemma LeavingKeeps(cfg: Config, msg: seq<Byte>, s: System, s1: System, lost: bool)
    requires Core(cfg, msg, s) && s.outbox != []
    requires s1 == s.(outbox := s.outbox[1..], wire := if lost then s.wire else s.wire + [s.outbox[0]])
    ensures Core(cfg, msg, s1)
  {
    if lost {
      assert InFlight(s1) == Remove(InFlight(s), |s.wire|);
      RemoveKeepsFlight(cfg, msg, InFlight(s), s.seen, s.next, |s.wire|);
    } else {
      assert InFlight(s1) == InFlight(s);
    }
  }

  lemma BusStepKeeps(cfg: Config, msg: seq<Byte>, s: System, a: Action)
    requires Core(cfg, msg, s) && Enabled(cfg, msg, s, a) && (a.LoseData? || a.LoseFlow? || a.FcComplete?)
    ensures Core(cfg, msg, Next(cfg, msg, s, a))
  {
    NextTyped(cfg, msg, s, a);
    if a.LoseData? {
      assert InFlight(Next(cfg, msg, s, a)) == Remove(InFlight(s), a.i);
      RemoveKeepsFlight(cfg, msg, InFlight(s), s.seen, s.next, a.i);
    }
  }

  lemma StepKeepsCore(cfg: Config, msg: seq<Byte>, s: System, a: Action)
    requires Core(cfg, msg, s) && Enabled(cfg, msg, s, a)
    ensures Core(cfg, msg, Next(cfg, msg, s, a))
  {
    match a {
      case TxWork(pad, accept) => TxWorkKeeps(cfg, msg, s, pad, accept);
      case TxResume(pad, accept) => TxResumeKeeps(cfg, msg, s, pad, accept);
      case TxTimer => TxReactionKeeps(cfg, msg, s, a);
      case TxFlow => TxReactionKeeps(cfg, msg, s, a);
      case TxComplete(lost, failed) => CompletionKeeps(cfg, msg, s, lost, failed);
      case RxFrame(allocOk) => ReceiveKeeps(cfg, msg, s, allocOk);
      case RxWork => RxStepKeeps(cfg, msg, s, a);
      case RxTimer => RxStepKeeps(cfg, msg, s, a);
      case _ => BusStepKeeps(cfg, msg, s, a);
    }
  }

  lemma {:induction false} RunKeepsCore(cfg: Config, msg: seq<Byte>, s: System, run: seq<Action>)
    requires Core(cfg, msg, s) && Legal(cfg, msg, s, run)
    ensures Core(cfg, msg, Run(cfg, msg, s, run))
    decreases |run|
  {
    if run != [] {
      StepKeepsCore(cfg, msg, s, run[0]);
      RunKeepsCore(cfg, msg, Next(cfg, msg, s, run[0]), run[1..]);
    }
  }

  lemma ReachableInCore(cfg: Config, msg: seq<Byte>, s: System)
    requires Sendable(cfg, msg) && Reachable(cfg, msg, s)
    ensures Core(cfg, msg, s)
  {
    var start: System, run: seq<Action> :|
      Initial(cfg, msg, start) && Legal(cfg, msg, start, run) && s == Run(cfg, msg, start, run);
    StartsInCore(cfg, msg, start);
    RunKeepsCore(cfg, msg, start, run);
  }

  /** Safety under loss, for every block size: however many frames are lost, refused or dropped for want of
      memory and whatever timers fire, the receiver's callback has been given nothing, or the message
      once. */
  lemma DeliversOnlyTheMessage(cfg: Config, msg: seq<Byte>, s: System)
    requires Sendable(cfg, msg) && Reachable(cfg, msg, s)
    ensures s.delivered == [] || s.delivered == [msg]
  {
    ReachableInCore(cfg, msg, s);
  }

  lemma EmptyIsSent(cfg: Config) returns (s: System)
    requires cfg.Valid() && cfg.Fd()
    ensures Reachable(cfg, [], s) && s.delivered == [] && s.rx.None? && |s.wire| == 1
    ensures var f := s.wire[0].frame;
            WellFormed(cfg, f) && f.length == 1 && f.data[0] == 0 && f.data[1] == 1 && f.data[2] == 7
  {
    hide Typed;
    var pad: seq<Byte> := seq(cfg.dlen, i => if i == 1 then 1 else 7);
    s := Start(cfg, [], pad, 0);
    assert Initial(cfg, [], s);
    assert Legal(cfg, [], s, []) by { StartIsTyped(cfg, [], pad); }
    assert s == Run(cfg, [], s, []);
    assert s.outbox[0].frame.data == [0] + pad[1..];
    ReachNext(cfg, [], s, TxComplete(false, false));
    s := Next(cfg, [], s, TxComplete(false, false));
  }

  /** In CAN FD mode an empty message looks like the escape for a longer one, and the receiver takes its
      length from a byte nobody wrote. */
  lemma EmptyFdMessageIsGarbled(cfg: Config) returns (s: System)
    requires cfg.Valid() && cfg.Fd()
    ensures Reachable(cfg, [], s) && s.delivered == [[7]]
  {
    hide Typed, Rx.CanRx;
    s := EmptyIsSent(cfg);
    EmptyArrives(cfg, s.wire[0].frame);
    ReachNext(cfg, [], s, RxFrame(true));
    s := Next(cfg, [], s, RxFrame(true));
    ReachNext(cfg, [], s, RxWork);
    s := Next(cfg, [], s, RxWork);
  }

  lemma EmptyArrives(cfg: Config, f: CanFrame)
    requires WellFormed(cfg, f) && cfg.Fd() && f.length == 1 && f.data[0] == 0 && f.data[1] == 1 && f.data[2] == 7
    ensures var rx := Rx.CanRx(cfg, None, f, true);
            rx.Some? && rx.value.state == Rx.ProcessSf && rx.value.work && rx.value.content == [7]
  {
  }

  lemma StartIsTyped(cfg: Config, msg: seq<Byte>, pad: seq<Byte>)
    requires cfg.Valid() && |msg| <= MAX_LEN && |pad| == cfg.dlen
    ensures Typed(cfg, msg, Start(cfg, msg, pad, 0))
  {
  }

  /** Of all the messages that isotp_fast_send takes, the empty one in CAN FD mode is the only one without that
      safety. */
  lemma SafeExactlyIfSendable(cfg: Config, msg: seq<Byte>)
    requires cfg.Valid() && |msg| <= MAX_LEN
    ensures (forall s | Reachable(cfg, msg, s) :: s.delivered == [] || s.delivered == [msg])
            <==> (cfg.Fd() ==> msg != [])
  {
    if cfg.Fd() && msg == [] {
      var s := EmptyFdMessageIsGarbled(cfg);
      assert s.delivered[0] != msg;
    } else {
      forall s | Reachable(cfg, msg, s) ensures s.delivered == [] || s.delivered == [msg] {
        DeliversOnlyTheMessage(cfg, msg, s);
      }
    }
  }
}
