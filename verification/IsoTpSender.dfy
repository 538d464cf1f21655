/** What each handler of a send context does, as a function of the context. The class SendContext
    is proved to do exactly this. */
module IsoTpSender {
  import opened IsoTpFrame
  import opened Wrappers

  datatype TxState = SendFf | WaitFc | SendCf | WaitSt | WaitBacklog | WaitFin | TxErr

  /** struct isotp_fast_send_ctx for the message `msg`, of which the first `pos` bytes have been
      taken. `sem` is the count of the binary semaphore; `blocked` says that the work handler is
      waiting for it inside its loop; `single` that the completion callback of the outstanding frame
      is isotp_fast_sent_single_cb. */
  datatype SendCtx = SendCtx(
    state: TxState,
    pos: nat,
    remLen: nat,
    sn: nat,
    bs: Byte,
    stmin: Byte,
    wft: Byte,
    backlog: Byte,
    sem: bool,
    error: Status,
    pendingCb: int,
    timer: bool,
    work: bool,
    blocked: bool,
    single: bool)
  {
    predicate Fits(msg: seq<Byte>) { pos + remLen == |msg| && remLen < 4096 && sn < 16 }

    /** The work handler can run: a first frame is only ever due for a message that fills it. */
    predicate Ready(cfg: Config, msg: seq<Byte>) {
      if single then
        !blocked && sn < 16 && (state == TxErr || (state == SendFf && !work))
      else
        && Fits(msg)
        && (state == SendFf ==> pos == 0 && LongMessage(cfg, msg))
        && (blocked ==> state == SendCf || state == TxErr)
    }

    /** send_report_error */
    function Report(e: Status): SendCtx { this.(state := TxErr, error := e) }
  }

  /** What a handler leaves behind: the context unless it was freed, the frames can_send
      accepted and the sent_callback calls. */
  datatype TxOut = TxOut(ctx: Option<SendCtx>, frames: seq<CanFrame>, results: seq<Status>)

  predicate TypedOut(cfg: Config, msg: seq<Byte>, out: TxOut) {
    && (out.ctx.Some? ==> out.ctx.value.Ready(cfg, msg))
    && |out.frames| <= 1
    && (out.frames != [] ==> WellFormed(cfg, out.frames[0]))
  }

  /** A fresh context of get_send_ctx. `noise` stands for the fields it leaves uninitialised. */
  function Fresh(cfg: Config, noise: Byte): SendCtx {
    SendCtx(SendFf, 0, 0, 0, cfg.bs, cfg.stmin, noise, noise, false, Ok, 0, false, false, false, false)
  }

  /** isotp_fast_send for a message that is short enough or goes into several frames. */
  function Send(cfg: Config, msg: seq<Byte>, pad: seq<Byte>, noise: Byte): (out: TxOut)
    requires cfg.Valid() && |msg| <= MAX_LEN && |pad| == cfg.dlen
    ensures TypedOut(cfg, msg, out)
  {
    if |msg| <= cfg.SfMax() then
      TxOut(Some(Fresh(cfg, noise).(pendingCb := 1, single := true)), [SingleFrame(cfg, msg, pad)], [])
    else
      TxOut(Some(Fresh(cfg, noise).(remLen := |msg|, work := true)), [], [])
  }

  function Take(cfg: Config, msg: seq<Byte>, c: SendCtx, n: nat): seq<Byte>
    requires c.Fits(msg) && n <= c.remLen
  {
    msg[c.pos..c.pos + n]
  }

  function Min(a: nat, b: nat): nat { if a < b then a else b }

  /** send_ff, then WAIT_FC whether or not the frame was accepted. */
  function RunFf(cfg: Config, msg: seq<Byte>, c: SendCtx, pad: seq<Byte>, accept: Answer): (out: TxOut)
    requires cfg.Valid() && |pad| == cfg.dlen && c.Fits(msg) && c.remLen >= cfg.dlen - 2 && !c.single && !c.blocked
    ensures TypedOut(cfg, msg, out)
  {
    var size := cfg.dlen - 2;
    TxOut(
      Some(c.(state := WaitFc, sn := 1, remLen := c.remLen - size, pos := c.pos + size,
              pendingCb := if accept.Taken? then c.pendingCb + 1 else c.pendingCb, timer := true)),
      if accept.Taken? then [FirstFrame(cfg, c.remLen, Take(cfg, msg, c, size), pad)] else [],
      [])
  }

  /** One turn of the loop in SEND_CF: send_cf and the decision what to wait for next. A frame the
      driver refuses has still been taken out of the message. */
  function RunCf(cfg: Config, msg: seq<Byte>, c: SendCtx, pad: seq<Byte>, accept: Answer): (out: TxOut)
    requires cfg.Valid() && |pad| == cfg.dlen && c.Ready(cfg, msg)
    requires !c.single && !c.blocked && (c.state == SendCf || c.state == TxErr)
    ensures TypedOut(cfg, msg, out)
  {
    var size := Min(c.remLen, cfg.dlen - 1);
    var c1 := c.(remLen := c.remLen - size, pos := c.pos + size);
    if !accept.Taken? then
      TxOut(Some(c1.Report(if accept.Late? then TimeoutA else Error)), [], [])
    else
      var frame := ConsecutiveFrame(cfg, c.sn, Take(cfg, msg, c, size), pad);
      var c2 := c1.(sn := (c.sn + 1) % 16, bs := (c.bs - 1) % 256, backlog := (c.backlog + 1) % 256,
                    pendingCb := c.pendingCb + 1);
      TxOut(
        Some(if c2.remLen == 0 then c2.(state := WaitBacklog)
             else if cfg.bs != 0 && c2.bs == 0 then c2.(state := WaitFc, timer := true)
             else if c2.stmin != 0 then c2.(state := WaitSt)
             else c2.(blocked := true)),
        [frame],
        [])
  }

  /** send_state_machine, run by the work handler. */
  function Work(cfg: Config, msg: seq<Byte>, ctx: SendCtx, pad: seq<Byte>, accept: Answer): (out: TxOut)
    requires cfg.Valid() && |pad| == cfg.dlen && ctx.Ready(cfg, msg)
    requires ctx.work && !ctx.blocked
    ensures TypedOut(cfg, msg, out)
  {
    var c := ctx.(work := false);
    match c.state
    case SendFf => RunFf(cfg, msg, c, pad, accept)
    case SendCf => RunCf(cfg, msg, c.(timer := false), pad, accept)
    case WaitSt => TxOut(Some(c.(timer := true, state := SendCf)), [], [])
    case TxErr => TxOut(None, [], [c.error])
    case WaitFin => TxOut(None, [], [Ok])
    case WaitFc => TxOut(Some(c), [], [])
    case WaitBacklog => TxOut(Some(c), [], [])
  }

  /** The work handler gets the semaphore and goes round its loop again, whatever the state is by
      then. */
  function Resume(cfg: Config, msg: seq<Byte>, c: SendCtx, pad: seq<Byte>, accept: Answer): (out: TxOut)
    requires cfg.Valid() && |pad| == cfg.dlen && c.Ready(cfg, msg) && c.blocked
    ensures TypedOut(cfg, msg, out)
  {
    RunCf(cfg, msg, c.(sem := false, blocked := false), pad, accept)
  }

  /** send_timeout_handler */
  function Timeout(c: SendCtx): SendCtx {
    (if c.state != SendCf then c.Report(TimeoutBs) else c).(timer := false, work := true)
  }

  /** send_can_tx_callback */
  function FrameSent(c: SendCtx): SendCtx {
    var c1 := c.(pendingCb := c.pendingCb - 1, backlog := (c.backlog - 1) % 256, sem := true);
    if c1.state != WaitBacklog then c1.(work := true)
    else if c1.backlog > 0 then c1
    else c1.(state := WaitFin, work := true)
  }

  /** The outstanding frame has left: send_can_tx_callback, or isotp_fast_sent_single_cb for a single frame. */
  function Completed(c: SendCtx, failed: bool): TxOut {
    if c.single then TxOut(None, [], [if failed then Driver else Ok]) else TxOut(Some(FrameSent(c)), [], [])
  }

  /** send_process_fc */
  function ProcessFc(cfg: Config, c: SendCtx, f: CanFrame): SendCtx
    requires WellFormed(cfg, f)
  {
    if PciType(f) != TYPE_FC then c.Report(UnexpectedPdu)
    else match FlowStatusOf(f)
      case Cts => c.(state := SendCf, wft := 0, backlog := 0, sem := false, bs := f.data[1], stmin := f.data[2])
      case Wait =>
        var c1 := c.(timer := true);
        (if c.wft >= cfg.wftMax then c1.Report(WaitOverrun) else c1).(wft := (c.wft + 1) % 256)
      case Overflow => c.Report(BufferOverflow)
      case InvalidFs => c.Report(InvalidFlow)
  }

  /** send_can_rx */
  function CanRx(cfg: Config, c: SendCtx, f: CanFrame): SendCtx
    requires WellFormed(cfg, f)
  {
    (if c.state == WaitFc then ProcessFc(cfg, c.(timer := false), f)
     else c.Report(UnexpectedPdu)).(work := true)
  }

  // ----- what goes out

  /** f is the first frame of the message or, if that has gone, carries the bytes that come next; at the j-th place
      of the message it is the j-th consecutive frame. */
  ghost predicate Carries(cfg: Config, msg: seq<Byte>, c: SendCtx, f: CanFrame)
    requires c.Ready(cfg, msg) && cfg.Valid() && !c.single
  {
    if c.state == SendFf then IsFirst(cfg, msg, f)
    else NextBytes(cfg, msg, c, f) && forall j | InPlace(cfg, msg, c, j) :: IsConsecutive(cfg, msg, j, f)
  }

  predicate NextBytes(cfg: Config, msg: seq<Byte>, c: SendCtx, f: CanFrame)
    requires c.Fits(msg) && cfg.Valid()
  {
    var n := Min(c.remLen, cfg.dlen - 1);
    && WellFormed(cfg, f) && PciType(f) == TYPE_CF && f.data[0] % 16 == c.sn
    && f.length == DlcLength(1 + n) && f.data[1..1 + n] == msg[c.pos..c.pos + n]
  }

  /** The sender has come to the j-th consecutive frame. */
  predicate InPlace(cfg: Config, msg: seq<Byte>, c: SendCtx, j: nat)
    requires cfg.Valid()
  {
    j >= 1 && c.pos == Offset(cfg, |msg|, j - 1) && c.sn == j % 16 && c.remLen > 0
  }

  predicate Speaks(c: SendCtx) { !c.single && (c.blocked || c.state == SendFf || c.state == SendCf) }

  /** The driver has been handed the next frame of the message if it took one, and nothing else. */
  ghost predicate Grown(cfg: Config, msg: seq<Byte>, c: SendCtx, accept: Answer, before: seq<CanFrame>,
                        now: seq<CanFrame>)
    requires c.Ready(cfg, msg) && cfg.Valid()
  {
    if accept.Taken? && Speaks(c) then
      |now| == |before| + 1 && now[..|before|] == before && Carries(cfg, msg, c, now[|before|])
    else now == before
  }

  lemma WorkCarries(cfg: Config, msg: seq<Byte>, c: SendCtx, pad: seq<Byte>, accept: Answer, before: seq<CanFrame>)
    requires cfg.Valid() && |pad| == cfg.dlen && c.Ready(cfg, msg) && c.work && !c.blocked
    ensures Grown(cfg, msg, c, accept, before, before + Work(cfg, msg, c, pad, accept).frames)
  {
    hide FirstFrame, ConsecutiveFrame, Carries, TypedOut;
    if c.state == SendFf {
      FfCarries(cfg, msg, c, pad);
    } else if c.state == SendCf {
      CfCarries(cfg, msg, c, pad);
    }
  }

  lemma FfCarries(cfg: Config, msg: seq<Byte>, c: SendCtx, pad: seq<Byte>)
    requires cfg.Valid() && |pad| == cfg.dlen && c.Ready(cfg, msg) && !c.single && c.state == SendFf
    ensures Carries(cfg, msg, c, FirstFrame(cfg, c.remLen, Take(cfg, msg, c, cfg.dlen - 2), pad))
  {
    hide FirstFrame, IsFirst;
    FirstFrameIsFirst(cfg, msg, pad);
    assert Take(cfg, msg, c, cfg.dlen - 2) == msg[..cfg.dlen - 2];
  }

  lemma ResumeCarries(cfg: Config, msg: seq<Byte>, c: SendCtx, pad: seq<Byte>, accept: Answer, before: seq<CanFrame>)
    requires cfg.Valid() && |pad| == cfg.dlen && c.Ready(cfg, msg) && c.blocked
    ensures Grown(cfg, msg, c, accept, before, before + Resume(cfg, msg, c, pad, accept).frames)
  {
    hide ConsecutiveFrame, Carries, TypedOut;
    CfCarries(cfg, msg, c, pad);
  }

  lemma CfCarries(cfg: Config, msg: seq<Byte>, c: SendCtx, pad: seq<Byte>)
    requires cfg.Valid() && |pad| == cfg.dlen && c.Ready(cfg, msg) && !c.single && c.state != SendFf
    ensures Carries(cfg, msg, c, ConsecutiveFrame(cfg, c.sn, Take(cfg, msg, c, Min(c.remLen, cfg.dlen - 1)), pad))
  {
    var payload := Take(cfg, msg, c, Min(c.remLen, cfg.dlen - 1));
    var f := ConsecutiveFrame(cfg, c.sn, payload, pad);
    assert f.data[..1 + |payload|] == [32 + c.sn] + payload;
    assert f.data[1..1 + |payload|] == f.data[..1 + |payload|][1..];
    forall j | InPlace(cfg, msg, c, j) ensures IsConsecutive(cfg, msg, j, f) {
      NextIsConsecutive(cfg, msg, c, f, j);
    }
  }

  lemma NextIsConsecutive(cfg: Config, msg: seq<Byte>, c: SendCtx, f: CanFrame, j: nat)
    requires cfg.Valid() && c.Fits(msg) && NextBytes(cfg, msg, c, f) && InPlace(cfg, msg, c, j)
    ensures IsConsecutive(cfg, msg, j, f)
  {
  }

  lemma StaysReady(cfg: Config, msg: seq<Byte>, c: SendCtx, f: CanFrame, failed: bool)
    requires WellFormed(cfg, f) && c.Ready(cfg, msg)
    ensures Timeout(c).Ready(cfg, msg)
    ensures CanRx(cfg, c, f).Ready(cfg, msg)
    ensures TypedOut(cfg, msg, Completed(c, failed))
  {
  }
}
