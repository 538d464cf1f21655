/** What each handler of a receive context does, as a function of the context. The class
    ReceiveContext is proved to do exactly this. */
module IsoTpReceiver {
  import opened IsoTpFrame
  import opened Wrappers

  datatype RxState = WaitFfSf | ProcessSf | ProcessFf | TryAlloc | WaitCf | SendWait | RxErr | Recycle

  /** struct isotp_fast_recv_ctx. The chain of net_bufs is kept as its linearised `content`, the
      fill level of its last buffer and the number of its buffers. */
  datatype RecvCtx = RecvCtx(
    state: RxState,
    remLen: nat,
    snExpected: nat,
    bs: Byte,
    wft: Byte,
    error: Status,
    content: seq<Byte>,
    fragLen: nat,
    frags: nat,
    pendingCb: int,
    timer: bool,
    work: bool)
  {
    predicate Fits() { remLen < 4096 && snExpected < 16 }

    /** net_buf_add_mem on the current fragment, and the 12-bit rem_len going down. */
    function Append(bytes: seq<Byte>): RecvCtx {
      this.(content := content + bytes, fragLen := fragLen + |bytes|, remLen := (remLen - |bytes|) % 4096)
    }

    function NewFragment(): RecvCtx { this.(fragLen := 0, frags := frags + 1) }

    /** receive_report_error */
    function Report(e: Status): RecvCtx { this.(state := RxErr, error := e) }
  }

  /** The context get_recv_ctx sets up; fields it leaves uninitialised are zero here and are
      written before they are read. */
  const Fresh := RecvCtx(WaitFfSf, 0, 0, 0, 0, Ok, [], 0, 1, 0, false, false)

  function Min(a: int, b: int): int { if a < b then a else b }

  function ProcessFfSf(cfg: Config, c: RecvCtx, f: CanFrame): RecvCtx
    requires WellFormed(cfg, f)
  {
    if PciType(f) == TYPE_FF then
      if f.length != cfg.dlen then c
      else c.(remLen := FfLength(f), state := ProcessFf, snExpected := 1).Append(f.data[2..])
    else if PciType(f) == TYPE_SF then
      var (len, index) := SfLength(cfg, f);
      var size := Min(len, cfg.dlen - index);
      if size > f.length then c.(remLen := len)
      else c.(remLen := len, state := ProcessSf).Append(f.data[index..index + size])
    else
      c.Report(UnexpectedPdu).(work := true)
  }

  /** The frame continues the message: its sequence number is the expected one. */
  predicate Continues(c: RecvCtx, f: CanFrame)
    requires |f.data| > 0
  {
    PciType(f) == TYPE_CF && f.data[0] % 16 == c.snExpected
  }

  /** The payload process_cf takes out of a frame that continues the message. */
  function CfPayload(c: RecvCtx, f: CanFrame): (bytes: seq<Byte>)
    requires 1 <= f.length <= |f.data|
    ensures |bytes| == Min(c.remLen, f.length - 1)
  {
    f.data[1..1 + Min(c.remLen, f.length - 1)]
  }

  function ProcessCf(cfg: Config, c: RecvCtx, f: CanFrame): RecvCtx
    requires WellFormed(cfg, f)
  {
    if PciType(f) != TYPE_CF then
      c.Report(UnexpectedPdu).(work := true)
    else
      var c1 := c.(timer := true, snExpected := (c.snExpected + 1) % 16);
      if !Continues(c, f) then
        c1.Report(WrongSn).(work := true)
      else
        var c2 := c1.Append(CfPayload(c, f));
        if c2.remLen == 0 then
          c2.(state := Recycle, work := true)
        else if cfg.bs != 0 then
          var bs := (c2.bs - 1) % 256;
          if bs == 0 then c2.(bs := cfg.bs, state := TryAlloc) else c2.(bs := bs)
        else
          c2
  }

  /** receive_can_rx: `allocOk` says whether get_recv_ctx gets the memory it asks for. */
  function CanRx(cfg: Config, ctx: Option<RecvCtx>, f: CanFrame, allocOk: bool): Option<RecvCtx>
    requires WellFormed(cfg, f)
  {
    if ctx.None? then
      if (PciType(f) == TYPE_FF || PciType(f) == TYPE_SF) && allocOk
      then Some(ProcessFfSf(cfg, Fresh, f).(work := true))
      else None
    else if !allocOk then
      None
    else
      var c := ctx.value.NewFragment();
      match c.state
      case WaitFfSf => Some(ProcessFfSf(cfg, c, f).(work := true))
      case WaitCf =>
        var c' := ProcessCf(cfg, c, f);
        Some(if c'.state == WaitCf then c' else c'.(work := true))
      case _ => Some(c.(work := true))
  }

  /** What a run of the state machine leaves behind: the context unless it was freed, the flow
      control frames sent and the callbacks made. */
  datatype RxOut = RxOut(ctx: Option<RecvCtx>, fcs: seq<CanFrame>, delivered: seq<seq<Byte>>, errors: seq<Status>)

  function Abort(cfg: Config, c: RecvCtx): RxOut
    requires cfg.Valid()
  {
    RxOut(None, if c.error == BufferOverflow then [FlowControl(cfg, Overflow)] else [], [], [c.error])
  }

  function ClearToSend(cfg: Config, c: RecvCtx): RxOut
    requires cfg.Valid()
  {
    RxOut(Some(c.(state := WaitCf, timer := true, pendingCb := c.pendingCb + 1)),
          [FlowControl(cfg, Cts)], [], [])
  }

  function AskToWait(cfg: Config, c: RecvCtx): RxOut
    requires cfg.Valid()
  {
    var c1 := c.(wft := (c.wft + 1) % 256);
    if c1.wft < cfg.wftMax then
      RxOut(Some(c1.(state := TryAlloc, timer := true, pendingCb := c.pendingCb + 1)), [FlowControl(cfg, Wait)], [], [])
    else
      Abort(cfg, c1.Report(BufferOverflow))
  }

  /** receive_state_machine, run by the work handler. */
  function Work(cfg: Config, ctx: RecvCtx): RxOut
    requires cfg.Valid()
  {
    var c := ctx.(work := false);
    match c.state
    case ProcessSf => RxOut(None, [], [c.content], [])
    case Recycle => RxOut(None, [], [c.content], [])
    case ProcessFf =>
      if cfg.bs == 0 && c.remLen > cfg.maxPackets * (cfg.dlen - 1) then
        Abort(cfg, c.Report(BufferOverflow))
      else
        ClearToSend(cfg, c.(bs := if cfg.bs != 0 then cfg.bs else c.bs, wft := 255))
    case TryAlloc => ClearToSend(cfg, c)
    case SendWait => AskToWait(cfg, c)
    case RxErr => Abort(cfg, c)
    case WaitFfSf => RxOut(Some(c), [], [], [])
    case WaitCf => RxOut(Some(c), [], [], [])
  }

  /** receive_timeout_handler */
  function Timeout(c: RecvCtx): RecvCtx {
    (match c.state
     case WaitCf => c.Report(TimeoutCr)
     case TryAlloc => c.(state := SendWait)
     case _ => c).(timer := false, work := true)
  }

  /** receive_can_tx: a flow control frame has left, or failed to. */
  function FcSent(c: RecvCtx, failed: bool): RecvCtx {
    var c1 := c.(pendingCb := c.pendingCb - 1);
    if failed then c1.Report(Error).(work := true) else c1
  }

  lemma StaysFitting(cfg: Config, ctx: Option<RecvCtx>, f: CanFrame, allocOk: bool)
    requires WellFormed(cfg, f) && (ctx.Some? ==> ctx.value.Fits())
    ensures CanRx(cfg, ctx, f, allocOk).Some? ==> CanRx(cfg, ctx, f, allocOk).value.Fits()
  {
  }

  lemma WorkStaysFitting(cfg: Config, c: RecvCtx)
    requires cfg.Valid() && c.Fits()
    ensures Work(cfg, c).ctx.Some? ==> Work(cfg, c).ctx.value.Fits()
    ensures |Work(cfg, c).fcs| <= 1
    ensures forall f <- Work(cfg, c).fcs :: WellFormed(cfg, f)
  {
  }
}
