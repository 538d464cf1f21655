/** The send and receive contexts as isotp_fast.c has them: records that the handlers update in place. Each
    handler is proved to do what IsoTpSender and IsoTpReceiver say, which is what the link's properties
    are about. */
module IsoTpContext {
  import opened IsoTpFrame
  import opened Wrappers
  import Tx = IsoTpSender
  import Rx = IsoTpReceiver

  /** struct isotp_fast_recv_ctx with the calls it makes to the outside: flow control frames sent, messages
      and errors handed to the callbacks. */
  class ReceiveContext {
    const cfg: Config
    const rxAddr: bv32
    var live: bool
    /** State UNBOUND, which no handler does anything in. */
    var unbound: bool
    var state: Rx.RxState
    var remLen: nat
    var snExpected: nat
    var bs: Byte
    var wft: Byte
    var error: Status
    var content: seq<Byte>
    var fragLen: nat
    var frags: nat
    var pendingCb: int
    var timer: bool
    var work: bool
    var sent: seq<CanFrame>
    var delivered: seq<seq<Byte>>
    var errors: seq<Status>

    ghost function Record(): Rx.RecvCtx
      reads this
    {
      Rx.RecvCtx(state, remLen, snExpected, bs, wft, error, content, fragLen, frags, pendingCb, timer, work)
    }

    ghost function View(): Option<Rx.RecvCtx>
      reads this
    {
      if live then Some(Record()) else None
    }

    ghost predicate Calls(s: seq<CanFrame>, d: seq<seq<Byte>>, e: seq<Status>)
      reads this
    {
      sent == s && delivered == d && errors == e
    }

    /** get_recv_ctx has to create the context. */
    constructor (cfg: Config, rxAddr: bv32)
      requires cfg.Valid()
      ensures this.cfg == cfg && this.rxAddr == rxAddr && View() == Some(Rx.Fresh) && Calls([], [], [])
    {
      this.cfg, this.rxAddr := cfg, rxAddr;
      live, unbound, state := true, false, Rx.WaitFfSf;
      remLen, snExpected, bs, wft, error := 0, 0, 0, 0, Ok;
      content, fragLen, frags := [], 0, 1;
      pendingCb, timer, work := 0, false, false;
      sent, delivered, errors := [], [], [];
    }

    method ReportError(e: Status)
      modifies `state, `error
      ensures Record() == old(Record()).Report(e)
    {
      state, error := Rx.RxErr, e;
    }

    method Append(bytes: seq<Byte>)
      modifies `content, `fragLen, `remLen
      ensures Record() == old(Record()).Append(bytes)
    {
      content, fragLen := content + bytes, fragLen + |bytes|;
      remLen := (remLen - |bytes|) % 4096;
    }

    method ProcessFfSf(f: CanFrame)
      requires WellFormed(cfg, f)
      modifies this
      ensures live == old(live) && Record() == Rx.ProcessFfSf(cfg, old(Record()), f)
      ensures Calls(old(sent), old(delivered), old(errors))
    {
      if PciType(f) == TYPE_FF {
        if f.length != cfg.dlen {
          return;
        }
        remLen := FfLength(f);
        state := Rx.ProcessFf;
        snExpected := 1;
        Append(f.data[2..]);
      } else if PciType(f) == TYPE_SF {
        var (len, index) := SfLength(cfg, f);
        remLen := len;
        var size := Rx.Min(remLen, cfg.dlen - index);
        if size > f.length {
          return;
        }
        state := Rx.ProcessSf;
        Append(f.data[index..index + size]);
      } else {
        ReportError(UnexpectedPdu);
        work := true;
      }
    }

    method ProcessCf(f: CanFrame)
      requires WellFormed(cfg, f)
      modifies this
      ensures live == old(live) && Record() == Rx.ProcessCf(cfg, old(Record()), f)
      ensures Calls(old(sent), old(delivered), old(errors))
    {
      if PciType(f) != TYPE_CF {
        ReportError(UnexpectedPdu);
        work := true;
        return;
      }
      var expected := snExpected;
      CountCf();
      if f.data[0] % 16 != expected {
        ReportError(WrongSn);
        work := true;
        return;
      }
      Append(f.data[1..1 + Rx.Min(remLen, f.length - 1)]);
      if remLen == 0 {
        state, work := Rx.Recycle, true;
      } else if cfg.bs != 0 {
        CountBlock();
      }
    }

    /** The timer starts again, and the next number is expected. */
    method CountCf()
      modifies `timer, `snExpected
      ensures Record() == old(Record()).(timer := true, snExpected := (old(snExpected) + 1) % 16)
    {
      timer, snExpected := true, (snExpected + 1) % 16;
    }

    /** One frame of the block less; at its end the next one is asked for. */
    method CountBlock()
      modifies `bs, `state
      ensures var left := (old(bs) - 1) % 256;
              Record() == old(Record()).(bs := if left == 0 then cfg.bs else left,
                                         state := if left == 0 then Rx.TryAlloc else old(state))
    {
      bs := (bs - 1) % 256;
      if bs == 0 {
        bs := cfg.bs;
        state := Rx.TryAlloc;
      }
    }

    /** receive_can_rx on a context that exists already. */
    method CanRx(f: CanFrame, allocOk: bool)
      requires WellFormed(cfg, f) && live
      modifies this
      ensures View() == Rx.CanRx(cfg, old(View()), f, allocOk)
      ensures Calls(old(sent), old(delivered), old(errors))
    {
      if !allocOk {
        live := false;
        return;
      }
      fragLen, frags := 0, frags + 1;
      match state {
        case WaitFfSf =>
          ProcessFfSf(f);
        case WaitCf =>
          ProcessCf(f);
          if state == Rx.WaitCf {
            return;
          }
        case _ =>
      }
      work := true;
    }

    method SendFc(fs: FlowStatus)
      requires cfg.Valid()
      modifies this
      ensures live == old(live) && Record() == old(Record()).(pendingCb := old(pendingCb) + 1)
      ensures Calls(old(sent) + [FlowControl(cfg, fs)], old(delivered), old(errors))
    {
      pendingCb := pendingCb + 1;
      sent := sent + [FlowControl(cfg, fs)];
    }

    /** TRY_ALLOC, falling through to SEND_FC. */
    method ClearToSend()
      requires cfg.Valid() && live
      modifies this
      ensures var out := Rx.ClearToSend(cfg, old(Record()));
              View() == out.ctx && Calls(old(sent) + out.fcs, old(delivered), old(errors))
    {
      timer := false;
      SendFc(Cts);
      timer := true;
      state := Rx.WaitCf;
    }

    /** The error state. */
    method Abort()
      requires cfg.Valid()
      modifies this
      ensures var out := Rx.Abort(cfg, old(Record()));
              View() == out.ctx && Calls(old(sent) + out.fcs, old(delivered), old(errors) + out.errors)
    {
      timer := false;
      errors := errors + [error];
      if error == BufferOverflow {
        SendFc(Overflow);
      }
      live := false;
    }

    /** The message is complete. */
    method Dispatch()
      modifies this
      ensures !live && Calls(old(sent), old(delivered) + [old(content)], old(errors))
    {
      delivered := delivered + [content];
      live := false;
    }

    method ProcessFf()
      requires cfg.Valid() && live && state == Rx.ProcessFf && !work
      modifies this
      ensures var out := Rx.Work(cfg, old(Record()));
              && View() == out.ctx
              && Calls(old(sent) + out.fcs, old(delivered), old(errors) + out.errors)
    {
      if cfg.bs == 0 && remLen > cfg.maxPackets * (cfg.dlen - 1) {
        ReportError(BufferOverflow);
        Abort();
        return;
      }
      if cfg.bs != 0 {
        bs := cfg.bs;
      }
      wft := 255;
      state := Rx.TryAlloc;
      ClearToSend();
    }

    method SendWait()
      requires cfg.Valid() && live
      modifies this
      ensures var out := Rx.AskToWait(cfg, old(Record()));
              && View() == out.ctx
              && Calls(old(sent) + out.fcs, old(delivered), old(errors) + out.errors)
    {
      wft := (wft + 1) % 256;
      if wft < cfg.wftMax {
        SendFc(Wait);
        timer := true;
        state := Rx.TryAlloc;
        return;
      }
      ReportError(BufferOverflow);
      Abort();
    }

    /** receive_work_handler and receive_state_machine. */
    method Work()
      requires cfg.Valid() && live
      modifies this
      ensures var out := Rx.Work(cfg, old(Record()));
              && View() == out.ctx
              && Calls(old(sent) + out.fcs, old(delivered) + out.delivered, old(errors) + out.errors)
    {
      work := false;
      match state {
        case ProcessSf =>
          remLen := 0;
          state := Rx.Recycle;
          Dispatch();
        case ProcessFf =>
          ProcessFf();
        case TryAlloc =>
          ClearToSend();
        case SendWait =>
          SendWait();
        case RxErr =>
          Abort();
        case Recycle =>
          Dispatch();
        case _ =>
      }
    }

    method Timeout()
      requires live
      modifies this
      ensures View() == Some(Rx.Timeout(old(Record())))
      ensures Calls(old(sent), old(delivered), old(errors))
    {
      timer := false;
      match state {
        case WaitCf => ReportError(TimeoutCr);
        case TryAlloc => state := Rx.SendWait;
        case _ =>
      }
      work := true;
    }

    method FcSent(failed: bool)
      requires live
      modifies this
      ensures View() == Some(Rx.FcSent(old(Record()), failed))
      ensures Calls(old(sent), old(delivered), old(errors))
    {
      pendingCb := pendingCb - 1;
      if failed {
        ReportError(Error);
        work := true;
      }
    }
  }

  /** struct isotp_fast_send_ctx with the frames can_send accepted from it and its sent_callback calls. */
  class SendContext {
    const cfg: Config
    const txAddr: bv32
    /** `data` with `rem_len` as they were when the message was handed over. */
    var msg: seq<Byte>
    var live: bool
    var state: Tx.TxState
    var pos: nat
    var remLen: nat
    var sn: nat
    var bs: Byte
    var stmin: Byte
    var wft: Byte
    var backlog: Byte
    var sem: bool
    var error: Status
    var pendingCb: int
    var timer: bool
    var work: bool
    var blocked: bool
    var single: bool
    var accepted: seq<CanFrame>
    var results: seq<Status>

    ghost function Record(): Tx.SendCtx
      reads this
    {
      Tx.SendCtx(state, pos, remLen, sn, bs, stmin, wft, backlog, sem, error, pendingCb, timer, work, blocked, single)
    }

    ghost function View(): Option<Tx.SendCtx>
      reads this
    {
      if live then Some(Record()) else None
    }

    ghost predicate Calls(frames: seq<CanFrame>, r: seq<Status>)
      reads this
    {
      accepted == frames && results == r
    }

    ghost predicate Ready()
      reads this
    {
      cfg.Valid() && live && Record().Ready(cfg, msg)
    }

    /** get_send_ctx has to create the context; `noise` stands for the fields it leaves uninitialised. */
    constructor (cfg: Config, txAddr: bv32, noise: Byte, msg: seq<Byte>)
      requires cfg.Valid()
      ensures this.cfg == cfg && this.txAddr == txAddr && this.msg == msg && Ready()
      ensures View() == Some(Tx.Fresh(cfg, noise).(single := true)) && Calls([], [])
    {
      this.cfg, this.txAddr, this.msg := cfg, txAddr, msg;
      live, state := true, Tx.SendFf;
      pos, remLen, sn, bs, stmin, wft, backlog := 0, 0, 0, cfg.bs, cfg.stmin, noise, noise;
      sem, error, pendingCb, timer, work, blocked, single := false, Ok, 0, false, false, false, true;
      accepted, results := [], [];
    }

    /** isotp_fast_send for a short message, whether the context is new or not: a refused frame frees it if nothing else
        has happened to it. */
    method QueueSingle(m: seq<Byte>, pad: seq<Byte>, taken: bool)
      requires Ready() && |m| <= cfg.SfMax() && |pad| == cfg.dlen
      modifies this
      ensures msg == old(msg) && (live <==> taken || old(state) != Tx.SendFf || old(pendingCb) != 0)
      ensures Record() == old(Record()).(pendingCb := old(pendingCb) + if taken then 1 else 0)
      ensures Calls(old(accepted) + if taken then [SingleFrame(cfg, m, pad)] else [], old(results))
    {
      if taken {
        pendingCb := pendingCb + 1;
        accepted := accepted + [SingleFrame(cfg, m, pad)];
      } else if state == Tx.SendFf && pendingCb == 0 {
        live := false;
      }
    }

    /** isotp_fast_send for a long message: what the context was sending before is forgotten, but not how far it was. */
    method QueueLong(m: seq<Byte>)
      requires Ready() && cfg.SfMax() < |m| <= MAX_LEN
      modifies this
      ensures msg == m && Ready() && Calls(old(accepted), old(results))
      ensures Record() == old(Record()).(pos := 0, remLen := |m|, work := true, single := false)
    {
      msg, pos, remLen, work, single := m, 0, |m|, true, false;
    }

    method ReportError(e: Status)
      modifies this
      ensures live == old(live) && msg == old(msg) && Record() == old(Record()).Report(e)
      ensures Calls(old(accepted), old(results))
    {
      state, error := Tx.TxErr, e;
    }

    /** The next `size` bytes of the message go into a frame. */
    method TakeBytes(size: nat) returns (bytes: seq<Byte>)
      requires pos + size <= |msg| && size <= remLen
      modifies this
      ensures msg == old(msg)
      ensures bytes == msg[old(pos)..old(pos) + size]
      ensures live == old(live) && Calls(old(accepted), old(results))
      ensures Record() == old(Record()).(remLen := old(remLen) - size, pos := old(pos) + size)
    {
      bytes := msg[pos..pos + size];
      remLen := remLen - size;
      pos := pos + size;
    }

    /** The driver has accepted a consecutive frame. */
    method CountCf(frame: CanFrame)
      modifies this
      ensures live == old(live) && msg == old(msg) && Calls(old(accepted) + [frame], old(results))
      ensures Record() == old(Record()).(sn := (old(sn) + 1) % 16, bs := (old(bs) - 1) % 256,
                                         backlog := (old(backlog) + 1) % 256, pendingCb := old(pendingCb) + 1)
    {
      pendingCb := pendingCb + 1;
      accepted := accepted + [frame];
      sn := (sn + 1) % 16;
      bs := (bs - 1) % 256;
      backlog := (backlog + 1) % 256;
    }

    /** One turn of the loop in SEND_CF, up to the semaphore. */
    method SendCf(pad: seq<Byte>, accept: Answer)
      requires Ready() && |pad| == cfg.dlen && !single && !blocked && (state == Tx.SendCf || state == Tx.TxErr)
      modifies this
      ensures msg == old(msg)
      ensures var out := Tx.RunCf(cfg, msg, old(Record()), pad, accept);
              View() == out.ctx && Calls(old(accepted) + out.frames, old(results) + out.results)
    {
      hide ConsecutiveFrame, Tx.TypedOut;
      var number := sn;
      var bytes := TakeBytes(Tx.Min(remLen, cfg.dlen - 1));
      if !accept.Taken? {
        ReportError(if accept.Late? then TimeoutA else Error);
        return;
      }
      CountCf(ConsecutiveFrame(cfg, number, bytes, pad));
      AwaitNext();
    }

    /** What the sender waits for behind a consecutive frame. */
    method AwaitNext()
      modifies `state, `timer, `blocked
      ensures var c := old(Record());
              Record() == if remLen == 0 then c.(state := Tx.WaitBacklog)
                          else if cfg.bs != 0 && bs == 0 then c.(state := Tx.WaitFc, timer := true)
                          else if stmin != 0 then c.(state := Tx.WaitSt)
                          else c.(blocked := true)
    {
      if remLen == 0 {
        state := Tx.WaitBacklog;
      } else if cfg.bs != 0 && bs == 0 {
        timer := true;
        state := Tx.WaitFc;
      } else if stmin != 0 {
        state := Tx.WaitSt;
      } else {
        blocked := true;
      }
    }

    method SendFf(pad: seq<Byte>, accept: Answer)
      requires Ready() && |pad| == cfg.dlen && !single && !blocked && state == Tx.SendFf
      modifies this
      ensures msg == old(msg)
      ensures var out := Tx.RunFf(cfg, msg, old(Record()), pad, accept);
              View() == out.ctx && Calls(old(accepted) + out.frames, old(results) + out.results)
    {
      hide FirstFrame, Tx.TypedOut;
      var len := remLen;
      var bytes := TakeBytes(Tx.Min(cfg.dlen - 2, remLen));
      CountFf(if accept.Taken? then [FirstFrame(cfg, len, bytes, pad)] else []);
    }

    /** The first frame has number 0; then the sender waits, whether or not the driver has accepted it. */
    method CountFf(frames: seq<CanFrame>)
      modifies `sn, `pendingCb, `accepted, `timer, `state
      ensures Calls(old(accepted) + frames, old(results))
      ensures Record() == old(Record()).(sn := 1, pendingCb := old(pendingCb) + |frames|, timer := true,
                                         state := Tx.WaitFc)
    {
      sn, timer, state := 1, true, Tx.WaitFc;
      pendingCb, accepted := pendingCb + |frames|, accepted + frames;
    }

    method Finish(status: Status)
      modifies this
      ensures msg == old(msg) && !live && Calls(old(accepted), old(results) + [status])
    {
      timer := false;
      results := results + [status];
      live := false;
    }

    /** send_work_handler and send_state_machine. */
    method Work(pad: seq<Byte>, accept: Answer)
      requires Ready() && |pad| == cfg.dlen && work && !blocked
      modifies this
      ensures msg == old(msg)
      ensures var out := Tx.Work(cfg, msg, old(Record()), pad, accept);
              View() == out.ctx && Calls(old(accepted) + out.frames, old(results) + out.results)
    {
      hide Tx.RunCf, Tx.RunFf, Tx.TypedOut;
      work := false;
      match state {
        case SendFf =>
          SendFf(pad, accept);
        case SendCf =>
          timer := false;
          SendCf(pad, accept);
        case WaitSt =>
          timer := true;
          state := Tx.SendCf;
        case TxErr =>
          Finish(error);
        case WaitFin =>
          Finish(Ok);
        case _ =>
      }
    }

    /** k_sem_take returns inside the loop. */
    method Resume(pad: seq<Byte>, accept: Answer)
      requires Ready() && |pad| == cfg.dlen && blocked
      modifies this
      ensures msg == old(msg)
      ensures var out := Tx.Resume(cfg, msg, old(Record()), pad, accept);
              View() == out.ctx && Calls(old(accepted) + out.frames, old(results) + out.results)
    {
      sem, blocked := false, false;
      SendCf(pad, accept);
    }

    method Timeout()
      requires live
      modifies this
      ensures msg == old(msg)
      ensures View() == Some(Tx.Timeout(old(Record()))) && Calls(old(accepted), old(results))
    {
      timer := false;
      if state != Tx.SendCf {
        ReportError(TimeoutBs);
      }
      work := true;
    }

    /** isotp_fast_sent_single_cb frees the context, whatever else it is used for. */
    method SingleSent(failed: bool)
      requires live
      modifies this
      ensures msg == old(msg) && !live
      ensures Calls(old(accepted), old(results) + [if failed then Driver else Ok])
    {
      pendingCb := pendingCb - 1;
      results := results + [if failed then Driver else Ok];
      live := false;
    }

    /** send_can_tx_callback */
    method FrameSent()
      requires live
      modifies this
      ensures msg == old(msg)
      ensures View() == Some(Tx.FrameSent(old(Record()))) && Calls(old(accepted), old(results))
    {
      pendingCb := pendingCb - 1;
      backlog := (backlog - 1) % 256;
      sem := true;
      if state == Tx.WaitBacklog {
        if backlog > 0 {
          return;
        }
        state := Tx.WaitFin;
      }
      work := true;
    }

    method ProcessFc(f: CanFrame)
      requires WellFormed(cfg, f)
      modifies this
      ensures live == old(live) && msg == old(msg) && Record() == Tx.ProcessFc(cfg, old(Record()), f)
      ensures Calls(old(accepted), old(results))
    {
      if PciType(f) != TYPE_FC {
        ReportError(UnexpectedPdu);
        return;
      }
      match FlowStatusOf(f) {
        case Cts =>
          Grant(f.data[1], f.data[2]);
        case Wait =>
          WaitMore();
        case Overflow =>
          ReportError(BufferOverflow);
        case InvalidFs =>
          ReportError(InvalidFlow);
      }
    }

    method Grant(newBs: Byte, newStmin: Byte)
      modifies `state, `wft, `backlog, `sem, `bs, `stmin
      ensures Record() == old(Record()).(state := Tx.SendCf, wft := 0, backlog := 0, sem := false, bs := newBs,
                                         stmin := newStmin)
    {
      state, wft, backlog, sem, bs, stmin := Tx.SendCf, 0, 0, false, newBs, newStmin;
    }

    method WaitMore()
      modifies `state, `error, `timer, `wft
      ensures var c := old(Record()).(timer := true);
              Record() == (if old(wft) >= cfg.wftMax then c.Report(WaitOverrun) else c).(wft := (old(wft) + 1) % 256)
    {
      timer := true;
      if wft >= cfg.wftMax {
        state, error := Tx.TxErr, WaitOverrun;
      }
      wft := (wft + 1) % 256;
    }

    /** send_can_rx */
    method CanRx(f: CanFrame)
      requires WellFormed(cfg, f) && live
      modifies this
      ensures msg == old(msg)
      ensures View() == Some(Tx.CanRx(cfg, old(Record()), f)) && Calls(old(accepted), old(results))
    {
      if state == Tx.WaitFc {
        timer := false;
        ProcessFc(f);
      } else {
        ReportError(UnexpectedPdu);
      }
      work := true;
    }
  }
}
