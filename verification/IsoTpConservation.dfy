/** A receiver facing any frames at all: what a first frame declares is what gets delivered, or nothing is. */
module IsoTpConservation {
  import opened IsoTpFrame
  import opened Wrappers
  import Rx = IsoTpReceiver

  datatype Event =
    | Frame(f: CanFrame, allocOk: bool)
    | Work
    | Timer
    | FcSent(failed: bool)

  /** What the opening frame of a message was and what it declared. */
  datatype Opening = NotOpen | Single | Multi(declared: nat)

  datatype Dispatch = Dispatch(opening: Opening, content: seq<Byte>)

  datatype Receiver = Receiver(rx: Option<Rx.RecvCtx>, opening: Opening, dispatched: seq<Dispatch>)

  const Closed := Receiver(None, NotOpen, [])

  predicate Possible(cfg: Config, r: Receiver, e: Event) {
    match e
    case Frame(f, _) => WellFormed(cfg, f)
    case Work => r.rx.Some? && r.rx.value.work
    case Timer => r.rx.Some? && r.rx.value.timer
    case FcSent(_) => r.rx.Some?
  }

  function OpeningAfter(r: Receiver, rx: Option<Rx.RecvCtx>, f: CanFrame): Opening
    requires |f.data| >= 4
  {
    if rx.None? then NotOpen
    else if r.rx.Some? && r.rx.value.state != Rx.WaitFfSf then r.opening
    else match rx.value.state
      case ProcessFf => Multi(FfLength(f))
      case ProcessSf => Single
      case _ => NotOpen
  }

  function Step(cfg: Config, r: Receiver, e: Event): Receiver
    requires cfg.Valid() && Possible(cfg, r, e)
  {
    match e
    case Frame(f, allocOk) =>
      var rx := Rx.CanRx(cfg, r.rx, f, allocOk);
      r.(rx := rx, opening := OpeningAfter(r, rx, f))
    case Work =>
      var out := Rx.Work(cfg, r.rx.value);
      r.(rx := out.ctx,
         dispatched := r.dispatched + (if out.delivered == [] then [] else [Dispatch(r.opening, out.delivered[0])]))
    case Timer => r.(rx := Some(Rx.Timeout(r.rx.value)))
    case FcSent(failed) => r.(rx := Some(Rx.FcSent(r.rx.value, failed)))
  }

  /** The length a first frame declares leaves room for its own payload. */
  predicate Sound(cfg: Config, o: Opening) {
    o.Multi? ==> cfg.dlen - 2 <= o.declared <= MAX_LEN
  }

  predicate Conserved(cfg: Config, c: Rx.RecvCtx, o: Opening) {
    && c.Fits() && cfg.Valid()
    && c.fragLen <= cfg.dlen - 1
    && (o.NotOpen? ==> c.state == Rx.WaitFfSf || c.state == Rx.RxErr)
    && (o.Single? ==> c.state == Rx.ProcessSf || c.state == Rx.RxErr)
    && (o.Multi? ==> c.state != Rx.WaitFfSf && c.state != Rx.ProcessSf)
    && (o.Multi? && Sound(cfg, o) && c.state != Rx.RxErr ==>
          |c.content| + c.remLen == o.declared && (c.state == Rx.Recycle ==> c.remLen == 0))
    && (o.NotOpen? && c.state == Rx.WaitFfSf ==> c.content == [])
  }

  predicate DispatchOk(cfg: Config, d: Dispatch) {
    d.opening.Multi? && Sound(cfg, d.opening) ==> |d.content| == d.opening.declared
  }

  predicate Inv(cfg: Config, r: Receiver) {
    && (r.rx.Some? ==> Conserved(cfg, r.rx.value, r.opening))
    && forall d <- r.dispatched :: DispatchOk(cfg, d)
  }

  /** A first frame conserves its declared length exactly if it is large enough to contain its own payload;
      the 12-bit remainder wraps around otherwise. */
  lemma FirstFrameConserves(cfg: Config, c: Rx.RecvCtx, f: CanFrame)
    requires WellFormed(cfg, f) && PciType(f) == TYPE_FF && f.length == cfg.dlen && c.content == []
    ensures var c' := Rx.ProcessFfSf(cfg, c, f);
            |c'.content| + c'.remLen == FfLength(f) <==> cfg.dlen - 2 <= FfLength(f)
  {
  }

  lemma FrameConserves(cfg: Config, r: Receiver, f: CanFrame, allocOk: bool)
    requires Inv(cfg, r) && WellFormed(cfg, f)
    ensures Inv(cfg, Step(cfg, r, Frame(f, allocOk)))
  {
    if allocOk && r.rx.Some? && r.rx.value.state == Rx.WaitCf {
      CfConserves(cfg, r.rx.value, r.opening, f);
    } else if allocOk && (r.rx.None? || r.rx.value.state == Rx.WaitFfSf) {
      OpeningConserves(cfg, if r.rx.None? then Rx.Fresh else r.rx.value.NewFragment(), f);
    }
  }

  lemma OpeningConserves(cfg: Config, c: Rx.RecvCtx, f: CanFrame)
    requires WellFormed(cfg, f) && c.Fits() && c.content == [] && c.fragLen == 0 && c.state == Rx.WaitFfSf
    ensures var c' := Rx.ProcessFfSf(cfg, c, f);
            Conserved(cfg, c',
                      match c'.state case ProcessFf => Multi(FfLength(f)) case ProcessSf => Single case _ => NotOpen)
  {
  }

  lemma CfConserves(cfg: Config, c: Rx.RecvCtx, o: Opening, f: CanFrame)
    requires Conserved(cfg, c, o) && c.state == Rx.WaitCf && WellFormed(cfg, f)
    ensures Conserved(cfg, Rx.ProcessCf(cfg, c.NewFragment(), f), o)
  {
  }

  lemma StepConserves(cfg: Config, r: Receiver, e: Event)
    requires cfg.Valid() && Inv(cfg, r) && Possible(cfg, r, e)
    ensures Inv(cfg, Step(cfg, r, e))
  {
    if e.Frame? {
      FrameConserves(cfg, r, e.f, e.allocOk);
    }
  }

  predicate Legal(cfg: Config, r: Receiver, run: seq<Event>)
    requires cfg.Valid()
    decreases |run|
  {
    run != [] ==> Possible(cfg, r, run[0]) && Legal(cfg, Step(cfg, r, run[0]), run[1..])
  }

  function Run(cfg: Config, r: Receiver, run: seq<Event>): Receiver
    requires cfg.Valid() && Legal(cfg, r, run)
    decreases |run|
  {
    if run == [] then r else Run(cfg, Step(cfg, r, run[0]), run[1..])
  }

  lemma {:induction false} RunConserves(cfg: Config, r: Receiver, run: seq<Event>)
    requires cfg.Valid() && Inv(cfg, r) && Legal(cfg, r, run)
    ensures Inv(cfg, Run(cfg, r, run))
    decreases |run|
  {
    if run != [] {
      StepConserves(cfg, r, run[0]);
      RunConserves(cfg, Step(cfg, r, run[0]), run[1..]);
    }
  }

  /** Conservation: against any sequence of non-empty frames, losses of memory and timeouts, the bytes
      buffered and the bytes missing add up to the declared length until an error, no net_buf
      gets more than it can hold, and a message of several frames is dispatched only with exactly the declared
      length. */
  lemma ReceiverConserves(cfg: Config, run: seq<Event>)
    requires cfg.Valid() && Legal(cfg, Closed, run)
    ensures var r := Run(cfg, Closed, run);
            && (r.rx.Some? ==> r.rx.value.fragLen <= cfg.dlen - 1)
            && (r.rx.Some? && r.opening.Multi? && Sound(cfg, r.opening) && r.rx.value.state != Rx.RxErr ==>
                  |r.rx.value.content| + r.rx.value.remLen == r.opening.declared)
            && (forall d <- r.dispatched | d.opening.Multi? && Sound(cfg, d.opening) ::
                  |d.content| == d.opening.declared)
  {
    RunConserves(cfg, Closed, run);
    assert forall d <- Run(cfg, Closed, run).dispatched :: DispatchOk(cfg, d);
  }
}
