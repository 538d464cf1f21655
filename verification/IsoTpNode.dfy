/** One endpoint with its lists of contexts: finding the context a flow control frame is for, and taking everything
    down again. */
module IsoTpNode {
  import opened IsoTpFrame
  import opened IntrusiveLinkedList
  import opened IsoTpContext
  import opened CanId
  import opened Wrappers
  import Tx = IsoTpSender

  /** Which of these wait for a completion callback. */
  ghost function SendsPending(cs: seq<SendContext>): seq<bool>
    reads cs
  {
    seq(|cs|, i requires 0 <= i < |cs| reads cs => cs[i].pendingCb != 0)
  }

  ghost function ReceivesPending(cs: seq<ReceiveContext>): seq<bool>
    reads cs
  {
    seq(|cs|, i requires 0 <= i < |cs| reads cs => cs[i].pendingCb != 0)
  }

  /** Those of `cs` that are pending, or those that are not, in order. */
  ghost function Pick<T>(cs: seq<T>, isPending: seq<bool>, pending: bool): seq<T>
    requires |cs| == |isPending|
  {
    if cs == [] then []
    else
      var n := |cs| - 1;
      Pick(cs[..n], isPending[..n], pending) + if isPending[n] == pending then [cs[n]] else []
  }

  lemma PickOneMore<T>(cs: seq<T>, isPending: seq<bool>, i: nat, pending: bool, before: seq<T>)
    requires |cs| == |isPending| && i < |cs|
    ensures before + Pick(cs[..i + 1], isPending[..i + 1], pending)
            == before + Pick(cs[..i], isPending[..i], pending) + if isPending[i] == pending then [cs[i]] else []
  {
    assert cs[..i + 1][..i] == cs[..i] && isPending[..i + 1][..i] == isPending[..i];
  }

  /** The first n contexts have been freed, or orphaned in the error state; the others are as they were. */
  ghost predicate SendsDown(cs: seq<SendContext>, isPending: seq<bool>, n: nat)
    requires |cs| == |isPending|
    reads cs
  {
    forall k | 0 <= k < |cs| ::
      if k >= n then cs[k].live && isPending[k] == (cs[k].pendingCb != 0)
      else if isPending[k] then cs[k].live && cs[k].state == Tx.TxErr
      else !cs[k].live
  }

  ghost predicate ReceivesDown(cs: seq<ReceiveContext>, isPending: seq<bool>, n: nat)
    requires |cs| == |isPending|
    reads cs
  {
    forall k | 0 <= k < |cs| ::
      if k >= n then cs[k].live && isPending[k] == (cs[k].pendingCb != 0)
      else if isPending[k] then cs[k].live && cs[k].unbound
      else !cs[k].live
  }

  lemma NextSend(cs: seq<SendContext>, isPending: seq<bool>, i: nat)
    requires |cs| == |isPending| && i < |cs| && SendsDown(cs, isPending, i)
    ensures cs[i].live && isPending[i] == (cs[i].pendingCb != 0) && cs[i..] != [] && cs[i..][1..] == cs[i + 1..]
  {
  }

  twostate lemma OneSendDown(cs: seq<SendContext>, new isPending: seq<bool>, new i: nat)
    requires |cs| == |isPending| && i < |cs| && Distinct(cs) && old(SendsDown(cs, isPending, i))
    requires forall c <- cs | c != cs[i] ::
               c.live == old(c.live) && c.state == old(c.state) && c.pendingCb == old(c.pendingCb)
    requires if isPending[i] then cs[i].live && cs[i].state == Tx.TxErr else !cs[i].live
    ensures SendsDown(cs, isPending, i + 1)
  {
    assert forall k | 0 <= k < |cs| && k != i :: cs[k] in cs && cs[k] != cs[i];
  }

  lemma NextReceive(cs: seq<ReceiveContext>, isPending: seq<bool>, i: nat)
    requires |cs| == |isPending| && i < |cs| && ReceivesDown(cs, isPending, i)
    ensures cs[i].live && isPending[i] == (cs[i].pendingCb != 0) && cs[i..] != [] && cs[i..][1..] == cs[i + 1..]
  {
  }

  twostate lemma OneReceiveDown(cs: seq<ReceiveContext>, new isPending: seq<bool>, new i: nat)
    requires |cs| == |isPending| && i < |cs| && Distinct(cs) && old(ReceivesDown(cs, isPending, i))
    requires forall c <- cs | c != cs[i] ::
               c.live == old(c.live) && c.unbound == old(c.unbound) && c.pendingCb == old(c.pendingCb)
    requires if isPending[i] then cs[i].live && cs[i].unbound else !cs[i].live
    ensures ReceivesDown(cs, isPending, i + 1)
  {
    assert forall k | 0 <= k < |cs| && k != i :: cs[k] in cs && cs[k] != cs[i];
  }

  /** Every context is picked on exactly one side. */
  lemma {:induction false} PickedOnce<T>(cs: seq<T>, isPending: seq<bool>)
    requires |cs| == |isPending|
    ensures multiset(Pick(cs, isPending, true)) + multiset(Pick(cs, isPending, false)) == multiset(cs)
  {
    if cs != [] {
      var n := |cs| - 1;
      PickedOnce(cs[..n], isPending[..n]);
      assert cs == cs[..n] + [cs[n]];
    }
  }

  /** sent_callback(ISOTP_N_ERROR, ...) for each of these. */
  ghost function Failures(cs: seq<SendContext>): seq<(Status, bv32)> {
    if cs == [] then [] else Failures(cs[..|cs| - 1]) + [(Error, cs[|cs| - 1].txAddr)]
  }

  lemma FailuresOneMore(cs: seq<SendContext>, isPending: seq<bool>, i: nat, before: seq<(Status, bv32)>)
    requires |cs| == |isPending| && i < |cs|
    ensures before + Failures(Pick(cs[..i + 1], isPending[..i + 1], false))
            == before + Failures(Pick(cs[..i], isPending[..i], false))
               + if isPending[i] then [] else [(Error, cs[i].txAddr)]
  {
    var c, failed := cs[i], Pick(cs[..i], isPending[..i], false);
    assert cs[..i + 1][..i] == cs[..i] && isPending[..i + 1][..i] == isPending[..i];
    if isPending[i] {
      assert failed + [] == failed;
    } else {
      assert (failed + [c])[..|failed|] == failed;
      assert Failures(failed + [c]) == Failures(failed) + [(Error, c.txAddr)];
    }
  }

  /** What the slabs got back, and the contexts kept alive for their callbacks. */
  class Memory {
    var freeSends: seq<SendContext>
    var freeReceives: seq<ReceiveContext>
    var orphanSends: seq<SendContext>
    var orphanReceives: seq<ReceiveContext>
  }

  /** What isotp_fast_send returns. */
  datatype SendResult = Sent | TooLong | NoContext | Failed

  class Node {
    const cfg: Config
    var sends: seq<SendContext>
    var receives: seq<ReceiveContext>
    var reports: seq<(Status, bv32)>
    var bound: bool

    /** The send list holds live contexts that are ready for their next event, no two of them for the same recipient. */
    ghost predicate Valid()
      reads this, set c <- sends :: c, set c <- receives :: c
    {
      Listed() && forall c <- sends :: c.Ready()
    }

    ghost predicate Listed()
      reads this, set c <- sends :: c, set c <- receives :: c
    {
      && cfg.Valid() && Distinct(sends) && Distinct(receives)
      && (forall c <- sends :: c.cfg == cfg) && (forall c <- receives :: c.live)
      && (forall c <- sends, d <- sends | c.txAddr == d.txAddr :: c == d)
    }

    /** A handler of c has run and may have freed it. */
    ghost predicate ValidBut(c: SendContext)
      reads this, set c <- sends :: c, set c <- receives :: c
    {
      Listed() && c in sends && (c.live ==> c.Ready()) && forall d <- sends | d != c :: d.Ready()
    }

    constructor (cfg: Config)
      requires cfg.Valid()
      ensures Valid() && this.cfg == cfg && bound
      ensures sends == [] && receives == [] && reports == []
    {
      this.cfg := cfg;
      sends, receives, reports, bound := [], [], [], true;
    }

    // ----- sending

    /** The search loop of get_send_ctx. */
    method Find(addr: bv32) returns (c: SendContext?)
      requires Valid()
      ensures c != null ==> c in sends && c.txAddr == addr && forall d <- sends | d.txAddr == addr :: d == c
      ensures c == null ==> forall d <- sends :: d.txAddr != addr
    {
      for i := 0 to |sends|
        invariant forall k | 0 <= k < i :: sends[k].txAddr != addr
      {
        if sends[i].txAddr == addr {
          c := sends[i];
          return;
        }
      }
      c := null;
    }

    /** get_send_ctx: the context for this recipient, or a new one if the slab has one. `msg` and `noise` stand for what
        a new context does not initialise. */
    method GetSend(addr: bv32, slabOk: bool, noise: Byte, msg: seq<Byte>) returns (c: SendContext?)
      requires Valid()
      modifies this`sends
      ensures Valid()
      ensures c != null && c in old(sends) ==> sends == old(sends)
      ensures c != null && c !in old(sends) ==>
                && fresh(c) && sends == old(sends) + [c] && c.msg == msg
                && c.View() == Some(Tx.Fresh(cfg, noise).(single := true)) && c.Calls([], [])
      ensures c == null <==> !slabOk && forall d <- old(sends) :: d.txAddr != addr
      ensures c == null ==> sends == old(sends)
      ensures c != null ==> (c in old(sends) <==> exists d <- old(sends) :: d.txAddr == addr)
      ensures c != null ==> c.txAddr == addr
    {
      c := Find(addr);
      if c == null && slabOk {
        c := new SendContext(cfg, addr, noise, msg);
        sends := sends + [c];
      }
    }

    /** free_send_ctx, if a handler has come to it. */
    method Reclaim(c: SendContext, memory: Memory)
      requires ValidBut(c)
      modifies this`sends, memory`freeSends
      ensures Valid()
      ensures sends == if c.live then old(sends) else Without(old(sends), c)
      ensures memory.freeSends == old(memory.freeSends) + if c.live then [] else [c]
    {
      WithoutIsExact(sends, c);
      if !c.live {
        sends := Without(sends, c);
        memory.freeSends := memory.freeSends + [c];
      }
    }

    /** The message goes to its context. */
    method Hand(c: SendContext, m: seq<Byte>, pad: seq<Byte>, taken: bool, memory: Memory)
      requires Valid() && c in sends && |m| <= MAX_LEN && |pad| == cfg.dlen
      modifies this`sends, memory`freeSends, c
      ensures Valid()
      ensures if |m| <= cfg.SfMax()
              then && Queued(c, taken) && SingleAdded(cfg, m, old(c.accepted), c.accepted, taken)
                   && sends == if c.live then old(sends) else Without(old(sends), c)
              else Restarted(c, m) && c.accepted == old(c.accepted) && sends == old(sends)
    {
      hide Distinct, Without;
      if |m| <= cfg.SfMax() {
        SingleIsAdded(cfg, m, pad, c.accepted, taken);
        hide SingleFrame, SingleAdded;
        c.QueueSingle(m, pad, taken);
        Reclaim(c, memory);
      } else {
        c.QueueLong(m);
      }
    }

    /** isotp_fast_send. `taken` is what the driver says to a single frame; the other frames are sent later. */
    method Send(m: seq<Byte>, addr: bv32, pad: seq<Byte>, noise: Byte, slabOk: bool, taken: bool, memory: Memory)
      returns (r: SendResult, c: SendContext?)
      requires Valid() && |pad| == cfg.dlen
      modifies this`sends, memory`freeSends, sends
      ensures Valid()
      ensures r == if |m| > MAX_LEN then TooLong
                   else if (forall d <- old(sends) :: d.txAddr != addr) && !slabOk then NoContext
                   else if |m| <= cfg.SfMax() && !taken then Failed else Sent
      ensures r == TooLong || r == NoContext ==> sends == old(sends) && forall d <- sends :: unchanged(d)
      ensures r == Sent || r == Failed ==>
                && c != null && c.txAddr == addr && forall d <- old(sends) | d != c :: unchanged(d)
      ensures r == Sent && (forall d <- old(sends) :: d.txAddr != addr) ==>
                fresh(c) && sends == old(sends) + [c] && c.msg == m && c.View() == Tx.Send(cfg, m, pad, noise).ctx
      ensures r == Failed && (forall d <- old(sends) :: d.txAddr != addr) ==> sends == old(sends)
      ensures (r == Sent || r == Failed) && c in old(sends) ==>
                if |m| <= cfg.SfMax()
                then Queued(c, taken) && sends == if c.live then old(sends) else Without<SendContext>(old(sends), c)
                else Restarted(c, m) && sends == old(sends)
      ensures r == Sent || r == Failed ==>
                var before := if c in old(sends) then old(c.accepted) else [];
                if |m| <= cfg.SfMax() then SingleAdded(cfg, m, before, c.accepted, taken) else c.accepted == before
    {
      if |m| > MAX_LEN {
        return TooLong, null;
      }
      hide Distinct, Without, SendContext.Ready, SingleFrame, SingleAdded;
      c := GetSend(addr, slabOk, noise, m);
      if c == null {
        return NoContext, null;
      }
      WithoutNew<SendContext>(old(sends), c);
      Hand(c, m, pad, taken, memory);
      return if |m| <= cfg.SfMax() && !taken then Failed else Sent, c;
    }

    // ----- what happens to a context of the list

    /** Behind a handler: its sent_callback calls, and the context goes if it was freed. */
    method Settle(c: SendContext, ghost results: seq<Status>, count: nat, memory: Memory)
      requires ValidBut(c) && count <= |c.results| && c.results[count..] == results
      modifies this`sends, this`reports, memory`freeSends
      ensures Valid() && reports == old(reports) + Labelled(results, c.txAddr)
      ensures sends == if c.live then old(sends) else Without(old(sends), c)
      ensures memory.freeSends == old(memory.freeSends) + if c.live then [] else [c]
    {
      reports := reports + Labelled(c.results[count..], c.txAddr);
      Reclaim(c, memory);
    }

    method Work(c: SendContext, pad: seq<Byte>, accept: Answer, memory: Memory)
      requires Valid() && c in sends && |pad| == cfg.dlen && c.work && !c.blocked
      modifies this`sends, this`reports, c, memory`freeSends
      ensures Valid() && c.msg == old(c.msg)
      ensures var out := Tx.Work(cfg, c.msg, old(c.Record()), pad, accept);
              && c.View() == out.ctx && reports == old(reports) + Labelled(out.results, c.txAddr)
              && sends == (if out.ctx.Some? then old(sends) else Without(old(sends), c))
              && memory.freeSends == old(memory.freeSends) + if out.ctx.Some? then [] else [c]
      ensures Tx.Grown(cfg, c.msg, old(c.Record()), accept, old(c.accepted), c.accepted)
    {
      var n := |c.results|;
      ghost var out := Tx.Work(cfg, c.msg, c.Record(), pad, accept);
      Tx.WorkCarries(cfg, c.msg, c.Record(), pad, accept, c.accepted);
      hide Tx.Grown, Tx.Work, Distinct, Without, Labelled;
      c.Work(pad, accept);
      Settle(c, out.results, n, memory);
    }

    method Resume(c: SendContext, pad: seq<Byte>, accept: Answer, memory: Memory)
      requires Valid() && c in sends && |pad| == cfg.dlen && c.blocked
      modifies this`sends, this`reports, c, memory`freeSends
      ensures Valid() && c.msg == old(c.msg)
      ensures var out := Tx.Resume(cfg, c.msg, old(c.Record()), pad, accept);
              && c.View() == out.ctx && reports == old(reports) + Labelled(out.results, c.txAddr)
              && sends == (if out.ctx.Some? then old(sends) else Without(old(sends), c))
              && memory.freeSends == old(memory.freeSends) + if out.ctx.Some? then [] else [c]
      ensures Tx.Grown(cfg, c.msg, old(c.Record()), accept, old(c.accepted), c.accepted)
    {
      var n := |c.results|;
      ghost var out := Tx.Resume(cfg, c.msg, c.Record(), pad, accept);
      Tx.ResumeCarries(cfg, c.msg, c.Record(), pad, accept, c.accepted);
      hide Tx.Grown, Tx.Resume, Distinct, Without, Labelled;
      c.Resume(pad, accept);
      Settle(c, out.results, n, memory);
    }

    method Timeout(c: SendContext)
      requires Valid() && c in sends
      modifies c
      ensures Valid() && c.msg == old(c.msg) && c.View() == Some(Tx.Timeout(old(c.Record())))
    {
      Tx.StaysReady(cfg, c.msg, c.Record(), FlowControl(cfg, Cts), false);
      hide Distinct;
      c.Timeout();
    }

    /** The completion callback of a first or consecutive frame. */
    method FrameSent(c: SendContext)
      requires Valid() && c in sends && !c.single
      modifies c
      ensures Valid() && c.msg == old(c.msg) && c.View() == Some(Tx.FrameSent(old(c.Record())))
    {
      FrameSentStaysReady(c.Record(), c.msg);
      hide Distinct, Tx.FrameSent;
      c.FrameSent();
    }

    lemma FrameSentStaysReady(c: Tx.SendCtx, msg: seq<Byte>)
      requires c.Ready(cfg, msg) && !c.single
      ensures Tx.FrameSent(c).Ready(cfg, msg)
    {
    }

    /** The completion callback of a single frame. */
    method SingleSent(c: SendContext, failed: bool, memory: Memory)
      requires Valid() && c in sends
      modifies this`sends, this`reports, c, memory`freeSends
      ensures Valid() && !c.live && sends == Without(old(sends), c)
      ensures reports == old(reports) + [(if failed then Driver else Ok, c.txAddr)]
      ensures memory.freeSends == old(memory.freeSends) + [c]
    {
      var n := |c.results|;
      hide Distinct, Without;
      c.SingleSent(failed);
      Settle(c, [if failed then Driver else Ok], n, memory);
    }

    // ----- flow control

    /** can_rx_callback for a flow control frame that arrives on `id`. If it answers a message on the request or
        response identifier a, it reaches exactly the context of that message, however many transfers are under way,
        and it is ignored if there is none. */
    method OnFlowControl(id: bv32, f: CanFrame)
      requires Valid() && WellFormed(cfg, f)
      modifies set c <- sends :: c
      ensures Valid() && sends == old(sends)
      ensures forall a | RequestResponse(a) && id == FixedReply(a) ::
                forall c <- sends ::
                  if c.txAddr == a then c.View() == Some(Tx.CanRx(cfg, old(c.Record()), f)) && c.msg == old(c.msg)
                  else unchanged(c)
    {
      forall a | RequestResponse(a) && id == FixedReply(a) ensures FixedReply(id) == a {
        SwapsAgree(a);
      }
      hide FixedReply, RequestResponse, Distinct;
      var c := Find(FixedReply(id));
      if c != null {
        Tx.StaysReady(cfg, c.msg, c.Record(), f, false);
        c.CanRx(f);
      }
    }

    // ----- taking down

    method UnbindReceive(c: ReceiveContext, memory: Memory, ghost pending: bool)
      requires receives != [] && c == receives[0] && c.live && pending == (c.pendingCb != 0)
      modifies this`receives, memory`freeReceives, memory`orphanReceives, c
      ensures receives == old(receives)[1..] && if pending then c.live && c.unbound else !c.live
      ensures memory.freeReceives == old(memory.freeReceives) + if pending then [] else [c]
      ensures memory.orphanReceives == old(memory.orphanReceives) + if pending then [c] else []
    {
      c.timer, c.work := false, false;
      receives := receives[1..];
      if c.pendingCb == 0 {
        c.live := false;
        memory.freeReceives := memory.freeReceives + [c];
      } else {
        c.unbound := true;
        memory.orphanReceives := memory.orphanReceives + [c];
      }
    }

    /** The first half of isotp_fast_unbind: every receive context is freed, or made inert and orphaned. */
    method UnbindReceives(memory: Memory)
      requires Distinct(receives) && forall c <- receives :: c.live
      modifies this`receives, memory`freeReceives, memory`orphanReceives, receives
      ensures receives == []
      ensures var cs, ps := old(receives), old(ReceivesPending(receives));
              && memory.freeReceives == old(memory.freeReceives) + Pick(cs, ps, false)
              && memory.orphanReceives == old(memory.orphanReceives) + Pick(cs, ps, true)
              && ReceivesDown(cs, ps, |cs|)
    {
      var all := receives;
      ghost var ps := ReceivesPending(receives);
      assert forall k | 0 <= k < |all| :: all[k] in receives;
      for i := 0 to |all|
        invariant receives == all[i..] && ReceivesDown(all, ps, i)
        invariant memory.freeReceives == old(memory.freeReceives) + Pick(all[..i], ps[..i], false)
        invariant memory.orphanReceives == old(memory.orphanReceives) + Pick(all[..i], ps[..i], true)
      {
        hide Pick, ReceivesPending, ReceivesDown, Distinct;
        PickOneMore(all, ps, i, false, old(memory.freeReceives));
        PickOneMore(all, ps, i, true, old(memory.orphanReceives));
        NextReceive(all, ps, i);
        label next:
        UnbindReceive(all[i], memory, ps[i]);
        OneReceiveDown@next(all, ps, i);
      }
      assert all[..|all|] == all && ps[..|all|] == ps;
    }

    method UnbindSend(c: SendContext, memory: Memory, ghost pending: bool)
      requires sends != [] && c == sends[0] && c.live && pending == (c.pendingCb != 0)
      modifies this`sends, this`reports, memory`freeSends, memory`orphanSends, c
      ensures sends == old(sends)[1..] && if pending then c.live && c.state == Tx.TxErr else !c.live
      ensures memory.freeSends == old(memory.freeSends) + if pending then [] else [c]
      ensures memory.orphanSends == old(memory.orphanSends) + if pending then [c] else []
      ensures reports == old(reports) + if pending then [] else [(Error, c.txAddr)]
    {
      c.timer, c.work := false, false;
      sends := sends[1..];
      if c.pendingCb == 0 {
        c.live := false;
        reports := reports + [(Error, c.txAddr)];
        memory.freeSends := memory.freeSends + [c];
      } else {
        c.state, c.error := Tx.TxErr, Error;
        memory.orphanSends := memory.orphanSends + [c];
      }
    }

    /** The second half: every send context is freed and reported, or orphaned: its callback will find it in the error
        state. */
    method UnbindSends(memory: Memory)
      requires Distinct(sends) && forall c <- sends :: c.live
      modifies this`sends, this`reports, memory`freeSends, memory`orphanSends, sends
      ensures sends == []
      ensures var cs, ps := old(sends), old(SendsPending(sends));
              && memory.freeSends == old(memory.freeSends) + Pick(cs, ps, false)
              && memory.orphanSends == old(memory.orphanSends) + Pick(cs, ps, true)
              && reports == old(reports) + Failures(Pick(cs, ps, false)) && SendsDown(cs, ps, |cs|)
    {
      var all := sends;
      ghost var ps := SendsPending(sends);
      assert forall k | 0 <= k < |all| :: all[k] in sends;
      for i := 0 to |all|
        invariant sends == all[i..] && SendsDown(all, ps, i)
        invariant memory.freeSends == old(memory.freeSends) + Pick(all[..i], ps[..i], false)
        invariant memory.orphanSends == old(memory.orphanSends) + Pick(all[..i], ps[..i], true)
        invariant reports == old(reports) + Failures(Pick(all[..i], ps[..i], false))
      {
        hide Pick, SendsPending, Failures, SendsDown, Distinct;
        PickOneMore(all, ps, i, false, old(memory.freeSends));
        PickOneMore(all, ps, i, true, old(memory.orphanSends));
        FailuresOneMore(all, ps, i, old(reports));
        NextSend(all, ps, i);
        label next:
        UnbindSend(all[i], memory, ps[i]);
        OneSendDown@next(all, ps, i);
      }
      assert all[..|all|] == all && ps[..|all|] == ps;
    }

    lemma AllLive()
      requires Valid()
      ensures cfg.Valid() && Distinct(sends) && Distinct(receives)
      ensures (forall c <- sends :: c.live) && (forall c <- receives :: c.live)
    {
    }

    /** isotp_fast_unbind: nothing is left on the lists; each context has gone back to its slab or, if a callback
        still holds a pointer to it, to the orphanage; each freed send context has been reported as failed
        once. PickedOnce says that no context is lost or counted twice. */
    method Unbind(memory: Memory)
      requires Valid()
      modifies this`bound, this`sends, this`receives, this`reports, memory, sends, receives
      ensures Valid() && sends == [] && receives == [] && !bound
      ensures var cs, ps := old(sends), old(SendsPending(sends));
              && memory.freeSends == old(memory.freeSends) + Pick(cs, ps, false)
              && memory.orphanSends == old(memory.orphanSends) + Pick(cs, ps, true)
              && reports == old(reports) + Failures(Pick(cs, ps, false)) && SendsDown(cs, ps, |cs|)
      ensures var cs, ps := old(receives), old(ReceivesPending(receives));
              && memory.freeReceives == old(memory.freeReceives) + Pick(cs, ps, false)
              && memory.orphanReceives == old(memory.orphanReceives) + Pick(cs, ps, true)
              && ReceivesDown(cs, ps, |cs|)
    {
      AllLive();
      ghost var ps := SendsPending(sends);
      bound := false;
      hide Pick, Failures, Valid, SendsDown, Distinct;
      UnbindReceives(memory);
      assert SendsPending(sends) == ps;
      hide SendsPending, ReceivesDown, ReceivesPending;
      UnbindSends(memory);
      Emptied();
    }

    lemma Emptied()
      requires cfg.Valid() && sends == [] && receives == []
      ensures Valid()
    {
    }
  }

  function Labelled(results: seq<Status>, addr: bv32): seq<(Status, bv32)> {
    seq(|results|, i requires 0 <= i < |results| => (results[i], addr))
  }

  lemma {:induction false} WithoutNew<T>(s: seq<T>, x: T)
    ensures x !in s ==> Without(s + [x], x) == s
  {
    if s != [] {
      WithoutNew(s[1..], x);
      assert (s + [x])[1..] == s[1..] + [x];
    }
  }

  /** The driver has been handed one frame that reads back as m, if it took it; an empty message in CAN FD mode does
      not read back. */
  predicate SingleAdded(cfg: Config, m: seq<Byte>, before: seq<CanFrame>, now: seq<CanFrame>, taken: bool) {
    if taken then
      && |now| == |before| + 1 && now[..|before|] == before
      && ((cfg.Fd() ==> m != []) ==> IsSingle(cfg, m, now[|before|]))
    else now == before
  }

  lemma SingleIsAdded(cfg: Config, m: seq<Byte>, pad: seq<Byte>, before: seq<CanFrame>, taken: bool)
    requires cfg.Valid() && |m| <= cfg.SfMax() && |pad| == cfg.dlen
    ensures SingleAdded(cfg, m, before, before + if taken then [SingleFrame(cfg, m, pad)] else [], taken)
  {
    SingleFrameIsSingle(cfg, m, pad);
  }

  /** A single frame has been queued, or refused, on behalf of a context that was there before. */
  twostate predicate Queued(c: SendContext, taken: bool)
    reads c
  {
    && c.Record() == old(c.Record()).(pendingCb := old(c.pendingCb) + if taken then 1 else 0)
    && (c.live <==> taken || old(c.state) != Tx.SendFf || old(c.pendingCb) != 0)
    && c.msg == old(c.msg)
  }

  /** The context has been given another message, whatever it was doing. */
  twostate predicate Restarted(c: SendContext, m: seq<Byte>)
    reads c
  {
    c.msg == m && c.live && c.Record() == old(c.Record()).(pos := 0, remLen := |m|, work := true, single := false)
  }
}
