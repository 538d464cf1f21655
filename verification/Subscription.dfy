/** SubscriptionListener::handle: reports from many senders, their frames interleaved in any way, are put together
    sender by sender. */
module Subscription {
  import opened Framing

  /** A report handed to the callback: the sender's key and the frames its decoder was fed. */
  datatype Report<K> = Report(key: K, frames: seq<Frame>)

  /** The decoders by sender, each as the frames it has been fed since it was made, and the callbacks so far. */
  datatype State<K> = State(decoders: map<K, seq<Frame>>, reports: seq<Report<K>>)

  datatype Event<K> = Event(key: K, frame: Frame)

  predicate Opens(f: Frame) { f.kind == First || f.kind == Single }

  predicate Closes(f: Frame) { f.kind == Last || f.kind == Single }

  function Handle<K>(s: State<K>, e: Event<K>): State<K> {
    var decoders := if Opens(e.frame) then s.decoders[e.key := []] else s.decoders;
    if e.key !in decoders then s
    else
      var fed := decoders[e.key] + [e.frame];
      State(decoders[e.key := fed], if Closes(e.frame) then s.reports + [Report(e.key, fed)] else s.reports)
  }

  class Listener<K(==)> {
    var decodersBySender: map<K, seq<Frame>>
    var reports: seq<Report<K>>

    ghost function View(): State<K>
      reads this
    {
      State(decodersBySender, reports)
    }

    constructor ()
      ensures View() == State(map[], [])
    {
      decodersBySender, reports := map[], [];
    }

    method OnFrame(key: K, frame: Frame)
      modifies this
      ensures View() == Handle(old(View()), Event(key, frame))
    {
      if frame.kind == First || frame.kind == Single {
        decodersBySender := decodersBySender[key := []];
      } else if key !in decodersBySender {
        return;
      }
      var fed := decodersBySender[key] + [frame];
      decodersBySender := decodersBySender[key := fed];
      if frame.kind == Last || frame.kind == Single {
        reports := reports + [Report(key, fed)];
      }
    }
  }

  function HandleAll<K>(s: State<K>, events: seq<Event<K>>): State<K> {
    if events == [] then s else Handle(HandleAll(s, events[..|events| - 1]), events[|events| - 1])
  }

  /** What one sender sent, and what was reported of it. */
  function From<K(==)>(events: seq<Event<K>>, key: K): seq<Frame> {
    if events == [] then []
    else
      From(events[..|events| - 1], key)
      + (if events[|events| - 1].key == key then [events[|events| - 1].frame] else [])
  }

  function ReportsOf<K(==)>(reports: seq<Report<K>>, key: K): seq<seq<Frame>> {
    if reports == [] then []
    else
      ReportsOf(reports[..|reports| - 1], key)
      + (if reports[|reports| - 1].key == key then [reports[|reports| - 1].frames] else [])
  }

  lemma ReportsSnoc<K>(reports: seq<Report<K>>, r: Report<K>, key: K)
    ensures ReportsOf(reports + [r], key) == ReportsOf(reports, key) + (if r.key == key then [r.frames] else [])
  {
    assert (reports + [r])[..|reports|] == reports;
  }

  // ----- one sender on its own

  /** The decoder of one sender, if it has one, and its reports so far. */
  datatype One = One(live: bool, fed: seq<Frame>, reports: seq<seq<Frame>>)

  function Step(o: One, f: Frame): One {
    if !Opens(f) && !o.live then o
    else
      var fed := (if Opens(f) then [] else o.fed) + [f];
      One(true, fed, if Closes(f) then o.reports + [fed] else o.reports)
  }

  function StepAll(o: One, frames: seq<Frame>): One {
    if frames == [] then o else Step(StepAll(o, frames[..|frames| - 1]), frames[|frames| - 1])
  }

  const Nothing := One(false, [], [])

  function ViewOf<K>(s: State<K>, key: K): One {
    One(key in s.decoders, if key in s.decoders then s.decoders[key] else [], ReportsOf(s.reports, key))
  }

  lemma HandleIsStep<K>(s: State<K>, e: Event<K>, key: K)
    ensures ViewOf(Handle(s, e), key) == if e.key == key then Step(ViewOf(s, key), e.frame) else ViewOf(s, key)
  {
    var s' := Handle(s, e);
    if s'.reports != s.reports {
      ReportsSnoc(s.reports, s'.reports[|s.reports|], key);
    }
  }

  /** No interference: whatever else arrives in between, a sender's reports are those its own frames make up. */
  lemma {:induction false} SendersDoNotInterfere<K>(events: seq<Event<K>>, key: K)
    ensures ViewOf(HandleAll(State(map[], []), events), key) == StepAll(Nothing, From(events, key))
  {
    if events != [] {
      var init, e := events[..|events| - 1], events[|events| - 1];
      SendersDoNotInterfere(init, key);
      HandleIsStep(HandleAll(State(map[], []), init), e, key);
      if e.key == key {
        StepSnoc(Nothing, From(init, key), e.frame);
      } else {
        assert From(events, key) == From(init, key);
      }
    }
  }

  // ----- whatever gets lost

  /** The last of the first n frames that opens a report, or -1. */
  function LastOpening(frames: seq<Frame>, n: nat): (i: int)
    requires n <= |frames|
    ensures -1 <= i < n
    ensures i >= 0 ==> Opens(frames[i])
    ensures forall k | i < k < n :: !Opens(frames[k])
  {
    if n == 0 then -1 else if Opens(frames[n - 1]) then n - 1 else LastOpening(frames, n - 1)
  }

  /** For each of the first n frames that closes a report: everything from the last opening one on. */
  function Stretches(frames: seq<Frame>, n: nat): seq<seq<Frame>>
    requires n <= |frames|
  {
    if n == 0 then []
    else
      var i := LastOpening(frames, n);
      Stretches(frames, n - 1) + (if Closes(frames[n - 1]) && i >= 0 then [frames[i..n]] else [])
  }

  /** Whatever frames of a sender arrive, in whatever order: what is reported are the stretches from an opening frame
      to a closing one without another opening frame in between. Nothing is reported before the first opening frame. */
  lemma {:induction false} StretchesAreReported(frames: seq<Frame>, n: nat)
    requires n <= |frames|
    ensures var i := LastOpening(frames, n);
            StepAll(Nothing, frames[..n]) == One(i >= 0, if i >= 0 then frames[i..n] else [], Stretches(frames, n))
  {
    if n == 0 {
      StepNone(Nothing);
    } else {
      hide StepAll, Opens, Closes;
      assert frames[..n] == frames[..n - 1] + [frames[n - 1]];
      StretchesAreReported(frames, n - 1);
      StepSnoc(Nothing, frames[..n - 1], frames[n - 1]);
      var i := LastOpening(frames, n - 1);
      assert i >= 0 ==> frames[i..n] == frames[i..n - 1] + [frames[n - 1]];
      assert frames[n - 1..n] == [] + [frames[n - 1]];
    }
  }

  /** So for each sender, with any frames of others in between. */
  lemma ReportedExactly<K>(events: seq<Event<K>>, key: K)
    ensures var frames := From(events, key);
            ReportsOf(HandleAll(State(map[], []), events).reports, key) == Stretches(frames, |frames|)
  {
    var frames := From(events, key);
    SendersDoNotInterfere(events, key);
    StretchesAreReported(frames, |frames|);
    assert frames[..|frames|] == frames;
  }

  // ----- complete reports

  /** A report as its encoder frames it. */
  predicate Complete(r: seq<Frame>) {
    && r != []
    && Opens(r[0]) && Closes(r[|r| - 1])
    && (forall i | 0 < i < |r| :: !Opens(r[i]))
    && (forall i | 0 <= i < |r| - 1 :: !Closes(r[i]))
  }

  lemma FinishedIsComplete(r: seq<Frame>, n: nat)
    requires Finished(r, n)
    ensures Complete(r)
  {
  }

  function Concat(rs: seq<seq<Frame>>): seq<Frame> {
    if rs == [] then [] else Concat(rs[..|rs| - 1]) + rs[|rs| - 1]
  }

  lemma StepNone(o: One)
    ensures StepAll(o, []) == o
  {
  }

  lemma StepSnoc(o: One, frames: seq<Frame>, f: Frame)
    ensures StepAll(o, frames + [f]) == Step(StepAll(o, frames), f)
  {
    assert (frames + [f])[..|frames|] == frames;
  }

  /** The first `n` frames of a report have arrived. */
  lemma {:induction false} PartOfReport(o: One, r: seq<Frame>, n: nat)
    requires Complete(r) && 0 < n <= |r|
    ensures StepAll(o, r[..n]) == One(true, r[..n], if n == |r| then o.reports + [r] else o.reports)
  {
    hide StepAll, Opens, Closes;
    assert (Opens(r[n - 1]) <==> n == 1) && (Closes(r[n - 1]) <==> n == |r|);
    assert r[..n] == r[..n - 1] + [r[n - 1]] && r[..|r|] == r;
    StepSnoc(o, r[..n - 1], r[n - 1]);
    if n == 1 {
      assert r[..0] == [];
      StepNone(o);
    } else {
      PartOfReport(o, r, n - 1);
    }
  }

  lemma {:induction false} StepTwice(o: One, a: seq<Frame>, b: seq<Frame>)
    ensures StepAll(o, a + b) == StepAll(StepAll(o, a), b)
  {
    if b == [] {
      assert a + b == a;
    } else {
      StepTwice(o, a, b[..|b| - 1]);
      assert (a + b)[..|a + b| - 1] == a + b[..|b| - 1];
    }
  }

  lemma {:induction false} ReportsAreReported(rs: seq<seq<Frame>>)
    requires forall r <- rs :: Complete(r)
    ensures StepAll(Nothing, Concat(rs)).reports == rs
  {
    hide StepAll;
    if rs == [] {
      StepNone(Nothing);
    } else {
      var init, r := rs[..|rs| - 1], rs[|rs| - 1];
      assert r in rs && forall q <- init :: q in rs;
      ReportsAreReported(init);
      StepTwice(Nothing, Concat(init), r);
      PartOfReport(StepAll(Nothing, Concat(init)), r, |r|);
      assert r[..|r|] == r && init + [r] == rs;
    }
  }

  /** For any interleaving of the senders' frames: if what a sender sent is a sequence of complete reports, the
      callback runs once for each of them, in the sender's order, with a decoder fed exactly its frames. */
  lemma EachReportOnce<K>(events: seq<Event<K>>, key: K, rs: seq<seq<Frame>>)
    requires From(events, key) == Concat(rs) && forall r <- rs :: Complete(r)
    ensures ReportsOf(HandleAll(State(map[], []), events).reports, key) == rs
  {
    SendersDoNotInterfere(events, key);
    ReportsAreReported(rs);
  }
}
